/** Data access for briefs (app/repositories/brief_repo.py). The students a
    brief is assigned to live in the `brief_students` link table; the
    repository receives the student ids already resolved. */
module BriefRepo {
  import opened Wrappers
  import opened Errors
  import opened Tables
  import opened Models
  import Links

  /** The creation payload as the service reads it: the brief's fields plus
      the optional `student_ids` and `group_id`. */
  datatype BriefCreate = BriefCreate(
    title: string,
    description: Option<string>,
    deliveryDeadline: int,
    order: int,
    sessionId: int,
    studentIds: Option<seq<int>>,
    groupId: Option<int>)

  /** A partial update: `None` marks a field the request did not supply. */
  datatype BriefUpdate = BriefUpdate(
    title: Option<string>,
    description: Option<string>,
    deliveryDeadline: Option<int>,
    order: Option<int>,
    sessionId: Option<int>,
    studentIds: Option<seq<int>>,
    groupId: Option<int>)

  /** The brief row: the payload without `student_ids` and `group_id`. */
  function FromCreate(data: BriefCreate): (b: Brief)
    ensures b.title == data.title && b.description == data.description
    ensures b.deliveryDeadline == data.deliveryDeadline && b.order == data.order && b.sessionId == data.sessionId
  {
    Brief(data.title, data.description, data.deliveryDeadline, data.order, data.sessionId)
  }

  /** Every link row belongs to a stored brief. */
  ghost predicate LinksOwned(st: Store) {
    Links.OwnedBy(st.briefStudents, st.briefs.rows.Keys)
  }

  /** `create`: the brief, then one link row per given student id. The unique
      constraint refuses a repeated id. */
  function Create(st: Store, data: BriefCreate, studentIds: seq<int>): (r: Result<Saved<Brief>, AppError>)
    requires WellFormed(st)
    ensures !Distinct(studentIds) ==> r == Err(Database(UniqueViolation))
    ensures LinksOwned(st) ==> (r.Ok? <==> Distinct(studentIds))
    ensures r.Err? ==> r.error == Database(UniqueViolation)
    ensures r.Ok? ==> WellFormed(r.value.store)
    ensures r.Ok? ==> r.value.item.id !in st.briefs.rows && r.value.item.row == FromCreate(data)
    ensures r.Ok? ==> r.value.store.briefs.rows == st.briefs.rows[r.value.item.id := r.value.item.row]
    ensures r.Ok? ==> forall x :: x in studentIds ==> Links.Linked(r.value.store.briefStudents, r.value.item.id, x)
    ensures r.Ok? && LinksOwned(st) ==>
              forall x :: Links.Linked(r.value.store.briefStudents, r.value.item.id, x) ==> x in studentIds
    ensures r.Ok? ==>
              forall o, x :: o != r.value.item.id ==>
                (Links.Linked(r.value.store.briefStudents, o, x) <==> Links.Linked(st.briefStudents, o, x))
    ensures r.Ok? && LinksOwned(st) ==> LinksOwned(r.value.store)
    ensures r.Ok? && Links.PairsUnique(st.briefStudents) ==> Links.PairsUnique(r.value.store.briefStudents)
    ensures r.Ok? ==> r.value.store == st.(briefs := r.value.store.briefs, briefStudents := r.value.store.briefStudents)
  {
    var (bt, e) := Insert(st.briefs, FromCreate(data));
    assert LinksOwned(st) ==> forall x :: !Links.Linked(st.briefStudents, e.id, x);
    match Links.Add(st.briefStudents, e.id, studentIds)
    case Err(err) => Err(err)
    case Ok(links) => Ok(Saved(st.(briefs := bt, briefStudents := links), e))
  }

  function GetById(st: Store, id: int): (r: Option<Brief>)
    ensures r.Some? <==> id in st.briefs.rows
    ensures r.Some? ==> r.value == st.briefs.rows[id]
  {
    Get(st.briefs, id)
  }

  function List(st: Store): (r: seq<Entry<Brief>>)
    requires WellFormed(st)
    ensures forall e :: e in r <==> e.id in st.briefs.rows && st.briefs.rows[e.id] == e.row
    ensures Ascending(r)
  {
    Select(st.briefs, (e: Entry<Brief>) => true)
  }

  function ListBySessionId(st: Store, sessionId: int): (r: seq<Entry<Brief>>)
    requires WellFormed(st)
    ensures forall e :: e in r <==> e.id in st.briefs.rows && st.briefs.rows[e.id] == e.row && e.row.sessionId == sessionId
    ensures Ascending(r)
  {
    Select(st.briefs, (e: Entry<Brief>) => e.row.sessionId == sessionId)
  }

  /** Whether a link ties the brief to the student, by a query. */
  function HasLink(st: Store, briefId: int, studentId: int): (b: bool)
    requires WellFormed(st)
    ensures b <==> Links.Linked(st.briefStudents, briefId, studentId)
  {
    var hit := FindFirst(st.briefStudents, (e: Entry<Link>) => e.row == Link(briefId, studentId));
    hit.Some?
  }

  /** `list_by_student_id` (a join on the link table): exactly the briefs
      assigned to the student, each once, in key order. */
  function ListByStudentId(st: Store, studentId: int): (r: seq<Entry<Brief>>)
    requires WellFormed(st)
    ensures forall e :: e in r <==>
              e.id in st.briefs.rows && st.briefs.rows[e.id] == e.row && Links.Linked(st.briefStudents, e.id, studentId)
    ensures Ascending(r)
  {
    Select(st.briefs, (e: Entry<Brief>) => HasLink(st, e.id, studentId))
  }

  /** Field-by-field merge of the supplied brief fields. */
  function Merge(b: Brief, data: BriefUpdate): (m: Brief)
    ensures data.title.None? ==> m.title == b.title
    ensures data.title.Some? ==> m.title == data.title.value
    ensures data.description.None? ==> m.description == b.description
    ensures data.description.Some? ==> m.description == data.description
    ensures data.deliveryDeadline.None? ==> m.deliveryDeadline == b.deliveryDeadline
    ensures data.deliveryDeadline.Some? ==> m.deliveryDeadline == data.deliveryDeadline.value
    ensures data.order.None? ==> m.order == b.order
    ensures data.order.Some? ==> m.order == data.order.value
    ensures data.sessionId.None? ==> m.sessionId == b.sessionId
    ensures data.sessionId.Some? ==> m.sessionId == data.sessionId.value
  {
    Brief(
      data.title.GetOr(b.title),
      if data.description.Some? then data.description else b.description,
      data.deliveryDeadline.GetOr(b.deliveryDeadline),
      data.order.GetOr(b.order),
      data.sessionId.GetOr(b.sessionId))
  }

  /** `update`: `Ok(None)` when absent; the supplied fields are merged, and
      given `studentIds` replace the brief's links while `None` leaves them. */
  function Update(st: Store, id: int, data: BriefUpdate, studentIds: Option<seq<int>>): (r: Result<Option<Saved<Brief>>, AppError>)
    requires WellFormed(st)
    ensures id !in st.briefs.rows ==> r == Ok(None)
    ensures id in st.briefs.rows ==>
              (r.Err? <==> studentIds.Some? && (!Distinct(studentIds.value)
                             || exists x :: x in studentIds.value && Links.Linked(st.briefStudents, id, x)))
    ensures r.Err? ==> r.error == Database(UniqueViolation)
    ensures r.Ok? && r.value.Some? ==>
              id in st.briefs.rows && r.value.value.item == Entry(id, Merge(st.briefs.rows[id], data))
    ensures r.Ok? && r.value.Some? ==> r.value.value.store.briefs.rows == st.briefs.rows[id := r.value.value.item.row]
    ensures r.Ok? && r.value.Some? && studentIds.None? ==> r.value.value.store.briefStudents == st.briefStudents
    ensures r.Ok? && r.value.Some? && studentIds.Some? ==>
              forall x :: Links.Linked(r.value.value.store.briefStudents, id, x) <==> x in studentIds.value
    ensures r.Ok? && r.value.Some? ==>
              forall o, x :: o != id ==>
                (Links.Linked(r.value.value.store.briefStudents, o, x) <==> Links.Linked(st.briefStudents, o, x))
    ensures r.Ok? && r.value.Some? ==> WellFormed(r.value.value.store)
    ensures r.Ok? && r.value.Some? && LinksOwned(st) ==> LinksOwned(r.value.value.store)
    ensures r.Ok? && r.value.Some? && Links.PairsUnique(st.briefStudents) ==> Links.PairsUnique(r.value.value.store.briefStudents)
    ensures r.Ok? && r.value.Some? ==>
              r.value.value.store == st.(briefs := r.value.value.store.briefs, briefStudents := r.value.value.store.briefStudents)
  {
    if id !in st.briefs.rows then Ok(None)
    else
      var row := Merge(st.briefs.rows[id], data);
      var bt := Tables.Replace(st.briefs, id, row);
      match studentIds
      case None => Ok(Some(Saved(st.(briefs := bt), Entry(id, row))))
      case Some(ids) =>
        match Links.ReplaceAll(st.briefStudents, id, ids)
        case Err(err) => Err(err)
        case Ok(links) => Ok(Some(Saved(st.(briefs := bt, briefStudents := links), Entry(id, row))))
  }

  /** `delete`: removes the brief and all its links; false iff absent. */
  function Delete(st: Store, id: int): (r: (Store, bool))
    requires WellFormed(st)
    ensures r.1 <==> id in st.briefs.rows
    ensures !r.1 ==> r.0 == st
    ensures r.0.briefs.rows.Keys == st.briefs.rows.Keys - {id}
    ensures forall k :: k in r.0.briefs.rows ==> r.0.briefs.rows[k] == st.briefs.rows[k]
    ensures r.1 ==> forall x :: !Links.Linked(r.0.briefStudents, id, x)
    ensures forall o, x :: o != id ==> (Links.Linked(r.0.briefStudents, o, x) <==> Links.Linked(st.briefStudents, o, x))
    ensures WellFormed(r.0)
    ensures LinksOwned(st) ==> LinksOwned(r.0)
    ensures Links.PairsUnique(st.briefStudents) ==> Links.PairsUnique(r.0.briefStudents)
    ensures r.0 == st.(briefs := r.0.briefs, briefStudents := r.0.briefStudents)
  {
    if id !in st.briefs.rows then (st, false)
    else
      var (bt, _) := Tables.Delete(st.briefs, id);
      (st.(briefs := bt, briefStudents := Links.Drop(st.briefStudents, id)), true)
  }
}
