/** Brief rules (app/services/brief_service.py): a brief belongs to an
    existing session and is assigned either to a group's members or to an
    explicit list of students. Creation lets the group win; update lets the
    explicit list win. */
module BriefService {
  import opened Wrappers
  import opened Errors
  import opened Tables
  import opened Models
  import Links
  import GroupRepo
  import BriefRepo

  /** What the service hands back for a brief (`BriefRead`). */
  datatype BriefRead = BriefRead(
    id: int,
    title: string,
    description: Option<string>,
    deliveryDeadline: int,
    order: int,
    sessionId: int,
    studentIds: seq<int>)

  /** `_brief_to_read`: the brief's fields and the students it is assigned
      to, none twice while link pairs are unique. */
  function ToRead(st: Store, e: Entry<Brief>): (r: BriefRead)
    requires WellFormed(st)
    ensures r.id == e.id && r.title == e.row.title && r.description == e.row.description
    ensures r.deliveryDeadline == e.row.deliveryDeadline && r.order == e.row.order && r.sessionId == e.row.sessionId
    ensures forall x :: x in r.studentIds <==> Links.Linked(st.briefStudents, e.id, x)
    ensures Links.PairsUnique(st.briefStudents) ==> Distinct(r.studentIds)
  {
    BriefRead(e.id, e.row.title, e.row.description, e.row.deliveryDeadline, e.row.order, e.row.sessionId,
              Links.StudentIds(st.briefStudents, e.id))
  }

  /** `b` shows the stored brief `b.id`: its stored fields, and exactly the
      students linked to it. */
  ghost predicate Shows(st: Store, b: BriefRead) {
    b.id in st.briefs.rows
    && b.title == st.briefs.rows[b.id].title
    && b.description == st.briefs.rows[b.id].description
    && b.deliveryDeadline == st.briefs.rows[b.id].deliveryDeadline
    && b.order == st.briefs.rows[b.id].order
    && b.sessionId == st.briefs.rows[b.id].sessionId
    && (forall x :: x in b.studentIds <==> Links.Linked(st.briefStudents, b.id, x))
  }

  /** `_brief_to_read` over a list of briefs, in the same order: each view
      is read from one of the listed briefs, and every listed brief is read. */
  function ReadAll(st: Store, briefs: seq<Entry<Brief>>): (r: seq<BriefRead>)
    requires WellFormed(st)
    ensures |r| == |briefs|
    ensures forall i :: 0 <= i < |briefs| ==> r[i] == ToRead(st, briefs[i])
    ensures forall e :: e in briefs ==> ToRead(st, e) in r
    ensures forall b :: b in r ==> exists e :: e in briefs && b == ToRead(st, e)
  {
    MapAll(briefs, (e: Entry<Brief>) requires WellFormed(st) => ToRead(st, e))
  }

  /** Reading stored briefs in key order shows each of them, in key order. */
  lemma ReadStored(st: Store, briefs: seq<Entry<Brief>>)
    requires WellFormed(st)
    requires forall e :: e in briefs ==> e.id in st.briefs.rows && st.briefs.rows[e.id] == e.row
    requires Ascending(briefs)
    ensures forall b :: b in ReadAll(st, briefs) ==> Shows(st, b)
    ensures forall i, j :: 0 <= i < j < |briefs| ==> ReadAll(st, briefs)[i].id < ReadAll(st, briefs)[j].id
    ensures forall e :: e in briefs ==> exists b :: b in ReadAll(st, briefs) && b.id == e.id
  {
    var r := ReadAll(st, briefs);
    forall e | e in briefs
      ensures exists b :: b in r && b.id == e.id
    {
      var i :| 0 <= i < |briefs| && briefs[i] == e;
      assert r[i] in r;
    }
    forall b | b in r
      ensures Shows(st, b)
    {
      var i :| 0 <= i < |r| && r[i] == b;
      assert briefs[i] in briefs;
    }
  }

  /** `_resolve_student_ids`: a given group wins and yields its members (or
      `GroupNotFound`); without a group, the given ids or none. */
  function ResolveStudentIds(st: Store, studentIds: Option<seq<int>>, groupId: Option<int>): (r: Result<seq<int>, AppError>)
    requires WellFormed(st)
    ensures groupId.Some? ==> (r.Err? <==> groupId.value !in st.groups.rows)
    ensures r.Err? ==> r.error == GroupNotFound && groupId.Some?
    ensures groupId.Some? && r.Ok? ==> forall x :: x in r.value <==> Links.Linked(st.groupMembers, groupId.value, x)
    ensures groupId.Some? && r.Ok? && Links.PairsUnique(st.groupMembers) ==> Distinct(r.value)
    ensures groupId.None? ==> r.Ok? && (studentIds.Some? ==> r.value == studentIds.value) && (studentIds.None? ==> r.value == [])
  {
    match groupId
    case Some(g) =>
      if GroupRepo.GetById(st, g).None? then Err(GroupNotFound)
      else Ok(GroupRepo.GetStudentIds(st, g))
    case None => Ok(studentIds.GetOr([]))
  }

  /** The students a created brief ends up assigned to. */
  ghost predicate AssignedOnCreate(st: Store, data: BriefRepo.BriefCreate, x: int) {
    if data.groupId.Some? then Links.Linked(st.groupMembers, data.groupId.value, x) else x in data.studentIds.GetOr([])
  }

  /** `create`: `SessionNotFound`, then `GroupNotFound`, then the link rows'
      unique constraint. */
  function Create(st: Store, data: BriefRepo.BriefCreate): (r: Result<Saved<Brief>, AppError>)
    requires WellFormed(st)
    ensures data.sessionId !in st.sessions.rows ==> r == Err(SessionNotFound)
    ensures data.sessionId in st.sessions.rows && data.groupId.Some? && data.groupId.value !in st.groups.rows
            ==> r == Err(GroupNotFound)
    ensures data.sessionId in st.sessions.rows && data.groupId.None? && !Distinct(data.studentIds.GetOr([]))
            ==> r == Err(Database(UniqueViolation))
    ensures BriefRepo.LinksOwned(st) && Links.PairsUnique(st.groupMembers) ==>
              (r.Ok? <==> data.sessionId in st.sessions.rows
                          && (data.groupId.Some? ==> data.groupId.value in st.groups.rows)
                          && (data.groupId.None? ==> Distinct(data.studentIds.GetOr([]))))
    ensures r.Ok? ==> WellFormed(r.value.store)
    ensures r.Ok? ==> r.value.item.id !in st.briefs.rows && r.value.item.row == BriefRepo.FromCreate(data)
    ensures r.Ok? && BriefRepo.LinksOwned(st) ==>
              forall x :: Links.Linked(r.value.store.briefStudents, r.value.item.id, x) <==> AssignedOnCreate(st, data, x)
    ensures r.Ok? ==> r.value.store == st.(briefs := r.value.store.briefs, briefStudents := r.value.store.briefStudents)
  {
    if data.sessionId !in st.sessions.rows then Err(SessionNotFound)
    else
      match ResolveStudentIds(st, data.studentIds, data.groupId)
      case Err(e) => Err(e)
      case Ok(ids) => BriefRepo.Create(st, data, ids)
  }

  /** `get_by_id`: `BriefNotFound` iff absent; otherwise the stored brief
      with its students. */
  function GetById(st: Store, id: int): (r: Result<BriefRead, AppError>)
    requires WellFormed(st)
    ensures r.Err? <==> id !in st.briefs.rows
    ensures r.Err? ==> r.error == BriefNotFound
    ensures r.Ok? ==> r.value.id == id && Shows(st, r.value)
  {
    match BriefRepo.GetById(st, id)
    case None => Err(BriefNotFound)
    case Some(b) => Ok(ToRead(st, Entry(id, b)))
  }

  /** Every brief, read, in key order. */
  function List(st: Store): (r: seq<BriefRead>)
    requires WellFormed(st)
    ensures forall b :: b in r ==> Shows(st, b)
    ensures forall id :: id in st.briefs.rows ==> exists b :: b in r && b.id == id
    ensures forall i, j :: 0 <= i < j < |r| ==> r[i].id < r[j].id
  {
    var briefs := BriefRepo.List(st);
    var r := ReadAll(st, briefs);
    ReadStored(st, briefs);
    assert forall id :: id in st.briefs.rows ==> Entry(id, st.briefs.rows[id]) in briefs;
    r
  }

  /** The briefs of a session, read, in key order. */
  function ListBySessionId(st: Store, sessionId: int): (r: seq<BriefRead>)
    requires WellFormed(st)
    ensures forall b :: b in r ==> Shows(st, b) && b.sessionId == sessionId
    ensures forall id :: id in st.briefs.rows && st.briefs.rows[id].sessionId == sessionId ==> exists b :: b in r && b.id == id
    ensures forall i, j :: 0 <= i < j < |r| ==> r[i].id < r[j].id
  {
    var briefs := BriefRepo.ListBySessionId(st, sessionId);
    var r := ReadAll(st, briefs);
    ReadStored(st, briefs);
    assert forall id :: id in st.briefs.rows && st.briefs.rows[id].sessionId == sessionId ==>
             Entry(id, st.briefs.rows[id]) in briefs;
    r
  }

  /** The briefs assigned to a student, read, in key order. */
  function ListByStudentId(st: Store, studentId: int): (r: seq<BriefRead>)
    requires WellFormed(st)
    ensures forall b :: b in r ==> Shows(st, b) && studentId in b.studentIds
    ensures forall id :: id in st.briefs.rows && Links.Linked(st.briefStudents, id, studentId) ==> exists b :: b in r && b.id == id
    ensures forall i, j :: 0 <= i < j < |r| ==> r[i].id < r[j].id
  {
    var briefs := BriefRepo.ListByStudentId(st, studentId);
    var r := ReadAll(st, briefs);
    ReadStored(st, briefs);
    assert forall id :: id in st.briefs.rows && Links.Linked(st.briefStudents, id, studentId) ==>
             Entry(id, st.briefs.rows[id]) in briefs;
    r
  }

  /** `update`: `BriefNotFound` first; explicit `studentIds` win over a
      group, a group is resolved only without them, and with neither the
      links stay as they were. */
  function Update(st: Store, id: int, data: BriefRepo.BriefUpdate): (r: Result<Saved<Brief>, AppError>)
    requires WellFormed(st)
    ensures id !in st.briefs.rows ==> r == Err(BriefNotFound)
    ensures id in st.briefs.rows && data.studentIds.None? && data.groupId.Some? && data.groupId.value !in st.groups.rows
            ==> r == Err(GroupNotFound)
    ensures id in st.briefs.rows && data.studentIds.Some? ==>
              (r.Ok? <==> Distinct(data.studentIds.value)
                          && forall x :: x in data.studentIds.value ==> !Links.Linked(st.briefStudents, id, x))
    ensures id in st.briefs.rows && data.studentIds.None? && data.groupId.Some? && data.groupId.value in st.groups.rows
            && Links.PairsUnique(st.groupMembers) ==>
              (r.Ok? <==> forall x :: Links.Linked(st.groupMembers, data.groupId.value, x) ==> !Links.Linked(st.briefStudents, id, x))
    ensures id in st.briefs.rows && data.studentIds.None? && data.groupId.None? ==> r.Ok?
    ensures r.Err? && id in st.briefs.rows && !(data.studentIds.None? && data.groupId.Some? && data.groupId.value !in st.groups.rows)
            ==> r.error == Database(UniqueViolation)
    ensures r.Ok? ==> r.value.item == Entry(id, BriefRepo.Merge(st.briefs.rows[id], data))
    ensures r.Ok? ==> r.value.store.briefs.rows == st.briefs.rows[id := r.value.item.row]
    ensures r.Ok? && data.studentIds.Some? ==>
              forall x :: Links.Linked(r.value.store.briefStudents, id, x) <==> x in data.studentIds.value
    ensures r.Ok? && data.studentIds.None? && data.groupId.Some? ==>
              forall x :: Links.Linked(r.value.store.briefStudents, id, x) <==> Links.Linked(st.groupMembers, data.groupId.value, x)
    ensures r.Ok? && data.studentIds.None? && data.groupId.None? ==> r.value.store.briefStudents == st.briefStudents
    ensures r.Ok? ==>
              forall o, x :: o != id ==> (Links.Linked(r.value.store.briefStudents, o, x) <==> Links.Linked(st.briefStudents, o, x))
    ensures r.Ok? ==> WellFormed(r.value.store)
    ensures r.Ok? && BriefRepo.LinksOwned(st) ==> BriefRepo.LinksOwned(r.value.store)
    ensures r.Ok? && Links.PairsUnique(st.briefStudents) ==> Links.PairsUnique(r.value.store.briefStudents)
    ensures r.Ok? ==> r.value.store == st.(briefs := r.value.store.briefs, briefStudents := r.value.store.briefStudents)
  {
    if BriefRepo.GetById(st, id).None? then Err(BriefNotFound)
    else
      var resolved :=
        if data.studentIds.Some? then Ok(data.studentIds)
        else if data.groupId.Some? then
          match ResolveStudentIds(st, None, data.groupId)
          case Err(e) => Err(e)
          case Ok(ids) => Ok(Some(ids))
        else Ok(None);
      match resolved
      case Err(e) => Err(e)
      case Ok(ids) =>
        match BriefRepo.Update(st, id, data, ids)
        case Err(e) => Err(e)
        case Ok(None) => Err(BriefNotFound)
        case Ok(Some(saved)) => Ok(saved)
  }

  /** `delete`: `BriefNotFound` iff absent; otherwise the brief and its links go. */
  function Delete(st: Store, id: int): (r: Result<Store, AppError>)
    requires WellFormed(st)
    ensures r.Err? <==> id !in st.briefs.rows
    ensures r.Err? ==> r.error == BriefNotFound
    ensures r.Ok? ==> r.value.briefs.rows.Keys == st.briefs.rows.Keys - {id}
    ensures r.Ok? ==> forall k :: k in r.value.briefs.rows ==> r.value.briefs.rows[k] == st.briefs.rows[k]
    ensures r.Ok? ==> forall x :: !Links.Linked(r.value.briefStudents, id, x)
    ensures r.Ok? ==>
              forall o, x :: o != id ==> (Links.Linked(r.value.briefStudents, o, x) <==> Links.Linked(st.briefStudents, o, x))
    ensures r.Ok? ==> WellFormed(r.value)
    ensures r.Ok? && BriefRepo.LinksOwned(st) ==> BriefRepo.LinksOwned(r.value)
    ensures r.Ok? && Links.PairsUnique(st.briefStudents) ==> Links.PairsUnique(r.value.briefStudents)
    ensures r.Ok? ==> r.value == st.(briefs := r.value.briefs, briefStudents := r.value.briefStudents)
  {
    if BriefRepo.GetById(st, id).None? then Err(BriefNotFound)
    else Ok(BriefRepo.Delete(st, id).0)
  }

  /** After an update that assigns a group, reading the brief back lists
      exactly the group's members, with its merged fields. */
  lemma UpdateByGroupReadsMembers(st: Store, id: int, data: BriefRepo.BriefUpdate)
    requires WellFormed(st)
    requires data.studentIds.None? && data.groupId.Some?
    requires Update(st, id, data).Ok?
    ensures GetById(Update(st, id, data).value.store, id).Ok?
    ensures var b := GetById(Update(st, id, data).value.store, id).value;
            b.title == BriefRepo.Merge(st.briefs.rows[id], data).title
            && forall x :: x in b.studentIds <==> Links.Linked(st.groupMembers, data.groupId.value, x)
  {
  }
}
