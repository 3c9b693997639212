/** Data access for groups and their members (app/repositories/group_repo.py).
    Members live in the `group_members` link table. */
module GroupRepo {
  import opened Wrappers
  import opened Errors
  import opened Tables
  import opened Text
  import opened Models
  import Links

  datatype GroupCreate = GroupCreate(sessionId: int, name: string, studentIds: Option<seq<int>>)

  /** A partial update: `None` marks a field the request did not supply. */
  datatype GroupUpdate = GroupUpdate(name: Option<string>, studentIds: Option<seq<int>>)

  /** Every member row belongs to a stored group. */
  ghost predicate MembersOwned(st: Store) {
    Links.OwnedBy(st.groupMembers, st.groups.rows.Keys)
  }

  /** `create`: the group with its stripped name, then one member row per
      given id (`None` gives no members). The unique constraint refuses a
      repeated id. */
  function Create(st: Store, data: GroupCreate): (r: Result<Saved<Group>, AppError>)
    requires WellFormed(st)
    ensures !Distinct(data.studentIds.GetOr([])) ==> r == Err(Database(UniqueViolation))
    ensures MembersOwned(st) ==> (r.Ok? <==> Distinct(data.studentIds.GetOr([])))
    ensures r.Err? ==> r.error == Database(UniqueViolation)
    ensures r.Ok? ==> WellFormed(r.value.store)
    ensures r.Ok? ==> r.value.item.id !in st.groups.rows
    ensures r.Ok? ==> r.value.item.row == Group(data.sessionId, Strip(data.name))
    ensures r.Ok? ==> r.value.store.groups.rows == st.groups.rows[r.value.item.id := r.value.item.row]
    ensures r.Ok? ==> forall x :: x in data.studentIds.GetOr([]) ==> Links.Linked(r.value.store.groupMembers, r.value.item.id, x)
    ensures r.Ok? && MembersOwned(st) ==>
              forall x :: Links.Linked(r.value.store.groupMembers, r.value.item.id, x) ==> x in data.studentIds.GetOr([])
    ensures r.Ok? ==>
              forall o, x :: o != r.value.item.id ==>
                (Links.Linked(r.value.store.groupMembers, o, x) <==> Links.Linked(st.groupMembers, o, x))
    ensures r.Ok? && MembersOwned(st) ==> MembersOwned(r.value.store)
    ensures r.Ok? && Links.PairsUnique(st.groupMembers) ==> Links.PairsUnique(r.value.store.groupMembers)
    ensures r.Ok? ==> r.value.store == st.(groups := r.value.store.groups, groupMembers := r.value.store.groupMembers)
  {
    var ids := data.studentIds.GetOr([]);
    var (gt, e) := Insert(st.groups, Group(data.sessionId, Strip(data.name)));
    assert MembersOwned(st) ==> forall x :: !Links.Linked(st.groupMembers, e.id, x);
    match Links.Add(st.groupMembers, e.id, ids)
    case Err(err) => Err(err)
    case Ok(m) => Ok(Saved(st.(groups := gt, groupMembers := m), e))
  }

  function GetById(st: Store, id: int): (r: Option<Group>)
    ensures r.Some? <==> id in st.groups.rows
    ensures r.Some? ==> r.value == st.groups.rows[id]
  {
    Get(st.groups, id)
  }

  function ListBySessionId(st: Store, sessionId: int): (r: seq<Entry<Group>>)
    requires WellFormed(st)
    ensures forall e :: e in r <==> e.id in st.groups.rows && st.groups.rows[e.id] == e.row && e.row.sessionId == sessionId
    ensures Ascending(r)
  {
    Select(st.groups, (e: Entry<Group>) => e.row.sessionId == sessionId)
  }

  /** `get_student_ids`: exactly the students with a member row in the
      group, none twice while the member pairs are unique. */
  function GetStudentIds(st: Store, groupId: int): (r: seq<int>)
    requires WellFormed(st)
    ensures forall x :: x in r <==> Links.Linked(st.groupMembers, groupId, x)
    ensures Links.PairsUnique(st.groupMembers) ==> Distinct(r)
  {
    Links.StudentIds(st.groupMembers, groupId)
  }

  /** `update`: `Ok(None)` when absent; the name changes (stripped) only when
      supplied, the member set is replaced only when `studentIds` is given. */
  function Update(st: Store, id: int, data: GroupUpdate, studentIds: Option<seq<int>>): (r: Result<Option<Saved<Group>>, AppError>)
    requires WellFormed(st)
    ensures id !in st.groups.rows ==> r == Ok(None)
    ensures id in st.groups.rows ==>
              (r.Err? <==> studentIds.Some? && (!Distinct(studentIds.value)
                             || exists x :: x in studentIds.value && Links.Linked(st.groupMembers, id, x)))
    ensures r.Err? ==> r.error == Database(UniqueViolation)
    ensures r.Ok? && r.value.Some? ==> id in st.groups.rows && r.value.value.item.id == id
    ensures r.Ok? && r.value.Some? ==>
              r.value.value.item.row.name == (if data.name.Some? then Strip(data.name.value) else st.groups.rows[id].name)
    ensures r.Ok? && r.value.Some? ==> r.value.value.item.row.sessionId == st.groups.rows[id].sessionId
    ensures r.Ok? && r.value.Some? ==> r.value.value.store.groups.rows == st.groups.rows[id := r.value.value.item.row]
    ensures r.Ok? && r.value.Some? && studentIds.None? ==> r.value.value.store.groupMembers == st.groupMembers
    ensures r.Ok? && r.value.Some? && studentIds.Some? ==>
              forall x :: Links.Linked(r.value.value.store.groupMembers, id, x) <==> x in studentIds.value
    ensures r.Ok? && r.value.Some? ==>
              forall o, x :: o != id ==>
                (Links.Linked(r.value.value.store.groupMembers, o, x) <==> Links.Linked(st.groupMembers, o, x))
    ensures r.Ok? && r.value.Some? ==> WellFormed(r.value.value.store)
    ensures r.Ok? && r.value.Some? && MembersOwned(st) ==> MembersOwned(r.value.value.store)
    ensures r.Ok? && r.value.Some? && Links.PairsUnique(st.groupMembers) ==> Links.PairsUnique(r.value.value.store.groupMembers)
    ensures r.Ok? && r.value.Some? ==>
              r.value.value.store == st.(groups := r.value.value.store.groups, groupMembers := r.value.value.store.groupMembers)
  {
    if id !in st.groups.rows then Ok(None)
    else
      var g := st.groups.rows[id];
      var row := if data.name.Some? then g.(name := Strip(data.name.value)) else g;
      var gt := Tables.Replace(st.groups, id, row);
      match studentIds
      case None => Ok(Some(Saved(st.(groups := gt), Entry(id, row))))
      case Some(ids) =>
        match Links.ReplaceAll(st.groupMembers, id, ids)
        case Err(err) => Err(err)
        case Ok(m) => Ok(Some(Saved(st.(groups := gt, groupMembers := m), Entry(id, row))))
  }

  /** `delete`: removes the group and all its member rows; false iff absent. */
  function Delete(st: Store, id: int): (r: (Store, bool))
    requires WellFormed(st)
    ensures r.1 <==> id in st.groups.rows
    ensures !r.1 ==> r.0 == st
    ensures r.0.groups.rows.Keys == st.groups.rows.Keys - {id}
    ensures forall k :: k in r.0.groups.rows ==> r.0.groups.rows[k] == st.groups.rows[k]
    ensures r.1 ==> forall x :: !Links.Linked(r.0.groupMembers, id, x)
    ensures forall o, x :: o != id ==> (Links.Linked(r.0.groupMembers, o, x) <==> Links.Linked(st.groupMembers, o, x))
    ensures WellFormed(r.0)
    ensures MembersOwned(st) ==> MembersOwned(r.0)
    ensures Links.PairsUnique(st.groupMembers) ==> Links.PairsUnique(r.0.groupMembers)
    ensures r.0 == st.(groups := r.0.groups, groupMembers := r.0.groupMembers)
  {
    if id !in st.groups.rows then (st, false)
    else
      var (gt, _) := Tables.Delete(st.groups, id);
      (st.(groups := gt, groupMembers := Links.Drop(st.groupMembers, id)), true)
  }
}
