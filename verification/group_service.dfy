/** Group rules (app/services/group_service.py): a group belongs to an
    existing session, and its read model lists its members. */
module GroupService {
  import opened Wrappers
  import opened Errors
  import opened Tables
  import opened Text
  import opened Models
  import Links
  import GroupRepo

  /** What the service hands back for a group (`GroupRead`). */
  datatype GroupRead = GroupRead(id: int, sessionId: int, name: string, studentIds: seq<int>)

  /** `_group_to_read`: the group's fields and the ids of its members, none
      twice while member pairs are unique. */
  function ToRead(st: Store, e: Entry<Group>): (r: GroupRead)
    requires WellFormed(st)
    ensures r.id == e.id && r.sessionId == e.row.sessionId && r.name == e.row.name
    ensures forall x :: x in r.studentIds <==> Links.Linked(st.groupMembers, e.id, x)
    ensures Links.PairsUnique(st.groupMembers) ==> Distinct(r.studentIds)
  {
    GroupRead(e.id, e.row.sessionId, e.row.name, GroupRepo.GetStudentIds(st, e.id))
  }

  /** `create`: `SessionNotFound` before anything is written. */
  function Create(st: Store, data: GroupRepo.GroupCreate): (r: Result<Saved<Group>, AppError>)
    requires WellFormed(st)
    ensures data.sessionId !in st.sessions.rows ==> r == Err(SessionNotFound)
    ensures data.sessionId in st.sessions.rows && GroupRepo.MembersOwned(st) ==>
              (r.Ok? <==> Distinct(data.studentIds.GetOr([])))
    ensures r.Err? && data.sessionId in st.sessions.rows ==> r.error == Database(UniqueViolation)
    ensures r.Ok? ==> WellFormed(r.value.store)
    ensures r.Ok? ==> r.value.item.row == Group(data.sessionId, Strip(data.name)) && r.value.item.id !in st.groups.rows
    ensures r.Ok? && GroupRepo.MembersOwned(st) ==>
              forall x :: Links.Linked(r.value.store.groupMembers, r.value.item.id, x) <==> x in data.studentIds.GetOr([])
    ensures r.Ok? ==> r.value.store == st.(groups := r.value.store.groups, groupMembers := r.value.store.groupMembers)
  {
    if data.sessionId !in st.sessions.rows then Err(SessionNotFound)
    else GroupRepo.Create(st, data)
  }

  /** `g` shows the stored group `g.id`: its stored fields, and exactly its
      members. */
  ghost predicate Shows(st: Store, g: GroupRead) {
    g.id in st.groups.rows
    && g.sessionId == st.groups.rows[g.id].sessionId
    && g.name == st.groups.rows[g.id].name
    && (forall x :: x in g.studentIds <==> Links.Linked(st.groupMembers, g.id, x))
  }

  /** `get_by_id`: `GroupNotFound` iff absent; otherwise the stored group
      with its members. */
  function GetById(st: Store, id: int): (r: Result<GroupRead, AppError>)
    requires WellFormed(st)
    ensures r.Err? <==> id !in st.groups.rows
    ensures r.Err? ==> r.error == GroupNotFound
    ensures r.Ok? ==> r.value.id == id && Shows(st, r.value)
  {
    match GroupRepo.GetById(st, id)
    case None => Err(GroupNotFound)
    case Some(g) => Ok(ToRead(st, Entry(id, g)))
  }

  /** `_group_to_read` over a list of groups, in the same order: each view
      is read from one of the listed groups, and every listed group is read. */
  function ReadAll(st: Store, groups: seq<Entry<Group>>): (r: seq<GroupRead>)
    requires WellFormed(st)
    ensures |r| == |groups|
    ensures forall i :: 0 <= i < |groups| ==> r[i] == ToRead(st, groups[i])
    ensures forall e :: e in groups ==> ToRead(st, e) in r
  {
    MapAll(groups, (e: Entry<Group>) requires WellFormed(st) => ToRead(st, e))
  }

  /** Reading stored groups in key order shows each of them, in key order. */
  lemma ReadStored(st: Store, groups: seq<Entry<Group>>)
    requires WellFormed(st)
    requires forall e :: e in groups ==> e.id in st.groups.rows && st.groups.rows[e.id] == e.row
    requires Ascending(groups)
    ensures forall g :: g in ReadAll(st, groups) ==> Shows(st, g)
    ensures forall i, j :: 0 <= i < j < |groups| ==> ReadAll(st, groups)[i].id < ReadAll(st, groups)[j].id
    ensures forall e :: e in groups ==> exists b :: b in ReadAll(st, groups) && b.id == e.id
  {
    var r := ReadAll(st, groups);
    forall e | e in groups
      ensures exists b :: b in r && b.id == e.id
    {
      var i :| 0 <= i < |groups| && groups[i] == e;
      assert r[i] in r;
    }
    forall g | g in r
      ensures Shows(st, g)
    {
      var i :| 0 <= i < |r| && r[i] == g;
      assert groups[i] in groups;
    }
  }

  /** The groups of a session, read, in key order. */
  function ListBySessionId(st: Store, sessionId: int): (r: seq<GroupRead>)
    requires WellFormed(st)
    ensures forall g :: g in r ==> Shows(st, g) && g.sessionId == sessionId
    ensures forall id :: id in st.groups.rows && st.groups.rows[id].sessionId == sessionId ==> exists g :: g in r && g.id == id
    ensures forall i, j :: 0 <= i < j < |r| ==> r[i].id < r[j].id
  {
    var groups := GroupRepo.ListBySessionId(st, sessionId);
    var r := ReadAll(st, groups);
    ReadStored(st, groups);
    assert forall id :: id in st.groups.rows && st.groups.rows[id].sessionId == sessionId ==>
             Entry(id, st.groups.rows[id]) in groups;
    r
  }

  /** `update`: `GroupNotFound` iff absent; the given `studentIds` replace
      the member set, their absence leaves it alone. */
  function Update(st: Store, id: int, data: GroupRepo.GroupUpdate): (r: Result<Saved<Group>, AppError>)
    requires WellFormed(st)
    ensures id !in st.groups.rows ==> r == Err(GroupNotFound)
    ensures id in st.groups.rows ==>
              (r.Err? <==> data.studentIds.Some? && (!Distinct(data.studentIds.value)
                             || exists x :: x in data.studentIds.value && Links.Linked(st.groupMembers, id, x)))
    ensures r.Err? && id in st.groups.rows ==> r.error == Database(UniqueViolation)
    ensures r.Ok? ==> r.value.item.id == id
    ensures r.Ok? ==> r.value.item.row.name == (if data.name.Some? then Strip(data.name.value) else st.groups.rows[id].name)
    ensures r.Ok? && data.studentIds.None? ==> r.value.store.groupMembers == st.groupMembers
    ensures r.Ok? && data.studentIds.Some? ==>
              forall x :: Links.Linked(r.value.store.groupMembers, id, x) <==> x in data.studentIds.value
    ensures r.Ok? ==> r.value.item.row.sessionId == st.groups.rows[id].sessionId
    ensures r.Ok? ==> r.value.store.groups.rows == st.groups.rows[id := r.value.item.row]
    ensures r.Ok? ==>
              forall o, x :: o != id ==> (Links.Linked(r.value.store.groupMembers, o, x) <==> Links.Linked(st.groupMembers, o, x))
    ensures r.Ok? ==> WellFormed(r.value.store)
    ensures r.Ok? && GroupRepo.MembersOwned(st) ==> GroupRepo.MembersOwned(r.value.store)
    ensures r.Ok? && Links.PairsUnique(st.groupMembers) ==> Links.PairsUnique(r.value.store.groupMembers)
    ensures r.Ok? ==> r.value.store == st.(groups := r.value.store.groups, groupMembers := r.value.store.groupMembers)
  {
    match GroupRepo.Update(st, id, data, data.studentIds)
    case Err(err) => Err(err)
    case Ok(None) => Err(GroupNotFound)
    case Ok(Some(saved)) => Ok(saved)
  }

  /** `delete`: `GroupNotFound` iff absent; otherwise the group and its
      member rows go. */
  function Delete(st: Store, id: int): (r: Result<Store, AppError>)
    requires WellFormed(st)
    ensures r.Err? <==> id !in st.groups.rows
    ensures r.Err? ==> r.error == GroupNotFound
    ensures r.Ok? ==> r.value.groups.rows.Keys == st.groups.rows.Keys - {id}
    ensures r.Ok? ==> forall k :: k in r.value.groups.rows ==> r.value.groups.rows[k] == st.groups.rows[k]
    ensures r.Ok? ==> forall x :: !Links.Linked(r.value.groupMembers, id, x)
    ensures r.Ok? ==>
              forall o, x :: o != id ==> (Links.Linked(r.value.groupMembers, o, x) <==> Links.Linked(st.groupMembers, o, x))
    ensures r.Ok? ==> WellFormed(r.value)
    ensures r.Ok? && GroupRepo.MembersOwned(st) ==> GroupRepo.MembersOwned(r.value)
    ensures r.Ok? && Links.PairsUnique(st.groupMembers) ==> Links.PairsUnique(r.value.groupMembers)
    ensures r.Ok? ==> r.value == st.(groups := r.value.groups, groupMembers := r.value.groupMembers)
  {
    if GroupRepo.GetById(st, id).None? then Err(GroupNotFound)
    else Ok(GroupRepo.Delete(st, id).0)
  }

  /** An update that replaces the members with distinct ids, none a current
      member, succeeds; reading the group back gives exactly those ids under
      the unchanged session, and owned, unique member pairs stay so. */
  lemma UpdateReadsBack(st: Store, id: int, data: GroupRepo.GroupUpdate)
    requires WellFormed(st) && id in st.groups.rows
    requires data.studentIds.Some? && Distinct(data.studentIds.value)
    requires forall x :: x in data.studentIds.value ==> !Links.Linked(st.groupMembers, id, x)
    ensures Update(st, id, data).Ok?
    ensures var after := Update(st, id, data).value.store;
            (GroupRepo.MembersOwned(st) ==> GroupRepo.MembersOwned(after))
            && (Links.PairsUnique(st.groupMembers) ==> Links.PairsUnique(after.groupMembers))
    ensures GetById(Update(st, id, data).value.store, id).Ok?
    ensures var g := GetById(Update(st, id, data).value.store, id).value;
            g.sessionId == st.groups.rows[id].sessionId
            && (Links.PairsUnique(st.groupMembers) ==> Distinct(g.studentIds))
            && forall x :: x in g.studentIds <==> x in data.studentIds.value
  {
  }
}
