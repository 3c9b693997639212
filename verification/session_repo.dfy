/** Data access for sessions (app/repositories/session_repo.py): creation,
    lookups, page-capped listing, partial update and deletion over the
    `sessions` table of the store. */
module SessionRepo {
  import opened Wrappers
  import opened Errors
  import opened Tables
  import opened Models
  import opened SessionSchema

  /** The row `SessionModel(**data.model_dump())` builds. */
  function FromCreate(data: SessionCreate): (s: Session)
    ensures s.startDate == data.startDate && s.endDate == data.endDate
    ensures s.formationId == data.formationId && s.teacherId == data.teacherId
    ensures s.capacityMax == data.capacityMax && s.status == data.status
  {
    Session(data.formationId, data.teacherId, data.startDate, data.endDate, data.capacityMax, data.status)
  }

  /** Stores a new session built from the payload; no other row and no other
      table changes. */
  function Create(st: Store, data: SessionCreate): (r: Saved<Session>)
    requires WellFormed(st)
    ensures WellFormed(r.store)
    ensures r.item.id !in st.sessions.rows && r.item.row == FromCreate(data)
    ensures r.store.sessions.rows == st.sessions.rows[r.item.id := r.item.row]
    ensures r.store == st.(sessions := r.store.sessions)
  {
    var (t, e) := Insert(st.sessions, FromCreate(data));
    Saved(st.(sessions := t), e)
  }

  function GetById(st: Store, id: int): (r: Option<Session>)
    ensures r.Some? <==> id in st.sessions.rows
    ensures r.Some? ==> r.value == st.sessions.rows[id]
  {
    Get(st.sessions, id)
  }

  /** `list(offset, limit)`: at most `MAX_PAGE_SIZE` stored sessions, taken
      in key order from position `offset`; a negative offset or limit is
      refused by the database. */
  function List(st: Store, offset: int, limit: int): (r: Result<seq<Entry<Session>>, AppError>)
    requires WellFormed(st)
    ensures r.Err? <==> offset < 0 || limit < 0
    ensures r.Err? ==> r.error == Database(NegativeLimit)
    ensures r.Ok? ==> |r.value| <= MaxPageSize && |r.value| <= limit
    ensures r.Ok? ==> forall i :: 0 <= i < |r.value| ==> r.value[i].id in st.sessions.rows && st.sessions.rows[r.value[i].id] == r.value[i].row
    ensures r.Ok? ==> Ascending(r.value)
    ensures r.Ok? && offset == 0 ==>
              forall id :: id in st.sessions.rows ==> Entry(id, st.sessions.rows[id]) in r.value || |r.value| == Min(limit, MaxPageSize)
    ensures r.Ok? && offset + |r.value| < |st.sessions.rows| ==> |r.value| == Min(limit, MaxPageSize)
    ensures r.Ok? ==> forall i :: 0 <= i < |r.value| ==> |KeysBelow(st.sessions.rows, r.value[i].id)| == offset + i
  {
    var any := (e: Entry<Session>) => true;
    var all := Select(st.sessions, any);
    SelectCount(st.sessions, any);
    assert MatchingIds(st.sessions, any) == st.sessions.rows.Keys;
    match Page(all, offset, limit)
    case None => Err(Database(NegativeLimit))
    case Some(page) =>
      PageOfAscending(all, offset, limit);
      PageRank(st.sessions, any, offset, limit);
      assert forall i :: 0 <= i < |page| ==> IdsBelow(st.sessions.rows, any, page[i].id) == KeysBelow(st.sessions.rows, page[i].id);
      Ok(page)
  }

  /** Field-by-field partial merge: a supplied field overwrites, an absent
      one keeps the stored value. */
  function Merge(s: Session, data: SessionUpdate): (m: Session)
    ensures data.formationId.None? ==> m.formationId == s.formationId
    ensures data.formationId.Some? ==> m.formationId == data.formationId.value
    ensures data.teacherId.None? ==> m.teacherId == s.teacherId
    ensures data.teacherId.Some? ==> m.teacherId == data.teacherId.value
    ensures data.startDate.None? ==> m.startDate == s.startDate
    ensures data.startDate.Some? ==> m.startDate == data.startDate.value
    ensures data.endDate.None? ==> m.endDate == s.endDate
    ensures data.endDate.Some? ==> m.endDate == data.endDate.value
    ensures data.capacityMax.None? ==> m.capacityMax == s.capacityMax
    ensures data.capacityMax.Some? ==> m.capacityMax == data.capacityMax.value
    ensures data.status.None? ==> m.status == s.status
    ensures data.status.Some? ==> m.status == data.status.value
  {
    Session(
      data.formationId.GetOr(s.formationId),
      data.teacherId.GetOr(s.teacherId),
      data.startDate.GetOr(s.startDate),
      data.endDate.GetOr(s.endDate),
      data.capacityMax.GetOr(s.capacityMax),
      data.status.GetOr(s.status))
  }

  /** `update(id, data)`: `None` when no session has that key (nothing
      changes); otherwise only that session is rewritten, with the supplied
      fields merged in. */
  function Update(st: Store, id: int, data: SessionUpdate): (r: Option<Saved<Session>>)
    ensures r.None? <==> id !in st.sessions.rows
    ensures r.Some? ==> r.value.item.id == id && r.value.item.row == Merge(st.sessions.rows[id], data)
    ensures r.Some? ==> r.value.store.sessions.rows == st.sessions.rows[id := r.value.item.row]
    ensures r.Some? ==> r.value.store == st.(sessions := r.value.store.sessions)
    ensures r.Some? && WellFormed(st) ==> WellFormed(r.value.store)
  {
    if id !in st.sessions.rows then None
    else
      var row := Merge(st.sessions.rows[id], data);
      Some(Saved(st.(sessions := Replace(st.sessions, id, row)), Entry(id, row)))
  }

  /** `delete(id)`: removes exactly the session with that key and reports
      whether it existed; an absent key changes nothing. */
  function Delete(st: Store, id: int): (r: (Store, bool))
    ensures r.1 <==> id in st.sessions.rows
    ensures !r.1 ==> r.0 == st
    ensures r.0.sessions.rows.Keys == st.sessions.rows.Keys - {id}
    ensures forall k :: k in r.0.sessions.rows ==> r.0.sessions.rows[k] == st.sessions.rows[k]
    ensures r.0 == st.(sessions := r.0.sessions)
    ensures WellFormed(st) ==> WellFormed(r.0)
  {
    var (t, found) := Tables.Delete(st.sessions, id);
    (st.(sessions := t), found)
  }

  /** All sessions of a formation, in key order. */
  function ListByFormationId(st: Store, formationId: int): (r: seq<Entry<Session>>)
    requires WellFormed(st)
    ensures forall e :: e in r <==> e.id in st.sessions.rows && st.sessions.rows[e.id] == e.row && e.row.formationId == formationId
    ensures Ascending(r)
  {
    Select(st.sessions, (e: Entry<Session>) => e.row.formationId == formationId)
  }

  /** All sessions taught by a teacher, in key order. */
  function ListByTeacherId(st: Store, teacherId: int): (r: seq<Entry<Session>>)
    requires WellFormed(st)
    ensures forall e :: e in r <==> e.id in st.sessions.rows && st.sessions.rows[e.id] == e.row && e.row.teacherId == teacherId
    ensures Ascending(r)
  {
    Select(st.sessions, (e: Entry<Session>) => e.row.teacherId == teacherId)
  }

  /** Some stored session starts at exactly `ts`. */
  ghost predicate StartTaken(st: Store, ts: int) {
    exists id :: id in st.sessions.rows && st.sessions.rows[id].startDate == ts
  }

  /** Some stored session ends at exactly `ts`. */
  ghost predicate EndTaken(st: Store, ts: int) {
    exists id :: id in st.sessions.rows && st.sessions.rows[id].endDate == ts
  }

  /** First session of a formation, or `None` when it has none. */
  function GetByFormationId(st: Store, formationId: int): (r: Option<Entry<Session>>)
    requires WellFormed(st)
    ensures r.None? <==> forall id :: id in st.sessions.rows ==> st.sessions.rows[id].formationId != formationId
    ensures r.Some? ==> r.value.id in st.sessions.rows && st.sessions.rows[r.value.id] == r.value.row && r.value.row.formationId == formationId
    ensures r.Some? ==> forall id :: id in st.sessions.rows && st.sessions.rows[id].formationId == formationId ==> r.value.id <= id
  {
    FindFirst(st.sessions, (e: Entry<Session>) => e.row.formationId == formationId)
  }

  /** First session of a teacher, or `None` when there is none. */
  function GetByTeacherId(st: Store, teacherId: int): (r: Option<Entry<Session>>)
    requires WellFormed(st)
    ensures r.None? <==> forall id :: id in st.sessions.rows ==> st.sessions.rows[id].teacherId != teacherId
    ensures r.Some? ==> r.value.id in st.sessions.rows && st.sessions.rows[r.value.id] == r.value.row && r.value.row.teacherId == teacherId
    ensures r.Some? ==> forall id :: id in st.sessions.rows && st.sessions.rows[id].teacherId == teacherId ==> r.value.id <= id
  {
    FindFirst(st.sessions, (e: Entry<Session>) => e.row.teacherId == teacherId)
  }

  /** A session starting at exactly `ts`: `None` iff there is none. */
  function GetByStartDate(st: Store, ts: int): (r: Option<Entry<Session>>)
    requires WellFormed(st)
    ensures r.None? <==> !StartTaken(st, ts)
    ensures r.Some? ==> r.value.id in st.sessions.rows && st.sessions.rows[r.value.id] == r.value.row && r.value.row.startDate == ts
    ensures r.Some? ==> forall id :: id in st.sessions.rows && st.sessions.rows[id].startDate == ts ==> r.value.id <= id
  {
    FindFirst(st.sessions, (e: Entry<Session>) => e.row.startDate == ts)
  }

  /** A session ending at exactly `ts`: `None` iff there is none. */
  function GetByEndDate(st: Store, ts: int): (r: Option<Entry<Session>>)
    requires WellFormed(st)
    ensures r.None? <==> !EndTaken(st, ts)
    ensures r.Some? ==> r.value.id in st.sessions.rows && st.sessions.rows[r.value.id] == r.value.row && r.value.row.endDate == ts
    ensures r.Some? ==> forall id :: id in st.sessions.rows && st.sessions.rows[id].endDate == ts ==> r.value.id <= id
  {
    FindFirst(st.sessions, (e: Entry<Session>) => e.row.endDate == ts)
  }
}
