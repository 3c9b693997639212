/** Business rules for sessions (app/services/session_service.py): ordered,
    fail-fast validation before the store is touched. A failed call returns
    only the error, so it cannot have changed the store. */
module SessionService {
  import opened Wrappers
  import opened Errors
  import opened Tables
  import opened Models
  import opened SessionSchema
  import SessionRepo

  /** `create`: formation, teacher, date order, free start, free end, checked
      in that order; the first failing check decides the error. The teacher
      only has to exist: the user's role is never looked at. */
  function Create(st: Store, data: SessionCreate): (r: Result<Saved<Session>, AppError>)
    requires WellFormed(st)
    ensures data.formationId !in st.formations.rows ==> r == Err(FormationNotFound)
    ensures data.formationId in st.formations.rows && data.teacherId !in st.users.rows ==> r == Err(TeacherNotFound)
    ensures data.formationId in st.formations.rows && data.teacherId in st.users.rows && data.startDate >= data.endDate
            ==> r == Err(SessionStartDateAfterEndDate)
    ensures data.formationId in st.formations.rows && data.teacherId in st.users.rows && data.startDate < data.endDate
            && SessionRepo.StartTaken(st, data.startDate)
            ==> r == Err(SessionStartDateAlreadyExists)
    ensures data.formationId in st.formations.rows && data.teacherId in st.users.rows && data.startDate < data.endDate
            && !SessionRepo.StartTaken(st, data.startDate) && SessionRepo.EndTaken(st, data.endDate)
            ==> r == Err(SessionEndDateAlreadyExists)
    ensures r.Ok? <==> data.formationId in st.formations.rows && data.teacherId in st.users.rows && data.startDate < data.endDate
                       && !SessionRepo.StartTaken(st, data.startDate) && !SessionRepo.EndTaken(st, data.endDate)
    ensures r.Ok? ==> WellFormed(r.value.store)
    ensures r.Ok? ==> r.value.item.id !in st.sessions.rows && r.value.item.row == SessionRepo.FromCreate(data)
    ensures r.Ok? ==> r.value.store.sessions.rows == st.sessions.rows[r.value.item.id := r.value.item.row]
    ensures r.Ok? ==> r.value.store == st.(sessions := r.value.store.sessions)
    ensures r.Ok? ==> r.value.item.row.startDate < r.value.item.row.endDate
    ensures r.Ok? ==> forall id :: id in st.sessions.rows ==>
                        st.sessions.rows[id].startDate != data.startDate && st.sessions.rows[id].endDate != data.endDate
  {
    if data.formationId !in st.formations.rows then Err(FormationNotFound)
    else if data.teacherId !in st.users.rows then Err(TeacherNotFound)
    else if data.startDate >= data.endDate then Err(SessionStartDateAfterEndDate)
    else if SessionRepo.GetByStartDate(st, data.startDate).Some? then Err(SessionStartDateAlreadyExists)
    else if SessionRepo.GetByEndDate(st, data.endDate).Some? then Err(SessionEndDateAlreadyExists)
    else Ok(SessionRepo.Create(st, data))
  }

  /** `get_by_id`. */
  function GetById(st: Store, id: int): (r: Result<Session, AppError>)
    ensures r.Err? <==> id !in st.sessions.rows
    ensures r.Err? ==> r.error == SessionNotFound
    ensures r.Ok? ==> r.value == st.sessions.rows[id]
  {
    match SessionRepo.GetById(st, id)
    case None => Err(SessionNotFound)
    case Some(s) => Ok(s)
  }

  /** The date order an update must respect. When a date is supplied it is
      compared with the other date as it will be after the update (the
      supplied one, or else the stored one); with no date supplied nothing
      is compared. */
  predicate DatesAcceptable(s: Session, data: SessionUpdate) {
    (data.startDate.None? && data.endDate.None?)
    || data.startDate.GetOr(s.startDate) < data.endDate.GetOr(s.endDate)
  }

  /** `update`: the session must exist (checked first); a supplied formation
      or teacher must exist; the effective dates must be ordered. Start and
      end uniqueness are not re-checked. */
  function Update(st: Store, id: int, data: SessionUpdate): (r: Result<Saved<Session>, AppError>)
    ensures id !in st.sessions.rows ==> r == Err(SessionNotFound)
    ensures id in st.sessions.rows && data.formationId.Some? && data.formationId.value !in st.formations.rows
            ==> r == Err(FormationNotFound)
    ensures id in st.sessions.rows && (data.formationId.Some? ==> data.formationId.value in st.formations.rows)
            && data.teacherId.Some? && data.teacherId.value !in st.users.rows
            ==> r == Err(TeacherNotFound)
    ensures id in st.sessions.rows && (data.formationId.Some? ==> data.formationId.value in st.formations.rows)
            && (data.teacherId.Some? ==> data.teacherId.value in st.users.rows)
            ==> (r.Ok? <==> DatesAcceptable(st.sessions.rows[id], data))
                && (r.Err? ==> r.error == SessionStartDateAfterEndDate)
    ensures r.Ok? ==> r.value.item.id == id && r.value.item.row == SessionRepo.Merge(st.sessions.rows[id], data)
    ensures r.Ok? ==> r.value.store.sessions.rows == st.sessions.rows[id := r.value.item.row]
    ensures r.Ok? ==> r.value.store == st.(sessions := r.value.store.sessions)
    ensures r.Ok? && WellFormed(st) ==> WellFormed(r.value.store)
    ensures r.Ok? && st.sessions.rows[id].startDate < st.sessions.rows[id].endDate
            ==> r.value.item.row.startDate < r.value.item.row.endDate
  {
    if id !in st.sessions.rows then Err(SessionNotFound)
    else
      var session := st.sessions.rows[id];
      if data.formationId.Some? && data.formationId.value !in st.formations.rows then Err(FormationNotFound)
      else if data.teacherId.Some? && data.teacherId.value !in st.users.rows then Err(TeacherNotFound)
      else if data.startDate.Some? && data.endDate.Some? && data.startDate.value >= data.endDate.value then
        Err(SessionStartDateAfterEndDate)
      else if data.startDate.Some? && data.endDate.None? && data.startDate.value >= session.endDate then
        Err(SessionStartDateAfterEndDate)
      else if data.startDate.None? && data.endDate.Some? && session.startDate >= data.endDate.value then
        Err(SessionStartDateAfterEndDate)
      else
        match SessionRepo.Update(st, id, data)
        case None => Err(SessionNotFound)
        case Some(saved) => Ok(saved)
  }

  /** `delete`: removes the session, or raises `SessionNotFound` when there
      is none with that key. */
  function Delete(st: Store, id: int): (r: Result<Store, AppError>)
    ensures r.Err? <==> id !in st.sessions.rows
    ensures r.Err? ==> r.error == SessionNotFound
    ensures r.Ok? ==> r.value.sessions.rows.Keys == st.sessions.rows.Keys - {id}
    ensures r.Ok? ==> forall k :: k in r.value.sessions.rows ==> r.value.sessions.rows[k] == st.sessions.rows[k]
    ensures r.Ok? ==> r.value == st.(sessions := r.value.sessions)
    ensures r.Ok? && WellFormed(st) ==> WellFormed(r.value)
  {
    var (st', deleted) := SessionRepo.Delete(st, id);
    if !deleted then Err(SessionNotFound) else Ok(st')
  }

  /** Deleting the same session twice: the second call reports it missing. */
  lemma DeleteTwice(st: Store, id: int)
    requires Delete(st, id).Ok?
    ensures Delete(Delete(st, id).value, id) == Err(SessionNotFound)
  {
  }

  /** `list`: the repository page, never an application error. */
  function List(st: Store, offset: int, limit: int): (r: Result<seq<Entry<Session>>, AppError>)
    requires WellFormed(st)
    ensures r.Err? <==> offset < 0 || limit < 0
    ensures r.Err? ==> r.error == Database(NegativeLimit)
    ensures r.Ok? ==> |r.value| <= MaxPageSize && |r.value| <= limit
    ensures r.Ok? ==> forall i :: 0 <= i < |r.value| ==> r.value[i].id in st.sessions.rows && st.sessions.rows[r.value[i].id] == r.value[i].row
    ensures r.Ok? ==> Ascending(r.value)
    ensures r.Ok? && offset == 0 ==>
              forall id :: id in st.sessions.rows ==> Entry(id, st.sessions.rows[id]) in r.value || |r.value| == Min(limit, MaxPageSize)
    ensures r.Ok? && offset + |r.value| < |st.sessions.rows| ==> |r.value| == Min(limit, MaxPageSize)
    ensures r.Ok? ==> forall i :: 0 <= i < |r.value| ==> |KeysBelow(st.sessions.rows, r.value[i].id)| == offset + i
  {
    SessionRepo.List(st, offset, limit)
  }

  /** `get_by_formation_id`: `SessionNotFound` iff the formation has no session. */
  function GetByFormationId(st: Store, formationId: int): (r: Result<Entry<Session>, AppError>)
    requires WellFormed(st)
    ensures r.Err? <==> forall id :: id in st.sessions.rows ==> st.sessions.rows[id].formationId != formationId
    ensures r.Err? ==> r.error == SessionNotFound
    ensures r.Ok? ==> r.value.id in st.sessions.rows && st.sessions.rows[r.value.id] == r.value.row && r.value.row.formationId == formationId
    ensures r.Ok? ==> forall id :: id in st.sessions.rows && st.sessions.rows[id].formationId == formationId ==> r.value.id <= id
  {
    match SessionRepo.GetByFormationId(st, formationId)
    case None => Err(SessionNotFound)
    case Some(e) => Ok(e)
  }

  /** `get_by_teacher_id`: `SessionNotFound` iff the teacher has no session. */
  function GetByTeacherId(st: Store, teacherId: int): (r: Result<Entry<Session>, AppError>)
    requires WellFormed(st)
    ensures r.Err? <==> forall id :: id in st.sessions.rows ==> st.sessions.rows[id].teacherId != teacherId
    ensures r.Err? ==> r.error == SessionNotFound
    ensures r.Ok? ==> r.value.id in st.sessions.rows && st.sessions.rows[r.value.id] == r.value.row && r.value.row.teacherId == teacherId
    ensures r.Ok? ==> forall id :: id in st.sessions.rows && st.sessions.rows[id].teacherId == teacherId ==> r.value.id <= id
  {
    match SessionRepo.GetByTeacherId(st, teacherId)
    case None => Err(SessionNotFound)
    case Some(e) => Ok(e)
  }

  /** `get_by_start_date`: `SessionNotFound` iff no session starts then. */
  function GetByStartDate(st: Store, ts: int): (r: Result<Entry<Session>, AppError>)
    requires WellFormed(st)
    ensures r.Err? <==> !SessionRepo.StartTaken(st, ts)
    ensures r.Err? ==> r.error == SessionNotFound
    ensures r.Ok? ==> r.value.id in st.sessions.rows && st.sessions.rows[r.value.id] == r.value.row && r.value.row.startDate == ts
    ensures r.Ok? ==> forall id :: id in st.sessions.rows && st.sessions.rows[id].startDate == ts ==> r.value.id <= id
  {
    match SessionRepo.GetByStartDate(st, ts)
    case None => Err(SessionNotFound)
    case Some(e) => Ok(e)
  }

  /** `get_by_end_date`: `SessionNotFound` iff no session ends then. */
  function GetByEndDate(st: Store, ts: int): (r: Result<Entry<Session>, AppError>)
    requires WellFormed(st)
    ensures r.Err? <==> !SessionRepo.EndTaken(st, ts)
    ensures r.Err? ==> r.error == SessionNotFound
    ensures r.Ok? ==> r.value.id in st.sessions.rows && st.sessions.rows[r.value.id] == r.value.row && r.value.row.endDate == ts
    ensures r.Ok? ==> forall id :: id in st.sessions.rows && st.sessions.rows[id].endDate == ts ==> r.value.id <= id
  {
    match SessionRepo.GetByEndDate(st, ts)
    case None => Err(SessionNotFound)
    case Some(e) => Ok(e)
  }

  /** Paging through the sessions neither skips nor repeats one: two
      consecutive pages of `n` are the page of `2 * n`. */
  lemma ListPagesJoin(st: Store, offset: int, n: int)
    requires WellFormed(st)
    requires 0 <= offset && 0 <= n && 2 * n <= MaxPageSize
    ensures List(st, offset, n).Ok? && List(st, offset + n, n).Ok? && List(st, offset, 2 * n).Ok?
    ensures List(st, offset, n).value + List(st, offset + n, n).value == List(st, offset, 2 * n).value
  {
    PagesJoin(Select(st.sessions, (e: Entry<Session>) => true), offset, n);
  }
}
