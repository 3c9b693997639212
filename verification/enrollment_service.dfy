/** Enrollment rules (app/services/enrollment_service.py): the session and
    the student must exist, the session must not be full, and a student is
    enrolled at most once per session. */
module EnrollmentService {
  import opened Wrappers
  import opened Errors
  import opened Tables
  import opened Models
  import EnrollmentRepo
  import SessionRepo

  /** Inserting one row moves exactly that row's session's head count. */
  lemma EnrolledInAfterInsert(st: Store, st': Store, id: int, row: Enrollment)
    requires id !in st.enrollments.rows
    requires st'.enrollments.rows == st.enrollments.rows[id := row]
    ensures EnrollmentRepo.EnrolledIn(st', row.sessionId) == EnrollmentRepo.EnrolledIn(st, row.sessionId) + {id}
    ensures |EnrollmentRepo.EnrolledIn(st', row.sessionId)| == |EnrollmentRepo.EnrolledIn(st, row.sessionId)| + 1
    ensures forall s :: s != row.sessionId ==> EnrollmentRepo.EnrolledIn(st', s) == EnrollmentRepo.EnrolledIn(st, s)
  {
    assert EnrollmentRepo.EnrolledIn(st', row.sessionId) == EnrollmentRepo.EnrolledIn(st, row.sessionId) + {id};
    forall s | s != row.sessionId
      ensures EnrollmentRepo.EnrolledIn(st', s) == EnrollmentRepo.EnrolledIn(st, s)
    {
      assert forall k :: k in EnrollmentRepo.EnrolledIn(st', s) ==> k != id;
    }
  }

  /** `create`: the checks run in the order session, student, capacity,
      duplicate. The capacity check comes first, so a full session reports
      `EnrollmentSessionFull` even to a student already enrolled in it. */
  function Create(st: Store, data: EnrollmentRepo.EnrollmentCreate, now: int): (r: Result<Saved<Enrollment>, AppError>)
    requires WellFormed(st)
    ensures data.sessionId !in st.sessions.rows ==> r == Err(SessionNotFound)
    ensures data.sessionId in st.sessions.rows && data.studentId !in st.users.rows ==> r == Err(UserNotFound)
    ensures data.sessionId in st.sessions.rows && data.studentId in st.users.rows
            && |EnrollmentRepo.EnrolledIn(st, data.sessionId)| >= st.sessions.rows[data.sessionId].capacityMax
            ==> r == Err(EnrollmentSessionFull)
    ensures data.sessionId in st.sessions.rows && data.studentId in st.users.rows
            && |EnrollmentRepo.EnrolledIn(st, data.sessionId)| < st.sessions.rows[data.sessionId].capacityMax
            && EnrollmentRepo.Enrolled(st, data.sessionId, data.studentId)
            ==> r == Err(EnrollmentAlreadyExists)
    ensures r.Ok? <==>
              data.sessionId in st.sessions.rows && data.studentId in st.users.rows
              && |EnrollmentRepo.EnrolledIn(st, data.sessionId)| < st.sessions.rows[data.sessionId].capacityMax
              && !EnrollmentRepo.Enrolled(st, data.sessionId, data.studentId)
    ensures r.Ok? ==> WellFormed(r.value.store)
    ensures r.Ok? ==> r.value.item.id !in st.enrollments.rows
    ensures r.Ok? ==> r.value.item.row == Enrollment(data.sessionId, data.studentId, now)
    ensures r.Ok? ==> r.value.store == st.(enrollments := r.value.store.enrollments)
    ensures r.Ok? ==> |EnrollmentRepo.EnrolledIn(r.value.store, data.sessionId)| == |EnrollmentRepo.EnrolledIn(st, data.sessionId)| + 1
    ensures r.Ok? ==> |EnrollmentRepo.EnrolledIn(r.value.store, data.sessionId)| <= st.sessions.rows[data.sessionId].capacityMax
    ensures r.Ok? ==> forall s :: s != data.sessionId ==> EnrollmentRepo.EnrolledIn(r.value.store, s) == EnrollmentRepo.EnrolledIn(st, s)
    ensures r.Ok? ==>
              forall k :: k in r.value.store.enrollments.rows
                && r.value.store.enrollments.rows[k].sessionId == data.sessionId
                && r.value.store.enrollments.rows[k].studentId == data.studentId
                ==> k == r.value.item.id
  {
    match SessionRepo.GetById(st, data.sessionId)
    case None => Err(SessionNotFound)
    case Some(session) =>
      if data.studentId !in st.users.rows then Err(UserNotFound)
      else if |EnrollmentRepo.ListBySessionId(st, data.sessionId)| >= session.capacityMax then Err(EnrollmentSessionFull)
      else if EnrollmentRepo.GetBySessionIdAndStudentId(st, data.sessionId, data.studentId).Some? then Err(EnrollmentAlreadyExists)
      else
        var r := EnrollmentRepo.Create(st, data, now);
        EnrolledInAfterInsert(st, r.value.store, r.value.item.id, r.value.item.row);
        r
  }

  function GetById(st: Store, id: int): (r: Result<Enrollment, AppError>)
    ensures r.Ok? <==> id in st.enrollments.rows
    ensures r.Ok? ==> r.value == st.enrollments.rows[id]
    ensures r.Err? ==> r.error == EnrollmentNotFound
  {
    match EnrollmentRepo.GetById(st, id)
    case None => Err(EnrollmentNotFound)
    case Some(e) => Ok(e)
  }

  /** `update`: `EnrollmentNotFound` iff the key is absent; neither the
      capacity nor the duplicate rule is checked again, so only the unique
      constraint stands between an update and a second enrollment. */
  function Update(st: Store, id: int, data: EnrollmentRepo.EnrollmentUpdate): (r: Result<Saved<Enrollment>, AppError>)
    requires WellFormed(st)
    ensures id !in st.enrollments.rows ==> r == Err(EnrollmentNotFound)
    ensures id in st.enrollments.rows ==>
              var m := EnrollmentRepo.Merge(st.enrollments.rows[id], data);
              (r.Ok? <==> !EnrollmentRepo.PairTakenByOther(st, id, m.sessionId, m.studentId))
    ensures r.Err? && id in st.enrollments.rows ==> r.error == Database(UniqueViolation)
    ensures r.Ok? ==> r.value.item == Entry(id, EnrollmentRepo.Merge(st.enrollments.rows[id], data))
    ensures r.Ok? ==> r.value.store.enrollments.rows == st.enrollments.rows[id := r.value.item.row]
    ensures r.Ok? ==> r.value.store == st.(enrollments := r.value.store.enrollments)
  {
    match EnrollmentRepo.Update(st, id, data)
    case Err(e) => Err(e)
    case Ok(None) => Err(EnrollmentNotFound)
    case Ok(Some(saved)) => Ok(saved)
  }

  /** `delete`: reports absence as `false` rather than as an error. */
  function Delete(st: Store, id: int): (r: (Store, bool))
    ensures r.1 <==> id in st.enrollments.rows
    ensures !r.1 ==> r.0 == st
    ensures r.0.enrollments.rows.Keys == st.enrollments.rows.Keys - {id}
    ensures forall k :: k in r.0.enrollments.rows ==> r.0.enrollments.rows[k] == st.enrollments.rows[k]
    ensures r.0 == st.(enrollments := r.0.enrollments)
    ensures WellFormed(st) ==> WellFormed(r.0)
  {
    EnrollmentRepo.Delete(st, id)
  }

  function GetBySessionIdAndStudentId(st: Store, sessionId: int, studentId: int): (r: Result<Entry<Enrollment>, AppError>)
    requires WellFormed(st)
    ensures r.Err? <==> !EnrollmentRepo.Enrolled(st, sessionId, studentId)
    ensures r.Err? ==> r.error == EnrollmentNotFound
    ensures r.Ok? ==> r.value.id in st.enrollments.rows && st.enrollments.rows[r.value.id] == r.value.row
    ensures r.Ok? ==> r.value.row.sessionId == sessionId && r.value.row.studentId == studentId
  {
    match EnrollmentRepo.GetBySessionIdAndStudentId(st, sessionId, studentId)
    case None => Err(EnrollmentNotFound)
    case Some(e) => Ok(e)
  }

  /** Enrolling the same pair twice in a row fails the second time,
      whichever rule catches it first. */
  lemma CreateTwiceFails(st: Store, data: EnrollmentRepo.EnrollmentCreate, now: int, later: int)
    requires WellFormed(st)
    requires Create(st, data, now).Ok?
    ensures Create(Create(st, data, now).value.store, data, later).Err?
  {
    var saved := Create(st, data, now).value;
    assert saved.item.id in saved.store.enrollments.rows;
    assert EnrollmentRepo.Enrolled(saved.store, data.sessionId, data.studentId);
  }
}
