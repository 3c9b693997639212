/** Attendance rules (app/services/signature_service.py): a user signs a day
    of a session they are enrolled in, inside the session's dates, at most
    once per day. */
module SignatureService {
  import opened Wrappers
  import opened Errors
  import opened Tables
  import opened Models
  import opened Dates
  import EnrollmentRepo
  import SignatureRepo
  import SessionRepo

  /** The signing request; `None` for the date means "today". */
  datatype SignatureCreate = SignatureCreate(sessionId: int, userId: int, date: Option<int>)

  /** The day lies between the session's first and last calendar day, both
      included. */
  predicate WithinSession(s: Session, day: int) {
    DayOf(s.startDate) <= day <= DayOf(s.endDate)
  }

  /** `sign`: session, date range, enrollment, duplicate, checked in that
      order; `today` stands for the server's clock. */
  function Sign(st: Store, data: SignatureCreate, today: int): (r: Result<Saved<Signature>, AppError>)
    requires WellFormed(st)
    ensures data.sessionId !in st.sessions.rows ==> r == Err(SessionNotFound)
    ensures data.sessionId in st.sessions.rows && !WithinSession(st.sessions.rows[data.sessionId], data.date.GetOr(today))
            ==> r == Err(SignatureDateOutsideSession)
    ensures data.sessionId in st.sessions.rows && WithinSession(st.sessions.rows[data.sessionId], data.date.GetOr(today))
            && !EnrollmentRepo.Enrolled(st, data.sessionId, data.userId)
            ==> r == Err(UserNotEnrolledInSession)
    ensures data.sessionId in st.sessions.rows && WithinSession(st.sessions.rows[data.sessionId], data.date.GetOr(today))
            && EnrollmentRepo.Enrolled(st, data.sessionId, data.userId)
            && SignatureRepo.SignedOn(st, data.sessionId, data.userId, data.date.GetOr(today))
            ==> r == Err(SignatureAlreadyExistsForDate)
    ensures r.Ok? <==>
              data.sessionId in st.sessions.rows && WithinSession(st.sessions.rows[data.sessionId], data.date.GetOr(today))
              && EnrollmentRepo.Enrolled(st, data.sessionId, data.userId)
              && !SignatureRepo.SignedOn(st, data.sessionId, data.userId, data.date.GetOr(today))
    ensures r.Ok? ==> WellFormed(r.value.store)
    ensures r.Ok? ==> r.value.item.id !in st.signatures.rows
    ensures r.Ok? ==> r.value.item.row.sessionId == data.sessionId && r.value.item.row.userId == data.userId
    ensures r.Ok? ==> r.value.item.row.date == StartOfDay(data.date.GetOr(today))
    ensures r.Ok? ==> WithinSession(st.sessions.rows[data.sessionId], DayOf(r.value.item.row.date))
    ensures r.Ok? ==> r.value.store.signatures.rows == st.signatures.rows[r.value.item.id := r.value.item.row]
    ensures r.Ok? ==> r.value.store == st.(signatures := r.value.store.signatures)
    ensures r.Ok? ==>
              forall k :: k in r.value.store.signatures.rows && r.value.store.signatures.rows[k] == r.value.item.row
                ==> k == r.value.item.id
  {
    match SessionRepo.GetById(st, data.sessionId)
    case None => Err(SessionNotFound)
    case Some(session) =>
      var day := data.date.GetOr(today);
      if !(DayOf(session.startDate) <= day <= DayOf(session.endDate)) then Err(SignatureDateOutsideSession)
      else if EnrollmentRepo.GetBySessionIdAndStudentId(st, data.sessionId, data.userId).None? then Err(UserNotEnrolledInSession)
      else if SignatureRepo.ExistsForDate(st, data.sessionId, data.userId, day) then Err(SignatureAlreadyExistsForDate)
      else
        var saved := SignatureRepo.Create(st, data.sessionId, data.userId, day);
        DayOfStartOfDay(day);
        Ok(saved)
  }

  function GetById(st: Store, id: int): (r: Result<Signature, AppError>)
    ensures r.Ok? <==> id in st.signatures.rows
    ensures r.Ok? ==> r.value == st.signatures.rows[id]
    ensures r.Err? ==> r.error == SignatureNotFound
  {
    match SignatureRepo.GetById(st, id)
    case None => Err(SignatureNotFound)
    case Some(s) => Ok(s)
  }

  /** Who signed a session on a day; `SessionNotFound` iff the session is absent. */
  function ListBySessionAndDate(st: Store, sessionId: int, day: int): (r: Result<seq<Entry<Signature>>, AppError>)
    requires WellFormed(st)
    ensures r.Err? <==> sessionId !in st.sessions.rows
    ensures r.Err? ==> r.error == SessionNotFound
    ensures r.Ok? ==>
              forall e :: e in r.value <==>
                e.id in st.signatures.rows && st.signatures.rows[e.id] == e.row
                && e.row.sessionId == sessionId && DayOf(e.row.date) == day && e.row.date % SecondsPerDay == 0
  {
    if SessionRepo.GetById(st, sessionId).None? then Err(SessionNotFound)
    else
      var r := SignatureRepo.ListBySessionAndDate(st, sessionId, day);
      DayOfStartOfDay(day);
      assert forall ts :: ts % SecondsPerDay == 0 ==> ts == StartOfDay(DayOf(ts));
      Ok(r)
  }

  /** A user's signed days for a session, oldest first; `SessionNotFound` iff
      the session is absent. */
  function ListBySessionAndUser(st: Store, sessionId: int, userId: int): (r: Result<seq<Entry<Signature>>, AppError>)
    requires WellFormed(st)
    ensures r.Err? <==> sessionId !in st.sessions.rows
    ensures r.Err? ==> r.error == SessionNotFound
    ensures r.Ok? ==>
              forall e :: e in r.value <==>
                e.id in st.signatures.rows && st.signatures.rows[e.id] == e.row
                && e.row.sessionId == sessionId && e.row.userId == userId
    ensures r.Ok? ==> SortedBy(r.value, SignatureRepo.SignatureDate)
    ensures r.Ok? ==>
              multiset(r.value)
              == multiset(Select(st.signatures, (e: Entry<Signature>) => e.row.sessionId == sessionId && e.row.userId == userId))
  {
    if SessionRepo.GetById(st, sessionId).None? then Err(SessionNotFound)
    else Ok(SignatureRepo.ListBySessionAndUser(st, sessionId, userId))
  }

  /** Signing the same day twice fails the second time. */
  lemma SignTwiceFails(st: Store, data: SignatureCreate, today: int)
    requires WellFormed(st)
    requires Sign(st, data, today).Ok?
    ensures Sign(Sign(st, data, today).value.store, data, today) == Err(SignatureAlreadyExistsForDate)
  {
    var saved := Sign(st, data, today).value;
    assert saved.store.sessions == st.sessions;
    assert saved.store.enrollments == st.enrollments;
    assert saved.item.id in saved.store.signatures.rows;
    assert SignatureRepo.SignedOn(saved.store, data.sessionId, data.userId, data.date.GetOr(today));
  }

  /** A successful signature joins the user's history for the session, next
      to everything that was there before, and nothing else does. */
  lemma SignJoinsHistory(st: Store, data: SignatureCreate, today: int)
    requires WellFormed(st)
    requires Sign(st, data, today).Ok?
    ensures var saved := Sign(st, data, today).value;
            var before := ListBySessionAndUser(st, data.sessionId, data.userId);
            var after := ListBySessionAndUser(saved.store, data.sessionId, data.userId);
            before.Ok? && after.Ok?
            && forall e :: e in after.value <==> e in before.value || e == saved.item
  {
    var saved := Sign(st, data, today).value;
    assert saved.store.sessions == st.sessions;
    assert saved.item.id in saved.store.signatures.rows;
  }
}
