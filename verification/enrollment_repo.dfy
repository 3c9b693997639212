/** Data access for enrollments (app/repositories/enrollment_repo.py) over
    the `enrollments` table, which carries the unique constraint
    `uq_enrollment_session_student` on (session_id, student_id)
    (app/models/enrollment.py). */
module EnrollmentRepo {
  import opened Wrappers
  import opened Errors
  import opened Tables
  import opened Models

  datatype EnrollmentCreate = EnrollmentCreate(sessionId: int, studentId: int)

  /** A partial update: `None` marks a field the request did not supply. */
  datatype EnrollmentUpdate = EnrollmentUpdate(sessionId: Option<int>, studentId: Option<int>)

  /** Some enrollment links that student to that session. */
  ghost predicate Enrolled(st: Store, sessionId: int, studentId: int) {
    exists id :: id in st.enrollments.rows
      && st.enrollments.rows[id].sessionId == sessionId && st.enrollments.rows[id].studentId == studentId
  }

  /** The keys of the enrollments of a session: their number is the
      session's head count. */
  ghost function EnrolledIn(st: Store, sessionId: int): set<int> {
    set id | id in st.enrollments.rows && st.enrollments.rows[id].sessionId == sessionId
  }

  /** `create`: stores one enrollment for the pair, stamped `now`, unless the
      pair is already enrolled, which the unique constraint refuses. */
  function Create(st: Store, data: EnrollmentCreate, now: int): (r: Result<Saved<Enrollment>, AppError>)
    requires WellFormed(st)
    ensures r.Err? <==> Enrolled(st, data.sessionId, data.studentId)
    ensures r.Err? ==> r.error == Database(UniqueViolation)
    ensures r.Ok? ==> WellFormed(r.value.store)
    ensures r.Ok? ==> r.value.item.id !in st.enrollments.rows
    ensures r.Ok? ==> r.value.item.row == Enrollment(data.sessionId, data.studentId, now)
    ensures r.Ok? ==> r.value.store.enrollments.rows == st.enrollments.rows[r.value.item.id := r.value.item.row]
    ensures r.Ok? ==> r.value.store == st.(enrollments := r.value.store.enrollments)
  {
    match GetBySessionIdAndStudentId(st, data.sessionId, data.studentId)
    case Some(_) => Err(Database(UniqueViolation))
    case None =>
      var (t, e) := Insert(st.enrollments, Enrollment(data.sessionId, data.studentId, now));
      Ok(Saved(st.(enrollments := t), e))
  }

  function GetById(st: Store, id: int): (r: Option<Enrollment>)
    ensures r.Some? <==> id in st.enrollments.rows
    ensures r.Some? ==> r.value == st.enrollments.rows[id]
  {
    Get(st.enrollments, id)
  }

  /** `list`: every enrollment, in key order. */
  function List(st: Store): (r: seq<Entry<Enrollment>>)
    requires WellFormed(st)
    ensures forall e :: e in r <==> e.id in st.enrollments.rows && st.enrollments.rows[e.id] == e.row
    ensures Ascending(r)
  {
    Select(st.enrollments, (e: Entry<Enrollment>) => true)
  }

  /** Field-by-field partial merge; `enrolled_at` is not a payload field. */
  function Merge(e: Enrollment, data: EnrollmentUpdate): (m: Enrollment)
    ensures data.sessionId.None? ==> m.sessionId == e.sessionId
    ensures data.sessionId.Some? ==> m.sessionId == data.sessionId.value
    ensures data.studentId.None? ==> m.studentId == e.studentId
    ensures data.studentId.Some? ==> m.studentId == data.studentId.value
    ensures m.enrolledAt == e.enrolledAt
  {
    Enrollment(data.sessionId.GetOr(e.sessionId), data.studentId.GetOr(e.studentId), e.enrolledAt)
  }

  /** Another enrollment than `id` links that student to that session. */
  ghost predicate PairTakenByOther(st: Store, id: int, sessionId: int, studentId: int) {
    exists k :: k in st.enrollments.rows && k != id
      && st.enrollments.rows[k].sessionId == sessionId && st.enrollments.rows[k].studentId == studentId
  }

  /** `update`: `Ok(None)` when the key is absent. Otherwise the supplied
      fields are merged in, with no capacity or duplicate check of the
      application's own; only the unique constraint can refuse the result,
      when another enrollment already holds the merged pair. */
  function Update(st: Store, id: int, data: EnrollmentUpdate): (r: Result<Option<Saved<Enrollment>>, AppError>)
    requires WellFormed(st)
    ensures id !in st.enrollments.rows ==> r == Ok(None)
    ensures id in st.enrollments.rows ==>
              var m := Merge(st.enrollments.rows[id], data);
              (r.Err? <==> PairTakenByOther(st, id, m.sessionId, m.studentId))
    ensures r.Err? ==> r.error == Database(UniqueViolation)
    ensures r.Ok? && r.value.Some? ==>
              r.value.value.item.id == id && id in st.enrollments.rows
              && r.value.value.item.row == Merge(st.enrollments.rows[id], data)
    ensures r.Ok? && r.value.Some? ==> r.value.value.store.enrollments.rows == st.enrollments.rows[id := r.value.value.item.row]
    ensures r.Ok? && r.value.Some? ==> r.value.value.store == st.(enrollments := r.value.value.store.enrollments)
    ensures r.Ok? && r.value.Some? ==> WellFormed(r.value.value.store)
  {
    if id !in st.enrollments.rows then Ok(None)
    else
      var m := Merge(st.enrollments.rows[id], data);
      var clash := FindFirst(st.enrollments, (e: Entry<Enrollment>) =>
        e.id != id && e.row.sessionId == m.sessionId && e.row.studentId == m.studentId);
      if clash.Some? then Err(Database(UniqueViolation))
      else Ok(Some(Saved(st.(enrollments := Replace(st.enrollments, id, m)), Entry(id, m))))
  }

  /** `delete`: true iff the enrollment existed; only that row goes. */
  function Delete(st: Store, id: int): (r: (Store, bool))
    ensures r.1 <==> id in st.enrollments.rows
    ensures !r.1 ==> r.0 == st
    ensures r.0.enrollments.rows.Keys == st.enrollments.rows.Keys - {id}
    ensures forall k :: k in r.0.enrollments.rows ==> r.0.enrollments.rows[k] == st.enrollments.rows[k]
    ensures r.0 == st.(enrollments := r.0.enrollments)
    ensures WellFormed(st) ==> WellFormed(r.0)
  {
    var (t, found) := Tables.Delete(st.enrollments, id);
    (st.(enrollments := t), found)
  }

  /** The enrollments of a session, in key order. */
  function ListBySessionId(st: Store, sessionId: int): (r: seq<Entry<Enrollment>>)
    requires WellFormed(st)
    ensures forall e :: e in r <==> e.id in st.enrollments.rows && st.enrollments.rows[e.id] == e.row && e.row.sessionId == sessionId
    ensures Ascending(r)
    ensures |r| == |EnrolledIn(st, sessionId)|
  {
    var p := (e: Entry<Enrollment>) => e.row.sessionId == sessionId;
    SelectCount(st.enrollments, p);
    assert MatchingIds(st.enrollments, p) == EnrolledIn(st, sessionId);
    Select(st.enrollments, p)
  }

  /** The enrollments of a student, in key order. */
  function ListByStudentId(st: Store, studentId: int): (r: seq<Entry<Enrollment>>)
    requires WellFormed(st)
    ensures forall e :: e in r <==> e.id in st.enrollments.rows && st.enrollments.rows[e.id] == e.row && e.row.studentId == studentId
    ensures Ascending(r)
  {
    Select(st.enrollments, (e: Entry<Enrollment>) => e.row.studentId == studentId)
  }

  /** The enrollment of that student in that session: `None` iff there is none. */
  function GetBySessionIdAndStudentId(st: Store, sessionId: int, studentId: int): (r: Option<Entry<Enrollment>>)
    requires WellFormed(st)
    ensures r.None? <==> !Enrolled(st, sessionId, studentId)
    ensures r.Some? ==> r.value.id in st.enrollments.rows && st.enrollments.rows[r.value.id] == r.value.row
    ensures r.Some? ==> r.value.row.sessionId == sessionId && r.value.row.studentId == studentId
  {
    FindFirst(st.enrollments, (e: Entry<Enrollment>) => e.row.sessionId == sessionId && e.row.studentId == studentId)
  }
}
