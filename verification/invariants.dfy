/** Whole-store consistency rules that the services are meant to keep, and
    which of the state-changing operations keep them. Each rule is a ghost
    predicate over the store; each preservation lemma takes a store where the
    rule holds and a call that succeeded, and shows the rule still holds
    afterwards. Where an operation does not keep a rule, a lemma over a
    concrete store exhibits the call that breaks it. */
module Invariants {
  import opened Wrappers
  import opened Tables
  import opened Dates
  import opened Models
  import opened SessionSchema
  import EnrollmentRepo
  import SessionService
  import EnrollmentService
  import SignatureService

  /** Every session starts strictly before it ends. */
  ghost predicate SessionsOrdered(st: Store) {
    forall id :: id in st.sessions.rows ==> st.sessions.rows[id].startDate < st.sessions.rows[id].endDate
  }

  /** No two sessions share a start date, and no two share an end date. */
  ghost predicate SessionDatesUnique(st: Store) {
    forall i, j :: i in st.sessions.rows && j in st.sessions.rows && i != j ==>
      st.sessions.rows[i].startDate != st.sessions.rows[j].startDate
      && st.sessions.rows[i].endDate != st.sessions.rows[j].endDate
  }

  /** A student is enrolled in a session at most once. */
  ghost predicate EnrollmentPairsUnique(st: Store) {
    forall i, j :: i in st.enrollments.rows && j in st.enrollments.rows && i != j ==>
      st.enrollments.rows[i].sessionId != st.enrollments.rows[j].sessionId
      || st.enrollments.rows[i].studentId != st.enrollments.rows[j].studentId
  }

  /** No session holds more enrollments than its capacity. */
  ghost predicate WithinCapacity(st: Store) {
    forall sid :: sid in st.sessions.rows ==>
      |EnrollmentRepo.EnrolledIn(st, sid)| <= st.sessions.rows[sid].capacityMax
  }

  /** At most one signature per session, user and day. */
  ghost predicate SignaturesUnique(st: Store) {
    forall i, j :: i in st.signatures.rows && j in st.signatures.rows && i != j ==>
      st.signatures.rows[i] != st.signatures.rows[j]
  }

  /** Every signature is dated at midnight and was given by a student
      enrolled in its session. */
  ghost predicate SignaturesWellDated(st: Store) {
    forall id :: id in st.signatures.rows ==>
      st.signatures.rows[id].date % SecondsPerDay == 0
      && EnrollmentRepo.Enrolled(st, st.signatures.rows[id].sessionId, st.signatures.rows[id].userId)
  }

  // ---------------------------------------------------------------- sessions

  /** A created session is ordered and the others are untouched. */
  lemma CreateKeepsSessionsOrdered(st: Store, data: SessionCreate)
    requires WellFormed(st) && SessionsOrdered(st)
    requires SessionService.Create(st, data).Ok?
    ensures SessionsOrdered(SessionService.Create(st, data).value.store)
  {
    var saved := SessionService.Create(st, data).value;
    forall id | id in saved.store.sessions.rows
      ensures saved.store.sessions.rows[id].startDate < saved.store.sessions.rows[id].endDate
    {
      if id != saved.item.id {
        assert saved.store.sessions.rows[id] == st.sessions.rows[id];
      }
    }
  }

  /** Creation refuses a start or end date already in use, so it keeps both
      uniqueness rules. */
  lemma CreateKeepsSessionDatesUnique(st: Store, data: SessionCreate)
    requires WellFormed(st) && SessionDatesUnique(st)
    requires SessionService.Create(st, data).Ok?
    ensures SessionDatesUnique(SessionService.Create(st, data).value.store)
  {
    var saved := SessionService.Create(st, data).value;
    var rows := saved.store.sessions.rows;
    forall i, j | i in rows && j in rows && i != j
      ensures rows[i].startDate != rows[j].startDate && rows[i].endDate != rows[j].endDate
    {
      if i == saved.item.id {
        assert rows[j] == st.sessions.rows[j];
      } else if j == saved.item.id {
        assert rows[i] == st.sessions.rows[i];
      } else {
        assert rows[i] == st.sessions.rows[i] && rows[j] == st.sessions.rows[j];
      }
    }
  }

  /** An update re-checks the order of the dates it is given against the
      stored ones, so an ordered store stays ordered. */
  lemma UpdateKeepsSessionsOrdered(st: Store, id: int, data: SessionUpdate)
    requires SessionsOrdered(st)
    requires SessionService.Update(st, id, data).Ok?
    ensures SessionsOrdered(SessionService.Update(st, id, data).value.store)
  {
    var saved := SessionService.Update(st, id, data).value;
    forall k | k in saved.store.sessions.rows
      ensures saved.store.sessions.rows[k].startDate < saved.store.sessions.rows[k].endDate
    {
      if k != id {
        assert saved.store.sessions.rows[k] == st.sessions.rows[k];
      }
    }
  }

  /** Two sessions, 1 to 10 and 20 to 30, with no formation or user. */
  function TwoSessions(): (st: Store)
    ensures WellFormed(st)
    ensures 0 in st.sessions.rows && 1 in st.sessions.rows
  {
    var sessions := Table(map[0 := Session(0, 0, 1, 10, 5, Scheduled), 1 := Session(0, 0, 20, 30, 5, Scheduled)], 2);
    EmptyStore().(sessions := sessions)
  }

  /** An update never looks for another session with the same dates: moving
      the second session's start onto the first's is accepted, and the store
      afterwards has two sessions starting at the same instant. */
  lemma UpdateCanDuplicateStartDate()
    ensures SessionDatesUnique(TwoSessions())
    ensures SessionService.Update(TwoSessions(), 1, SessionUpdate(None, None, Some(1), None, None, None)).Ok?
    ensures !SessionDatesUnique(SessionService.Update(TwoSessions(), 1, SessionUpdate(None, None, Some(1), None, None, None)).value.store)
  {
    var st := TwoSessions();
    var data := SessionUpdate(None, None, Some(1), None, None, None);
    assert SessionService.DatesAcceptable(st.sessions.rows[1], data);
    var after := SessionService.Update(st, 1, data).value.store;
    assert after.sessions.rows[0].startDate == after.sessions.rows[1].startDate;
  }

  // ------------------------------------------------------------- enrollments

  /** Creation refuses a pair that is already enrolled. */
  lemma CreateKeepsEnrollmentPairsUnique(st: Store, data: EnrollmentRepo.EnrollmentCreate, now: int)
    requires WellFormed(st) && EnrollmentPairsUnique(st)
    requires EnrollmentService.Create(st, data, now).Ok?
    ensures EnrollmentPairsUnique(EnrollmentService.Create(st, data, now).value.store)
  {
    var saved := EnrollmentService.Create(st, data, now).value;
    var rows := saved.store.enrollments.rows;
    assert !EnrollmentRepo.Enrolled(st, data.sessionId, data.studentId);
    forall i, j | i in rows && j in rows && i != j
      ensures rows[i].sessionId != rows[j].sessionId || rows[i].studentId != rows[j].studentId
    {
      if i == saved.item.id {
        assert rows[j] == st.enrollments.rows[j];
      } else if j == saved.item.id {
        assert rows[i] == st.enrollments.rows[i];
      } else {
        assert rows[i] == st.enrollments.rows[i] && rows[j] == st.enrollments.rows[j];
      }
    }
  }

  /** An update is accepted only when no other enrollment holds the merged
      pair, which is exactly what keeps pairs unique. */
  lemma UpdateKeepsEnrollmentPairsUnique(st: Store, id: int, data: EnrollmentRepo.EnrollmentUpdate)
    requires WellFormed(st) && EnrollmentPairsUnique(st)
    requires EnrollmentService.Update(st, id, data).Ok?
    ensures EnrollmentPairsUnique(EnrollmentService.Update(st, id, data).value.store)
  {
    var saved := EnrollmentService.Update(st, id, data).value;
    var m := saved.item.row;
    var rows := saved.store.enrollments.rows;
    assert !EnrollmentRepo.PairTakenByOther(st, id, m.sessionId, m.studentId);
    forall i, j | i in rows && j in rows && i != j
      ensures rows[i].sessionId != rows[j].sessionId || rows[i].studentId != rows[j].studentId
    {
      if i == id {
        assert rows[j] == st.enrollments.rows[j];
      } else if j == id {
        assert rows[i] == st.enrollments.rows[i];
      } else {
        assert rows[i] == st.enrollments.rows[i] && rows[j] == st.enrollments.rows[j];
      }
    }
  }

  /** Creation refuses a full session and counts only in the session it
      enrolls into, so no session goes over capacity. */
  lemma CreateKeepsWithinCapacity(st: Store, data: EnrollmentRepo.EnrollmentCreate, now: int)
    requires WellFormed(st) && WithinCapacity(st)
    requires EnrollmentService.Create(st, data, now).Ok?
    ensures WithinCapacity(EnrollmentService.Create(st, data, now).value.store)
  {
    var after := EnrollmentService.Create(st, data, now).value.store;
    forall sid | sid in after.sessions.rows
      ensures |EnrollmentRepo.EnrolledIn(after, sid)| <= after.sessions.rows[sid].capacityMax
    {
      assert after.sessions == st.sessions;
      if sid != data.sessionId {
        assert EnrollmentRepo.EnrolledIn(after, sid) == EnrollmentRepo.EnrolledIn(st, sid);
      }
    }
  }

  /** Deleting an enrollment frees its place: while pairs are unique, the
      pair is no longer enrolled afterwards, pairs stay unique and no
      session goes over capacity. */
  lemma DeleteUnenrolls(st: Store, id: int)
    requires WellFormed(st) && EnrollmentPairsUnique(st) && WithinCapacity(st)
    requires id in st.enrollments.rows
    ensures var after := EnrollmentService.Delete(st, id).0;
            var e := st.enrollments.rows[id];
            !EnrollmentRepo.Enrolled(after, e.sessionId, e.studentId)
            && EnrollmentPairsUnique(after) && WithinCapacity(after)
  {
    var after := EnrollmentService.Delete(st, id).0;
    forall sid | sid in after.sessions.rows
      ensures |EnrollmentRepo.EnrolledIn(after, sid)| <= after.sessions.rows[sid].capacityMax
    {
      var before, now := EnrollmentRepo.EnrolledIn(st, sid), EnrollmentRepo.EnrolledIn(after, sid);
      assert now <= before;
      assert before == now + (before - now);
    }
  }

  /** Session 0 with room for one student, full, and session 1 with room for
      five holding student 8 alone. */
  function FullSession(): (st: Store)
    ensures WellFormed(st)
  {
    var sessions := Table(map[0 := Session(0, 0, 1, 10, 1, Scheduled), 1 := Session(0, 0, 20, 30, 5, Scheduled)], 2);
    var enrollments := Table(map[0 := Enrollment(0, 7, 0), 1 := Enrollment(1, 8, 0)], 2);
    EmptyStore().(sessions := sessions, enrollments := enrollments)
  }

  /** Each session of `FullSession` is within capacity; session 0 is full. */
  lemma FullSessionCounts()
    ensures EnrollmentRepo.EnrolledIn(FullSession(), 0) == {0}
    ensures WithinCapacity(FullSession())
  {
    var st := FullSession();
    assert EnrollmentRepo.EnrolledIn(st, 0) == {0};
    assert EnrollmentRepo.EnrolledIn(st, 1) == {1};
    assert forall sid :: sid in st.sessions.rows ==> sid == 0 || sid == 1;
  }

  /** An enrollment update never looks at capacity: moving student 8 into
      the full session is accepted and leaves it over capacity. */
  lemma UpdateCanOverfillSession()
    ensures WithinCapacity(FullSession())
    ensures EnrollmentService.Update(FullSession(), 1, EnrollmentRepo.EnrollmentUpdate(Some(0), None)).Ok?
    ensures !WithinCapacity(EnrollmentService.Update(FullSession(), 1, EnrollmentRepo.EnrollmentUpdate(Some(0), None)).value.store)
  {
    FullSessionCounts();
    var st := FullSession();
    var data := EnrollmentRepo.EnrollmentUpdate(Some(0), None);
    assert !EnrollmentRepo.PairTakenByOther(st, 1, 0, 8);
    var after := EnrollmentService.Update(st, 1, data).value.store;
    assert after.enrollments.rows == map[0 := Enrollment(0, 7, 0), 1 := Enrollment(0, 8, 0)];
    assert EnrollmentRepo.EnrolledIn(after, 0) == {0, 1};
  }

  // -------------------------------------------------------------- signatures

  /** Signing refuses a second signature for the same day, and records a
      midnight date for an enrolled student; enrollments are untouched. */
  lemma SignKeepsSignatureRules(st: Store, data: SignatureService.SignatureCreate, today: int)
    requires WellFormed(st) && SignaturesUnique(st) && SignaturesWellDated(st)
    requires SignatureService.Sign(st, data, today).Ok?
    ensures SignaturesUnique(SignatureService.Sign(st, data, today).value.store)
    ensures SignaturesWellDated(SignatureService.Sign(st, data, today).value.store)
  {
    var saved := SignatureService.Sign(st, data, today).value;
    var rows := saved.store.signatures.rows;
    assert saved.store.enrollments == st.enrollments;
    forall i, j | i in rows && j in rows && i != j
      ensures rows[i] != rows[j]
    {
      if i != saved.item.id && j != saved.item.id {
        assert rows[i] == st.signatures.rows[i] && rows[j] == st.signatures.rows[j];
      }
    }
    forall id | id in rows
      ensures rows[id].date % SecondsPerDay == 0
      ensures EnrollmentRepo.Enrolled(saved.store, rows[id].sessionId, rows[id].userId)
    {
      if id != saved.item.id {
        assert rows[id] == st.signatures.rows[id];
        var w :| w in st.enrollments.rows && st.enrollments.rows[w].sessionId == rows[id].sessionId
                 && st.enrollments.rows[w].studentId == rows[id].userId;
        assert w in saved.store.enrollments.rows;
      } else {
        var w :| w in st.enrollments.rows && st.enrollments.rows[w].sessionId == data.sessionId
                 && st.enrollments.rows[w].studentId == data.userId;
        assert w in saved.store.enrollments.rows;
      }
    }
  }
}
