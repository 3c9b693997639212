/** Data access for attendance signatures (app/repositories/signature_repo.py).
    A signature is one signed day for a (session, user) pair; its date is
    stored as the midnight that starts the day. The table has no unique
    constraint of its own. */
module SignatureRepo {
  import opened Wrappers
  import opened Tables
  import opened Models
  import opened Dates

  /** A signature of that user for that session exists on that day. */
  ghost predicate SignedOn(st: Store, sessionId: int, userId: int, day: int) {
    exists id :: id in st.signatures.rows && st.signatures.rows[id] == Signature(sessionId, userId, StartOfDay(day))
  }

  /** `create`: stores the signature dated at the start of `day`. */
  function Create(st: Store, sessionId: int, userId: int, day: int): (r: Saved<Signature>)
    requires WellFormed(st)
    ensures WellFormed(r.store)
    ensures r.item.id !in st.signatures.rows
    ensures r.item.row.sessionId == sessionId && r.item.row.userId == userId
    ensures r.item.row.date % SecondsPerDay == 0 && DayOf(r.item.row.date) == day
    ensures r.store.signatures.rows == st.signatures.rows[r.item.id := r.item.row]
    ensures r.store == st.(signatures := r.store.signatures)
    ensures SignedOn(r.store, sessionId, userId, day)
  {
    DayOfStartOfDay(day);
    var (t, e) := Insert(st.signatures, Signature(sessionId, userId, StartOfDay(day)));
    Saved(st.(signatures := t), e)
  }

  function GetById(st: Store, id: int): (r: Option<Signature>)
    ensures r.Some? <==> id in st.signatures.rows
    ensures r.Some? ==> r.value == st.signatures.rows[id]
  {
    Get(st.signatures, id)
  }

  /** `exists_for_date`: true iff the (session, user, day) triple is signed. */
  function ExistsForDate(st: Store, sessionId: int, userId: int, day: int): (b: bool)
    requires WellFormed(st)
    ensures b <==> SignedOn(st, sessionId, userId, day)
  {
    var dt := StartOfDay(day);
    FindFirst(st.signatures, (e: Entry<Signature>) =>
      e.row.sessionId == sessionId && e.row.userId == userId && e.row.date == dt).Some?
  }

  /** Who signed a session on a day: the rows of that session dated at the
      day's midnight, in key order. */
  function ListBySessionAndDate(st: Store, sessionId: int, day: int): (r: seq<Entry<Signature>>)
    requires WellFormed(st)
    ensures forall e :: e in r <==>
              e.id in st.signatures.rows && st.signatures.rows[e.id] == e.row
              && e.row.sessionId == sessionId && e.row.date == StartOfDay(day)
    ensures Ascending(r)
  {
    var dt := StartOfDay(day);
    Select(st.signatures, (e: Entry<Signature>) => e.row.sessionId == sessionId && e.row.date == dt)
  }

  function SignatureDate(e: Entry<Signature>): int {
    e.row.date
  }

  /** A user's signing history for a session: exactly that pair's rows, each
      once, ordered by date. */
  function ListBySessionAndUser(st: Store, sessionId: int, userId: int): (r: seq<Entry<Signature>>)
    requires WellFormed(st)
    ensures forall e :: e in r <==>
              e.id in st.signatures.rows && st.signatures.rows[e.id] == e.row
              && e.row.sessionId == sessionId && e.row.userId == userId
    ensures SortedBy(r, SignatureDate)
    ensures multiset(r) == multiset(Select(st.signatures, (e: Entry<Signature>) => e.row.sessionId == sessionId && e.row.userId == userId))
  {
    var sel := Select(st.signatures, (e: Entry<Signature>) => e.row.sessionId == sessionId && e.row.userId == userId);
    var r := SortBy(sel, SignatureDate);
    assert forall e :: e in r <==> e in multiset(r);
    assert forall e :: e in sel <==> e in multiset(sel);
    r
  }
}
