/** The abstract relational store: one `Table` per database table, holding
    rows by primary key, plus the next key the table's sequence hands out.
    Queries return `Entry` values (key and row) in ascending key order. */
module Tables {
  import opened Wrappers

  /** Rows a page may hold, whatever limit is asked for (`MAX_PAGE_SIZE`). */
  const MaxPageSize: int := 100

  datatype Entry<T> = Entry(id: int, row: T)

  datatype Table<T> = Table(rows: map<int, T>, nextId: nat)

  /** Every key was handed out by the sequence: it lies below `nextId`. */
  ghost predicate Valid<T>(t: Table<T>) {
    forall id :: id in t.rows ==> 0 <= id < t.nextId
  }

  /** A table with no rows whose sequence starts at 1. */
  function Empty<T>(): (t: Table<T>)
    ensures Valid(t) && |t.rows| == 0
  {
    Table(map[], 1)
  }

  /** `session.get(Model, id)`. */
  function Get<T>(t: Table<T>, id: int): (r: Option<T>)
    ensures r.Some? <==> id in t.rows
    ensures r.Some? ==> r.value == t.rows[id]
  {
    if id in t.rows then Some(t.rows[id]) else None
  }

  /** `session.add(row); commit()`: the row is stored under a key no other row
      had, and nothing else changes. */
  function Insert<T>(t: Table<T>, row: T): (r: (Table<T>, Entry<T>))
    requires Valid(t)
    ensures Valid(r.0)
    ensures r.1.id !in t.rows && r.1.row == row
    ensures r.0.rows.Keys == t.rows.Keys + {r.1.id}
    ensures r.0.rows == t.rows[r.1.id := row]
  {
    (Table(t.rows[t.nextId := row], t.nextId + 1), Entry(t.nextId, row))
  }

  /** Writing back a row that was read under `id`. */
  function Replace<T>(t: Table<T>, id: int, row: T): (r: Table<T>)
    requires id in t.rows
    ensures Valid(t) ==> Valid(r)
    ensures r.rows.Keys == t.rows.Keys
    ensures r.rows[id] == row
    ensures forall k :: k in t.rows && k != id ==> r.rows[k] == t.rows[k]
  {
    Table(t.rows[id := row], t.nextId)
  }

  /** `session.delete(row)`: removes the row with key `id` and reports
      whether there was one; an absent key leaves the table as it was. */
  function Delete<T>(t: Table<T>, id: int): (r: (Table<T>, bool))
    ensures r.1 <==> id in t.rows
    ensures !r.1 ==> r.0 == t
    ensures r.0.rows.Keys == t.rows.Keys - {id}
    ensures forall k :: k in r.0.rows ==> r.0.rows[k] == t.rows[k]
    ensures Valid(t) ==> Valid(r.0)
  {
    if id in t.rows then (Table(t.rows - {id}, t.nextId), true) else (t, false)
  }

  /** Removes every row the predicate picks (a cascading delete). */
  function DeleteWhere<T>(t: Table<T>, p: Entry<T> -> bool): (r: Table<T>)
    ensures forall k :: k in r.rows <==> k in t.rows && !p(Entry(k, t.rows[k]))
    ensures forall k :: k in r.rows ==> r.rows[k] == t.rows[k]
    ensures r.nextId == t.nextId
    ensures Valid(t) ==> Valid(r)
  {
    Table(map k | k in t.rows && !p(Entry(k, t.rows[k])) :: t.rows[k], t.nextId)
  }

  /** `session.add` of each row in turn, then one commit: row `i` of `rows`
      gets key `nextId + i`, and the rows already stored stay as they were. */
  function InsertEach<T>(t: Table<T>, rows: seq<T>): (r: Table<T>)
    requires Valid(t)
    ensures Valid(r)
    ensures Appended(t, r, rows)
  {
    var added := map k | t.nextId <= k < t.nextId + |rows| :: RowAt(rows, t.nextId, k);
    Table(t.rows + added, t.nextId + |rows|)
  }

  /** `u` is `t` with row `i` of `rows` stored under the fresh key
      `t.nextId + i`: the old rows stay, no other key appears, and the key
      counter moves past the new rows. */
  ghost predicate Appended<T>(t: Table<T>, u: Table<T>, rows: seq<T>) {
    && u.nextId == t.nextId + |rows|
    && (forall k :: k in t.rows ==> k in u.rows && u.rows[k] == t.rows[k])
    && (forall k :: k in u.rows && k !in t.rows ==> t.nextId <= k < t.nextId + |rows|)
    && (forall i :: 0 <= i < |rows| ==> t.nextId + i in u.rows && t.nextId + i !in t.rows && u.rows[t.nextId + i] == rows[i])
  }

  /** The row of `rows` that key `k` receives when keys from `base` on are
      handed out in order. */
  function RowAt<T>(rows: seq<T>, base: int, k: int): T
    requires base <= k < base + |rows|
  {
    rows[k - base]
  }

  /** No value occurs twice in `s`. */
  predicate Distinct(s: seq<int>) {
    forall i, j :: 0 <= i < j < |s| ==> s[i] != s[j]
  }

  /** Keys strictly increase along `s`: the rows come in key order and no
      row comes twice. */
  predicate Ascending<T>(s: seq<Entry<T>>) {
    forall i, j :: 0 <= i < j < |s| ==> s[i].id < s[j].id
  }

  /** The rows of `rows` with key in `[0, n)` that satisfy `p`, in key order. */
  function SelectBelow<T(!new)>(rows: map<int, T>, p: Entry<T> -> bool, n: nat): (r: seq<Entry<T>>)
    ensures forall i :: 0 <= i < |r| ==> 0 <= r[i].id < n && r[i].id in rows && rows[r[i].id] == r[i].row && p(r[i])
    ensures forall id {:trigger Entry(id, rows[id]) in r} :: 0 <= id < n && id in rows && p(Entry(id, rows[id])) ==> Entry(id, rows[id]) in r
    ensures Ascending(r)
  {
    if n == 0 then []
    else
      var rest := SelectBelow(rows, p, n - 1);
      var k := n - 1;
      if k in rows && p(Entry(k, rows[k])) then rest + [Entry(k, rows[k])] else rest
  }

  /** `select(Model).where(p).all()`: exactly the stored rows satisfying `p`,
      each once, in key order. */
  function Select<T(!new)>(t: Table<T>, p: Entry<T> -> bool): (r: seq<Entry<T>>)
    requires Valid(t)
    ensures forall e :: e in r <==> e.id in t.rows && t.rows[e.id] == e.row && p(e)
    ensures Ascending(r)
  {
    SelectBelow(t.rows, p, t.nextId)
  }

  /** The keys of the rows satisfying `p`: the reference a count is checked
      against. */
  ghost function MatchingIds<T>(t: Table<T>, p: Entry<T> -> bool): set<int> {
    set id | id in t.rows && p(Entry(id, t.rows[id]))
  }

  ghost function IdsBelow<T>(rows: map<int, T>, p: Entry<T> -> bool, n: int): set<int> {
    set id | id in rows && id < n && p(Entry(id, rows[id]))
  }

  /** The stored keys below `id`. */
  ghost function KeysBelow<T>(rows: map<int, T>, id: int): set<int> {
    set k | k in rows && k < id
  }

  /** `len(select(...).all())` counts the matching rows. */
  lemma {:induction false} SelectBelowCount<T(!new)>(rows: map<int, T>, p: Entry<T> -> bool, n: nat)
    requires forall id :: id in rows ==> 0 <= id
    ensures |SelectBelow(rows, p, n)| == |IdsBelow(rows, p, n)|
  {
    if n == 0 {
      assert IdsBelow(rows, p, n) == {};
    } else {
      SelectBelowCount(rows, p, n - 1);
      IdsBelowStep(rows, p, n);
    }
  }

  /** Raising the bound by one adds the key `n - 1` exactly when its row
      matches, and that key was not counted before. */
  lemma IdsBelowStep<T(!new)>(rows: map<int, T>, p: Entry<T> -> bool, n: nat)
    requires n > 0
    ensures n - 1 !in IdsBelow(rows, p, n - 1)
    ensures IdsBelow(rows, p, n)
            == IdsBelow(rows, p, n - 1) + (if n - 1 in rows && p(Entry(n - 1, rows[n - 1])) then {n - 1} else {})
  {
  }

  /** Each row of a query stands at its rank: the number of matching keys
      below its own. */
  lemma {:induction false} SelectBelowRank<T(!new)>(rows: map<int, T>, p: Entry<T> -> bool, n: nat)
    requires forall id :: id in rows ==> 0 <= id
    ensures forall j :: 0 <= j < |SelectBelow(rows, p, n)| ==> |IdsBelow(rows, p, SelectBelow(rows, p, n)[j].id)| == j
  {
    if n > 0 {
      SelectBelowRank(rows, p, n - 1);
      if n - 1 in rows && p(Entry(n - 1, rows[n - 1])) {
        SelectBelowCount(rows, p, n - 1);
      }
    }
  }

  /** The number of rows a query returns is the number of rows that match. */
  lemma SelectCount<T(!new)>(t: Table<T>, p: Entry<T> -> bool)
    requires Valid(t)
    ensures |Select(t, p)| == |MatchingIds(t, p)|
  {
    SelectBelowCount(t.rows, p, t.nextId);
    assert IdsBelow(t.rows, p, t.nextId) == MatchingIds(t, p);
  }

  /** `.first()`: the first row of a result, if any. */
  function First<T>(s: seq<T>): (r: Option<T>)
    ensures r.None? <==> |s| == 0
    ensures r.Some? ==> r.value in s
  {
    if |s| == 0 then None else Some(s[0])
  }

  /** `select(Model).where(p).first()`: the matching row with the smallest
      key, or `None` when no row matches. */
  function FindFirst<T(!new)>(t: Table<T>, p: Entry<T> -> bool): (r: Option<Entry<T>>)
    requires Valid(t)
    ensures r.None? <==> forall id :: id in t.rows ==> !p(Entry(id, t.rows[id]))
    ensures r.Some? ==> r.value.id in t.rows && t.rows[r.value.id] == r.value.row && p(r.value)
    ensures r.Some? ==> forall id :: id in t.rows && p(Entry(id, t.rows[id])) ==> r.value.id <= id
  {
    var s := Select(t, p);
    assert forall id :: id in t.rows && p(Entry(id, t.rows[id])) ==> Entry(id, t.rows[id]) in s;
    if |s| == 0 then None
    else
      assert forall id :: id in t.rows && p(Entry(id, t.rows[id])) ==> s[0].id <= id by {
        forall id | id in t.rows && p(Entry(id, t.rows[id]))
          ensures s[0].id <= id
        {
          var e := Entry(id, t.rows[id]);
          assert e in s;
          var k :| 0 <= k < |s| && s[k] == e;
          assert k == 0 || s[0].id < s[k].id;
        }
      }
      Some(s[0])
  }

  function Min(a: int, b: int): int {
    if a <= b then a else b
  }

  /** `.offset(offset).limit(min(limit, MAX_PAGE_SIZE))` on a query result.
      PostgreSQL refuses a negative offset or limit (`None`); otherwise the
      page is the longest run of consecutive rows from position `offset` that
      fits both the requested limit and the page cap. */
  function Page<T>(s: seq<T>, offset: int, limit: int): (r: Option<seq<T>>)
    ensures r.None? <==> offset < 0 || Min(limit, MaxPageSize) < 0
    ensures r.Some? ==> |r.value| <= MaxPageSize && |r.value| <= limit
    ensures r.Some? ==> forall i :: 0 <= i < |r.value| ==> offset + i < |s| && r.value[i] == s[offset + i]
    ensures r.Some? && offset + |r.value| < |s| ==> |r.value| == Min(limit, MaxPageSize)
  {
    var cap := Min(limit, MaxPageSize);
    if offset < 0 || cap < 0 then None
    else if offset >= |s| then Some([])
    else Some(s[offset..Min(offset + cap, |s|)])
  }

  /** A page of an ascending query keeps its order and only holds rows of
      the query; a first page that is not full, or that had room for
      everything, is the whole query. */
  lemma PageOfAscending<T>(all: seq<Entry<T>>, offset: int, limit: int)
    requires Ascending(all)
    requires Page(all, offset, limit).Some?
    ensures forall i :: 0 <= i < |Page(all, offset, limit).value| ==> Page(all, offset, limit).value[i] in all
    ensures Ascending(Page(all, offset, limit).value)
    ensures offset == 0 && |Page(all, offset, limit).value| < Min(limit, MaxPageSize) ==> Page(all, offset, limit).value == all
    ensures offset == 0 && |all| <= Min(limit, MaxPageSize) ==> Page(all, offset, limit).value == all
  {
    var page := Page(all, offset, limit).value;
    assert forall i :: 0 <= i < |page| ==> page[i] == all[offset + i];
  }

  /** Two consecutive pages of size `n` are the page of size `2 * n` that
      starts where the first does: paging neither skips nor repeats a row. */
  lemma PagesJoin<T>(s: seq<T>, offset: int, n: int)
    requires 0 <= offset && 0 <= n && 2 * n <= MaxPageSize
    ensures Page(s, offset, n).value + Page(s, offset + n, n).value == Page(s, offset, 2 * n).value
  {
    var a, b, c := Page(s, offset, n).value, Page(s, offset + n, n).value, Page(s, offset, 2 * n).value;
    assert |a| + |b| == |c|;
    forall i | 0 <= i < |c|
      ensures (a + b)[i] == c[i]
    {
      if i >= |a| {
        assert b[i - |a|] == s[offset + n + (i - |a|)];
      }
    }
  }

  /** `OFFSET`/`LIMIT` over a query: the row at position `i` of the page has
      exactly `offset + i` matching keys below its own, and the page is full
      unless the matching rows run out. */
  lemma PageRank<T(!new)>(t: Table<T>, p: Entry<T> -> bool, offset: int, limit: int)
    requires Valid(t)
    requires Page(Select(t, p), offset, limit).Some?
    ensures var page := Page(Select(t, p), offset, limit).value;
            forall i :: 0 <= i < |page| ==> |IdsBelow(t.rows, p, page[i].id)| == offset + i
    ensures var page := Page(Select(t, p), offset, limit).value;
            offset + |page| < |MatchingIds(t, p)| ==> |page| == Min(limit, MaxPageSize)
  {
    SelectBelowRank(t.rows, p, t.nextId);
    SelectCount(t, p);
  }

  /** Keys of `s` are ordered by `key`. */
  predicate SortedBy<T>(s: seq<T>, key: T -> int) {
    forall i, j :: 0 <= i < j < |s| ==> key(s[i]) <= key(s[j])
  }

  /** Inserts `x` into a sorted sequence, before the first element whose key
      is not smaller. */
  function InsertBy<T>(x: T, s: seq<T>, key: T -> int): (r: seq<T>)
    requires SortedBy(s, key)
    ensures SortedBy(r, key)
    ensures multiset(r) == multiset(s) + multiset{x}
  {
    if |s| == 0 then [x]
    else if key(x) <= key(s[0]) then
      ConsSorted(x, s, key);
      [x] + s
    else
      var rest := InsertBy(x, s[1..], key);
      assert s == [s[0]] + s[1..];
      HeadStaysFirst(x, s, rest, key);
      ConsSorted(s[0], rest, key);
      [s[0]] + rest
  }

  /** When `x` goes after the head of `s`, the head's key is at most every
      key of the tail with `x` inserted. */
  lemma HeadStaysFirst<T>(x: T, s: seq<T>, rest: seq<T>, key: T -> int)
    requires SortedBy(s, key) && |s| > 0 && key(s[0]) < key(x)
    requires multiset(rest) == multiset(s[1..]) + multiset{x}
    ensures |rest| == 0 || key(s[0]) <= key(rest[0])
  {
    if |rest| > 0 {
      assert rest[0] in multiset(rest);
      if rest[0] != x {
        assert rest[0] in multiset(s[1..]);
        var m :| 0 <= m < |s[1..]| && s[1..][m] == rest[0];
        assert s[m + 1] == rest[0];
      }
    }
  }

  /** A sorted sequence stays sorted under a head whose key is at most the
      first key. */
  lemma ConsSorted<T>(h: T, s: seq<T>, key: T -> int)
    requires SortedBy(s, key)
    requires |s| == 0 || key(h) <= key(s[0])
    ensures SortedBy([h] + s, key)
  {
    var r := [h] + s;
    forall i, j | 0 <= i < j < |r|
      ensures key(r[i]) <= key(r[j])
    {
      if i == 0 {
        assert r[j] == s[j - 1];
        assert key(s[0]) <= key(s[j - 1]) || j == 1;
      } else {
        assert r[i] == s[i - 1] && r[j] == s[j - 1];
      }
    }
  }

  /** `.order_by(key)`: the same rows, reordered so that keys never decrease. */
  function SortBy<T>(s: seq<T>, key: T -> int): (r: seq<T>)
    ensures SortedBy(r, key)
    ensures multiset(r) == multiset(s)
  {
    if |s| == 0 then []
    else
      assert s == [s[0]] + s[1..];
      InsertBy(s[0], SortBy(s[1..], key), key)
  }

  /** A list comprehension `[f(x) for x in s]`: the images in the same order,
      each coming from an element of `s`, and every element's image present. */
  function MapAll<A, B>(s: seq<A>, f: A --> B): (r: seq<B>)
    requires forall a :: a in s ==> f.requires(a)
    ensures |r| == |s|
    ensures forall i :: 0 <= i < |s| ==> r[i] == f(s[i])
    ensures forall a :: a in s ==> f(a) in r
    ensures forall b :: b in r ==> exists a :: a in s && b == f(a)
  {
    if |s| == 0 then []
    else
      var rest := MapAll(s[1..], f);
      assert forall a :: a in s[1..] ==> a in s;
      [f(s[0])] + rest
  }
}
