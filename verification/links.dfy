/** The association tables `brief_students` and `group_members`: rows that
    tie an owner (a brief or a group) to a student, with the unique
    constraint `uq_brief_student` / `uq_group_member` on the pair. The
    repositories add, drop and replace an owner's rows and read back the
    owner's student ids. */
module Links {
  import opened Wrappers
  import opened Errors
  import opened Tables
  import opened Models

  /** A row ties `owner` to `student`. */
  ghost predicate Linked(t: Table<Link>, owner: int, student: int) {
    exists k :: k in t.rows && t.rows[k] == Link(owner, student)
  }

  /** The unique constraint: no (owner, student) pair is stored twice. */
  ghost predicate PairsUnique(t: Table<Link>) {
    forall k1, k2 :: k1 in t.rows && k2 in t.rows && t.rows[k1] == t.rows[k2] ==> k1 == k2
  }

  /** Every row's owner is one of `owners` (the owning table's keys). */
  ghost predicate OwnedBy(t: Table<Link>, owners: set<int>) {
    forall k :: k in t.rows ==> t.rows[k].ownerId in owners
  }

  /** One row per id, in the order given. */
  function LinkRows(owner: int, ids: seq<int>): (r: seq<Link>)
    ensures |r| == |ids|
    ensures forall i :: 0 <= i < |ids| ==> r[i] == Link(owner, ids[i])
  {
    seq(|ids|, i requires 0 <= i < |ids| => Link(owner, ids[i]))
  }

  /** Some id of `ids` is already linked to `owner`: computed by a query. */
  function AnyLinked(t: Table<Link>, owner: int, ids: seq<int>): (b: bool)
    requires Valid(t)
    ensures b <==> exists x :: x in ids && Linked(t, owner, x)
  {
    var hit := FindFirst(t, (e: Entry<Link>) => e.row.ownerId == owner && e.row.studentId in ids);
    if hit.Some? then
      assert hit.value.row == Link(owner, hit.value.row.studentId);
      true
    else
      false
  }

  /** Adds one row per id, committed together: the unique constraint refuses
      the batch when `ids` repeats an id or links an id already linked. */
  function Add(t: Table<Link>, owner: int, ids: seq<int>): (r: Result<Table<Link>, AppError>)
    requires Valid(t)
    ensures r.Err? <==> !Distinct(ids) || exists x :: x in ids && Linked(t, owner, x)
    ensures r.Err? ==> r.error == Database(UniqueViolation)
    ensures r.Ok? ==> Valid(r.value)
    ensures r.Ok? ==> forall o, x :: Linked(r.value, o, x) <==> Linked(t, o, x) || (o == owner && x in ids)
    ensures r.Ok? && PairsUnique(t) ==> PairsUnique(r.value)
    ensures r.Ok? ==> forall owners :: OwnedBy(t, owners) && owner in owners ==> OwnedBy(r.value, owners)
  {
    if !Distinct(ids) || AnyLinked(t, owner, ids) then Err(Database(UniqueViolation))
    else
      var u := InsertEach(t, LinkRows(owner, ids));
      InsertEachAddsLinks(t, u, owner, ids);
      LinkedAfterAdding(t, u, owner, ids);
      PairsUniqueAfterAdding(t, u, owner, ids);
      Ok(u)
  }

  /** `u` is `t` with one row `Link(owner, ids[i])` appended under each fresh
      key `t.nextId + i`, and nothing else: the old rows stay, every new key
      holds the link to its id, and every id is linked. */
  ghost predicate AddsLinks(t: Table<Link>, u: Table<Link>, owner: int, ids: seq<int>) {
    && (forall k :: k in t.rows ==> k in u.rows && u.rows[k] == t.rows[k])
    && (forall k :: k in u.rows && k !in t.rows ==>
          t.nextId <= k < t.nextId + |ids| && u.rows[k] == Link(owner, ids[k - t.nextId]))
    && (forall x :: x in ids ==> Linked(u, owner, x))
  }

  /** Inserting the owner's link rows appends exactly those links. */
  lemma InsertEachAddsLinks(t: Table<Link>, u: Table<Link>, owner: int, ids: seq<int>)
    requires Valid(t) && Appended(t, u, LinkRows(owner, ids))
    ensures AddsLinks(t, u, owner, ids)
  {
    assert forall k :: k in t.rows ==> k in u.rows && u.rows[k] == t.rows[k];
    InsertEachNewRows(t, u, owner, ids);
    InsertEachAppends(t, u, owner, ids);
  }

  /** Every key `InsertEach` added holds the owner's link to the matching id. */
  lemma InsertEachNewRows(t: Table<Link>, u: Table<Link>, owner: int, ids: seq<int>)
    requires Valid(t) && Appended(t, u, LinkRows(owner, ids))
    ensures forall k :: k in u.rows && k !in t.rows ==>
              t.nextId <= k < t.nextId + |ids| && u.rows[k] == Link(owner, ids[k - t.nextId])
  {
    var rows := LinkRows(owner, ids);
    forall k | k in u.rows && k !in t.rows
      ensures t.nextId <= k < t.nextId + |ids| && u.rows[k] == Link(owner, ids[k - t.nextId])
    {
      var i := k - t.nextId;
      assert u.rows[t.nextId + i] == rows[i];
    }
  }

  /** Each id gets a link under its own fresh key. */
  lemma InsertEachAppends(t: Table<Link>, u: Table<Link>, owner: int, ids: seq<int>)
    requires Valid(t) && Appended(t, u, LinkRows(owner, ids))
    ensures forall x :: x in ids ==> Linked(u, owner, x)
  {
    var rows := LinkRows(owner, ids);
    forall x | x in ids
      ensures Linked(u, owner, x)
    {
      var i :| 0 <= i < |ids| && ids[i] == x;
      LinkedAt(u, t.nextId + i, owner, x);
    }
  }

  /** A stored row is a witness for its pair. */
  lemma LinkedAt(t: Table<Link>, k: int, owner: int, student: int)
    requires k in t.rows && t.rows[k] == Link(owner, student)
    ensures Linked(t, owner, student)
  {
  }

  /** After appending, the owner is linked to `ids` on top of the old links. */
  lemma LinkedAfterAdding(t: Table<Link>, u: Table<Link>, owner: int, ids: seq<int>)
    requires AddsLinks(t, u, owner, ids)
    ensures forall o, x :: Linked(u, o, x) <==> Linked(t, o, x) || (o == owner && x in ids)
  {
    forall o, x | Linked(u, o, x)
      ensures Linked(t, o, x) || (o == owner && x in ids)
    {
      var k :| k in u.rows && u.rows[k] == Link(o, x);
      if k !in t.rows {
        assert ids[k - t.nextId] == x;
      }
    }
    forall o, x | Linked(t, o, x)
      ensures Linked(u, o, x)
    {
      var k :| k in t.rows && t.rows[k] == Link(o, x);
      assert u.rows[k] == Link(o, x);
    }
  }

  /** Appending distinct ids none of which was linked keeps every pair unique. */
  lemma PairsUniqueAfterAdding(t: Table<Link>, u: Table<Link>, owner: int, ids: seq<int>)
    requires AddsLinks(t, u, owner, ids)
    requires Distinct(ids) && forall x :: x in ids ==> !Linked(t, owner, x)
    ensures PairsUnique(t) ==> PairsUnique(u)
  {
    if PairsUnique(t) {
      forall k1, k2 | k1 in u.rows && k2 in u.rows && u.rows[k1] == u.rows[k2]
        ensures k1 == k2
      {
        if k1 in t.rows && k2 in t.rows {
          assert t.rows[k1] == t.rows[k2];
        } else if k1 !in t.rows && k2 !in t.rows {
          assert ids[k1 - t.nextId] == ids[k2 - t.nextId];
        } else if k1 in t.rows {
          NewRowIsNewLink(t, u, owner, ids, k2, k1);
        } else {
          NewRowIsNewLink(t, u, owner, ids, k1, k2);
        }
      }
    }
  }

  /** A row that was appended never equals a row that was there, when none of
      the ids was linked. */
  lemma NewRowIsNewLink(t: Table<Link>, u: Table<Link>, owner: int, ids: seq<int>, added: int, kept: int)
    requires AddsLinks(t, u, owner, ids)
    requires forall x :: x in ids ==> !Linked(t, owner, x)
    requires added in u.rows && added !in t.rows && kept in t.rows
    ensures u.rows[added] != u.rows[kept]
  {
    var x := ids[added - t.nextId];
    if u.rows[kept] == u.rows[added] {
      assert t.rows[kept] == Link(owner, x);
      assert Linked(t, owner, x);
      assert false;
    }
  }

  /** Deletes every row of `owner`; the other owners' rows stay. */
  function Drop(t: Table<Link>, owner: int): (r: Table<Link>)
    ensures Valid(t) ==> Valid(r)
    ensures forall o, x :: Linked(r, o, x) <==> Linked(t, o, x) && o != owner
    ensures forall k :: k in r.rows ==> k in t.rows && r.rows[k] == t.rows[k]
    ensures PairsUnique(t) ==> PairsUnique(r)
    ensures forall owners :: OwnedBy(t, owners) ==> OwnedBy(r, owners - {owner})
  {
    var r := DeleteWhere(t, (e: Entry<Link>) => e.row.ownerId == owner);
    assert forall o, x :: Linked(t, o, x) && o != owner ==> Linked(r, o, x) by {
      forall o, x | Linked(t, o, x) && o != owner
        ensures Linked(r, o, x)
      {
        var k :| k in t.rows && t.rows[k] == Link(o, x);
        assert k in r.rows;
      }
    }
    r
  }

  /** Marks the owner's rows deleted and adds one row per id, committed
      together. The ORM's flush writes a table's new rows before it deletes
      its old ones, so each new row meets the unique constraint while the
      owner's previous rows are still stored: a repeated id, or an id the
      owner is already linked to, refuses the whole replacement. Otherwise
      the owner ends up linked to exactly `ids`. */
  function ReplaceAll(t: Table<Link>, owner: int, ids: seq<int>): (r: Result<Table<Link>, AppError>)
    requires Valid(t)
    ensures r.Err? <==> !Distinct(ids) || exists x :: x in ids && Linked(t, owner, x)
    ensures r.Err? ==> r.error == Database(UniqueViolation)
    ensures r.Ok? ==> Valid(r.value)
    ensures r.Ok? ==> forall x :: Linked(r.value, owner, x) <==> x in ids
    ensures r.Ok? ==> forall o, x :: o != owner ==> (Linked(r.value, o, x) <==> Linked(t, o, x))
    ensures r.Ok? && PairsUnique(t) ==> PairsUnique(r.value)
    ensures r.Ok? ==> forall owners :: OwnedBy(t, owners) && owner in owners ==> OwnedBy(r.value, owners)
  {
    if AnyLinked(t, owner, ids) then Err(Database(UniqueViolation))
    else
      var d := Drop(t, owner);
      assert forall x :: !Linked(d, owner, x);
      var r := Add(d, owner, ids);
      assert r.Ok? ==> forall owners :: OwnedBy(t, owners) && owner in owners ==> OwnedBy(r.value, owners) by {
        if r.Ok? {
          forall owners | OwnedBy(t, owners) && owner in owners
            ensures OwnedBy(r.value, owners)
          {
            assert OwnedBy(d, owners - {owner});
            assert OwnedBy(d, owners);
          }
        }
      }
      r
  }

  /** A replacement that keeps a current student is refused: with owner 1
      linked to student 5, replacing its links by `[5, 7]` fails. */
  lemma ReplaceKeepingStudentFails()
    ensures ReplaceAll(Table(map[0 := Link(1, 5)], 1), 1, [5, 7]) == Err(Database(UniqueViolation))
  {
    var t := Table(map[0 := Link(1, 5)], 1);
    assert t.rows[0] == Link(1, 5);
    assert Linked(t, 1, 5);
  }

  /** The student ids linked to `owner`, in row-key order (the relationship
      read behind `student_ids` of a read model). */
  function StudentIds(t: Table<Link>, owner: int): (r: seq<int>)
    requires Valid(t)
    ensures forall x :: x in r <==> Linked(t, owner, x)
    ensures PairsUnique(t) ==> Distinct(r)
  {
    var sel := Select(t, (e: Entry<Link>) => e.row.ownerId == owner);
    var r := seq(|sel|, i requires 0 <= i < |sel| => sel[i].row.studentId);
    assert forall i :: 0 <= i < |sel| ==> sel[i].row == Link(owner, r[i]);
    assert forall x :: Linked(t, owner, x) ==> x in r by {
      forall x | Linked(t, owner, x)
        ensures x in r
      {
        var k :| k in t.rows && t.rows[k] == Link(owner, x);
        assert Entry(k, t.rows[k]) in sel;
        var i :| 0 <= i < |sel| && sel[i] == Entry(k, t.rows[k]);
        assert r[i] == x;
      }
    }
    assert PairsUnique(t) ==> Distinct(r) by {
      if PairsUnique(t) {
        forall i, j | 0 <= i < j < |r|
          ensures r[i] != r[j]
        {
          assert sel[i] in sel && sel[j] in sel;
          assert sel[i].id < sel[j].id;
        }
      }
    }
    r
  }
}
