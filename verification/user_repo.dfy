/** Data access for users (app/repositories/user_repo.py) over the `users`
    table, whose `email` column is unique (app/models/user.py). */
module UserRepo {
  import opened Wrappers
  import opened Errors
  import opened Tables
  import opened Text
  import opened Models

  /** The creation payload; the password hash is computed by the caller. */
  datatype UserCreate = UserCreate(email: string, firstName: string, lastName: string, role: Role)

  /** A partial update: `None` marks a field the request did not supply. The
      payload has no password field, so none can be written through it. */
  datatype UserUpdate = UserUpdate(
    email: Option<string>,
    firstName: Option<string>,
    lastName: Option<string>,
    role: Option<Role>)

  /** Some user is registered under exactly that email. */
  ghost predicate EmailTaken(st: Store, email: string) {
    exists id :: id in st.users.rows && st.users.rows[id].email == email
  }

  /** How an email is looked up: lower-cased, then stripped. */
  function NormalEmail(email: string): (n: string)
    ensures IsStripped(n)
    ensures |n| <= |email|
  {
    Strip(Lower(email))
  }

  /** `create`: stores the payload with the given hash; the unique email
      column refuses an email already registered. */
  function Create(st: Store, data: UserCreate, hashedPassword: string): (r: Result<Saved<User>, AppError>)
    requires WellFormed(st)
    ensures r.Err? <==> EmailTaken(st, data.email)
    ensures r.Err? ==> r.error == Database(UniqueViolation)
    ensures r.Ok? ==> WellFormed(r.value.store)
    ensures r.Ok? ==> r.value.item.id !in st.users.rows
    ensures r.Ok? ==> r.value.item.row == User(data.email, data.firstName, data.lastName, data.role, hashedPassword)
    ensures r.Ok? ==> r.value.store.users.rows == st.users.rows[r.value.item.id := r.value.item.row]
    ensures r.Ok? ==> r.value.store == st.(users := r.value.store.users)
  {
    if FindFirst(st.users, (e: Entry<User>) => e.row.email == data.email).Some? then Err(Database(UniqueViolation))
    else
      var (t, e) := Insert(st.users, User(data.email, data.firstName, data.lastName, data.role, hashedPassword));
      Ok(Saved(st.(users := t), e))
  }

  function GetById(st: Store, id: int): (r: Option<User>)
    ensures r.Some? <==> id in st.users.rows
    ensures r.Some? ==> r.value == st.users.rows[id]
  {
    Get(st.users, id)
  }

  /** `get_by_email`: the user stored under the normalised email, if any. */
  function GetByEmail(st: Store, email: string): (r: Option<Entry<User>>)
    requires WellFormed(st)
    ensures r.None? <==> !EmailTaken(st, NormalEmail(email))
    ensures r.Some? ==> r.value.id in st.users.rows && st.users.rows[r.value.id] == r.value.row
    ensures r.Some? ==> r.value.row.email == NormalEmail(email)
  {
    var n := NormalEmail(email);
    FindFirst(st.users, (e: Entry<User>) => e.row.email == n)
  }

  /** `list`: a page of at most `min(limit, 100)` users in key order. */
  function List(st: Store, offset: int, limit: int): (r: Result<seq<Entry<User>>, AppError>)
    requires WellFormed(st)
    ensures r.Err? <==> offset < 0 || limit < 0
    ensures r.Err? ==> r.error == Database(NegativeLimit)
    ensures r.Ok? ==> |r.value| <= MaxPageSize && |r.value| <= limit
    ensures r.Ok? ==> forall i :: 0 <= i < |r.value| ==> r.value[i].id in st.users.rows && st.users.rows[r.value[i].id] == r.value[i].row
    ensures r.Ok? ==> Ascending(r.value)
    ensures r.Ok? && offset == 0 && |st.users.rows| <= Min(limit, MaxPageSize) ==>
              forall id :: id in st.users.rows ==> Entry(id, st.users.rows[id]) in r.value
    ensures r.Ok? ==> forall i :: 0 <= i < |r.value| ==> |KeysBelow(st.users.rows, r.value[i].id)| == offset + i
    ensures r.Ok? && offset + |r.value| < |st.users.rows| ==> |r.value| == Min(limit, MaxPageSize)
  {
    var any := (e: Entry<User>) => true;
    var all := Select(st.users, any);
    SelectCount(st.users, any);
    assert MatchingIds(st.users, any) == st.users.rows.Keys;
    match Page(all, offset, limit)
    case None => Err(Database(NegativeLimit))
    case Some(page) =>
      PageOfAscending(all, offset, limit);
      PageRank(st.users, any, offset, limit);
      assert forall i :: 0 <= i < |page| ==> IdsBelow(st.users.rows, any, page[i].id) == KeysBelow(st.users.rows, page[i].id);
      Ok(page)
  }

  /** Two consecutive pages of `n` users are the page of `2 * n` from the
      same offset. */
  lemma ListPagesJoin(st: Store, offset: int, n: int)
    requires WellFormed(st)
    requires 0 <= offset && 0 <= n && 2 * n <= MaxPageSize
    ensures List(st, offset, n).Ok? && List(st, offset + n, n).Ok? && List(st, offset, 2 * n).Ok?
    ensures List(st, offset, n).value + List(st, offset + n, n).value == List(st, offset, 2 * n).value
  {
    PagesJoin(Select(st.users, (e: Entry<User>) => true), offset, n);
  }

  /** Field-by-field merge of the supplied fields; the hash changes only when
      a new one is given. */
  function Merge(u: User, data: UserUpdate, hashedPassword: Option<string>): (m: User)
    ensures data.email.None? ==> m.email == u.email
    ensures data.email.Some? ==> m.email == data.email.value
    ensures data.firstName.None? ==> m.firstName == u.firstName
    ensures data.firstName.Some? ==> m.firstName == data.firstName.value
    ensures data.lastName.None? ==> m.lastName == u.lastName
    ensures data.lastName.Some? ==> m.lastName == data.lastName.value
    ensures data.role.None? ==> m.role == u.role
    ensures data.role.Some? ==> m.role == data.role.value
    ensures hashedPassword.None? ==> m.hashedPassword == u.hashedPassword
    ensures hashedPassword.Some? ==> m.hashedPassword == hashedPassword.value
  {
    User(
      data.email.GetOr(u.email),
      data.firstName.GetOr(u.firstName),
      data.lastName.GetOr(u.lastName),
      data.role.GetOr(u.role),
      hashedPassword.GetOr(u.hashedPassword))
  }

  /** Another user than `id` is registered under that email. */
  ghost predicate EmailTakenByOther(st: Store, id: int, email: string) {
    exists k :: k in st.users.rows && k != id && st.users.rows[k].email == email
  }

  /** `update`: `Ok(None)` when the key is absent; otherwise the merge, which
      the unique email column refuses when another user holds the email. */
  function Update(st: Store, id: int, data: UserUpdate, hashedPassword: Option<string>): (r: Result<Option<Saved<User>>, AppError>)
    requires WellFormed(st)
    ensures id !in st.users.rows ==> r == Ok(None)
    ensures id in st.users.rows ==>
              (r.Err? <==> EmailTakenByOther(st, id, Merge(st.users.rows[id], data, hashedPassword).email))
    ensures r.Err? ==> r.error == Database(UniqueViolation)
    ensures r.Ok? && r.value.Some? ==>
              id in st.users.rows && r.value.value.item == Entry(id, Merge(st.users.rows[id], data, hashedPassword))
    ensures r.Ok? && r.value.Some? ==> r.value.value.store.users.rows == st.users.rows[id := r.value.value.item.row]
    ensures r.Ok? && r.value.Some? ==> r.value.value.store == st.(users := r.value.value.store.users)
    ensures r.Ok? && r.value.Some? ==> WellFormed(r.value.value.store)
  {
    if id !in st.users.rows then Ok(None)
    else
      var m := Merge(st.users.rows[id], data, hashedPassword);
      if FindFirst(st.users, (e: Entry<User>) => e.id != id && e.row.email == m.email).Some? then Err(Database(UniqueViolation))
      else Ok(Some(Saved(st.(users := Replace(st.users, id, m)), Entry(id, m))))
  }

  function Delete(st: Store, id: int): (r: (Store, bool))
    ensures r.1 <==> id in st.users.rows
    ensures !r.1 ==> r.0 == st
    ensures r.0.users.rows.Keys == st.users.rows.Keys - {id}
    ensures forall k :: k in r.0.users.rows ==> r.0.users.rows[k] == st.users.rows[k]
    ensures r.0 == st.(users := r.0.users)
    ensures WellFormed(st) ==> WellFormed(r.0)
  {
    var (t, found) := Tables.Delete(st.users, id);
    (st.(users := t), found)
  }
}
