/** User rules (app/services/user_service.py): an email identifies at most
    one user, and lookups normalise the email first. */
module UserService {
  import opened Wrappers
  import opened Errors
  import opened Tables
  import opened Models
  import UserRepo

  /** `create`: `EmailAlreadyUsed` iff a user is stored under the normalised
      email; otherwise the repository stores the payload as given, which the
      unique column can still refuse when the payload's email was not
      normalised. `hashedPassword` stands for the hash the caller supplies. */
  function Create(st: Store, data: UserRepo.UserCreate, hashedPassword: string): (r: Result<Saved<User>, AppError>)
    requires WellFormed(st)
    ensures UserRepo.EmailTaken(st, UserRepo.NormalEmail(data.email)) ==> r == Err(EmailAlreadyUsed)
    ensures r.Ok? <==> !UserRepo.EmailTaken(st, UserRepo.NormalEmail(data.email)) && !UserRepo.EmailTaken(st, data.email)
    ensures r.Err? && !UserRepo.EmailTaken(st, UserRepo.NormalEmail(data.email)) ==> r.error == Database(UniqueViolation)
    ensures r.Ok? ==> WellFormed(r.value.store)
    ensures r.Ok? ==> r.value.item.id !in st.users.rows
    ensures r.Ok? ==> r.value.item.row == User(data.email, data.firstName, data.lastName, data.role, hashedPassword)
    ensures r.Ok? ==> r.value.store.users.rows == st.users.rows[r.value.item.id := r.value.item.row]
    ensures r.Ok? ==> r.value.store == st.(users := r.value.store.users)
  {
    if UserRepo.GetByEmail(st, data.email).Some? then Err(EmailAlreadyUsed)
    else UserRepo.Create(st, data, hashedPassword)
  }

  function GetById(st: Store, id: int): (r: Result<User, AppError>)
    ensures r.Ok? <==> id in st.users.rows
    ensures r.Ok? ==> r.value == st.users.rows[id]
    ensures r.Err? ==> r.error == UserNotFound
  {
    match UserRepo.GetById(st, id)
    case None => Err(UserNotFound)
    case Some(u) => Ok(u)
  }

  /** `get_by_email`: `UserNotFound` iff nobody is stored under the
      normalised email. */
  function GetByEmail(st: Store, email: string): (r: Result<Entry<User>, AppError>)
    requires WellFormed(st)
    ensures r.Err? <==> !UserRepo.EmailTaken(st, UserRepo.NormalEmail(email))
    ensures r.Err? ==> r.error == UserNotFound
    ensures r.Ok? ==> r.value.id in st.users.rows && st.users.rows[r.value.id] == r.value.row
    ensures r.Ok? ==> r.value.row.email == UserRepo.NormalEmail(email)
  {
    match UserRepo.GetByEmail(st, email)
    case None => Err(UserNotFound)
    case Some(e) => Ok(e)
  }

  /** `update`: `UserNotFound` iff absent. There is no email check of the
      service's own: a taken email reaches the unique column. No hash is
      passed, so the password hash never changes. */
  function Update(st: Store, id: int, data: UserRepo.UserUpdate): (r: Result<Saved<User>, AppError>)
    requires WellFormed(st)
    ensures id !in st.users.rows ==> r == Err(UserNotFound)
    ensures id in st.users.rows ==>
              (r.Err? <==> UserRepo.EmailTakenByOther(st, id, data.email.GetOr(st.users.rows[id].email)))
    ensures r.Err? && id in st.users.rows ==> r.error == Database(UniqueViolation)
    ensures r.Ok? ==> r.value.item.id == id
    ensures r.Ok? ==> r.value.item.row.hashedPassword == st.users.rows[id].hashedPassword
    ensures r.Ok? ==> r.value.item.row == UserRepo.Merge(st.users.rows[id], data, None)
    ensures r.Ok? ==> r.value.store.users.rows == st.users.rows[id := r.value.item.row]
    ensures r.Ok? ==> r.value.store == st.(users := r.value.store.users)
  {
    match UserRepo.Update(st, id, data, None)
    case Err(e) => Err(e)
    case Ok(None) => Err(UserNotFound)
    case Ok(Some(saved)) => Ok(saved)
  }

  /** `delete`: `UserNotFound` iff absent. */
  function Delete(st: Store, id: int): (r: Result<Store, AppError>)
    ensures r.Err? <==> id !in st.users.rows
    ensures r.Err? ==> r.error == UserNotFound
    ensures r.Ok? ==> r.value.users.rows.Keys == st.users.rows.Keys - {id}
    ensures r.Ok? ==> forall k :: k in r.value.users.rows ==> r.value.users.rows[k] == st.users.rows[k]
    ensures r.Ok? ==> r.value == st.(users := r.value.users)
    ensures r.Ok? && WellFormed(st) ==> WellFormed(r.value)
  {
    var (after, found) := UserRepo.Delete(st, id);
    if found then Ok(after) else Err(UserNotFound)
  }

  /** The rule the `email` column's unique constraint enforces: no two users
      share an email. */
  ghost predicate EmailsUnique(rows: map<int, User>) {
    forall i, j :: i in rows && j in rows && rows[i].email == rows[j].email ==> i == j
  }

  /** Emails stay unique across a successful create. */
  lemma CreateKeepsEmailsUnique(st: Store, data: UserRepo.UserCreate, hashedPassword: string)
    requires WellFormed(st)
    requires EmailsUnique(st.users.rows)
    requires Create(st, data, hashedPassword).Ok?
    ensures EmailsUnique(Create(st, data, hashedPassword).value.store.users.rows)
  {
    var saved := Create(st, data, hashedPassword).value;
    var rows := saved.store.users.rows;
    forall i, j | i in rows && j in rows && rows[i].email == rows[j].email
      ensures i == j
    {
      if i != saved.item.id && j != saved.item.id {
        assert rows[i] == st.users.rows[i] && rows[j] == st.users.rows[j];
      }
    }
  }

  /** Emails stay unique across a successful update: the new email is taken
      by no other user, or the update is refused. */
  lemma UpdateKeepsEmailsUnique(st: Store, id: int, data: UserRepo.UserUpdate)
    requires WellFormed(st)
    requires EmailsUnique(st.users.rows)
    requires Update(st, id, data).Ok?
    ensures EmailsUnique(Update(st, id, data).value.store.users.rows)
  {
    var saved := Update(st, id, data).value;
    var rows := saved.store.users.rows;
    forall i, j | i in rows && j in rows && rows[i].email == rows[j].email
      ensures i == j
    {
      if i != id && j != id {
        assert rows[i] == st.users.rows[i] && rows[j] == st.users.rows[j];
      }
    }
  }

  /** After a successful delete the user is gone, every other user is still
      found, and emails stay unique. */
  lemma DeleteRemovesOnlyUser(st: Store, id: int, other: int)
    requires WellFormed(st)
    requires EmailsUnique(st.users.rows)
    requires Delete(st, id).Ok?
    ensures GetById(Delete(st, id).value, id) == Err(UserNotFound)
    ensures other != id ==> GetById(Delete(st, id).value, other) == GetById(st, other)
    ensures EmailsUnique(Delete(st, id).value.users.rows)
  {
    var rows := Delete(st, id).value.users.rows;
    forall i, j | i in rows && j in rows && rows[i].email == rows[j].email
      ensures i == j
    {
      assert rows[i] == st.users.rows[i] && rows[j] == st.users.rows[j];
    }
  }
}
