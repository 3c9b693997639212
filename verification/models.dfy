/** The persisted entities (the model classes of the application) and the store that holds them.
    Timestamps are `Dates` seconds; record keys live in the tables, not in
    the records. Columns filled from the wall clock only at creation
    (`registered_at`, `created_at`, `updated_at`) are not represented,
    except `enrolled_at`, whose value is passed in. */
module Models {
  import opened Wrappers
  import opened Tables

  datatype Role = Admin | Trainer | Learner

  datatype Level = Beginner | Intermediate | Advanced

  datatype SessionStatus = Scheduled | Ongoing | Completed

  datatype User = User(
    email: string,
    firstName: string,
    lastName: string,
    role: Role,
    hashedPassword: string)

  datatype Formation = Formation(
    title: string,
    description: Option<string>,
    durationHours: int,
    level: Level)

  datatype Session = Session(
    formationId: int,
    teacherId: int,
    startDate: int,
    endDate: int,
    capacityMax: int,
    status: SessionStatus)

  datatype Enrollment = Enrollment(sessionId: int, studentId: int, enrolledAt: int)

  /** One signed day: `date` is the timestamp of that day's midnight. */
  datatype Signature = Signature(sessionId: int, userId: int, date: int)

  datatype Brief = Brief(
    title: string,
    description: Option<string>,
    deliveryDeadline: int,
    order: int,
    sessionId: int)

  /** A row of an association table: `brief_students` (the owner is a
      brief) or `group_members` (the owner is a group). Both tables carry a
      unique constraint on the (owner, student) pair. */
  datatype Link = Link(ownerId: int, studentId: int)

  datatype Group = Group(sessionId: int, name: string)

  /** The whole database: one table per entity. */
  datatype Store = Store(
    users: Table<User>,
    formations: Table<Formation>,
    sessions: Table<Session>,
    enrollments: Table<Enrollment>,
    signatures: Table<Signature>,
    briefs: Table<Brief>,
    briefStudents: Table<Link>,
    groups: Table<Group>,
    groupMembers: Table<Link>)

  /** What a successful write hands back: the new store and the row written. */
  datatype Saved<T> = Saved(store: Store, item: Entry<T>)

  /** Every table's keys came from its sequence. */
  ghost predicate WellFormed(st: Store) {
    && Valid(st.users)
    && Valid(st.formations)
    && Valid(st.sessions)
    && Valid(st.enrollments)
    && Valid(st.signatures)
    && Valid(st.briefs)
    && Valid(st.briefStudents)
    && Valid(st.groups)
    && Valid(st.groupMembers)
  }

  function EmptyStore(): (st: Store)
    ensures WellFormed(st)
  {
    Store(Empty(), Empty(), Empty(), Empty(), Empty(), Empty(), Empty(), Empty(), Empty())
  }
}
