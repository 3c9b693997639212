# gest_simplon_api booking rules in Dafny

This project models the booking and consistency rules of gest_simplon_api, a
FastAPI back end for a training organisation. Formations are courses.
Sessions are dated runs of a formation led by a teacher. Students enroll in
sessions up to each session's capacity. They sign an attendance sheet once
per day of a session. Briefs (assignments) and groups link a session to a
set of students.

The database is a functional `Store`. It holds one `Table` per database
table. A table is a finite map from primary key to row plus the next
autoincrement key. Every repository and service call is a pure function
from a store and a payload to a `Result`. A successful write returns the new
store together with the saved `Entry(id, row)`. An error returns only the
error, so a refused call cannot have changed anything. The errors are the
application's own error classes plus `Database(UniqueViolation)` for a
unique constraint the database enforces and `Database(NegativeLimit)` for
the negative `OFFSET`/`LIMIT` that PostgreSQL refuses.

Modules follow the source files:

- `SessionSchema`, `FormationSchema`: the payload validators.
- `SessionRepo`, `EnrollmentRepo`, `SignatureRepo`, `FormationRepo`,
  `UserRepo`, `BriefRepo`, `GroupRepo`: the repositories.
- `SessionService`, `EnrollmentService`, `SignatureService`,
  `FormationService`, `UserService`, `BriefService`, `GroupService`: the
  services.
- `Invariants`: the whole-store rules, and which operations keep them.

The helper modules are:

- `Wrappers`: `Option` and `Result`.
- `Errors`: the error datatype.
- `Dates`: timestamps in seconds and calendar days.
- `Text`: ASCII `strip`, `lower` and substring search.
- `Tables`: the generic table, key-ordered queries and `OFFSET`/`LIMIT` paging with the 100-row cap.
- `Links`: the `brief_students` and `group_members` link tables.
- `Models`: the rows and the store.

Datetimes are integer timestamps. A calendar day is `DayOf(ts)`, which is
floor division by 86400. The wall clock (`utcnow` for `enrolled_at`,
`date.today()` for a signature without a date) is a parameter. Apart from
the signature history, the queries have no `ORDER BY`, so the database may
return their rows in any order. The model fixes one permitted order,
ascending key order: a list comes back in key order, and `.first()` is the
matching row with the smallest key.

## Model

| member | source | states |
|---|---|---|
| SessionSchema.ValidateCreate | app/schemas/session.py:35-43 | A create payload is refused iff start is not before end; an accepted one has start < end and capacity raised to at least 1, every other field as given |
| SessionSchema.ValidateUpdate | app/schemas/session.py:65-76 | An update payload is refused only when both dates are given and out of order; a given capacity is raised to at least 1, an absent one stays absent |
| SessionRepo.Create | app/repositories/session_repo.py:29-35 | Adds exactly one session under a fresh key, built from the payload; no other row or table changes |
| SessionRepo.List | app/repositories/session_repo.py:45-52 | A negative offset or limit is a database error. Otherwise the page holds at most 100 and at most `limit` stored sessions in (model) key order, and the session at position `i` has exactly `offset + i` stored keys below its own. The page is full unless the sessions run out, and a first page that is not full holds every stored session |
| SessionRepo.Update | app/repositories/session_repo.py:54-64 | None iff the key is absent; otherwise only the supplied fields are overwritten and every other session is unchanged |
| SessionRepo.Delete | app/repositories/session_repo.py:66-73 | True iff the key existed; exactly that session is removed; the store is unchanged when it was absent |
| SessionRepo.GetById | app/repositories/session_repo.py:37-39 | None iff the key is absent, otherwise the stored session |
| SessionRepo.ListByFormationId | app/repositories/session_repo.py:75-81 | Exactly the stored sessions of that formation, in key order |
| SessionRepo.ListByTeacherId | app/repositories/session_repo.py:83-89 | Exactly the stored sessions of that teacher, in key order |
| SessionRepo.GetByFormationId | app/repositories/session_repo.py:91-95 | None iff no session has that formation; otherwise the stored session of that formation with the smallest key |
| SessionRepo.GetByTeacherId | app/repositories/session_repo.py:97-101 | None iff no session has that teacher; otherwise the stored session of that teacher with the smallest key |
| SessionRepo.GetByStartDate | app/repositories/session_repo.py:103-107 | None iff no session starts at that instant; otherwise the stored session starting then with the smallest key |
| SessionRepo.GetByEndDate | app/repositories/session_repo.py:109-113 | None iff no session ends at that instant; otherwise the stored session ending then with the smallest key |
| SessionService.Create | app/services/session_service.py:36-53 | Errors come in a fixed order: formation, then teacher (existence only, never the role), then date order, then taken start, then taken end. Success iff all five checks pass; the new session has start < end and shares neither date with an existing one |
| SessionService.GetById | app/services/session_service.py:55-60 | SessionNotFound iff the key is absent, otherwise the stored session |
| SessionService.List | app/services/session_service.py:62-64 | A database error iff offset or limit is negative. Otherwise the page of at most 100 sessions that starts `offset` keys in, full unless the sessions run out; a first page that is not full holds every stored session |
| SessionService.ListPagesJoin | app/repositories/session_repo.py:45-52 | Under the model's key order, two consecutive pages of `n` sessions are the page of `2n` from the same offset |
| SessionService.Update | app/services/session_service.py:66-91 | SessionNotFound first, then only a supplied formation or teacher is checked, then the effective dates must be ordered; only the merged session changes; an ordered session stays ordered |
| SessionService.Delete | app/services/session_service.py:93-98 | SessionNotFound iff absent; otherwise exactly that session is removed |
| SessionService.DeleteTwice | app/services/session_service.py:93-98 | Deleting a session a second time raises SessionNotFound |
| SessionService.GetByFormationId | app/services/session_service.py:108-113 | SessionNotFound iff no session has that formation; otherwise the stored one with the smallest key |
| SessionService.GetByTeacherId | app/services/session_service.py:115-120 | SessionNotFound iff no session has that teacher; otherwise the stored one with the smallest key |
| SessionService.GetByStartDate | app/services/session_service.py:122-127 | SessionNotFound iff no session starts at that instant; otherwise the stored one with the smallest key |
| SessionService.GetByEndDate | app/services/session_service.py:129-134 | SessionNotFound iff no session ends at that instant; otherwise the stored one with the smallest key |
| EnrollmentRepo.Create | app/repositories/enrollment_repo.py:18-24 | Adds one enrollment for the pair stamped with the clock; the pair's unique constraint refuses it iff the pair is already enrolled |
| EnrollmentRepo.GetById | app/repositories/enrollment_repo.py:26-28 | None iff the key is absent, otherwise the stored enrollment |
| EnrollmentRepo.List | app/repositories/enrollment_repo.py:34-36 | Exactly the stored enrollments, in key order |
| EnrollmentRepo.Update | app/repositories/enrollment_repo.py:38-48 | None iff absent; merges only the supplied ids; refused by the unique constraint iff another enrollment holds the merged pair |
| EnrollmentRepo.Delete | app/repositories/enrollment_repo.py:50-57 | True iff the key existed; only that enrollment is removed |
| EnrollmentRepo.ListBySessionId | app/repositories/enrollment_repo.py:59-61 | Exactly the session's enrollments in key order; their number is the session's head count |
| EnrollmentRepo.ListByStudentId | app/repositories/enrollment_repo.py:63-65 | Exactly the student's enrollments, in key order |
| EnrollmentRepo.GetBySessionIdAndStudentId | app/repositories/enrollment_repo.py:67-69 | None iff no enrollment matches both ids |
| EnrollmentService.Create | app/services/enrollment_service.py:41-57 | Errors in order: session, user, full session (head count at or above capacity, even for an enrolled student), duplicate pair. Success iff all pass; the head count grows by exactly one and stays within capacity, other sessions' counts are unchanged, and the pair is unique afterwards |
| EnrollmentService.GetById | app/services/enrollment_service.py:59-64 | EnrollmentNotFound iff absent |
| EnrollmentService.Update | app/services/enrollment_service.py:70-75 | EnrollmentNotFound iff absent; no capacity or duplicate check of its own, so only the database constraint can refuse |
| EnrollmentService.Delete | app/services/enrollment_service.py:77-79 | Returns false, without an error, when absent; otherwise removes exactly that enrollment, every other enrollment row and every other table unchanged |
| EnrollmentService.GetBySessionIdAndStudentId | app/services/enrollment_service.py:89-94 | EnrollmentNotFound iff the pair is not enrolled |
| EnrollmentService.CreateTwiceFails | app/services/enrollment_service.py:52-56 | Enrolling the same pair twice fails the second time |
| SignatureRepo.Create | app/repositories/signature_repo.py:25-32 | Stores the signature at midnight of the given day, and afterwards a signature exists for that day |
| SignatureRepo.GetById | app/repositories/signature_repo.py:34-36 | None iff the key is absent, otherwise the stored signature |
| SignatureRepo.ExistsForDate | app/repositories/signature_repo.py:38-50 | True iff a signature of that session and user is dated at that day's midnight |
| SignatureRepo.ListBySessionAndDate | app/repositories/signature_repo.py:52-62 | Exactly the session's signatures on that day |
| SignatureRepo.ListBySessionAndUser | app/repositories/signature_repo.py:64-75 | Exactly that session and user's signatures, sorted by ascending date, a permutation of the matching rows |
| SignatureService.Sign | app/services/signature_service.py:36-61 | Errors in order: session, day outside the session's first to last calendar day, signer not enrolled, already signed that day. Success iff all pass; the stored date is the day's midnight and the (session, user, day) triple is unique |
| SignatureService.GetById | app/services/signature_service.py:63-70 | SignatureNotFound iff absent |
| SignatureService.ListBySessionAndDate | app/services/signature_service.py:72-78 | SessionNotFound iff the session is absent; otherwise the repository list |
| SignatureService.ListBySessionAndUser | app/services/signature_service.py:80-86 | SessionNotFound iff the session is absent; otherwise exactly that session and user's signatures, sorted by date, a permutation of the matching rows |
| SignatureService.SignTwiceFails | app/services/signature_service.py:58-59 | Signing again for the same day is refused with SignatureAlreadyExistsForDate |
| SignatureService.SignJoinsHistory | app/services/signature_service.py:42-61 | After a successful signature the user's history for the session holds exactly the previous entries plus the new one |
| FormationSchema.ValidateCreate | app/schemas/formation.py:27-39 | The post-init hook runs before the after-validator, so the duration is raised to max(1, d) first: refused iff the stripped title is shorter than 2 (TitleTooShort, checked first) or the duration exceeds 10000; an accepted payload has the stripped title, the clamped duration, and None for a blank description |
| FormationSchema.ValidatedCreateIsFixed | app/schemas/formation.py:27-39 | An accepted create payload has a title of at least 2 characters and a duration in 1..10000, and validating it again returns it unchanged |
| FormationSchema.ValidateUpdate | app/schemas/formation.py:58-74 | Only supplied fields are validated, after the post-init hook: refused iff a supplied title strips to fewer than 2 characters or a supplied duration exceeds 10000; supplied strings are stripped and a supplied duration is raised to max(1, d) |
| FormationSchema.ValidatedUpdateIsFixed | app/schemas/formation.py:58-74 | Every supplied field of an accepted update payload meets the validator's rules, and validating it again returns it unchanged |
| FormationRepo.Create | app/repositories/formation_repo.py:29-35 | Adds exactly one formation under a fresh key |
| FormationRepo.GetById | app/repositories/formation_repo.py:37-39 | None iff the key is absent, otherwise the stored formation |
| FormationRepo.GetByTitle | app/services/formation_service.py:22-28 | None iff no formation has exactly that title |
| FormationRepo.List | app/repositories/formation_repo.py:45-67 | A negative offset or limit is a database error. Otherwise at most 100 and at most `limit` rows in key order. Every row has the requested level and contains the stripped needle case-insensitively. A blank needle filters nothing. A first page leaves out a matching row only when it is full. The row at position `i` has exactly `offset + i` matching keys below its own, and the page is full unless the matching rows run out |
| FormationRepo.ListPagesJoin | app/repositories/formation_repo.py:45-67 | Under the model's key order, two consecutive pages of `n` matching formations are the page of `2n` from the same offset |
| FormationRepo.Update | app/repositories/formation_repo.py:69-79 | None iff absent; only the supplied fields change |
| FormationRepo.Delete | app/repositories/formation_repo.py:81-88 | True iff the key existed; only that formation is removed |
| FormationService.Create | app/services/formation_service.py:30-35 | FormationTitleAlreadyUsed iff a formation already has the stripped title; otherwise one formation is added |
| FormationService.GetById | app/services/formation_service.py:37-42 | FormationNotFound iff absent |
| FormationService.UpdateAsWritten | app/services/formation_service.py:59-71 | FormationNotFound first; the title lookup is skipped when the new title matches the current one case-insensitively |
| FormationService.UpdateAsWrittenDuplicatesTitle | app/services/formation_service.py:62-67 | On two formations spelled "Dafny" and "DAFNY", renaming the first to "DAFNY" is accepted and leaves two formations with the same exact title |
| FormationService.Update | app/services/formation_service.py:59-71 | FormationNotFound first; FormationTitleAlreadyUsed iff another formation holds the new title exactly |
| FormationService.UpdateRefusesDuplicateSpelling | app/services/formation_service.py:62-67 | The corrected update refuses the rename that the code as written accepts |
| FormationService.CreateKeepsTitlesUnique | app/services/formation_service.py:30-35 | A validated create keeps formation titles pairwise distinct |
| FormationService.UpdateKeepsTitlesUnique | app/services/formation_service.py:59-71 | A validated corrected update keeps formation titles pairwise distinct |
| FormationService.Delete | app/services/formation_service.py:73-78 | FormationNotFound iff absent; only that formation is removed |
| UserRepo.Create | app/repositories/user_repo.py:29-37 | Adds one user with the given hash; the unique email constraint refuses it iff the email is stored already |
| UserRepo.GetById | app/repositories/user_repo.py:39-41 | None iff the key is absent, otherwise the stored user |
| UserRepo.GetByEmail | app/repositories/user_repo.py:43-46 | None iff no stored email equals the stripped, lower-cased one; otherwise a user with that email |
| UserRepo.List | app/repositories/user_repo.py:48-53 | Database error iff offset or limit is negative. Otherwise at most 100 and at most `limit` users in (model) key order, the user at position `i` having exactly `offset + i` stored keys below its own; full unless the users run out, and all of them when they fit on the first page |
| UserRepo.ListPagesJoin | app/repositories/user_repo.py:48-53 | Under the model's key order, two consecutive pages of `n` users are the page of `2n` from the same offset |
| UserRepo.Update | app/repositories/user_repo.py:55-70 | None iff absent; merges the supplied fields and replaces the hash only when one is given; refused iff another user holds the new email |
| UserRepo.Delete | app/repositories/user_repo.py:72-79 | True iff the key existed; only that user is removed |
| UserService.Create | app/services/user_service.py:20-24 | EmailAlreadyUsed when the normalised email is taken; success iff neither the normalised nor the given email is stored |
| UserService.GetById | app/services/user_service.py:26-30 | UserNotFound iff absent |
| UserService.GetByEmail | app/services/user_service.py:32-37 | UserNotFound iff no user has the normalised email |
| UserService.Update | app/services/user_service.py:43-47 | UserNotFound iff absent; no email check of its own, so a taken email is refused by the database; the password hash is never changed |
| UserService.Delete | app/services/user_service.py:49-53 | UserNotFound iff absent; otherwise exactly that user is removed, every other user is unchanged and no other table changes |
| UserService.CreateKeepsEmailsUnique | app/services/user_service.py:20-24 | Creating a user keeps stored emails pairwise distinct |
| UserService.UpdateKeepsEmailsUnique | app/services/user_service.py:43-47 | An accepted update keeps stored emails pairwise distinct, because the unique column refuses an email another user holds |
| UserService.DeleteRemovesOnlyUser | app/services/user_service.py:49-53 | After a delete the user is not found, every other user is found as before, and emails stay pairwise distinct |
| Links.Add | app/repositories/brief_repo.py:34-37 | Adds one link per id; the link table's unique constraint refuses repeated ids or an existing link; pair uniqueness is kept |
| Links.ReplaceAll | app/repositories/brief_repo.py:71-79 | The new rows are flushed before the old ones are deleted, so the unique constraint refuses the replacement iff the ids repeat or one of them is already linked to the owner; otherwise the owner's links become exactly the given ids and other owners' links are unchanged |
| Links.ReplaceKeepingStudentFails | app/repositories/group_repo.py:50-58 | Replacing the members {5} of a group by [5, 7] is refused with a unique violation |
| Links.StudentIds | app/repositories/group_repo.py:37-42 | Exactly the owner's linked student ids, without repetition when pairs are unique |
| GroupRepo.Create | app/repositories/group_repo.py:16-27 | Stores the stripped name and one member row per given id; None means no members |
| GroupRepo.GetById | app/repositories/group_repo.py:29-30 | None iff the key is absent, otherwise the stored group |
| GroupRepo.ListBySessionId | app/repositories/group_repo.py:32-35 | Exactly the stored groups of that session, in key order |
| GroupRepo.GetStudentIds | app/repositories/group_repo.py:37-42 | Exactly the group's member ids |
| GroupRepo.Update | app/repositories/group_repo.py:44-60 | None iff absent; refused iff a supplied member list repeats an id or keeps a current member; the name changes only if supplied; the members are replaced only if a list is supplied |
| GroupRepo.Delete | app/repositories/group_repo.py:62-70 | True iff the group existed; the group and all its members are removed, other groups' members are kept |
| GroupService.ToRead | app/services/group_service.py:13-21 | The read view's student ids are exactly the group's members |
| GroupService.ReadAll | app/services/group_service.py:45-47 | The groups are read in list order; every listed group is read |
| GroupService.ReadStored | app/services/group_service.py:45-47 | Reading stored groups in key order gives views that show the stored fields and members, in key order |
| GroupService.Create | app/services/group_service.py:33-37 | SessionNotFound first; otherwise the repository create |
| GroupService.GetById | app/services/group_service.py:39-43 | GroupNotFound iff absent; otherwise the stored group's session and name with exactly its members |
| GroupService.ListBySessionId | app/services/group_service.py:45-47 | One view per stored group of the session and no other, in key order; each view has the stored session and name and exactly the group's members |
| GroupService.Update | app/services/group_service.py:49-57 | GroupNotFound iff absent; otherwise refused iff the given member list repeats an id or keeps a current member; the name changes only if given and the session never; the members become exactly the list; other groups, their members and the other tables are unchanged; owned and unique member pairs stay so |
| GroupService.Delete | app/services/group_service.py:59-62 | GroupNotFound iff absent; otherwise the group and its members go, other groups and their members are unchanged, and owned and unique member pairs stay so |
| GroupService.UpdateReadsBack | app/services/group_service.py:49-57 | Replacing the members with distinct ids, none a current member, succeeds; reading the group back gives exactly those ids, once each when pairs are unique, under the same session; owned and unique member pairs stay so |
| BriefRepo.Create | app/repositories/brief_repo.py:27-39 | Stores the brief and exactly one link per given student |
| BriefRepo.GetById | app/repositories/brief_repo.py:41-42 | None iff the key is absent, otherwise the stored brief |
| BriefRepo.List | app/repositories/brief_repo.py:47-48 | Exactly the stored briefs, in key order |
| BriefRepo.ListBySessionId | app/repositories/brief_repo.py:50-53 | Exactly the stored briefs of that session, in key order |
| BriefRepo.ListByStudentId | app/repositories/brief_repo.py:55-62 | Exactly the briefs linked to that student |
| BriefRepo.Update | app/repositories/brief_repo.py:64-81 | None iff absent; refused iff a given list repeats an id or keeps a currently linked student; otherwise it replaces the brief's links exactly; None leaves the links unchanged |
| BriefRepo.Delete | app/repositories/brief_repo.py:83-91 | True iff the brief existed; the brief and all its links are removed |
| BriefService.ToRead | app/services/brief_service.py:16-29 | The read view's student ids are exactly the brief's links |
| BriefService.ReadAll | app/services/brief_service.py:65-75 | The briefs are read in list order; each view comes from a listed brief and every listed brief is read |
| BriefService.ReadStored | app/services/brief_service.py:65-75 | Reading stored briefs in key order gives views that show the stored fields and links, in key order |
| BriefService.ResolveStudentIds | app/services/brief_service.py:43-50 | A given group wins and yields its members (GroupNotFound if absent); otherwise the given ids or the empty list |
| BriefService.Create | app/services/brief_service.py:52-57 | SessionNotFound before the students are resolved, then GroupNotFound; on success the brief's links are exactly the resolved students |
| BriefService.GetById | app/services/brief_service.py:59-63 | BriefNotFound iff absent; otherwise the stored title, description, deadline, order and session with exactly the linked students |
| BriefService.List | app/services/brief_service.py:65-67 | One view per stored brief and no other, in key order; each shows the stored fields and exactly the linked students |
| BriefService.ListBySessionId | app/services/brief_service.py:69-71 | One view per stored brief of the session and no other, in key order; each shows the stored fields and exactly the linked students |
| BriefService.ListByStudentId | app/services/brief_service.py:73-75 | One view per stored brief linked to the student and no other, in key order; each shows the stored fields and exactly the linked students |
| BriefService.Update | app/services/brief_service.py:77-89 | BriefNotFound first; explicit ids win over the group, the reverse of create, and succeed iff they are distinct and none is linked yet; a group succeeds iff none of its members is linked yet; any other refusal is a unique violation; with neither, the links are untouched; only this brief and its links change, and owned and unique link pairs stay so |
| BriefService.Delete | app/services/brief_service.py:91-94 | BriefNotFound iff absent; otherwise the brief and its links go, other briefs and their links are unchanged, and owned and unique link pairs stay so |
| BriefService.UpdateByGroupReadsMembers | app/services/brief_service.py:77-89 | After an update that assigns a group, reading the brief back lists exactly the group's members with the merged title |
| Invariants.CreateKeepsSessionsOrdered | app/services/session_service.py:47-53 | Creating a session keeps every session's start before its end |
| Invariants.CreateKeepsSessionDatesUnique | app/services/session_service.py:49-52 | Creating a session keeps start dates, and end dates, pairwise distinct |
| Invariants.UpdateKeepsSessionsOrdered | app/services/session_service.py:79-87 | An accepted session update keeps every session ordered |
| Invariants.UpdateCanDuplicateStartDate | app/services/session_service.py:66-91 | An accepted update can give two sessions the same start date |
| Invariants.CreateKeepsEnrollmentPairsUnique | app/services/enrollment_service.py:55-57 | Creating an enrollment keeps (session, student) pairs unique |
| Invariants.UpdateKeepsEnrollmentPairsUnique | app/models/enrollment.py:35-37 | An accepted enrollment update keeps pairs unique, through the database constraint |
| Invariants.CreateKeepsWithinCapacity | app/services/enrollment_service.py:52-57 | Creating an enrollment keeps every session within its capacity |
| Invariants.DeleteUnenrolls | app/services/enrollment_service.py:77-79 | Deleting an enrollment un-enrolls its pair while pairs are unique, and keeps pairs unique and every session within capacity |
| Invariants.UpdateCanOverfillSession | app/services/enrollment_service.py:70-75 | An accepted enrollment update can move a student into a full session |
| Invariants.SignKeepsSignatureRules | app/services/signature_service.py:42-61 | Signing keeps signatures unique per day, dated at midnight, and given by enrolled students |
| Text.ContainsIgnoreCase | app/repositories/formation_repo.py:63-66 | True iff the lower-cased needle occurs in the lower-cased text |
| Text.StripIdempotent | app/schemas/formation.py:36-37 | Stripping a stripped title or description changes nothing, so the validators may strip a value that is already stripped |
| Text.LowerIdempotent | app/repositories/user_repo.py:45 | Lower-casing a lower-cased email changes nothing, so normalising a normalised email is harmless |
| Dates.DayOfStartOfDay | app/repositories/signature_repo.py:25-28 | A sign date stored at midnight reads back as the same day |
| Tables.Page | app/repositories/formation_repo.py:59-60 | None iff the offset or the capped limit is negative; otherwise a contiguous slice from the offset of at most min(limit, 100) rows, and a full one unless the input runs out |

## Left out

- HTTP routing, dependency injection and ISO date parsing are not modelled; they are framework plumbing.
- Authentication is not modelled: password hashing, JWT and login are foreign library calls. The hash is an input string.
- Database sessions, commits, refreshes and Alembic migrations are not modelled. The store stands in for the committed state.
- Transactions and concurrency are not modelled. Each call runs alone, so the window between the capacity check and the insert does not exist here.
- Foreign keys are not modelled. A row may name a session, user or group that is absent. In the source, deleting a session that has enrollments fails: the ORM sets the enrollments' non-null `session_id` to null and the database refuses it. The same holds for a formation with sessions and for a user with sessions or enrollments. The model deletes the row and leaves the dependants in place.
- `EmailStr` syntax validation and enum string coercion are not modelled. Role, Level and SessionStatus are closed datatypes.
- Strings are ASCII. `strip`, `lower` and `ILIKE` ignore Unicode, and `%` or `_` in a `title_contains` needle are treated as ordinary characters rather than LIKE wildcards.
- An explicit `null` in a partial update is treated as an absent field. The source's `model_dump(exclude_unset=True)` would write the null; the model never nulls a stored field.
- Timestamps are naive integer seconds. Time zones are not modelled.
- `SessionService.get_by_formation_id_and_teacher_id` is not modelled. It calls a repository method that the repository does not define.
- `exists` helpers in the repositories and `SessionService.exists` are not modelled. They only wrap `get_by_id`.
- Within one flush, only the insert-before-delete order for the link tables is modelled. No other flush ordering matters to the model.
- `FormationRepo.GetByTitle`: `FormationRepository` (app/repositories/formation_repo.py) defines no `get_by_title`. As written, `create`, and `update` whenever it looks the title up, raise `AttributeError`. The model supplies an exact-title lookup in its place.
- `UserService.Create`: the source calls the repository's `create` without the keyword-only `hashed_password`. As written that call fails with a `TypeError`. The model passes the hash in as a parameter instead.
- `UserRepo.Create`: the user table's model shows no `hashed_password` column, although a migration adds one. The model keeps the hash on the user row.
- `SessionService.Create`: the teacher only has to exist, as the code does. The integration tests expect `USER_NOT_TRAINER` for a non-trainer; the model follows the code.
- `EnrollmentService.Delete`: returns false for a missing enrollment, as the code does. The integration tests expect a 404; the model follows the code.
- `UserService.Update`: has no email-uniqueness check of its own, as the code does. A taken email is refused by the database constraint rather than with the 409 the tests expect.
- `BriefService.Create`, `BriefRepo.Create`: the repository commits the brief before it adds the links (app/repositories/brief_repo.py:31-38). With a repeated student id the brief row would remain although the call fails. The model refuses the whole call and leaves the store unchanged.
- `GroupService.Create`, `GroupRepo.Create`: same partial commit as briefs (app/repositories/group_repo.py:17-26). A repeated member id fails the whole call in the model.
- `BriefRepo.BriefCreate`, `BriefRepo.BriefUpdate`, `BriefService.ToRead`: the brief schemas (app/schemas/brief.py) define neither `student_ids` nor `group_id`, and carry `descritpion` and a single `student_id` instead. As written, the service's reads of `data.student_ids` and `data.group_id` raise `AttributeError`, and `BriefRead` requires a `student_id` that the service never supplies, so its validation always fails. The model follows the service's reading: payloads carry optional `studentIds` and `groupId`, and the read view lists the linked students.
- `SessionService.ListPagesJoin`, `UserRepo.ListPagesJoin`, `FormationRepo.ListPagesJoin`, `SessionRepo.List`, `SessionService.List`, `UserRepo.List`, `FormationRepo.List`, `SessionRepo.GetByFormationId`, `SessionRepo.GetByTeacherId`, `SessionRepo.GetByStartDate`, `SessionRepo.GetByEndDate` and the service lookups over them: the source's queries carry no `ORDER BY`, so PostgreSQL may return rows in any order, and separate `OFFSET`/`LIMIT` queries need not agree with each other. The model fixes ascending key order as one permitted outcome. The key-order and rank clauses, the smallest-key choice of `.first()` and paging consistency are properties of that choice, not promises of the source.
- `SignatureService.Sign`: the schema (app/schemas/signature.py:22) declares `date: Optional[date] = None`. The assignment runs before the annotation is evaluated, so `date` in the annotation is already `None` and the field's type becomes `NoneType`. As written, a request that supplies a date fails validation, and every signature is dated `date.today()`. The model's `date: Option<int>` accepts a supplied day, following the evident intent.
- `SignatureRepo.Create`: the signature table has no unique constraint. Uniqueness per day comes only from the service's check.
- `Invariants.WithinCapacity`: only enrollment creation is shown to keep it. A session update that lowers the capacity can break it, and `UpdateCanOverfillSession` shows an enrollment update breaking it.

## Findings

| source | as written | input that shows it | evidently intended | confidence | as-written member | corrected member |
|---|---|---|---|---|---|---|
| app/services/formation_service.py:62-67 | The title lookup is skipped when the new title equals the current one ignoring case, but the lookup itself matches the exact title | Formations 1 "Dafny" and 2 "DAFNY"; rename 1 to "DAFNY": the lookup is skipped and both formations end up titled "DAFNY" | Skip the lookup only when the title does not change at all, so a rename onto another formation's exact title is refused | low, not executed; depends on reading the repository's `get_by_title` as an exact match | FormationService.UpdateAsWritten, FormationService.UpdateAsWrittenDuplicatesTitle | FormationService.Update, FormationService.UpdateKeepsTitlesUnique |
