/** The business errors the services raise. Each constructor stands for one
    exception class of the application (only `UserNotFound` and
    `EmailAlreadyUsed` have their definitions in app/core/errors.py; the
    others are imported by the services from the same module). `Database`
    stands for a statement the database engine itself refuses: a unique
    constraint it enforces, or a negative LIMIT/OFFSET. */
module Errors {

  datatype DbFailure =
    | UniqueViolation    // a UNIQUE constraint of the schema would be broken
    | NegativeLimit      // PostgreSQL refuses a negative LIMIT or OFFSET

  datatype AppError =
    | UserNotFound
    | EmailAlreadyUsed
    | TeacherNotFound
    | FormationNotFound
    | FormationTitleAlreadyUsed
    | SessionNotFound
    | SessionStartDateAfterEndDate
    | SessionStartDateAlreadyExists
    | SessionEndDateAlreadyExists
    | EnrollmentNotFound
    | EnrollmentSessionFull
    | EnrollmentAlreadyExists
    | SignatureNotFound
    | SignatureDateOutsideSession
    | UserNotEnrolledInSession
    | SignatureAlreadyExistsForDate
    | BriefNotFound
    | GroupNotFound
    | Database(failure: DbFailure)
}
