# Attendance ledger — a Dafny model

This project models the backend of a face-recognition attendance system:
- the Express handlers in `backend/index.js` that register users, log them
  in, store face descriptors, hand out labels, and record, remark on, edit,
  list and export attendance;
- the user-lookup router in `backend/users.js`;
- the date choice and row selection of `backend/scripts/export-daily.js`.

The SQLite database is an immutable `Db` value (module `Store`):
- a sequence of users, of descriptor rows and of attendance records;
- one `AUTOINCREMENT` counter per table.

Every handler is a pure function of a store, the authenticated caller (an
`Option<Caller>`) and the request fields. The handlers that write return a
result together with the next store (`Step`): register-user, `/api/register`,
attendance submission, remarks and edits. The read-only handlers return only
a `Result`: login, labels, the listing, both exports and the three user
lookups. Errors are an `ApiError` datatype whose `Status` is the HTTP code
the handler sends.

Modules:
- `Wrappers`: `Option`.
- `Text`: the JavaScript truthiness the handlers test with `!x` and `x || y`,
  SQLite's `date()` as `DateOf`, and the `BINARY` string order as `LexLe`.
- `Seqs`: filtering (`WHERE`) and an insertion sort (`ORDER BY`)
  proved sorted and a permutation.
- `Store`: the rows, the error codes, the store invariant `Valid`, the
  one-record-per-day property `OnePerDay`, and the `JOIN users` relation.
- `Accounts`: the bearer-token middleware, `/api/register-user` and
  `/api/login`.
- `Descriptors`: `/api/register` and `/api/labels`.
- `Ledger`: `POST /api/attendance`, `/api/attendance/:id/remark` and
  `PUT /api/attendance/:id`.
- `Reports`: `GET /api/attendance`, `/api/export-attendance`,
  `/api/trigger-daily-export` and the daily export script.
- `Users`: the three handlers of `backend/users.js`.

Differences from the written description of the system, where the code is
followed:
- A second remark on the same record is answered with 400 ("Remark already
  exists"), not 409 Conflict. `AddRemark` returns `BadRequest(RemarkExists)`.
- Records and descriptors whose user row does not exist disappear from the
  listing, the export and the labels, because every read is an inner `JOIN`.
- "One record per user per calendar date" is kept by submission and by
  remarks, but a teacher edit can move a record onto a date the same user
  already has. `EditOntoTakenDateBreaksOnePerDay` proves this.
  `EditKeepingDateKeepsOnePerDay` proves the edit keeps the property when it
  does not change the date.
- A successful remark writes NULL to `edited_by` and `edited_at`
  (backend/index.js:175), so it erases the stamp of an earlier teacher edit;
  it does not leave the editor untouched.
- Only the role `student` is restricted when reading: a caller with any
  other role string (not just `teacher`) sees every listing row and every
  label group (backend/index.js:142, 197).
- The teacher's labels come back in ascending user id. A JavaScript object
  enumerates integer keys in ascending order, so the insertion order of
  `grouped` plays no part.

## Model

| member | source | states |
|---|---|---|
| Text.DateOf | backend/index.js:48 | a calendar date, when there is one, is 10 characters long and a prefix of the timestamp |
| Text.DateOfIdempotent | backend/index.js:48 | taking `date()` of a date gives back the same date |
| Text.SliceIsDate | backend/index.js:216 | the 10-character slice of an ISO timestamp is that timestamp's calendar date, so "today" matches records made now |
| Text.LexLeReflexive | backend/index.js:47 | every timestamp is ordered before or equal to itself, so equal timestamps may come in either order |
| Text.LexLeTotal | backend/index.js:47 | any two timestamps are ordered one way or the other under the string order |
| Text.LexLeTransitive | backend/index.js:47 | the string order on timestamps is transitive |
| Text.LexLeAntisymmetric | backend/index.js:47 | two timestamps ordered both ways are equal |
| Seqs.Select | backend/index.js:198 | a `WHERE` keeps exactly the rows satisfying the condition, as a sub-multiset of the input |
| Seqs.Sort | backend/index.js:47 | `ORDER BY` yields the same multiset of rows, sorted by the key in the requested direction |
| Seqs.SortSameRows | backend/index.js:47 | ordering neither adds, drops nor duplicates rows |
| Store.EmptyIsValid | backend/db.js:6-32 | the freshly created database satisfies the store invariant |
| Store.FindUser | backend/index.js:43 | a lookup by id finds a user with that id, and finds none exactly when no user has it |
| Store.FindRecord | backend/index.js:49 | a lookup by id returns the first record with that id, and none exactly when no record has it |
| Store.OnePerDayCount | backend/index.js:151 | under the one-per-day invariant a user has at most one record on any date |
| Store.Join | backend/index.js:47 | the inner join pairs each record with its owner and contains nothing else |
| Accounts.RemoveFirst | backend/index.js:110 | `replace('Bearer ','')` removes the first occurrence of the prefix wherever it is, and leaves a header without one unchanged |
| Accounts.Authenticate | backend/index.js:107-115 | a missing or empty header yields no caller; otherwise the token check decides on the header with its first `Bearer ` cut out, or on the whole header when it has none |
| Accounts.BearerHeader | backend/index.js:110-111 | a `Bearer ` header authenticates as whatever the token check says of the token |
| Accounts.RegisterUser | backend/index.js:64-72 | name and role are required (400); a taken email is a 500; otherwise the call succeeds and one user is appended with the next id, the optional fields are null when falsy, a given password is stored as its hash, nothing else in the database changes (other tables and counters included), and the store stays valid |
| Accounts.FindByEmail | backend/index.js:96 | the lookup returns the first user with that email, and none when the email is absent or unused |
| Accounts.Login | backend/index.js:94-104 | an unknown email is 401; a stored hash must match the password; the first user with that email logs in, with their claims, exactly when their hash is empty or matches; every failure is 401 |
| Accounts.SelfRegisteredTeacher | backend/index.js:64-70 | anyone can register with role "teacher" and no password and then log in as a teacher with any password |
| Descriptors.VectorsOfAppend | backend/index.js:126 | the vectors of a user in appended rows are the old ones followed by the new ones |
| Descriptors.RegisterDescriptors | backend/index.js:118-129 | errors come in the order 401, 403 (not a teacher), 400 missing fields, 400 unknown user, 400 not a student; a failure changes nothing; a teacher's request for an existing student with vectors succeeds, appending one row per vector, in order, with consecutive fresh ids, and keeps the store valid |
| Descriptors.RegisterExtendsTargetVectors | backend/index.js:126 | after registration the target's vectors are the old ones followed by the submitted ones, and every other user's are unchanged |
| Descriptors.Groups | backend/index.js:135-140 | there are no more groups than users and no group is empty |
| Descriptors.GroupsDistinct | backend/index.js:138 | when user ids are distinct no user has two groups, as the grouping object is keyed by user id |
| Descriptors.GroupsSound | backend/index.js:137-140 | every label group is non-empty and holds exactly one user's vectors |
| Descriptors.GroupsComplete | backend/index.js:137-140 | every user with at least one descriptor has a group |
| Descriptors.GroupsAscending | backend/index.js:147 | groups come in ascending user id when the users do |
| Descriptors.Labels | backend/index.js:132-149 | 401 exactly without a caller, success otherwise; a student gets at most one group, their own, and exactly it when they have descriptors; anyone else gets every group, in ascending user id on a valid store |
| Descriptors.StudentLabelsAreOwnGroup | backend/index.js:142-145 | a student's labels are the teacher's labels filtered to the student's id |
| Ledger.FindOnDay | backend/index.js:48 | the same-day lookup finds a record of that user on that date, and finds none exactly when there is none |
| Ledger.FindSameDay | backend/index.js:157 | the lookup finds a record of that user with the timestamp's calendar date, and none exactly when there is none, or when the timestamp has no date |
| Ledger.AppendOnePerDay | backend/index.js:159 | appending a record on a date its user does not yet have keeps one record per user per date |
| Ledger.SubmitAttendance | backend/index.js:151-162 | 401, then 400 without a user id, both leaving the store unchanged; `already` exactly when the user has a record on the effective date, returning that record's id and changing nothing; otherwise one record with null note and remark appended under a fresh id; the store invariant and one-per-day are preserved |
| Ledger.SubmitTwiceSameDay | backend/index.js:156-158 | a second submission on the same date returns the first submission's id with `already` and changes nothing |
| Ledger.SubmitLeavesExactlyOne | backend/index.js:151-160 | after a submission the user has exactly one record on that date |
| Ledger.AddRemark | backend/index.js:165-178 | errors in the order 401, 400 missing remark, 404, 403 (not a student, or not the owner), 400 remark exists, each leaving the store unchanged; the owner's remark on a remark-less record succeeds and changes only that record: remark and remark author set, timestamp and note kept, edit stamps cleared, invariants preserved |
| Ledger.RemarkWriteOnce | backend/index.js:173-174 | once a remark is stored every further remark attempt fails and changes nothing; the owner gets "remark exists" |
| Ledger.EditAttendance | backend/index.js:181-192 | 401, then 403 for a non-teacher, then 404; a failure changes nothing; a teacher's edit of an existing record succeeds; each of timestamp, note and remark is replaced only by a truthy value; the remark author is kept; the editor and the edit time are recorded; the store stays valid |
| Ledger.EditThenRead | backend/index.js:189 | reading the record after an edit gives the submitted values where truthy and the old ones elsewhere |
| Ledger.EditKeepingDateKeepsOnePerDay | backend/index.js:189 | an edit that leaves the record's date alone keeps one record per user per date |
| Ledger.EditOntoTakenDateBreaksOnePerDay | backend/index.js:189 | an edit moving a record onto a date its owner already has leaves two records on that date |
| Ledger.TeacherRemarkBlocksStudent | backend/index.js:174 | a remark written by a teacher's edit stops the owner from adding their own remark |
| Reports.Visible | backend/index.js:195-208 | rows are newest first and no record appears more often than in the join; a student sees exactly their own records; a truthy class filter keeps exactly the records whose owner has that class; otherwise every joined record |
| Reports.RowOf | backend/index.js:199-208 | a row carries the record's id, timestamp, note and remark and the owner's name; students get the shape with the remark author, a truthy class filter the shape with the owner's class, anyone else the plain shape |
| Reports.ListAttendance | backend/index.js:195-210 | 401 exactly when there is no caller; otherwise one row per visible record, in order |
| Reports.ListingOrderAndClass | backend/index.js:204-205 | the listing is newest first, and class-filtered rows all carry the requested class |
| Reports.StudentListsOwnRows | backend/index.js:198 | each of a student's records appears in their listing |
| Reports.StudentSeesOnlyOwnRecords | backend/index.js:198-199 | every row of a student's listing is one of their records, in the shape that carries the remark author |
| Reports.ExportSelection | backend/index.js:217 | the export holds exactly the joined records whose calendar date equals the requested date, oldest first |
| Reports.ExportDate | backend/index.js:216 | a truthy date parameter is used as given; otherwise, for an ISO clock reading, it is the calendar date of the current time |
| Reports.ExportRows | backend/index.js:217-218 | one CSV line per selected record, in the selection's order |
| Reports.ExportRowsAscending | backend/index.js:217-218 | CSV lines are oldest first |
| Reports.ExportRowsOnDate | backend/index.js:217-218 | every CSV line is a record on the requested date |
| Reports.ExportRowsComplete | backend/index.js:217-218 | every record on the requested date whose owner exists has a CSV line |
| Reports.Export | backend/index.js:213-222 | 401, then 403 for a non-teacher; otherwise the rows of the requested date, or of today's date when none is given |
| Reports.TriggerDailyExport | backend/index.js:225-237 | succeeds and fails exactly when the export of today does, with the same rows, written to `exports/attendance-<today>.csv` |
| Reports.SubmittedIsExported | backend/index.js:156-160 | the record answered by a submission is in the export of its calendar date |
| Reports.SubmittedNowIsInDailyExport | backend/index.js:228-229 | a submission without a timestamp is in the daily export triggered at the same moment |
| Reports.ExportDaily | backend/scripts/export-daily.js:7-12 | the file is named after the argument when it is truthy and after today otherwise; its lines are exactly a teacher's export of that date, so they are oldest first, each is a record on that date, and every record on that date whose owner exists has a line |
| Reports.ExportDailyMatchesTrigger | backend/scripts/export-daily.js:7-8 | run without an argument, the script writes the same file and rows as a teacher's trigger |
| Users.ListUsers | backend/users.js:20-27 | 401, then 403 for a non-teacher; otherwise every user's public row, sorted by name ascending |
| Users.ListStudents | backend/users.js:29-38 | 401, then 403 for a non-teacher, then 400 without a truthy class; otherwise exactly the students of that class, sorted by name |
| Users.StudentsAreListedUsers | backend/users.js:11 | every row of a class listing is in the full user listing |
| Users.GetUser | backend/users.js:40-49 | 401; then 404 for an unknown id before any role check; then 403 for a caller who is neither a teacher nor that user; a teacher or that user gets that user's public row |
| Users.GetUserIsTheUser | backend/users.js:44-47 | on a valid store a teacher or the owner gets exactly that user's row |

## Left out

- Photo upload (`/api/upload-photo`), multer, the uploads directory and its
  repair at start-up, static serving of uploads and models: file-system I/O.
- The start-up seed of the teacher account: asynchronous hashing at start-up;
  `Store.Empty` is the database before it.
- JWT signing and bcrypt: `backend/auth.js` is not part of this model. The
  token check and the password hash are parameters (`verify`, `hash`,
  `matches`), and the token carries the `Caller` claims.
- CSV rendering and file writes: only the rows and the file name are
  modelled (`ExportRow`, `ExportFile`); the header line is not.
- The check-then-insert race in attendance submission: the model is
  sequential.
- 500 responses for storage failures. A failure part-way through the
  descriptor loop leaves earlier rows inserted; the model has no such
  failure. The one 500 modelled is `RegisterUser` rejecting a taken email.
- The descriptor `created_at` column and the contents of a descriptor
  vector: vectors are opaque sequences of reals.
- Text.DateOf: recognises only a `YYYY-MM-DD` prefix followed by the end,
  `T` or a space, and answers "no date" (SQL NULL) for everything else. SQLite's
  `date()` does more:
  - `'now'` is the current date, so a submission with `timestamp: "now"` for
    a user who already has a record today gets `already: true` in SQLite,
    but the model appends a new row. That row has no date, so it plays no
    part in one-per-day or in any export.
  - A bare time `HH:MM[:SS]` is dated 2000-01-01.
  - An out-of-range day is normalised, so `2024-02-30` becomes `2024-03-01`.
    The model keeps the prefix unchanged and checks neither month nor day
    ranges nor the time part.
  - Time-zone suffixes shift the date, and numeric Julian-day forms are
    accepted.
- Non-numeric `:id` path parameters: `Number()` gives `NaN`, which matches no
  row; the model takes the id as an integer, so such requests are simply
  unknown ids.
- Accounts.Login: when a stored hash exists and no password is sent, bcrypt
  rejects the comparison. What the client then sees depends on the Express
  and Node versions, and neither is part of this model. Express 4 leaves the
  rejected promise unhandled, and Node 15 or later then stops the process by
  default. Express 5 answers 500. The model answers 401 in that case.
- Users.ListStudents: `backend/users.js:11` writes `role = "student"` with
  double quotes. SQLite reads that as a column name, and falls back to a
  string literal only when double-quoted strings are enabled. If the
  bundled SQLite is built without that fallback, preparing the statement
  fails when the module loads, and none of the three handlers exists. The
  library version is not part of this model. The model assumes the fallback
  is on and reads the text as the string `student`.
- Users: `backend/users.js` is not mounted by `backend/index.js`, so its
  handlers are modelled on their own. `ensureAuth` is modelled as the
  `auth.None?` case of each handler.
- The frontend (React pages, camera, face-api.js matching): UI, browser I/O
  and floating point.
