# Attendance-Pal: a Dafny model of the attendance, user and venue routes

Attendance-Pal is an Express/Mongoose web application. A teacher shows a QR
code, a student scans it, and the server records the student as present or
absent. This project models the parts of its route handlers that decide
something:

- **Student routes** (`routes/studentRoutes.js`):
  - QR check-in, with its 30-minute window and its find-or-create of the
    (student, subject, date) attendance record.
  - The permission (leave) request.
  - Login and the home page each role is sent to.
- **Teacher routes** (`routes/teacherRoutes.js`):
  - The QR payload: the course code, the generation instant, and an expiry 30
    minutes later.
  - The router's own `isTeacher` gate.
  - Manual registration of an attendance record.
- **Admin routes** (`routes/adminRoutes.js`):
  - Adding and editing users.
  - Editing a venue.
  - The four attendance breakdowns (by college, department, course and
    subject). Each is an aggregation pipeline that joins, groups, counts,
    averages and sorts.
- **Document shapes and validation** (`models/*.js`): the enums, the required
  fields, the `pending` default of a permission request, and the unique
  username.

Layout, one module per file:

- `common.dfy` (`Common`): optional values and query outcomes. A `Lookup` is
  found, not found, or threw before querying. Also JavaScript truthiness of
  body fields, and `findOne` as "first match in natural order".
- `models.dfy` (`Models`): the documents, the schema validators, and the
  `Database` class. Its sequence fields are the collections the handlers
  change.
- `student_routes.dfy` (`StudentRoutes`), `teacher_routes.dfy`
  (`TeacherRoutes`), `admin_routes.dfy` (`AdminRoutes`): each handler that
  changes the store is a `method` on `Database`. It is specified by pure
  functions, and lemmas are proved about those functions.
- `attendance_reports.dfy` (`AttendanceReports`): the breakdown pipelines as
  pure functions. The `$group` fold is checked against a reference definition
  that counts records per group, and the `$sort` by an insertion sort.

Things outside the model are parameters:

- The server clock (`now`).
- The outcome of check-in's subject query by `code` (the Subject schema has
  no `code` field). The permission request's query by id runs on the
  store's subjects.
- Which binding of `Subject` the handlers see (`bindingFixed`): as written,
  or bound to the Subject model.
- Date parsing: `new Date(...)` becomes `parseDate`, or an already-cast
  `Option<int>` instant in milliseconds.
- bcrypt: `hash` and `matches`.
- The `_id` MongoDB assigns.

Behaviours worth knowing:

- An unparseable QR date/time is classified `absent`, not rejected. The
  difference in minutes is NaN, and NaN fails both comparisons
  (`routes/studentRoutes.js:141-150`).
- Venues have no booking lifecycle: nothing books, releases or sweeps. A
  venue is edited field by field. `capacity` is any Number, not necessarily
  whole or positive. `bookedBy` is never written, so it need not agree
  with `isBooked` (see `AdminRoutes.UnbookedVenueKeepsHolder`).
- The QR `expiryTime` is advisory. Check-in recomputes the window from the
  QR's date and time. `TeacherRoutes.QrWindowMatchesCheckIn` proves that the
  two agree when the date and time are the generation instant.

## Model

| member | source | states |
|---|---|---|
| Common.OrNull | routes/adminRoutes.js:69-70 | `field \|\| null`: the result is null exactly when the field is missing or empty, and is otherwise the field itself |
| Common.FindFirst | routes/studentRoutes.js:153-157 | `findOne` in natural order: the returned index satisfies the filter and no earlier document does; none means no document does |
| Models.ParseAttendanceStatus | models/Attendance.js:7 | the enum validator accepts exactly `present` and `absent`, and the accepted status carries that name |
| Models.ParseRole | models/User.js:7 | the enum validator accepts exactly `student`, `teacher` and `admin` |
| Models.NewPermission | models/Attendance.js:13-25 | a permission request is saved iff `reason` is non-empty; it is `pending`, stamped with the creation time, unverified, and has the given student, subject, reason and attachment |
| Models.ValidateUser | models/User.js:3-11 | a user saves iff name, username and password are non-empty and role is in the enum; every field is kept as given |
| StudentRoutes.UserNamed | routes/studentRoutes.js:23 | the user found has that username and is stored; none means no stored user has it |
| StudentRoutes.StudentNamed | routes/studentRoutes.js:129 | the user found has that username and the student role; none means no stored student has it |
| StudentRoutes.HomeFor | routes/studentRoutes.js:43-49 | admins go to `/admin`, teachers to `/teacher`, and every other role to `/` (each an iff) |
| StudentRoutes.Login | routes/studentRoutes.js:18-54 | 400 and no session iff no user has the username; otherwise a session for that stored user and a redirect to the home of its role |
| StudentRoutes.LoginChecked | routes/studentRoutes.js:28-30 | corrected login: a session is opened only for a stored user whose hash matches the password; with a matching password it ends as the as-written login does |
| StudentRoutes.LoginIgnoresPassword | routes/studentRoutes.js:29-33 | as written, two logins differing only in the password have the same outcome |
| StudentRoutes.WrongPasswordLogsIn | routes/studentRoutes.js:29-33 | a password matching nothing opens a student session as written and is refused by the checked login |
| StudentRoutes.Classify | routes/studentRoutes.js:141-150 | present iff the QR instant parses and 0 <= elapsed minutes <= 30; an unparseable instant is absent |
| StudentRoutes.NineOClockScenario | routes/studentRoutes.js:143-150 | both ends of the window are included: 09:30:00 is present; 09:30:01 and 08:59:59 are absent |
| StudentRoutes.RecordIndex | routes/studentRoutes.js:153-157 | the record loaded for (student, subject, date) is the first one carrying that key; none means no record carries it |
| StudentRoutes.RecordIndexIs | routes/studentRoutes.js:153-157 | the loaded record is determined: the first index carrying the key is the one returned |
| StudentRoutes.Upsert | routes/studentRoutes.js:152-170 | after check-in, the record loaded for the key exists and is the key with the new status |
| StudentRoutes.UpsertOverwrites | routes/studentRoutes.js:159-161 | an existing record only has its status changed: same length, every other record unchanged |
| StudentRoutes.UpsertAppends | routes/studentRoutes.js:162-170 | with no record for the key, exactly one record is appended |
| StudentRoutes.UpsertKeepsKeysUnique | routes/studentRoutes.js:152-170 | one check-in, run on its own, keeps at most one record per (student, subject, date), and every record with the key has the new status |
| StudentRoutes.UpsertIdempotent | routes/studentRoutes.js:152-170 | repeating a check-in with the same key and status changes nothing |
| StudentRoutes.UpsertLastWriteWins | routes/studentRoutes.js:152-170 | of two check-ins with one key, the store is as if only the later had happened |
| StudentRoutes.QuerySubjectAsWritten | routes/studentRoutes.js:9 | with `Subject` bound to the whole College module export, a subject query throws whatever the subjects collection holds |
| StudentRoutes.QuerySubject | routes/studentRoutes.js:85-88 | corrected `Subject.findById`: never throws; finds a stored subject with that id; not found exactly when no stored subject has the id |
| StudentRoutes.StoredSubjectThrowsAsWritten | routes/studentRoutes.js:9 | for a stored subject, the query as written throws, while the corrected one finds a subject with its id |
| StudentRoutes.SubmitAttendance | routes/studentRoutes.js:123-177 | 404 for an unknown student. As written, 500 for every known student with nothing stored. With the binding fixed: 500 or 404 for a throwing or empty subject query, and 500 for an uncastable date. Otherwise it replies `Attendance marked as` the classified status, and the attendance collection becomes its upsert. Nothing else changes |
| StudentRoutes.RequestPermission | routes/studentRoutes.js:74-120 | 404 for an unknown student. As written, 500 for every known student with nothing stored. With the binding fixed, the subject is `findById` on the stored subjects: 404 when none has the id, then 500 for an empty reason. Otherwise exactly one pending request for that subject is appended, and the reply is 200, or 500 when `populate('teachers')` leaves no teacher, i.e. no teacher id names a stored user (the request stays saved) |
| StudentRoutes.PopulatedTeachers | routes/studentRoutes.js:85-90 | every populated teacher is a stored user whose id the subject lists; the list is empty exactly when no listed id names a stored user (ids left dangling by a deleted user are dropped) |
| TeacherRoutes.GenerateQrPayload | routes/teacherRoutes.js:9-24 | 400 iff the course code is missing or empty; otherwise it carries the code, is dated now, and expires exactly 30 minutes later |
| TeacherRoutes.QrWindowMatchesCheckIn | routes/teacherRoutes.js:16-23 | check-in classifies present exactly the instants from the payload's date to its expiry, both included |
| TeacherRoutes.TeacherGate | routes/teacherRoutes.js:38-43 | a request passes iff its user has the teacher role; otherwise 403 |
| TeacherRoutes.ManualRegistration | routes/teacherRoutes.js:46-71 | corrected handler: 403 iff not a teacher; then 400 iff a field is missing or empty; then a record iff the date parses and the status is in the enum (else 500), carrying the given fields |
| TeacherRoutes.ManualRegistrationAsWritten | routes/teacherRoutes.js:56-61 | as written, every request fails: 403 and 400 as above, and 500 for every request that passes validation |
| TeacherRoutes.ManualRegistrationFailsAsWritten | routes/teacherRoutes.js:56-69 | a well-formed teacher request is 500 as written and is stored by the corrected handler |
| TeacherRoutes.ManualRegistrationCanDuplicate | routes/teacherRoutes.js:56-64 | manual registration does not look the key up, so it can break one record per (student, subject, date) |
| TeacherRoutes.ManualRegister | routes/teacherRoutes.js:46-71 | on an error, the reply is that status and the store is unchanged; on success, 201 and the record is appended |
| AdminRoutes.UserIndex | routes/adminRoutes.js:104 | `findById`: the index holds a user with that id; none means no user has it |
| AdminRoutes.AddedUser | routes/adminRoutes.js:58-80 | saved iff a password is given, the required fields validate and the username is free; fields as given, with the hashed password and empty department/course as null |
| AdminRoutes.AppendKeepsUsersUnique | routes/adminRoutes.js:74 | saving a user with a fresh id and a free username keeps ids and usernames unique |
| AdminRoutes.AddUser | routes/adminRoutes.js:58-80 | redirect to `/admin/users` with the user appended, or 500 with the store unchanged; unique ids and usernames are kept |
| AdminRoutes.EditedUser | routes/adminRoutes.js:99-127 | saved iff the fields validate and the username is free of other users. The hash is replaced only when a non-empty password is given; id and level are kept; empty department/course become null |
| AdminRoutes.EditUserIdempotent | routes/adminRoutes.js:109-121 | saving the same form again, over the store the first save left, saves again. The user is unchanged except for the password hash, which a fresh bcrypt salt makes different. Without a new password, nothing changes at all |
| AdminRoutes.ReplaceKeepsUsersUnique | routes/adminRoutes.js:121 | replacing a user by an edit with a free username keeps ids and usernames unique |
| AdminRoutes.EditUser | routes/adminRoutes.js:99-127 | 404 for an unknown id; otherwise only that user is replaced by its edit (or 500, unchanged); uniqueness is kept |
| AdminRoutes.VenueIndex | routes/adminRoutes.js:745 | `findById`: the index holds a venue with that id; none means no venue has it |
| AdminRoutes.UpdatedVenue | routes/adminRoutes.js:750-755 | saved iff name and capacity are given, `isBooked` casts to a Boolean (or is missing), and any non-empty expiry parses. Name and capacity are assigned. The venue is booked iff `isBooked` cast to true. An empty expiry becomes null. The holder is kept |
| AdminRoutes.UpdateVenueIdempotent | routes/adminRoutes.js:750-755 | putting the same form twice leaves the venue as once |
| AdminRoutes.UnbookedVenueKeepsHolder | routes/adminRoutes.js:750-755 | an edit can mark a venue not booked while it still names a holder |
| AdminRoutes.UpdateVenue | routes/adminRoutes.js:740-761 | 404 for an unknown id; otherwise only that venue is replaced by its update (or 500, unchanged) |
| AttendanceReports.EntriesAreMatched | routes/adminRoutes.js:242-286 | as many records reach `$group` as there are records every `$lookup` matched |
| AttendanceReports.DeeperJoinsDropMore | routes/adminRoutes.js:322-355 | grouping by college counts no more records than by department, and that no more than by course |
| AttendanceReports.CountsSplit | routes/adminRoutes.js:292-297 | within a group, present plus absent records make up all its records |
| AttendanceReports.GroupOf | routes/adminRoutes.js:288-301 | a group exists iff some record reaches it; then its total is positive, present + absent = total, and the average is present / total, within [0, 1] |
| AttendanceReports.GroupOfStep | routes/adminRoutes.js:288-301 | one more record changes only its own group, which it opens or adds to |
| AttendanceReports.TalliesMatchCounts | routes/adminRoutes.js:287-302 | the grouping fold gives, for every id, exactly the counted group; ids are distinct; totals sum to the record count |
| AttendanceReports.SortKeepsGroups | routes/adminRoutes.js:303-305 | the sort orders groups by average, highest first, and is a permutation of them, so the totals are kept |
| AttendanceReports.SortKeepsDistinct | routes/adminRoutes.js:303-305 | sorting groups with distinct ids leaves the ids distinct |
| AttendanceReports.BreakdownSpec | routes/adminRoutes.js:239-491 | every breakdown is sorted by average and has one group per reached id, each as the counts describe it; the totals add up to the records every lookup matched |

## Left out

- Booking lifecycle: the code has no booking, release or expiry sweep, so none is modelled. Venue creation and deletion (`POST /venue`, `DELETE /venue/:id`) and `GET /venues` only pass values through.
- Analytics: `GET /analytics`, `POST /generate-report` and `middlewares/helper.js` read an `attendancePercentage` field that no code path writes. CSV/Excel export and the dashboard's constant figures are left out too.
- Authentication plumbing: the JWT signature and expiry, the session store, the `isStudent`/`isAdmin` middleware in `middlewares/routeAuth.js`, and logout are left out. Login stores only the session payload.
- `StudentRoutes.Login`: the model assumes that `populate('course department subjects')` succeeds. With strict populate (the default in recent Mongoose versions), populating `subjects`, which the User schema lacks, may throw. The login would then answer 500. The package version is not part of this model.
- `StudentRoutes.SubmitAttendance`: the QR's `subjectCode`/`venueId` and the subject's `code` field are not modelled. Neither is how `date` and `time` combine into `new Date(...)`. With the binding fixed, the outcome of the query by `code` and both casts are parameters. The `Classify` comparison is exact on integer milliseconds, not on floating-point minutes.
- `StudentRoutes.SubmitAttendance`: a body without `qrCodeData` throws when it is destructured, before the student lookup, and answers 500. The model always has a QR payload, so it answers 404 for an unknown student even then.
- `StudentRoutes.SubmitAttendance`: a payload without `date` drops that condition from the record filter. The first record for (student, subject) is then overwritten, and a new record fails the required `date`. The model treats a missing date like an uncastable one (500, nothing stored).
- `StudentRoutes.UpsertKeepsKeysUnique`: uniqueness holds per request only. Check-in awaits between its `findOne` and its `save`, and the attendance schema has no unique index on (student, subject, date). Two check-ins for a new key that interleave can both append a record. The model runs one request at a time.
- `StudentRoutes.Login`, `StudentRoutes.SubmitAttendance`, `StudentRoutes.RequestPermission`: `username` is always a string in the model. A missing `username` makes the filter `{ username: undefined }`, which Mongoose treats as if that condition were absent, so the first user (or first student) would be loaded.
- Record keys: the record is keyed by the instant that `date` casts to, so two spellings of one day are different keys. The model keeps the key's instant as given.
- `StudentRoutes.RequestPermission`: the upload's buffer and MIME type are taken as given (Multer is not modelled). The teacher notification is a log line, so only the 500 raised when `teacher` is `undefined` is modelled. That happens when the subject lists no teacher id or every listed id names a deleted user.
- `TeacherRoutes.GenerateQrPayload`: the ISO-8601 text form and `qr.toDataURL` (the image and its failure 500) are not modelled. The payload keeps instants in milliseconds.
- `TeacherRoutes.TeacherGate`: `req.user` is set only by the guards in `middlewares/routeAuth.js`, and the teacher router does not apply them itself. Whether it is set depends on the application's mounting, which is not part of this model. The gate is modelled over the role in `req.user`, with `None` when it is unset.
- ObjectId cast failures: a malformed id string makes a query or a save throw (500). The model treats ids as opaque strings that either match or do not. This covers `AdminRoutes.AddedUser` and `AdminRoutes.EditedUser`, whose `department` and `course` are cast when saved (routes/adminRoutes.js:65-74, 112-121), and `TeacherRoutes.ManualRegistration`, whose `mongoose.Types.ObjectId(...)` calls throw on a malformed id (routes/teacherRoutes.js:57-58). Ids used in lemmas and under "## Findings" (such as `s1`, `m1`) stand for well-formed ObjectIds.
- `AdminRoutes.UpdatedVenue`: a missing `isBooked` unsets the field, which then reads back as the schema default `false`; the model assumes this. `capacity` is the value Mongoose casts to a Number, modelled as a real, with `None` for a missing or non-numeric value. NaN and the infinities are not modelled.
- `PUT /venue/:id` has no `isAdmin` gate, so nothing is modelled for one.
- `AdminRoutes.AddUser` / `AdminRoutes.EditUser`: bcrypt is the `hash` parameter, one function per call; bcrypt's salt makes each call a different function, and `AdminRoutes.EditUserIdempotent` takes one per save. The model keeps a store whose user ids and usernames are already unique, the unique indexes MongoDB maintains. `get-user`, `delete-user` and the user list only read or delete by id.
- College, department, course and subject CRUD (`adminRoutes.js:498-687`), and the settings, FAQ and change-password pages, are plain creates, renames and deletes, or renders.
- The breakdowns' `$first` name depends on document order: each id's name comes from its single catalog document, so the first record's name is that name. `GET /reports-analytics/student` has an empty body.

## Findings

| source | as written | input that shows it | evidently intended | confidence | as-written member | corrected member |
|---|---|---|---|---|---|---|
| routes/studentRoutes.js:9 | `Subject` is bound to the whole export of `models/College.js`, which has no `findOne`/`findById`, so check-in and the permission request throw and answer 500 | any stored subject, e.g. a check-in by a known student for a stored subject | bind the `Subject` model from that export | not executed | StudentRoutes.QuerySubjectAsWritten | StudentRoutes.QuerySubject |
| routes/teacherRoutes.js:56-57 | `Attendance` and `mongoose` are used but never imported, so every valid manual registration throws and answers 500 | a teacher posting student `s1`, subject `m1`, date `2024-05-01`, status `present` | import both and store the record (201) | not executed | TeacherRoutes.ManualRegistrationAsWritten | TeacherRoutes.ManualRegistration |
| routes/studentRoutes.js:29-33 | the password check's failure is caught and logged, so any password logs in | the stored user `ada`, logging in with password `wrong` | refuse the login (400) when the password does not match the stored hash | not executed | StudentRoutes.Login | StudentRoutes.LoginChecked |
