# School attendance and roster bookkeeping, in Dafny

This project models the bookkeeping core of a small school-administration web
application. Classes have a teacher and a student count, students belong to a
class by name and are Active or Inactive, and each student has at most one
attendance mark (Present or Absent) per date. The project proves properties of
that model.

The model covers:

- **The attendance API** (`attendance_route.dfy`, `attendance_facts.dfy`,
  `attendance_props.dfy`).
  - GET returns one class's marks for one day, ordered by student name.
  - POST first checks the request and that the class exists.
  - It then deletes the (class, date) slot.
  - It then walks the submitted records in order. For each record it checks
    enrolment and status, then upserts the row keyed on (student id, date).
  - POST is a method on a `Database` class whose `for` loop returns mid-way.
    It is proved equal to a function `Post`. Its properties are proved about
    `Post`:
    - other slots are kept;
    - there is no rollback;
    - the saved slot holds one row per student, with the last status given;
    - a repeated save is idempotent.
- **The in-memory store** (`storage.dfy`): a class `Store` holding three
  arrays and the per-class student counter that is kept in step with student
  creation and deletion.
- **The students and classes APIs** (`students_route.dfy`, `classes_route.dfy`):
  - listing with filters, orders and counts;
  - validation chains where the first failure wins;
  - inserts into the tables.
- **The search API** (`search_route.dfy`):
  - the minimum query length;
  - JavaScript `parseInt` for the limit;
  - the match predicates of the three sub-queries;
  - the newest-first limit;
  - the kind-to-link mapping and the totals.
- **The pages** (`attendance_page.dfy`, `students_page.dfy`,
  `classes_page.dfy`):
  - initialising, merging and toggling the attendance list;
  - the present count and percentage;
  - the form validators and the payloads the forms post;
  - the page state as classes whose methods update it.

Shared modules:

- `wrappers.dfy`: `Option` and `Result`.
- `text.dfy`: JavaScript `trim`, the e-mail regular expression, code-point
  string order and case-insensitive substring search.
- `seqs.dfy`: `filter`, `find` and a stable insertion sort.
- `types.dfy`: the records of `lib/types.ts`.
- `tables.dfy`: the database rows and the schema's invariants.

Three behaviours of the code that a reader might not expect, each modelled as
the code has it:

- **Delete before validate.** The attendance POST deletes the (class, date)
  slot before it validates any record. A record that fails therefore returns
  400 with the slot already wiped and every earlier upsert kept.
  `AttendanceProps.ScenarioRejectionAfterDelete` shows a saved day disappearing
  this way.
- **The conflict update keeps the old class.** The conflict clause only
  rewrites `status` and `created_at`. A student marked on the same day under
  another class keeps that row's old class and name, so the new class's slot
  gets no row for them (`AttendanceProps.CrossClassKeepsOldClass`).
- **The search limit.** A `limit` that is not a number, that is negative, or
  that lies beyond the `bigint` range is passed to SQL and makes the request
  fail with 500. The model gives that
  outcome as `SearchFailed`.

## Model

| member | source | states |
|---|---|---|
| Types.StatusNamesRoundTrip | lib/types.ts:14-23 | the status names parse back to the same Active/Inactive and Present/Absent values |
| Text.Trim | app/classes/page.tsx:84 | the trimmed string is empty exactly when the input is all whitespace, and otherwise starts and ends with non-whitespace |
| Text.TrimIdempotent | app/classes/page.tsx:98-100 | trimming twice is trimming once |
| Text.EmailPatternIff | app/students/page.tsx:132 | the executable e-mail check accepts exactly the strings of the form local@domain.tld with no whitespace and no second '@' |
| Text.EmailRejectsPadding | app/students/page.tsx:132 | an e-mail with leading or trailing whitespace is rejected |
| Text.EmailIsTrimmed | app/students/page.tsx:132-148 | an accepted e-mail is unchanged by trimming |
| Tables.StudentsReferencedGrow | scripts/setup-db.ts:42 | adding students keeps every attendance row's student reference valid |
| AttendanceRoute.GetAttendance | app/api/attendance/route.ts:12-24 | 400 exactly when class_name or date is missing; otherwise exactly the rows of that class and date, as a permutation of them, sorted by student name |
| AttendanceRoute.SortedSlot | app/api/attendance/route.ts:19-24 | the sorted slot holds exactly the table's rows of that (class, date) |
| AttendanceRoute.CheckRecord | app/api/attendance/route.ts:70-91 | a record passes exactly when its student is in the class and its status is Present or Absent; the enrolment check comes first |
| AttendanceRoute.FirstInvalid | app/api/attendance/route.ts:67-91 | the index of the first record that fails, with every record before it passing; none when all pass |
| AttendanceRoute.FindKey | app/api/attendance/route.ts:96 | the first row keyed (student_id, date), or none when no row has that key |
| AttendanceRoute.Upsert | app/api/attendance/route.ts:93-98 | each upsert draws one value from the SERIAL sequence, conflict or not, and adds at most one row |
| AttendanceRoute.UpsertAll | app/api/attendance/route.ts:67-98 | the upserts of n marks advance the SERIAL counter by n and add at most n rows |
| AttendanceRoute.UpsertSpec | app/api/attendance/route.ts:93-98 | with a unique key, an existing (student, date) row changes only its status and timestamp, otherwise exactly one row is appended; either way the SERIAL counter moves on by one; the key stays unique |
| AttendanceRoute.UpsertKeepsValid | scripts/setup-db.ts:42-48 | an upsert for an existing student keeps the table's invariants |
| AttendanceRoute.ClearSlot | app/api/attendance/route.ts:60-64 | after the delete no row is in the (class, date) slot and every row outside it remains |
| AttendanceRoute.ClearSlotKeepsValid | scripts/setup-db.ts:42-48 | the delete keeps the unique key and the student references |
| AttendanceRoute.Post | app/api/attendance/route.ts:36-104 | a missing field gives 400 before anything; an unknown class gives 400 with the table unchanged; success implies every record passed its checks |
| AttendanceRoute.PostAttendance | app/api/attendance/route.ts:36-104 | the handler's loop leaves exactly the table and response of `Post`, keeps the schema invariants and touches no other table |
| AttendanceRoute.FirstInvalidAt | app/api/attendance/route.ts:67-91 | a failing record after passing ones is the first failure |
| AttendanceFacts.FactsKeysUnique | scripts/setup-db.ts:48 | the unique key holds on rows exactly when it holds on their facts |
| AttendanceFacts.FactsOfUpsertAll | app/api/attendance/route.ts:93-98 | the upsert loop acts on the rows' facts independently of ids and timestamps |
| AttendanceFacts.LastMark | app/api/attendance/route.ts:67-98 | the status of the last mark naming a student, present exactly when the student is marked |
| AttendanceFacts.UpsertAllClosedForm | app/api/attendance/route.ts:67-98 | with a unique key, the upsert loop restatuses keyed rows in place and appends one row per other marked student |
| AttendanceFacts.FreshFacts | app/api/attendance/route.ts:93-98 | upserting into an empty table gives exactly one row per marked student, all in the slot, each with its last status |
| AttendanceFacts.FactsOfClearSlot | app/api/attendance/route.ts:60-64 | the delete acts on facts as on rows |
| AttendanceFacts.ClosedFormShape | app/api/attendance/route.ts:60-98 | after the delete and the loop, slot rows are exactly the appended ones, each with its student's last status, and every marked student has a row on that date |
| AttendanceFacts.ReplayIdempotent | app/api/attendance/route.ts:60-98 | deleting the slot and replaying the same marks on the result gives the result back |
| AttendanceProps.Processed | app/api/attendance/route.ts:67-91 | the number of records upserted: all of them, or those before the first failing one |
| AttendanceProps.LastGiven | app/api/attendance/route.ts:67-98 | the status string of the last record naming a student, present exactly when one does |
| AttendanceProps.MarksLast | app/api/attendance/route.ts:84-98 | the last mark written for a student carries the last status given for them |
| AttendanceProps.UpsertAllKeysUnique | scripts/setup-db.ts:48 | any number of upserts keeps at most one row per (student_id, date) |
| AttendanceProps.ClearSlotKeysUnique | scripts/setup-db.ts:48 | the delete keeps at most one row per (student_id, date) |
| AttendanceProps.PostClosedForm | app/api/attendance/route.ts:60-104 | the table after a POST that passes the guards is the closed form of the loop over the cleared table, for the records processed |
| AttendanceProps.PostKeepsOtherSlots | app/api/attendance/route.ts:60-98 | rows outside the slot keep their position and all but their status; only a processed student's row on that date changes status; later rows are new slot rows |
| AttendanceProps.PostSlotFromRecords | app/api/attendance/route.ts:60-98 | every row left in the slot was written by a processed record, with the last status given for its student |
| AttendanceProps.PostKeepsUpserts | app/api/attendance/route.ts:77-98 | even when a later record is rejected, every processed record's upsert stays in place |
| AttendanceProps.PostSavedSlot | app/api/attendance/route.ts:40-104 | on 200, with no other-class row for these students that day, the slot holds exactly one row per distinct submitted student with the last status given, and rows outside the slot are unchanged |
| AttendanceProps.PostEmptyClears | app/api/attendance/route.ts:40-64 | an empty records array succeeds and only clears the slot |
| AttendanceProps.PostIdempotent | app/api/attendance/route.ts:36-104 | repeating a successful request succeeds and leaves the same facts |
| AttendanceProps.CrossClassKeepsOldClass | app/api/attendance/route.ts:93-98 | a student already marked that day under another class keeps that row's class and name, gets the new status, and gets no row in the new slot |
| AttendanceProps.ScenarioFirstSave | app/api/attendance/route.ts:36-104 | marking two enrolled students on an empty table writes exactly their two rows |
| AttendanceProps.ScenarioRejectionAfterDelete | app/api/attendance/route.ts:59-82 | a record for a student of another class is rejected after the day's slot has been deleted |
| Storage.AdjustCount | lib/storage.ts:60-63 | only the counter of the first class with that name moves, by the given amount; no other class changes |
| Storage.WithoutStudent | lib/storage.ts:77 | the remaining students are exactly those with another id |
| Storage.Store.constructor | lib/storage.ts:4-24 | the store starts with the seeded class and student and no attendance |
| Storage.ListingsMatchLookups | lib/storage.ts:28-50 | every class and student that getAllClasses and getAllStudents list is found by its id, and getClassById and getStudentById find only listed entries |
| Storage.Store.ClassById | lib/storage.ts:30 | the first class with the id, or nothing exactly when there is none |
| Storage.Store.StudentById | lib/storage.ts:50 | the first student with the id, or nothing exactly when there is none |
| Storage.Store.CreateClass | lib/storage.ts:32-39 | exactly one class with the given fields and id is appended; the other arrays are untouched |
| Storage.Store.DeleteClass | lib/storage.ts:41-45 | every class with the id is removed, the rest kept in order; true exactly when one existed; students and attendance untouched |
| Storage.Store.CreateStudent | lib/storage.ts:52-66 | the student is appended and the first class with its class name gains one student |
| Storage.Store.DeleteStudent | lib/storage.ts:68-79 | every student with the id is removed, the first matching student's class loses one; true exactly when the id existed |
| Storage.Store.Attendance | lib/storage.ts:82-91 | the records matching every non-empty filter, in stored order |
| Storage.Store.SaveAttendance | lib/storage.ts:93-100 | the given records are appended in order with their new ids and returned; nothing else changes |
| Storage.AttendanceFiltered | lib/storage.ts:82-91 | the two successive filters equal the single combined filter |
| Storage.AdjustCountInverse | lib/storage.ts:62-73 | incrementing then decrementing a class counter restores the classes |
| Storage.CreateThenDeleteStudent | lib/storage.ts:52-79 | creating a student with a fresh id and deleting it restores the students and every counter |
| Storage.DeleteUnknownStudent | lib/storage.ts:68-79 | deleting an unknown id changes nothing |
| AttendancePage.ActiveStudents | app/attendance/page.tsx:95 | exactly the Active students of the fetched list are kept, each occurrence once and in the fetched order |
| Seqs.FilterInOrder | app/attendance/page.tsx:95 | `filter` keeps the passing elements at increasing positions, every passing position exactly once, and nothing else |
| AttendancePage.InitialRecords | app/attendance/page.tsx:99-105 | one record per active student, in order, marked Present for the selected class and date |
| AttendancePage.MergeStatuses | app/attendance/page.tsx:135-142 | only statuses change; a record takes the status of the first fetched row for its student; unmatched records are unchanged |
| AttendancePage.Toggle | app/attendance/page.tsx:155-166 | records of the student flip between Present and Absent, all others are unchanged |
| AttendancePage.ToggleTwice | app/attendance/page.tsx:155-166 | toggling the same student twice restores the list |
| AttendancePage.PresentCount | app/attendance/page.tsx:204 | the number of positions holding a Present record; hence at most the number of records, and equal to it exactly when all are Present |
| Seqs.FilterCount | app/attendance/page.tsx:204 | the length of a filtered list is the number of positions whose element passes |
| AttendancePage.Percentage | app/attendance/page.tsx:206 | 0 for no records; otherwise within half a point of 100·present/total; between 0 and 100 |
| AttendancePage.RoundedShare | app/attendance/page.tsx:231 | the rounding quotient lies within half a point of the exact share and in 0..100 |
| AttendancePage.SaveRequestOf | app/attendance/page.tsx:168-196 | nothing is sent without a class (checked first) or with no records; otherwise the body carries the class, the date and one entry per record |
| AttendancePage.InitialRecordsPass | app/attendance/page.tsx:95-105 | freshly initialised records of enrolled students pass every check of the attendance POST |
| AttendancePage.AttendanceView.constructor | app/attendance/page.tsx:37-38 | no class is selected, the date is today and both lists are empty |
| AttendancePage.AttendanceView.Refresh | app/attendance/page.tsx:44-153 | with no class both lists are emptied; after a successful students fetch, the active students, initialised; after a failed one, the lists shown before; in both cases then merged with the day's saved statuses when that fetch succeeds with rows |
| AttendancePage.AttendanceView.ToggleStudent | app/attendance/page.tsx:155-166 | the records become the toggled list; nothing else changes |
| StudentsRoute.GetStudents | app/api/students/route.ts:14-27 | with a class, a permutation of that class's students (each row as often as it is stored) sorted by name; without, a permutation of all students, newest first |
| StudentsRoute.CheckStudent | app/api/students/route.ts:41-69 | required fields first, then the status (Active by default), then the class's existence; each error exactly when its check is the first to fail |
| StudentsRoute.PostStudent | app/api/students/route.ts:39-84 | a rejected request changes nothing; an accepted one appends exactly the returned row with the next id |
| StudentsRoute.CreatedStudentListed | app/api/students/route.ts:14-77 | a created student appears in its class listing and in the full listing, which keeps every earlier student |
| StudentsRoute.CreatedStudentInClass | app/api/students/route.ts:59-77 | since the class must exist, creating a student keeps every student in an existing class |
| ClassesRoute.StudentCount | app/api/classes/route.ts:16-18 | the number of students whose `class_name` is the class's name; hence at most the number of students, and 0 exactly when no student names the class |
| ClassesRoute.GetClasses | app/api/classes/route.ts:6-29 | every class exactly once, newest first, each with the number of students whose `class_name` is its name |
| ClassesRoute.CheckClass | app/api/classes/route.ts:43-60 | 400 exactly when name or teacher is missing, then 409 exactly when the name is taken |
| ClassesRoute.StoredDescription | app/api/classes/route.ts:64 | a falsy description is stored as null, any other unchanged |
| ClassesRoute.PostClass | app/api/classes/route.ts:39-74 | a rejected request changes nothing; an accepted one appends exactly one row and replies with 0 students |
| ClassesRoute.CreatedClassNameUnique | app/api/classes/route.ts:51-66 | the duplicate check keeps class names unique |
| ClassesRoute.CreatedClassCountsZero | app/api/classes/route.ts:6-72 | the count of 0 in the POST reply is what GET reports for the new class |
| SearchRoute.DigitRun | app/api/search/route.ts:11 | the longest prefix of digits in the radix |
| SearchRoute.Decimal | app/api/search/route.ts:11 | the decimal digits of a number, without leading zeros |
| SearchRoute.DecimalValue | app/api/search/route.ts:11 | the decimal digits read back as the number |
| SearchRoute.ParseUnsignedDecimal | app/api/search/route.ts:11 | an unsigned decimal followed by a non-digit parses to its value |
| SearchRoute.ParseIntDecimal | app/api/search/route.ts:11 | parseInt reads back any decimal integer with an optional minus sign and a non-digit suffix |
| SearchRoute.ParseIntNoDigits | app/api/search/route.ts:11 | a string with no digit at all parses to NaN |
| SearchRoute.DigitRunPrefix | app/api/search/route.ts:11 | the digit run of digits followed by a non-digit is exactly those digits |
| SearchRoute.ParseInt | app/api/search/route.ts:11 | a number is read only when the text after leading white space starts with a sign or a decimal digit, and a negative one only after a minus sign |
| SearchRoute.LimitOf | app/api/search/route.ts:11 | an absent or empty limit parameter gives 10; any other is read by parseInt |
| SearchRoute.StudentHits | app/api/search/route.ts:24-35 | exactly the students whose name, e-mail or class matches, as hits |
| SearchRoute.ClassHits | app/api/search/route.ts:39-50 | exactly the classes whose name, teacher or description matches, as hits |
| SearchRoute.AttendanceHits | app/api/search/route.ts:54-64 | exactly the attendance rows whose student or class name matches, as hits |
| SearchRoute.TopHits | app/api/search/route.ts:66-67 | the limit or all candidates, newest first, a sub-multiset of the candidates, and no left-out candidate is newer than a kept one |
| SearchRoute.Candidates | app/api/search/route.ts:23-64 | every hit of the union comes from a matching student, class or attendance row, and every matching row gives its hit |
| SearchRoute.Search | app/api/search/route.ts:7-120 | 400 exactly when the trimmed query is under 2 characters; 500 exactly for a NaN, negative or beyond-bigint limit; otherwise total equals the number of results, at most the limit, each the formatted top hit |
| SearchRoute.SearchLinks | app/api/search/route.ts:72-104 | every result links to /students, /classes or /attendance according to its kind, never the default |
| SearchRoute.FormatLink | app/api/search/route.ts:76-92 | a formatted student, class or attendance hit links to /students, /classes or /attendance respectively |
| SearchRoute.SearchComplete | app/api/search/route.ts:20-67 | with a limit above the number of matches, every matching row appears in the results |
| SearchRoute.SearchSound | app/api/search/route.ts:20-104 | every result is the formatted form of a row that matches the trimmed query |
| StudentsPage.EmptyForm | app/students/page.tsx:54-59 | empty fields with status Active |
| StudentsPage.ValidateStudent | app/students/page.tsx:113-139 | a blank name first, then a missing class, then a non-empty e-mail that fails the pattern as typed; each error exactly when it is the first to fail |
| StudentsPage.StudentPayload | app/students/page.tsx:145-150 | the trimmed name, the class, the trimmed e-mail or null when blank, and the status |
| StudentsPage.AddEnabled | app/students/page.tsx:308 | enabled exactly when neither the name nor the class check fails |
| StudentsPage.AcceptedEmailUnchanged | app/students/page.tsx:132-148 | an accepted form posts the e-mail as typed, or null when empty |
| StudentsPage.AcceptedFormCreates | app/students/page.tsx:111-150 | an accepted form for an existing class passes every check of the students POST with the chosen status |
| StudentsPage.StudentsView.constructor | app/students/page.tsx:54-59 | the form starts empty |
| StudentsPage.StudentsView.AddStudent | app/students/page.tsx:111-180 | a rejected form sends nothing and is kept; an accepted one sends its payload and is reset only on success |
| ClassesPage.EmptyClassForm | app/classes/page.tsx:49-50 | empty fields |
| ClassesPage.ButtonDisabled | app/classes/page.tsx:277 | disabled exactly when the form check would reject |
| ClassesPage.ClassPayload | app/classes/page.tsx:97-101 | trimmed name and teacher, and the trimmed description or null when blank |
| ClassesPage.EditForm | app/classes/page.tsx:128-134 | name and teacher copied, a null description shown as empty |
| ClassesPage.EditRoundTrip | app/classes/page.tsx:128-159 | editing a stored class without changes posts back its own fields |
| ClassesPage.ValidFormPayload | app/classes/page.tsx:84-101 | a valid form's payload passes the route's required-field check and its description needs no further normalising |
| ClassesPage.ClassesView.constructor | app/classes/page.tsx:48-50 | both forms empty and no class being edited |
| ClassesPage.ClassesView.AddClass | app/classes/page.tsx:82-126 | an invalid form sends nothing; a valid one sends its payload and is reset only on success |
| ClassesPage.ClassesView.EditClick | app/classes/page.tsx:128-136 | the class becomes the one being edited and the edit form is pre-filled |
| ClassesPage.ClassesView.UpdateClass | app/classes/page.tsx:138-182 | nothing is sent without a class being edited or with an invalid form; otherwise the normalised payload goes to that class's id |

## Left out

- Database access is modelled as sequences of rows. SQL text, collations and
  failures of the remote database (the 500 replies) are not modelled, except
  the search `LIMIT` that SQL rejects.
- Record ids and timestamps are parameters: the SERIAL counters and `NOW()`
  in the routes, `Date.now()` and `Math.random()` in `lib/storage.ts`. In the
  attendance proofs, "the same table" means the same facts, ignoring the id
  and `created_at` of rewritten rows.
- JSON parsing is not modelled; bodies arrive parsed. A field that is not a
  string (for example a numeric `name`, or a `status` of null) is not
  represented.
- Concurrency is not modelled: two POSTs racing on one slot, and the two
  fetches the attendance page starts together. The model applies the merge
  after the initialisation.
- Text.ILike: case-insensitive substring search with ASCII case folding. It
  does not model Unicode case folding or the `%`/`_` wildcards of the user's
  own query text.
- SearchRoute.AttendanceHit: the subtitle is the stored date. The `TO_CHAR`
  date formatting is not modelled.
- Strings are sequences of code points. JavaScript measures `length` in UTF-16
  units, so a query of one astral character counts as length 2 in the source
  and 1 here.
- AttendancePage.Percentage: `Math.round` over floating point is modelled on
  exact rationals (halves round up). A float error near a half could round
  the other way in the source.
- SearchRoute.ParseInt: exact for all lengths. The source loses precision on
  integers beyond 2^53, so a limit just below 2^63 can round up past the
  `bigint` range and fail in the source where the model answers.
- Dates are strings compared for equality, assumed to arrive in the canonical
  `YYYY-MM-DD` form. The `date` column is a SQL `DATE`, so the source treats
  `2024-1-5` and `2024-01-05` as the same key and slot and answers 500 for a
  date it cannot parse. The model treats them as different and accepts any
  string.
- Ties in SQL `ORDER BY` have no defined order. The model breaks them with a
  stable insertion sort.
- ClassesRoute.GetClasses: the counts are exact integers. The
  `parseInt(count) || 0` step is an identity on them.
- Nullable columns: a student's `class_name` is always a string here. So the
  search's "No class assigned" fallback never applies.
- Storage.Store: the source returns the stored objects themselves, so a
  caller could alias and mutate them. The model returns values.
  `AttendanceEntry` of `lib/types.ts` is declared but never used, and is not
  modelled.
- The PUT and DELETE routes under `app/api/classes/[id]` and
  `app/api/students/[id]` are not part of this model. `UpdateClass` ends at
  the body it sends.
- Toasts, dialogs, loading flags and JSX rendering are not modelled. Neither
  are the Teams integration, the summary page, the layout and the
  database-setup script. The schema's constraints appear as the invariants of
  `Tables.Database`.
