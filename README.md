# Campus events: event routes and reports

A model of the REST backend of a campus-events application. Colleges have students and events.
Students register for events, have their attendance marked and leave feedback. The backend
stores six tables (colleges, students, events, registrations, attendance, feedback) through an
ORM. It has two groups of routes, both modelled here:

- The event routes create and list events and handle registering, marking attendance and
  submitting feedback. The three link tables are keyed by the pair `(studentId, eventId)`, and
  writing them is an upsert.
- The report routes build event popularity, a student's participation, the top three students,
  an event's feedback summary and the attendance percentage per event.

Layout:

- `schema.dfy` (module `Schema`): the rows, the tables as sequences in insertion order, the
  lookups by id and by key, and the ORM's `_count` aggregates.
- `sorting.dfy` (module `Sorting`): one stable insertion sort by an integer key. It models every
  `orderBy` and the in-memory sort of the top-students report. A descending order is an
  ascending order on the negated key.
- `events.dfy` (module `Events`): the event routes. Each handler's checks and results are
  pure functions returning `Ok`, `BadRequest` (400), `NotFound` (404) or `ServerError` (500),
  with the handler's error messages. The class `Store` holds the tables. Its methods are the
  five handlers: listing reads the tables, and the four that write each keep the invariant
  `Consistent`:
  - ids run from 1 in insertion order, with no gaps (see "## Left out");
  - every event has a valid type and an existing college;
  - no two rows of a link table share a key, and every key names an existing student and event;
  - every attendance row has a matching registration;
  - every rating lies in 1..5.
- `reports.dfy` (module `Reports`): the reports, as pure functions of the tables.

Choices made in the model:

- The percentage is kept in exact hundredths of a percent, rounded half up. The average rating
  is an exact rational.
- Request inputs arrive already typed. A string input is `Option<string>`, and JavaScript
  truthiness is written out: a missing value and `""` are falsy. A numeric body field is falsy
  when missing or 0.
- A query filter is `Some(n)` exactly when the query string is non-empty. The string `"0"` is
  truthy, so it still filters.
- The rating is `NoRating`, a number, or `NotANumber`, matching how `Number(rating)` sees it.
- The current time is the `now` parameter of `MarkAttendance`.

The feedback handler (backend/src/routes/events.js:146-188) checks neither attendance nor
registration. `SubmitFeedback` likewise requires only that the student and the event exist.

## Model

| member | source | states |
|---|---|---|
| `Events.NewEvent` | backend/src/routes/events.js:11-26 | Missing title, type, date or collegeId gives the required-fields 400. Otherwise a type outside the whitelist gives the type 400. Otherwise an unknown college gives the 500 the failed insert produces. Success happens exactly when all checks pass. The new row carries the given fields, the next id, and an empty description when none is given. The result is never a 404. |
| `Events.Store.CreateEvent` | backend/src/routes/events.js:9-32 | The result is `NewEvent` with the next id. The event is appended exactly on success. No other table changes. The store stays consistent. |
| `Events.DescriptionOrEmpty` | backend/src/routes/events.js:21 | A non-empty description is kept, and a missing or empty one becomes the empty string. |
| `Events.SelectEvents` | backend/src/routes/events.js:38-46 | An event is selected iff it is in the table, has the type when a truthy type is given, and has the college when a collegeId is given. |
| `Events.QueryEvents` | backend/src/routes/events.js:48-50 | The result is a permutation of the selected events, ordered by date ascending. |
| `Events.Store.ListEvents` | backend/src/routes/events.js:36-62 | A truthy type outside the whitelist gives the invalid-type 400, and every other query succeeds. The rows are a permutation of the matching events, by date ascending. Each row carries `_count.registrations` of its event and its college, or none when the college is missing. Nothing is written. |
| `Events.Listings` | backend/src/routes/events.js:51-54 | Row `i` is the `i`-th event with its `_count.registrations` and its joined college, or none when no college has its collegeId. |
| `Events.FindStudent` | backend/src/routes/events.js:74-81 | The first student, in table order, whose roll number equals a truthy `student_id` or whose email equals a truthy `email`. It is none exactly when no student matches. |
| `Events.Resolve` | backend/src/routes/events.js:68-86 | The checks run in order. No identifier gives the 400. No matching student gives "Student not found". No event with the id gives "Event not found". The result is Ok exactly when both exist, and never a 500. |
| `Events.UpsertRegistration` | backend/src/routes/events.js:88-92 | An existing row for the pair is returned and nothing is written. Otherwise a row with the next id is appended. |
| `Events.UpsertRegistrationIdempotent` | backend/src/routes/events.js:88-92 | Registering twice leaves the table and the returned row as registering once. |
| `Events.UpsertRegistrationConsistent` | backend/src/routes/events.js:88-92 | The upsert keeps ids, unique keys and references intact. It leaves exactly one row for the pair and loses no existing pair. |
| `Events.Store.Register` | backend/src/routes/events.js:66-99 | When `Resolve` fails, its error is returned and nothing changes. Otherwise registrations become the upsert's table, the upserted row is returned, and the pair has exactly one row. The other tables are unchanged and the store stays consistent. |
| `Events.UpsertAttendance` | backend/src/routes/events.js:131-135 | An existing row for the pair is updated in place to `attended_at = now`. Otherwise a row with the next id and `attended_at = now` is appended. |
| `Events.RemarkRefreshesOnly` | backend/src/routes/events.js:131-135 | Re-marking changes only `attended_at` of the pair's row. Every other row, and that row's id and key, are kept. |
| `Events.UpsertAttendanceTwice` | backend/src/routes/events.js:131-135 | Marking at `n1` and then at `n2` equals marking once at `n2`. |
| `Events.UpsertAttendanceConsistent` | backend/src/routes/events.js:131-135 | The attendance upsert keeps the table well-formed and leaves exactly one row for the pair. |
| `Events.AttendanceStaysRegistered` | backend/src/routes/events.js:124-135 | Because the handler also upserts the registration, every attendance row has a registration for its pair afterwards. |
| `Events.Store.MarkAttendance` | backend/src/routes/events.js:103-142 | When `Resolve` fails, its error is returned and nothing changes. Otherwise both upserts are applied and the attendance row is returned, marked at `now`. The pair then has exactly one registration and one attendance row. Feedback and events are unchanged. |
| `Events.StoredComment` | backend/src/routes/events.js:176-177 | A comment is stored iff it is non-empty, and then unchanged; an empty one becomes null. |
| `Events.UpsertFeedback` | backend/src/routes/events.js:174-178 | An existing row for the pair gets the new rating and comment in place. Otherwise a row with the next id is appended. |
| `Events.UpsertFeedbackTwice` | backend/src/routes/events.js:174-178 | Submitting twice equals submitting only the second feedback. |
| `Events.UpsertFeedbackConsistent` | backend/src/routes/events.js:174-178 | The feedback upsert keeps the table well-formed and leaves exactly one row for the pair. |
| `Events.RatingsStayInRange` | backend/src/routes/events.js:156-178 | Storing a rating in 1..5 keeps every stored rating in 1..5. |
| `Events.CheckFeedback` | backend/src/routes/events.js:151-159 | No identifier gives the identity 400. Otherwise a falsy rating (missing or 0) gives "rating is required". Otherwise a non-number or a number outside 1..5 gives the range 400. Success happens exactly when an identifier is given and the rating is a number in 1..5, and yields that number. |
| `Events.Store.SubmitFeedback` | backend/src/routes/events.js:146-188 | The input checks come first, then `Resolve`. A failed check returns its error and writes nothing. Otherwise the feedback upsert is applied with the stored comment and its row is returned. The pair has exactly one feedback row, the other tables are unchanged, and the store stays consistent. |
| `Events.CreateEventConsistent` | backend/src/routes/events.js:18-26 | Appending an event with the next id, a valid type and an existing college keeps the store consistent. |
| `Events.RegisterConsistent` | backend/src/routes/events.js:88-92 | Registering an existing student for an existing event keeps the store consistent. |
| `Events.AttendConsistent` | backend/src/routes/events.js:124-135 | The two upserts of the attendance handler together keep the store consistent, including "attendance implies registration". |
| `Events.FeedbackConsistent` | backend/src/routes/events.js:174-178 | A feedback upsert with a rating in 1..5 keeps the store consistent. |
| `Schema.FindEvent` | backend/src/routes/events.js:85 | `findUnique` by id: a found event is in the table with that id, and none is found exactly when no event has it. |
| `Schema.FindCollege` | backend/src/routes/events.js:53 | The joined college is one with the event's collegeId. It is none exactly when no college has that id. |
| `Schema.IndexOf` | backend/src/routes/events.js:89 | The `where: { studentId_eventId }` lookup gives the first row with the key. It is none exactly when no row has the key. |
| `Schema.UniqueKeyCount` | backend/src/routes/events.js:89 | Under the compound unique constraint, each pair has at most one row, and exactly one when present. |
| `Schema.CountForEventCovered` | backend/src/routes/events.js:124-129 | When every row of one link table has a partner row with the same key in another, an event has no more rows in the first than in the second. |
| `Sorting.SortBy` | backend/src/routes/events.js:50 | The result is a permutation of the input, ordered by the key ascending. |
| `Sorting.SortByStable` | backend/src/routes/reports.js:53 | Elements with equal keys keep their input order. |
| `Sorting.SortedPrefixStable` | backend/src/routes/reports.js:53-54 | After sorting and slicing, for each key the kept elements are the first ones of the input with that key, in order. |
| `Reports.WithCounts` | backend/src/routes/reports.js:10 | Each event is paired with its registration count, in table order. |
| `Reports.EventPopularity` | backend/src/routes/reports.js:7-13 | The result is a permutation of the events paired with their registration counts, ordered by count descending. |
| `Reports.AttendanceOf` | backend/src/routes/reports.js:24-25 | A row is kept iff it is in the table and has the student. The number kept equals the student's `_count.attendance`. |
| `Reports.WithEvents` | backend/src/routes/reports.js:26 | Each attendance row is joined with the event its `eventId` names. |
| `Reports.StudentParticipation` | backend/src/routes/reports.js:21-29 | The result is a permutation of the student's attendance rows, as many as the student's attendance count. Each row is joined with its event and ordered by `attended_at` descending. |
| `Reports.RankAll` | backend/src/routes/reports.js:42-52 | Each student is mapped to its fields, its attendance and registration counts, and `score = attendance * 2 + registrations`. |
| `Reports.TopStudents` | backend/src/routes/reports.js:37-55 | The result has min(3, #students) entries drawn from the ranking. Each entry carries its own counts and score. Scores do not increase along the result. No student left out scores above a returned one. Among equal scores, the returned entries are the first in input order. |
| `Reports.RestScoresBelow` | backend/src/routes/reports.js:53-54 | After sorting by score descending, nothing cut off by the slice scores above anything kept. |
| `Reports.SummarizeFeedback` | backend/src/routes/reports.js:63-71 | The count is the event's number of feedback rows. The average is null exactly when the count is 0, and otherwise times the count equals the sum of the ratings. |
| `Reports.RatingSumBounds` | backend/src/routes/reports.js:66-70 | With ratings in 1..5, the rating sum lies between the count and five times the count. |
| `Reports.AverageRatingInRange` | backend/src/routes/reports.js:66-71 | With ratings in 1..5, a non-null average lies in [1, 5]. |
| `Reports.Hundredths` | backend/src/routes/reports.js:100 | The result is 0 without registrations. Otherwise it is `attended * 10000 / registrations` rounded half up, given as the two inequalities that determine it. |
| `Reports.HundredthsUnique` | backend/src/routes/reports.js:100 | Any value meeting the two rounding inequalities is the computed percentage, so they determine it. |
| `Reports.HundredthsInRange` | backend/src/routes/reports.js:100 | When attended does not exceed registrations, the percentage lies in 0..100.00. |
| `Reports.PercentageRows` | backend/src/routes/reports.js:97-111 | Each row reproduces its event's id, title, type and date, its college or null, its two counts and their percentage. |
| `Reports.AttendancePercentage` | backend/src/routes/reports.js:80-118 | Row `i` reports the `i`-th event of the date-ordered selection, which is a permutation of the matching events, so there is exactly one row per matching event. Each row describes a matching event, and rows are ordered by date ascending. |
| `Reports.StorePercentagesInRange` | backend/src/routes/reports.js:97-106 | Over a consistent store, every row has a college, attended does not exceed registrations, and the percentage lies in 0..100.00. |
| `Reports.UnknownTypeSelectsNothing` | backend/src/routes/reports.js:85 | A type outside the whitelist, which the event list rejects with a 400, makes this report return no rows. |

## Left out

- HTTP, routing, JSON encoding and status-code plumbing are not modelled. A handler's outcome is
  a `Response` value, and the 201 and 200 successes are both `Ok`.
- The ORM and the database are modelled as sequences of rows. Concurrent requests and
  transactions are not modelled: each handler runs alone. So is the race between two upserts
  of the same pair.
- Type coercion of inputs is left out:
  - `Number(...)` of path and query ids, including `NaN`;
  - `new Date(date)` parsing, since a date is an abstract integer;
  - string-versus-number body fields.
- Events.CheckFeedback: a non-integer number such as 2.5 passes the source's range check,
  despite the "integer" in its message. The model's ratings are integers, so it does not
  capture what happens to that value.
- The feedback handler's mapping of the ORM error codes P2010 and P2000 to a 400 is not
  modelled, because the model has no ORM errors. Any other ORM failure is a 500 and is modelled
  only for the missing college of a new event.
- The schema file is not part of this model. Three behaviours are assumed from how the routes
  use it:
  - ids are assigned by autoincrement, from 1 and without gaps;
  - a new attendance row's `attended_at` defaults to the current time;
  - an event's collegeId is a foreign key, so creating an event with an unknown college fails.
- Floating point is not modelled. The attendance percentage is exact hundredths rounded half
  up, where JavaScript computes `Math.round(a / r * 10000) / 100` in doubles. The average
  rating is an exact rational.
- Ids are modelled as 1..n in insertion order, the ids of tables that never had a row deleted.
  The core never deletes rows, but the seed script (backend/prisma/seed.js) empties every table
  with `deleteMany()` and refills it, and an autoincrement sequence does not restart at 1. The
  invariant `Consistent`, and the "next id is one more than the row count" of `NewEvent` and the
  three upserts, do not describe such a re-seeded database, whose ids are distinct and
  increasing but do not start at 1.
- The database returns rows in an order it does not specify unless `orderBy` says so. The
  model assumes table (insertion) order throughout. That order decides which student
  `findFirst` returns in `Events.FindStudent` when several match, and the order of the students
  `Reports.TopStudents` receives, which decides its ties.
- `Reports.EventPopularity` and `Events.QueryEvents` do not state the relative order of rows
  with equal counts or dates. The database leaves that order unspecified, and the model's sort
  happens to keep table order.
- The rest of the backend is not modelled: the `/health` and `/colleges` routes and the
  static-file serving of backend/src/server.js, the standalone seed script, server start-up and
  the two front-end UIs.
