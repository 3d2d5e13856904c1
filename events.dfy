/** The request rules of the event routes: create and list events, register a student, mark
    attendance and submit feedback. Each handler validates its input, resolves the student and the
    event, and then writes through an upsert keyed on `(studentId, eventId)`. */
module Events {
  import opened Schema
  import opened Sorting

  const ValidTypes: seq<string> := ["workshop", "fest", "seminar"]

  /** `Array.prototype.join`. */
  function Join(parts: seq<string>, sep: string): string {
    if |parts| == 0 then ""
    else if |parts| == 1 then parts[0]
    else parts[0] + sep + Join(parts[1..], sep)
  }

  const RequiredFieldsError := "title, type, date, collegeId are required"
  const TypeError := "type must be one of " + Join(ValidTypes, ", ")
  const InvalidTypeQueryError := "invalid type; valid: " + Join(ValidTypes, ", ")
  const CreateEventFailedError := "Failed to create event"
  const IdentityError := "Provide student_id or email"
  const StudentNotFoundError := "Student not found"
  const EventNotFoundError := "Event not found"
  const RatingRequiredError := "rating is required"
  const RatingRangeError := "rating must be an integer 1-5"

  /** A handler's reply: the record with status 200/201, or an error body with status 400, 404
      or 500. */
  datatype Response<T> = Ok(value: T) | BadRequest(error: string) | NotFound(error: string) | ServerError(error: string)
  {
    /** The same error reply, for a handler with a different success type. */
    function Propagate<U>(): (r: Response<U>)
      requires !Ok?
      ensures !r.Ok? && r.error == error
      ensures r.BadRequest? == BadRequest? && r.NotFound? == NotFound?
    {
      match this
      case BadRequest(m) => BadRequest(m)
      case NotFound(m) => NotFound(m)
      case ServerError(m) => ServerError(m)
    }
  }

  // ---------------------------------------------------------------------------------------
  // The store's invariant

  ghost predicate KnownStudent(students: seq<Student>, id: int) {
    exists s :: s in students && s.id == id
  }

  ghost predicate KnownCollege(colleges: seq<College>, id: int) {
    exists c :: c in colleges && c.id == id
  }

  ghost predicate KnownEvent(events: seq<Event>, id: int) {
    exists e :: e in events && e.id == id
  }

  /** Every row of a link table names an existing student and an existing event. */
  ghost predicate Refers<T>(rows: seq<T>, keyOf: T -> Key, students: seq<Student>, events: seq<Event>) {
    forall i :: 0 <= i < |rows| ==>
      KnownStudent(students, keyOf(rows[i]).studentId) && KnownEvent(events, keyOf(rows[i]).eventId)
  }

  ghost predicate LinkTable<T>(rows: seq<T>, keyOf: T -> Key, idOf: T -> int, students: seq<Student>, events: seq<Event>) {
    IdsFromOne(rows, idOf) && UniqueKeys(rows, keyOf) && Refers(rows, keyOf, students, events)
  }

  /** What every handler preserves: autoincrement ids, one row per `(studentId, eventId)` in each
      link table, rows that refer to existing students and events, every stored event of a valid
      type at an existing college, attendance only for registered pairs, ratings in 1..5. */
  ghost predicate Consistent(colleges: seq<College>, students: seq<Student>, events: seq<Event>,
                             regs: seq<Registration>, att: seq<Attendance>, fb: seq<Feedback>) {
    && IdsFromOne(events, EventId)
    && (forall i :: 0 <= i < |events| ==> events[i].kind in ValidTypes && KnownCollege(colleges, events[i].collegeId))
    && LinkTable(regs, RegistrationKey, RegistrationId, students, events)
    && LinkTable(att, AttendanceKey, AttendanceId, students, events)
    && LinkTable(fb, FeedbackKey, FeedbackId, students, events)
    && (forall i :: 0 <= i < |att| ==> HasKey(regs, RegistrationKey, att[i].key))
    && (forall i :: 0 <= i < |fb| ==> 1 <= fb[i].rating <= 5)
  }

  lemma HasKeyGrows<T>(t: seq<T>, u: seq<T>, keyOf: T -> Key)
    requires |t| <= |u| && forall i :: 0 <= i < |t| ==> keyOf(u[i]) == keyOf(t[i])
    ensures forall k :: HasKey(t, keyOf, k) ==> HasKey(u, keyOf, k)
  {
    forall k | HasKey(t, keyOf, k) ensures HasKey(u, keyOf, k) {
      var i :| 0 <= i < |t| && keyOf(t[i]) == k;
      assert keyOf(u[i]) == k;
    }
  }

  lemma LinkTableAppend<T>(rows: seq<T>, keyOf: T -> Key, idOf: T -> int, x: T, students: seq<Student>, events: seq<Event>)
    requires LinkTable(rows, keyOf, idOf, students, events)
    requires !HasKey(rows, keyOf, keyOf(x)) && idOf(x) == |rows| + 1
    requires KnownStudent(students, keyOf(x).studentId) && KnownEvent(events, keyOf(x).eventId)
    ensures LinkTable(rows + [x], keyOf, idOf, students, events)
  {
    var u := rows + [x];
    forall i, j | 0 <= i < j < |u| ensures keyOf(u[i]) != keyOf(u[j]) {
      if j == |rows| {
        assert u[i] == rows[i];
      }
    }
  }

  lemma LinkTableUpdate<T>(rows: seq<T>, keyOf: T -> Key, idOf: T -> int, i: nat, x: T, students: seq<Student>, events: seq<Event>)
    requires LinkTable(rows, keyOf, idOf, students, events)
    requires i < |rows| && keyOf(x) == keyOf(rows[i]) && idOf(x) == idOf(rows[i])
    ensures LinkTable(rows[i := x], keyOf, idOf, students, events)
  {
  }

  // ---------------------------------------------------------------------------------------
  // POST /events

  /** `!collegeId` on a JSON number: missing and 0 are falsy. */
  predicate GivenId(n: Option<int>) {
    n.Some? && n.value != 0
  }

  predicate MissingEventFields(title: Option<string>, kind: Option<string>, date: Option<Date>, collegeId: Option<int>) {
    !Given(title) || !Given(kind) || date.None? || !GivenId(collegeId)
  }

  /** `description || ''`. */
  function DescriptionOrEmpty(description: Option<string>): (d: string)
    ensures Given(description) ==> d == description.value
    ensures !Given(description) ==> d == ""
  {
    if Given(description) then description.value else ""
  }

  /** The event row `prisma.event.create` inserts with primary key `id`, or the handler's error.
      An unknown college violates the foreign key, which the handler reports as a server error. */
  function NewEvent(colleges: seq<College>, id: int, title: Option<string>, description: Option<string>,
                    kind: Option<string>, date: Option<Date>, collegeId: Option<int>): (r: Response<Event>)
    ensures MissingEventFields(title, kind, date, collegeId) ==> r == BadRequest(RequiredFieldsError)
    ensures !MissingEventFields(title, kind, date, collegeId) && kind.value !in ValidTypes ==> r == BadRequest(TypeError)
    ensures (!MissingEventFields(title, kind, date, collegeId) && kind.value in ValidTypes
             && forall c :: c in colleges ==> c.id != collegeId.value) ==> r == ServerError(CreateEventFailedError)
    ensures r.Ok? <==> !MissingEventFields(title, kind, date, collegeId) && kind.value in ValidTypes
                       && exists c :: c in colleges && c.id == collegeId.value
    ensures r.Ok? ==> r.value.id == id && r.value.title == title.value && r.value.kind == kind.value
                      && r.value.date == date.value && r.value.collegeId == collegeId.value
                      && r.value.description == DescriptionOrEmpty(description)
    ensures !r.NotFound?
  {
    if MissingEventFields(title, kind, date, collegeId) then BadRequest(RequiredFieldsError)
    else if kind.value !in ValidTypes then BadRequest(TypeError)
    else if FindCollege(colleges, collegeId.value).None? then ServerError(CreateEventFailedError)
    else Ok(Event(id, title.value, DescriptionOrEmpty(description), kind.value, date.value, collegeId.value))
  }

  // ---------------------------------------------------------------------------------------
  // GET /events

  /** The `where` object the list handler (and the attendance-percentage report) builds: a
      truthy `type` filters by type, a present `collegeId` by college. */
  predicate MatchesQuery(e: Event, kind: Option<string>, collegeId: Option<int>) {
    (Given(kind) ==> e.kind == kind.value) && (collegeId.Some? ==> e.collegeId == collegeId.value)
  }

  function SelectEvents(events: seq<Event>, kind: Option<string>, collegeId: Option<int>): (r: seq<Event>)
    ensures forall e :: e in r <==> e in events && MatchesQuery(e, kind, collegeId)
    ensures |r| <= |events|
  {
    if events == [] then []
    else
      assert events == [events[0]] + events[1..];
      (if MatchesQuery(events[0], kind, collegeId) then [events[0]] else []) + SelectEvents(events[1..], kind, collegeId)
  }

  /** `findMany({ where, orderBy: { date: 'asc' } })`. */
  function QueryEvents(events: seq<Event>, kind: Option<string>, collegeId: Option<int>): (r: seq<Event>)
    ensures multiset(r) == multiset(SelectEvents(events, kind, collegeId))
    ensures |r| == |SelectEvents(events, kind, collegeId)|
    ensures forall i :: 0 <= i < |r| ==> r[i] in events && MatchesQuery(r[i], kind, collegeId)
    ensures forall i, j :: 0 <= i < j < |r| ==> r[i].date <= r[j].date
  {
    var selected := SelectEvents(events, kind, collegeId);
    var sorted := SortBy(selected, EventDate);
    MembersOf(sorted, selected);
    sorted
  }

  function EventDate(e: Event): int { e.date }

  /** A row of the list: the event with `_count.registrations` and its `college`. */
  datatype EventListing = EventListing(event: Event, registrationCount: nat, college: Option<College>)

  function Listings(es: seq<Event>, regs: seq<Registration>, colleges: seq<College>): (r: seq<EventListing>)
    ensures |r| == |es|
    ensures forall i :: 0 <= i < |r| ==> r[i].event == es[i]
    ensures forall i :: 0 <= i < |r| ==> (r[i].registrationCount == CountForEvent(regs, RegistrationKey, es[i].id)
                                         && r[i].college == FindCollege(colleges, es[i].collegeId))
  {
    if es == [] then []
    else [EventListing(es[0], CountForEvent(regs, RegistrationKey, es[0].id), FindCollege(colleges, es[0].collegeId))]
         + Listings(es[1..], regs, colleges)
  }

  function EventsOf(rows: seq<EventListing>): (r: seq<Event>)
    ensures |r| == |rows| && forall i :: 0 <= i < |r| ==> r[i] == rows[i].event
  {
    if rows == [] then [] else [rows[0].event] + EventsOf(rows[1..])
  }

  // ---------------------------------------------------------------------------------------
  // Resolving the student and the event

  /** The student row the `OR` condition selects: only truthy identifiers take part. */
  predicate Identifies(s: Student, studentNumber: Option<string>, email: Option<string>) {
    (Given(studentNumber) && s.studentNumber == studentNumber.value) || (Given(email) && s.email == email.value)
  }

  /** `prisma.student.findFirst({ where: { OR: [...] } })`, in table order. */
  function FindStudent(students: seq<Student>, studentNumber: Option<string>, email: Option<string>): (r: Option<Student>)
    ensures r.Some? ==> r.value in students && Identifies(r.value, studentNumber, email)
    ensures r.Some? ==> exists i :: 0 <= i < |students| && students[i] == r.value
                                   && forall j :: 0 <= j < i ==> !Identifies(students[j], studentNumber, email)
    ensures r.None? <==> forall s :: s in students ==> !Identifies(s, studentNumber, email)
  {
    FindFirst(students, (s: Student) => Identifies(s, studentNumber, email))
  }

  /** The checks shared by register, attendance and feedback, in their order: an identifier is
      required, then the student must exist, then the event. */
  function Resolve(students: seq<Student>, events: seq<Event>, eventId: int,
                   studentNumber: Option<string>, email: Option<string>): (r: Response<(Student, Event)>)
    ensures !Given(studentNumber) && !Given(email) ==> r == BadRequest(IdentityError)
    ensures (Given(studentNumber) || Given(email)) && (forall s :: s in students ==> !Identifies(s, studentNumber, email))
            ==> r == NotFound(StudentNotFoundError)
    ensures ((Given(studentNumber) || Given(email)) && (exists s :: s in students && Identifies(s, studentNumber, email))
             && forall e :: e in events ==> e.id != eventId) ==> r == NotFound(EventNotFoundError)
    ensures r.Ok? <==> (exists s :: s in students && Identifies(s, studentNumber, email)) && (exists e :: e in events && e.id == eventId)
    ensures r.Ok? ==> r.value.0 == FindStudent(students, studentNumber, email).value && r.value.1 in events && r.value.1.id == eventId
    ensures !r.ServerError?
  {
    if !Given(studentNumber) && !Given(email) then BadRequest(IdentityError)
    else match FindStudent(students, studentNumber, email)
      case None => NotFound(StudentNotFoundError)
      case Some(s) =>
        match FindEvent(events, eventId)
        case None => NotFound(EventNotFoundError)
        case Some(e) => Ok((s, e))
  }

  // ---------------------------------------------------------------------------------------
  // The three upserts

  /** What `upsert` writes and returns. */
  datatype Upserted<T> = Upserted(rows: seq<T>, row: T)

  /** `registration.upsert({ update: {}, create: { studentId, eventId } })`: an existing row is
      returned untouched, otherwise a new one is appended. */
  function UpsertRegistration(t: seq<Registration>, k: Key): (u: Upserted<Registration>)
    ensures u.row.key == k && u.row in u.rows
    ensures HasKey(t, RegistrationKey, k) ==> u.rows == t
    ensures !HasKey(t, RegistrationKey, k) ==> u.row == Registration(|t| + 1, k) && u.rows == t + [u.row]
  {
    match IndexOf(t, RegistrationKey, k)
    case Some(i) => Upserted(t, t[i])
    case None =>
      var row := Registration(|t| + 1, k);
      Upserted(t + [row], row)
  }

  /** Registering twice is registering once. */
  lemma UpsertRegistrationIdempotent(t: seq<Registration>, k: Key)
    ensures UpsertRegistration(UpsertRegistration(t, k).rows, k) == UpsertRegistration(t, k)
  {
    var u := UpsertRegistration(t, k);
    if !HasKey(t, RegistrationKey, k) {
      assert u.rows[|t|].key == k;
      assert forall j :: 0 <= j < |t| ==> u.rows[j] == t[j];
    }
  }

  /** The upsert keeps the table consistent and leaves exactly one row for the pair. */
  lemma UpsertRegistrationConsistent(t: seq<Registration>, k: Key, students: seq<Student>, events: seq<Event>)
    requires LinkTable(t, RegistrationKey, RegistrationId, students, events)
    requires KnownStudent(students, k.studentId) && KnownEvent(events, k.eventId)
    ensures LinkTable(UpsertRegistration(t, k).rows, RegistrationKey, RegistrationId, students, events)
    ensures CountKey(UpsertRegistration(t, k).rows, RegistrationKey, k) == 1
    ensures forall k' :: HasKey(t, RegistrationKey, k') ==> HasKey(UpsertRegistration(t, k).rows, RegistrationKey, k')
  {
    var u := UpsertRegistration(t, k);
    if !HasKey(t, RegistrationKey, k) {
      LinkTableAppend(t, RegistrationKey, RegistrationId, u.row, students, events);
    }
    HasKeyGrows(t, u.rows, RegistrationKey);
    assert u.rows[IndexOf(u.rows, RegistrationKey, k).value].key == k;
    UniqueKeyCount(u.rows, RegistrationKey, k);
  }

  /** `attendance.upsert({ update: { attended_at: now }, create: { studentId, eventId } })`; a
      new row's `attended_at` is its creation time. */
  function UpsertAttendance(t: seq<Attendance>, k: Key, now: Date): (u: Upserted<Attendance>)
    ensures u.row.key == k && u.row.attendedAt == now && u.row in u.rows
    ensures !HasKey(t, AttendanceKey, k) ==> u.row == Attendance(|t| + 1, k, now) && u.rows == t + [u.row]
    ensures HasKey(t, AttendanceKey, k) ==>
      exists i :: 0 <= i < |t| && t[i].key == k && u.row == t[i].(attendedAt := now) && u.rows == t[i := u.row]
  {
    match IndexOf(t, AttendanceKey, k)
    case Some(i) =>
      var row := t[i].(attendedAt := now);
      assert t[i := row][i] == row;
      Upserted(t[i := row], row)
    case None =>
      var row := Attendance(|t| + 1, k, now);
      Upserted(t + [row], row)
  }

  /** Re-marking attendance only refreshes `attended_at` of the pair's row; every other row, and
      the row's id and key, stay as they were. */
  lemma RemarkRefreshesOnly(t: seq<Attendance>, k: Key, now: Date)
    requires UniqueKeys(t, AttendanceKey) && HasKey(t, AttendanceKey, k)
    ensures |UpsertAttendance(t, k, now).rows| == |t|
    ensures forall j :: 0 <= j < |t| ==>
      UpsertAttendance(t, k, now).rows[j] == if t[j].key == k then t[j].(attendedAt := now) else t[j]
  {
  }

  /** Marking attendance at `n1` and again at `n2` leaves the table as marking once at `n2`. */
  lemma UpsertAttendanceTwice(t: seq<Attendance>, k: Key, n1: Date, n2: Date)
    ensures UpsertAttendance(UpsertAttendance(t, k, n1).rows, k, n2) == UpsertAttendance(t, k, n2)
  {
    var u := UpsertAttendance(t, k, n1);
    var i := IndexOf(u.rows, AttendanceKey, k).value;
    if HasKey(t, AttendanceKey, k) {
      var i0 := IndexOf(t, AttendanceKey, k).value;
      assert u.rows[i0].key == k && t[i].key == u.rows[i].key;
      assert i == i0;
      assert u.rows[i := u.rows[i].(attendedAt := n2)] == t[i := t[i].(attendedAt := n2)];
    } else {
      assert u.rows[|t|].key == k && forall j :: 0 <= j < |t| ==> u.rows[j] == t[j];
      assert i == |t|;
      assert u.rows[i := u.rows[i].(attendedAt := n2)] == t + [Attendance(|t| + 1, k, n2)];
    }
  }

  lemma UpsertAttendanceConsistent(t: seq<Attendance>, k: Key, now: Date, students: seq<Student>, events: seq<Event>)
    requires LinkTable(t, AttendanceKey, AttendanceId, students, events)
    requires KnownStudent(students, k.studentId) && KnownEvent(events, k.eventId)
    ensures LinkTable(UpsertAttendance(t, k, now).rows, AttendanceKey, AttendanceId, students, events)
    ensures CountKey(UpsertAttendance(t, k, now).rows, AttendanceKey, k) == 1
  {
    var u := UpsertAttendance(t, k, now);
    if HasKey(t, AttendanceKey, k) {
      var i := IndexOf(t, AttendanceKey, k).value;
      LinkTableUpdate(t, AttendanceKey, AttendanceId, i, u.row, students, events);
    } else {
      LinkTableAppend(t, AttendanceKey, AttendanceId, u.row, students, events);
    }
    assert u.rows[IndexOf(u.rows, AttendanceKey, k).value].key == k;
    UniqueKeyCount(u.rows, AttendanceKey, k);
  }

  /** Marking attendance registers the pair first, so every attendance row stays registered. */
  lemma AttendanceStaysRegistered(regs: seq<Registration>, att: seq<Attendance>, k: Key, now: Date)
    requires forall i :: 0 <= i < |att| ==> HasKey(regs, RegistrationKey, att[i].key)
    ensures forall i :: 0 <= i < |UpsertAttendance(att, k, now).rows| ==>
      HasKey(UpsertRegistration(regs, k).rows, RegistrationKey, UpsertAttendance(att, k, now).rows[i].key)
  {
    var regs' := UpsertRegistration(regs, k);
    var att' := UpsertAttendance(att, k, now).rows;
    assert forall j :: 0 <= j < |regs| ==> regs'.rows[j] == regs[j];
    HasKeyGrows(regs, regs'.rows, RegistrationKey);
    assert HasKey(regs'.rows, RegistrationKey, k) by {
      var j :| 0 <= j < |regs'.rows| && regs'.rows[j] == regs'.row;
    }
    forall i | 0 <= i < |att'| && att'[i].key != k ensures HasKey(regs'.rows, RegistrationKey, att'[i].key) {
      assert i < |att| && att'[i] == att[i];
    }
  }

  /** `comment || null`: an empty comment is stored as null. */
  function StoredComment(comment: Option<string>): (c: Option<string>)
    ensures c.Some? <==> Given(comment)
    ensures c.Some? ==> c == comment && c.value != ""
  {
    if Given(comment) then comment else None
  }

  /** `feedback.upsert`: resubmitting replaces rating and comment of the pair's row. */
  function UpsertFeedback(t: seq<Feedback>, k: Key, rating: int, comment: Option<string>): (u: Upserted<Feedback>)
    ensures u.row.key == k && u.row.rating == rating && u.row.comment == comment && u.row in u.rows
    ensures !HasKey(t, FeedbackKey, k) ==> u.row == Feedback(|t| + 1, k, rating, comment) && u.rows == t + [u.row]
    ensures HasKey(t, FeedbackKey, k) ==>
      exists i :: 0 <= i < |t| && t[i].key == k && u.row == t[i].(rating := rating, comment := comment) && u.rows == t[i := u.row]
  {
    match IndexOf(t, FeedbackKey, k)
    case Some(i) =>
      var row := t[i].(rating := rating, comment := comment);
      assert t[i := row][i] == row;
      Upserted(t[i := row], row)
    case None =>
      var row := Feedback(|t| + 1, k, rating, comment);
      Upserted(t + [row], row)
  }

  /** Submitting feedback twice leaves the table as submitting only the second one. */
  lemma UpsertFeedbackTwice(t: seq<Feedback>, k: Key, r1: int, c1: Option<string>, r2: int, c2: Option<string>)
    ensures UpsertFeedback(UpsertFeedback(t, k, r1, c1).rows, k, r2, c2) == UpsertFeedback(t, k, r2, c2)
  {
    var u := UpsertFeedback(t, k, r1, c1);
    var i := IndexOf(u.rows, FeedbackKey, k).value;
    if HasKey(t, FeedbackKey, k) {
      var i0 := IndexOf(t, FeedbackKey, k).value;
      assert u.rows[i0].key == k && t[i].key == u.rows[i].key;
      assert i == i0;
      assert u.rows[i := u.rows[i].(rating := r2, comment := c2)] == t[i := t[i].(rating := r2, comment := c2)];
    } else {
      assert u.rows[|t|].key == k && forall j :: 0 <= j < |t| ==> u.rows[j] == t[j];
      assert i == |t|;
      assert u.rows[i := u.rows[i].(rating := r2, comment := c2)] == t + [Feedback(|t| + 1, k, r2, c2)];
    }
  }

  lemma UpsertFeedbackConsistent(t: seq<Feedback>, k: Key, rating: int, comment: Option<string>,
                                 students: seq<Student>, events: seq<Event>)
    requires LinkTable(t, FeedbackKey, FeedbackId, students, events)
    requires KnownStudent(students, k.studentId) && KnownEvent(events, k.eventId)
    ensures LinkTable(UpsertFeedback(t, k, rating, comment).rows, FeedbackKey, FeedbackId, students, events)
    ensures CountKey(UpsertFeedback(t, k, rating, comment).rows, FeedbackKey, k) == 1
  {
    var u := UpsertFeedback(t, k, rating, comment);
    if HasKey(t, FeedbackKey, k) {
      var i := IndexOf(t, FeedbackKey, k).value;
      LinkTableUpdate(t, FeedbackKey, FeedbackId, i, u.row, students, events);
    } else {
      LinkTableAppend(t, FeedbackKey, FeedbackId, u.row, students, events);
    }
    assert u.rows[IndexOf(u.rows, FeedbackKey, k).value].key == k;
    UniqueKeyCount(u.rows, FeedbackKey, k);
  }

  /** A rating in 1..5 keeps every stored rating in 1..5. */
  lemma RatingsStayInRange(t: seq<Feedback>, k: Key, rating: int, comment: Option<string>)
    requires forall i :: 0 <= i < |t| ==> 1 <= t[i].rating <= 5
    requires 1 <= rating <= 5
    ensures forall i :: 0 <= i < |UpsertFeedback(t, k, rating, comment).rows| ==>
      1 <= UpsertFeedback(t, k, rating, comment).rows[i].rating <= 5
  {
  }

  // ---------------------------------------------------------------------------------------
  // Feedback input checks

  /** The rating as `Number(rating)` sees it: missing, a number, or a value that is not one. */
  datatype RatingInput = NoRating | Numeric(n: int) | NotANumber

  /** `!rating`: missing and 0 are falsy. */
  predicate RatingGiven(rating: RatingInput) {
    !(rating.NoRating? || rating == Numeric(0))
  }

  /** The feedback handler's checks before any lookup, giving the rating to store. */
  function CheckFeedback(studentNumber: Option<string>, email: Option<string>, rating: RatingInput): (r: Response<int>)
    ensures !Given(studentNumber) && !Given(email) ==> r == BadRequest(IdentityError)
    ensures (Given(studentNumber) || Given(email)) && !RatingGiven(rating) ==> r == BadRequest(RatingRequiredError)
    ensures (Given(studentNumber) || Given(email)) && RatingGiven(rating) && !(rating.Numeric? && 1 <= rating.n <= 5)
            ==> r == BadRequest(RatingRangeError)
    ensures r.Ok? <==> (Given(studentNumber) || Given(email)) && rating.Numeric? && 1 <= rating.n <= 5
    ensures r.Ok? ==> r.value == rating.n
    ensures !r.Ok? ==> r.BadRequest?
  {
    if !Given(studentNumber) && !Given(email) then BadRequest(IdentityError)
    else if !RatingGiven(rating) then BadRequest(RatingRequiredError)
    else if rating.NotANumber? || rating.n < 1 || rating.n > 5 then BadRequest(RatingRangeError)
    else Ok(rating.n)
  }

  // ---------------------------------------------------------------------------------------
  // Each handler's write keeps the store consistent

  lemma RefersEventsGrow<T>(rows: seq<T>, keyOf: T -> Key, students: seq<Student>, events: seq<Event>, e: Event)
    requires Refers(rows, keyOf, students, events)
    ensures Refers(rows, keyOf, students, events + [e])
  {
    forall i | 0 <= i < |rows| ensures KnownEvent(events + [e], keyOf(rows[i]).eventId) {
      KnownEventGrows(events, e, keyOf(rows[i]).eventId);
    }
  }

  lemma KnownEventGrows(events: seq<Event>, e: Event, id: int)
    requires KnownEvent(events, id)
    ensures KnownEvent(events + [e], id)
  {
    var x :| x in events && x.id == id;
    assert x in events + [e];
  }

  lemma CreateEventConsistent(colleges: seq<College>, students: seq<Student>, events: seq<Event>,
                              regs: seq<Registration>, att: seq<Attendance>, fb: seq<Feedback>, e: Event)
    requires Consistent(colleges, students, events, regs, att, fb)
    requires e.id == |events| + 1 && e.kind in ValidTypes && KnownCollege(colleges, e.collegeId)
    ensures Consistent(colleges, students, events + [e], regs, att, fb)
  {
    RefersEventsGrow(regs, RegistrationKey, students, events, e);
    RefersEventsGrow(att, AttendanceKey, students, events, e);
    RefersEventsGrow(fb, FeedbackKey, students, events, e);
  }

  lemma RegisterConsistent(colleges: seq<College>, students: seq<Student>, events: seq<Event>,
                           regs: seq<Registration>, att: seq<Attendance>, fb: seq<Feedback>, k: Key)
    requires Consistent(colleges, students, events, regs, att, fb)
    requires KnownStudent(students, k.studentId) && KnownEvent(events, k.eventId)
    ensures Consistent(colleges, students, events, UpsertRegistration(regs, k).rows, att, fb)
  {
    UpsertRegistrationConsistent(regs, k, students, events);
  }

  lemma AttendConsistent(colleges: seq<College>, students: seq<Student>, events: seq<Event>,
                         regs: seq<Registration>, att: seq<Attendance>, fb: seq<Feedback>, k: Key, now: Date)
    requires Consistent(colleges, students, events, regs, att, fb)
    requires KnownStudent(students, k.studentId) && KnownEvent(events, k.eventId)
    ensures Consistent(colleges, students, events, UpsertRegistration(regs, k).rows, UpsertAttendance(att, k, now).rows, fb)
  {
    UpsertRegistrationConsistent(regs, k, students, events);
    UpsertAttendanceConsistent(att, k, now, students, events);
    AttendanceStaysRegistered(regs, att, k, now);
  }

  lemma FeedbackConsistent(colleges: seq<College>, students: seq<Student>, events: seq<Event>,
                           regs: seq<Registration>, att: seq<Attendance>, fb: seq<Feedback>,
                           k: Key, rating: int, comment: Option<string>)
    requires Consistent(colleges, students, events, regs, att, fb)
    requires KnownStudent(students, k.studentId) && KnownEvent(events, k.eventId) && 1 <= rating <= 5
    ensures Consistent(colleges, students, events, regs, att, UpsertFeedback(fb, k, rating, comment).rows)
  {
    UpsertFeedbackConsistent(fb, k, rating, comment, students, events);
    RatingsStayInRange(fb, k, rating, comment);
  }

  // ---------------------------------------------------------------------------------------
  // The store

  class Store {
    const colleges: seq<College>
    const students: seq<Student>
    var events: seq<Event>
    var registrations: seq<Registration>
    var attendance: seq<Attendance>
    var feedback: seq<Feedback>

    ghost predicate Valid()
      reads this
    {
      Consistent(colleges, students, events, registrations, attendance, feedback)
    }

    /** A store over the given colleges and students, with no events yet. */
    constructor (colleges: seq<College>, students: seq<Student>)
      ensures Valid()
      ensures this.colleges == colleges && this.students == students
      ensures events == [] && registrations == [] && attendance == [] && feedback == []
    {
      this.colleges := colleges;
      this.students := students;
      events := [];
      registrations := [];
      attendance := [];
      feedback := [];
    }

    /** POST /events. */
    method CreateEvent(title: Option<string>, description: Option<string>, kind: Option<string>,
                       date: Option<Date>, collegeId: Option<int>) returns (r: Response<Event>)
      requires Valid()
      modifies this
      ensures Valid()
      ensures r == NewEvent(colleges, |old(events)| + 1, title, description, kind, date, collegeId)
      ensures events == if r.Ok? then old(events) + [r.value] else old(events)
      ensures registrations == old(registrations) && attendance == old(attendance) && feedback == old(feedback)
    {
      r := NewEvent(colleges, |events| + 1, title, description, kind, date, collegeId);
      if r.Ok? {
        ghost var before := events;
        events := events + [r.value];
        CreateEventConsistent(colleges, students, before, registrations, attendance, feedback, r.value);
      }
    }

    /** GET /events?type=&collegeId=. */
    method ListEvents(kind: Option<string>, collegeId: Option<int>) returns (r: Response<seq<EventListing>>)
      ensures Given(kind) && kind.value !in ValidTypes ==> r == BadRequest(InvalidTypeQueryError)
      ensures r.Ok? <==> !(Given(kind) && kind.value !in ValidTypes)
      ensures r.Ok? ==> multiset(EventsOf(r.value)) == multiset(SelectEvents(events, kind, collegeId))
      ensures r.Ok? ==> forall i :: 0 <= i < |r.value| ==> r.value[i].event in events && MatchesQuery(r.value[i].event, kind, collegeId)
      ensures r.Ok? ==> forall i, j :: 0 <= i < j < |r.value| ==> r.value[i].event.date <= r.value[j].event.date
      ensures r.Ok? ==> forall i :: 0 <= i < |r.value| ==>
        (r.value[i].registrationCount == CountForEvent(registrations, RegistrationKey, r.value[i].event.id)
         && r.value[i].college == FindCollege(colleges, r.value[i].event.collegeId))
    {
      if Given(kind) && kind.value !in ValidTypes {
        return BadRequest(InvalidTypeQueryError);
      }
      var es := QueryEvents(events, kind, collegeId);
      var rows := Listings(es, registrations, colleges);
      assert EventsOf(rows) == es;
      r := Ok(rows);
    }

    /** POST /events/:id/register. */
    method Register(eventId: int, studentNumber: Option<string>, email: Option<string>) returns (r: Response<Registration>)
      requires Valid()
      modifies this
      ensures Valid()
      ensures events == old(events) && attendance == old(attendance) && feedback == old(feedback)
      ensures var target := Resolve(students, events, eventId, studentNumber, email);
        if target.Ok? then
          var u := UpsertRegistration(old(registrations), Key(target.value.0.id, eventId));
          registrations == u.rows && r == Ok(u.row)
        else
          registrations == old(registrations) && r == target.Propagate()
      ensures r.Ok? ==> CountKey(registrations, RegistrationKey, r.value.key) == 1
    {
      var target := Resolve(students, events, eventId, studentNumber, email);
      if !target.Ok? {
        return target.Propagate();
      }
      var k := Key(target.value.0.id, eventId);
      ghost var regs := registrations;
      var u := UpsertRegistration(registrations, k);
      registrations := u.rows;
      RegisterConsistent(colleges, students, events, regs, attendance, feedback, k);
      UpsertRegistrationConsistent(regs, k, students, events);
      r := Ok(u.row);
    }

    /** POST /events/:id/attendance, at time `now`. */
    method MarkAttendance(eventId: int, studentNumber: Option<string>, email: Option<string>, now: Date)
      returns (r: Response<Attendance>)
      requires Valid()
      modifies this
      ensures Valid()
      ensures events == old(events) && feedback == old(feedback)
      ensures var target := Resolve(students, events, eventId, studentNumber, email);
        if target.Ok? then
          var k := Key(target.value.0.id, eventId);
          var u := UpsertAttendance(old(attendance), k, now);
          registrations == UpsertRegistration(old(registrations), k).rows && attendance == u.rows && r == Ok(u.row)
        else
          registrations == old(registrations) && attendance == old(attendance) && r == target.Propagate()
      ensures r.Ok? ==> r.value.attendedAt == now
      ensures r.Ok? ==> CountKey(registrations, RegistrationKey, r.value.key) == 1
                        && CountKey(attendance, AttendanceKey, r.value.key) == 1
    {
      var target := Resolve(students, events, eventId, studentNumber, email);
      if !target.Ok? {
        return target.Propagate();
      }
      var k := Key(target.value.0.id, eventId);
      ghost var regs, att := registrations, attendance;
      registrations := UpsertRegistration(registrations, k).rows;
      var u := UpsertAttendance(attendance, k, now);
      attendance := u.rows;
      AttendConsistent(colleges, students, events, regs, att, feedback, k, now);
      UpsertRegistrationConsistent(regs, k, students, events);
      UpsertAttendanceConsistent(att, k, now, students, events);
      r := Ok(u.row);
    }

    /** POST /events/:id/feedback. */
    method SubmitFeedback(eventId: int, studentNumber: Option<string>, email: Option<string>,
                          rating: RatingInput, comment: Option<string>) returns (r: Response<Feedback>)
      requires Valid()
      modifies this
      ensures Valid()
      ensures events == old(events) && registrations == old(registrations) && attendance == old(attendance)
      ensures var checked := CheckFeedback(studentNumber, email, rating);
              var target := Resolve(students, events, eventId, studentNumber, email);
        if !checked.Ok? then
          feedback == old(feedback) && r == checked.Propagate()
        else if !target.Ok? then
          feedback == old(feedback) && r == target.Propagate()
        else
          var u := UpsertFeedback(old(feedback), Key(target.value.0.id, eventId), checked.value, StoredComment(comment));
          feedback == u.rows && r == Ok(u.row)
      ensures r.Ok? ==> CountKey(feedback, FeedbackKey, r.value.key) == 1
    {
      var checked := CheckFeedback(studentNumber, email, rating);
      if !checked.Ok? {
        return checked.Propagate();
      }
      var target := Resolve(students, events, eventId, studentNumber, email);
      if !target.Ok? {
        return target.Propagate();
      }
      var k := Key(target.value.0.id, eventId);
      ghost var fb := feedback;
      var u := UpsertFeedback(feedback, k, checked.value, StoredComment(comment));
      feedback := u.rows;
      FeedbackConsistent(colleges, students, events, registrations, attendance, fb, k, checked.value, StoredComment(comment));
      UpsertFeedbackConsistent(fb, k, checked.value, StoredComment(comment), students, events);
      r := Ok(u.row);
    }
  }
}
