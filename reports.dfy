/** The report routes: event popularity, a student's participation, the top three students,
    the feedback summary of an event and the attendance percentage per event. Each is a pure
    function of the tables. */
module Reports {
  import opened Schema
  import opened Sorting
  import opened Events

  // ---------------------------------------------------------------------------------------
  // GET /reports/event-popularity

  /** An event with its `_count.registrations`. */
  datatype EventCount = EventCount(event: Event, registrations: nat)

  function WithCounts(es: seq<Event>, regs: seq<Registration>): (r: seq<EventCount>)
    ensures |r| == |es|
    ensures forall i :: 0 <= i < |r| ==> r[i] == EventCount(es[i], CountForEvent(regs, RegistrationKey, es[i].id))
  {
    if es == [] then [] else [EventCount(es[0], CountForEvent(regs, RegistrationKey, es[0].id))] + WithCounts(es[1..], regs)
  }

  function NegRegistrations(c: EventCount): int { -(c.registrations as int) }

  /** Every event with its registration count, most registrations first. */
  function EventPopularity(events: seq<Event>, regs: seq<Registration>): (r: seq<EventCount>)
    ensures multiset(r) == multiset(WithCounts(events, regs))
    ensures forall i :: 0 <= i < |r| ==> r[i].event in events
                                         && r[i].registrations == CountForEvent(regs, RegistrationKey, r[i].event.id)
    ensures forall i, j :: 0 <= i < j < |r| ==> r[i].registrations >= r[j].registrations
  {
    var counted := WithCounts(events, regs);
    var sorted := SortBy(counted, NegRegistrations);
    MembersOf(sorted, counted);
    sorted
  }

  // ---------------------------------------------------------------------------------------
  // GET /reports/student-participation/:studentId

  /** An attendance row with its `event` joined in. */
  datatype Participation = Participation(attendance: Attendance, event: Option<Event>)

  /** `where: { studentId }`: the student's rows, in table order, one per attendance counted. */
  function AttendanceOf(att: seq<Attendance>, studentId: int): (r: seq<Attendance>)
    ensures forall a :: a in r <==> a in att && a.key.studentId == studentId
    ensures |r| == CountForStudent(att, AttendanceKey, studentId)
  {
    if att == [] then []
    else
      var last := att[|att| - 1];
      assert att == att[..|att| - 1] + [last];
      AttendanceOf(att[..|att| - 1], studentId) + (if last.key.studentId == studentId then [last] else [])
  }

  function WithEvents(rows: seq<Attendance>, events: seq<Event>): (r: seq<Participation>)
    ensures |r| == |rows|
    ensures forall i :: 0 <= i < |r| ==> r[i] == Participation(rows[i], FindEvent(events, rows[i].key.eventId))
  {
    if rows == [] then [] else [Participation(rows[0], FindEvent(events, rows[0].key.eventId))] + WithEvents(rows[1..], events)
  }

  function AttendanceRows(r: seq<Participation>): (a: seq<Attendance>)
    ensures |a| == |r| && forall i :: 0 <= i < |a| ==> a[i] == r[i].attendance
  {
    if r == [] then [] else [r[0].attendance] + AttendanceRows(r[1..])
  }

  function NegAttendedAt(a: Attendance): int { -a.attendedAt }

  /** The student's attendance rows, each with its event, latest first. */
  function StudentParticipation(att: seq<Attendance>, events: seq<Event>, studentId: int): (r: seq<Participation>)
    ensures multiset(AttendanceRows(r)) == multiset(AttendanceOf(att, studentId))
    ensures |r| == CountForStudent(att, AttendanceKey, studentId)
    ensures forall i :: 0 <= i < |r| ==> r[i].attendance in att && r[i].attendance.key.studentId == studentId
    ensures forall i :: 0 <= i < |r| ==> r[i].event == FindEvent(events, r[i].attendance.key.eventId)
    ensures forall i, j :: 0 <= i < j < |r| ==> r[i].attendance.attendedAt >= r[j].attendance.attendedAt
  {
    var mine := AttendanceOf(att, studentId);
    var sorted := SortBy(mine, NegAttendedAt);
    MembersOf(sorted, mine);
    var r := WithEvents(sorted, events);
    assert AttendanceRows(r) == sorted;
    r
  }

  // ---------------------------------------------------------------------------------------
  // GET /reports/top-students

  datatype RankedStudent = RankedStudent(id: int, name: string, email: string, studentNumber: string, collegeId: int,
                                         attendanceCount: nat, registrationCount: nat, score: int)

  /** The `map` step: a student with its counts and its score. */
  function Ranked(s: Student, regs: seq<Registration>, att: seq<Attendance>): RankedStudent {
    var attended := CountForStudent(att, AttendanceKey, s.id);
    var registered := CountForStudent(regs, RegistrationKey, s.id);
    RankedStudent(s.id, s.name, s.email, s.studentNumber, s.collegeId, attended, registered, attended * 2 + registered)
  }

  function RankAll(students: seq<Student>, regs: seq<Registration>, att: seq<Attendance>): (r: seq<RankedStudent>)
    ensures |r| == |students|
    ensures forall i :: 0 <= i < |r| ==> r[i] == Ranked(students[i], regs, att)
  {
    if students == [] then [] else [Ranked(students[0], regs, att)] + RankAll(students[1..], regs, att)
  }

  function NegScore(r: RankedStudent): int { -r.score }

  function Min(a: int, b: int): int { if a <= b then a else b }

  /** The ranked entries whose score is `score`, in order. */
  function WithScore(s: seq<RankedStudent>, score: int): seq<RankedStudent> {
    WithKey(s, NegScore, -score)
  }

  /** `.sort((a, b) => b.score - a.score).slice(0, 3)`: up to three of the ranked students, best
      first, none of those left out scoring above any of those returned. Ties keep the input
      order (`Array.prototype.sort` is stable): among the students with the same score, those
      returned are the first ones of the input, in input order. */
  function TopStudents(students: seq<Student>, regs: seq<Registration>, att: seq<Attendance>): (top: seq<RankedStudent>)
    ensures |top| == Min(3, |students|)
    ensures multiset(top) <= multiset(RankAll(students, regs, att))
    ensures forall x :: x in top ==>
      && x.attendanceCount == CountForStudent(att, AttendanceKey, x.id)
      && x.registrationCount == CountForStudent(regs, RegistrationKey, x.id)
      && x.score == 2 * x.attendanceCount + x.registrationCount
    ensures forall i, j :: 0 <= i < j < |top| ==> top[i].score >= top[j].score
    ensures forall x, y :: x in multiset(RankAll(students, regs, att)) - multiset(top) && y in top ==> x.score <= y.score
    ensures forall score :: WithScore(top, score) <= WithScore(RankAll(students, regs, att), score)
  {
    var all := RankAll(students, regs, att);
    var ranked := SortBy(all, NegScore);
    var n := Min(3, |ranked|);
    RestScoresBelow(all, ranked, n);
    MembersOf(ranked[..n], all);
    RankedCounts(all, students, regs, att);
    SortedPrefixStable(all, n, NegScore);
    ranked[..n]
  }

  lemma PrefixSplit<T>(s: seq<T>, n: nat)
    requires n <= |s|
    ensures multiset(s[..n]) <= multiset(s)
    ensures multiset(s) - multiset(s[..n]) == multiset(s[n..])
  {
    assert s == s[..n] + s[n..];
  }

  /** Every entry of the ranking carries its student's counts and score. */
  lemma RankedCounts(all: seq<RankedStudent>, students: seq<Student>, regs: seq<Registration>, att: seq<Attendance>)
    requires all == RankAll(students, regs, att)
    ensures forall x :: x in all ==>
      && x.attendanceCount == CountForStudent(att, AttendanceKey, x.id)
      && x.registrationCount == CountForStudent(regs, RegistrationKey, x.id)
      && x.score == 2 * x.attendanceCount + x.registrationCount
  {
    forall x | x in all
      ensures x.attendanceCount == CountForStudent(att, AttendanceKey, x.id)
      ensures x.registrationCount == CountForStudent(regs, RegistrationKey, x.id)
      ensures x.score == 2 * x.attendanceCount + x.registrationCount
    {
      var j :| 0 <= j < |all| && all[j] == x;
    }
  }

  /** In a ranking of `all`, nothing left out of the first `n` entries scores above any of them. */
  lemma RestScoresBelow(all: seq<RankedStudent>, ranked: seq<RankedStudent>, n: nat)
    requires multiset(ranked) == multiset(all) && Ascending(ranked, NegScore) && n <= |ranked|
    ensures multiset(ranked[..n]) <= multiset(all)
    ensures forall x, y :: x in multiset(all) - multiset(ranked[..n]) && y in ranked[..n] ==> x.score <= y.score
  {
    PrefixSplit(ranked, n);
    forall x, y | x in multiset(all) - multiset(ranked[..n]) && y in ranked[..n] ensures x.score <= y.score {
      assert x in multiset(ranked[n..]);
      var j :| 0 <= j < |ranked[n..]| && ranked[n..][j] == x;
      var i :| 0 <= i < n && ranked[..n][i] == y;
      assert ranked[n + j] == x && ranked[i] == y;
    }
  }

  // ---------------------------------------------------------------------------------------
  // GET /reports/feedback/:eventId

  /** `averageRating` is null when the event has no feedback. */
  datatype FeedbackSummary = FeedbackSummary(eventId: int, averageRating: Option<real>, count: nat)

  function RatingSumForEvent(fb: seq<Feedback>, eventId: int): int {
    if |fb| == 0 then 0
    else RatingSumForEvent(fb[..|fb| - 1], eventId) + (if fb[|fb| - 1].key.eventId == eventId then fb[|fb| - 1].rating else 0)
  }

  /** `aggregate({ where: { eventId }, _avg: { rating: true }, _count: true })`, with the average
      as an exact rational. */
  function SummarizeFeedback(fb: seq<Feedback>, eventId: int): (r: FeedbackSummary)
    ensures r.eventId == eventId
    ensures r.count == CountForEvent(fb, FeedbackKey, eventId)
    ensures r.averageRating.None? <==> r.count == 0
    ensures r.averageRating.Some? ==> r.averageRating.value * (r.count as real) == RatingSumForEvent(fb, eventId) as real
  {
    var count := CountForEvent(fb, FeedbackKey, eventId);
    var sum := RatingSumForEvent(fb, eventId);
    FeedbackSummary(eventId, if count == 0 then None else Some((sum as real) / (count as real)), count)
  }

  lemma {:induction false} RatingSumBounds(fb: seq<Feedback>, eventId: int)
    requires forall i :: 0 <= i < |fb| ==> 1 <= fb[i].rating <= 5
    ensures CountForEvent(fb, FeedbackKey, eventId) <= RatingSumForEvent(fb, eventId) <= 5 * CountForEvent(fb, FeedbackKey, eventId)
  {
    if |fb| > 0 {
      RatingSumBounds(fb[..|fb| - 1], eventId);
    }
  }

  /** With every rating in 1..5, the average rating lies in [1, 5]. */
  lemma AverageRatingInRange(fb: seq<Feedback>, eventId: int)
    requires forall i :: 0 <= i < |fb| ==> 1 <= fb[i].rating <= 5
    ensures var avg := SummarizeFeedback(fb, eventId).averageRating;
            avg.Some? ==> 1.0 <= avg.value <= 5.0
  {
    RatingSumBounds(fb, eventId);
    var count := CountForEvent(fb, FeedbackKey, eventId);
    if count > 0 {
      QuotientBounds(RatingSumForEvent(fb, eventId) as real, count as real);
    }
  }

  lemma QuotientBounds(s: real, c: real)
    requires c > 0.0 && c <= s <= 5.0 * c
    ensures 1.0 <= s / c <= 5.0
  {
  }

  // ---------------------------------------------------------------------------------------
  // GET /reports/attendance-percentage?collegeId=&type=

  /** `Math.round((attended / registrations) * 10000) / 100`, in hundredths of a percent, and 0
      for an event without registrations. */
  function Hundredths(attended: nat, registrations: nat): (p: int)
    ensures registrations == 0 ==> p == 0
    ensures registrations > 0 ==>
      2 * p * registrations <= 20000 * attended + registrations < 2 * p * registrations + 2 * registrations
  {
    if registrations > 0 then (20000 * attended + registrations) / (2 * registrations) else 0
  }

  /** The percentage lies in [0, 10000] when no more attended than registered. */
  lemma HundredthsInRange(attended: nat, registrations: nat)
    requires attended <= registrations
    ensures 0 <= Hundredths(attended, registrations) <= 10000
  {
    if registrations > 0 {
      var p := Hundredths(attended, registrations);
      var d := 2 * registrations;
      assert 0 * d < (p + 1) * d;
      LessByFactor(0, p + 1, d);
      assert p * d < 10001 * d;
      LessByFactor(p, 10001, d);
    }
  }

  /** The two inequalities of `Hundredths` determine its value: any `p` meeting them is the
      rounded percentage. */
  lemma HundredthsUnique(attended: nat, registrations: nat, p: int)
    requires registrations > 0
    requires 2 * p * registrations <= 20000 * attended + registrations < 2 * p * registrations + 2 * registrations
    ensures p == Hundredths(attended, registrations)
  {
    var q := Hundredths(attended, registrations);
    var d := 2 * registrations;
    var x := 20000 * attended + registrations;
    assert p * d == 2 * p * registrations && q * d == 2 * q * registrations;
    assert (p + 1) * d == p * d + d && (q + 1) * d == q * d + d;
    assert p * d <= x < p * d + d;
    assert q * d <= x < q * d + d;
    LessByFactor(p, q + 1, d);
    LessByFactor(q, p + 1, d);
  }

  lemma {:induction false} MulMono(x: int, y: int, c: nat)
    requires x <= y
    ensures x * c <= y * c
  {
    if c > 0 {
      MulMono(x, y, c - 1);
      assert x * c == x * (c - 1) + x;
      assert y * c == y * (c - 1) + y;
    }
  }

  lemma LessByFactor(x: int, y: int, c: nat)
    requires x * c < y * c
    ensures x < y
  {
    if y <= x {
      MulMono(y, x, c);
    }
  }

  /** A row of the report. */
  datatype PercentageRow = PercentageRow(id: int, title: string, kind: string, date: Date, college: Option<College>,
                                         registrations: nat, attended: nat, percentage: int)

  /** `row` reports event `e`: its fields, its college (null when there is none), its counts and
      the percentage of those counts. */
  ghost predicate DescribesEvent(row: PercentageRow, e: Event, colleges: seq<College>, regs: seq<Registration>, att: seq<Attendance>) {
    && row.id == e.id && row.title == e.title && row.kind == e.kind && row.date == e.date
    && (row.college.None? <==> forall c :: c in colleges ==> c.id != e.collegeId)
    && (row.college.Some? ==> row.college.value in colleges && row.college.value.id == e.collegeId)
    && row.registrations == CountForEvent(regs, RegistrationKey, e.id)
    && row.attended == CountForEvent(att, AttendanceKey, e.id)
    && row.percentage == Hundredths(row.attended, row.registrations)
  }

  function PercentageRows(es: seq<Event>, colleges: seq<College>, regs: seq<Registration>, att: seq<Attendance>)
    : (r: seq<PercentageRow>)
    ensures |r| == |es|
    ensures forall i :: 0 <= i < |r| ==> DescribesEvent(r[i], es[i], colleges, regs, att) && r[i].date == es[i].date
  {
    if es == [] then []
    else
      var e := es[0];
      var registrations := CountForEvent(regs, RegistrationKey, e.id);
      var attended := CountForEvent(att, AttendanceKey, e.id);
      [PercentageRow(e.id, e.title, e.kind, e.date, FindCollege(colleges, e.collegeId),
                     registrations, attended, Hundredths(attended, registrations))]
      + PercentageRows(es[1..], colleges, regs, att)
  }

  /** One row per event matching the `where` filter, by date ascending: row `i` reports the
      `i`-th event of the date-ordered selection, a permutation of the matching events. Unlike
      the event list, the `type` filter is not validated. */
  function AttendancePercentage(events: seq<Event>, colleges: seq<College>, regs: seq<Registration>, att: seq<Attendance>,
                                collegeId: Option<int>, kind: Option<string>): (rows: seq<PercentageRow>)
    ensures |rows| == |SelectEvents(events, kind, collegeId)|
    ensures forall i :: 0 <= i < |rows| ==>
      exists e :: e in events && MatchesQuery(e, kind, collegeId) && DescribesEvent(rows[i], e, colleges, regs, att)
    ensures |rows| == |QueryEvents(events, kind, collegeId)|
    ensures forall i :: 0 <= i < |rows| ==> DescribesEvent(rows[i], QueryEvents(events, kind, collegeId)[i], colleges, regs, att)
    ensures forall i, j :: 0 <= i < j < |rows| ==> rows[i].date <= rows[j].date
  {
    var es := QueryEvents(events, kind, collegeId);
    var rows := PercentageRows(es, colleges, regs, att);
    assert forall i :: 0 <= i < |rows| ==> es[i] in events && DescribesEvent(rows[i], es[i], colleges, regs, att);
    rows
  }

  /** Over a consistent store every event has a college, attendance never exceeds registrations,
      and so every percentage lies between 0 and 100.00. */
  lemma StorePercentagesInRange(colleges: seq<College>, students: seq<Student>, events: seq<Event>,
                                regs: seq<Registration>, att: seq<Attendance>, fb: seq<Feedback>,
                                collegeId: Option<int>, kind: Option<string>)
    requires Consistent(colleges, students, events, regs, att, fb)
    ensures forall row :: row in AttendancePercentage(events, colleges, regs, att, collegeId, kind) ==>
      row.college.Some? && row.attended <= row.registrations && 0 <= row.percentage <= 10000
  {
    var rows := AttendancePercentage(events, colleges, regs, att, collegeId, kind);
    forall row | row in rows ensures row.college.Some? && row.attended <= row.registrations && 0 <= row.percentage <= 10000 {
      var i :| 0 <= i < |rows| && rows[i] == row;
      var e :| e in events && MatchesQuery(e, kind, collegeId) && DescribesEvent(rows[i], e, colleges, regs, att);
      var j :| 0 <= j < |events| && events[j] == e;
      var c :| c in colleges && c.id == events[j].collegeId;
      CountForEventCovered(att, AttendanceKey, regs, RegistrationKey, e.id);
      HundredthsInRange(row.attended, row.registrations);
    }
  }

  /** A `type` outside the whitelist, which the event list rejects, here just selects nothing. */
  lemma UnknownTypeSelectsNothing(colleges: seq<College>, students: seq<Student>, events: seq<Event>,
                                  regs: seq<Registration>, att: seq<Attendance>, fb: seq<Feedback>,
                                  collegeId: Option<int>, kind: string)
    requires Consistent(colleges, students, events, regs, att, fb)
    requires kind != "" && kind !in ValidTypes
    ensures AttendancePercentage(events, colleges, regs, att, collegeId, Some(kind)) == []
  {
    var sel := SelectEvents(events, Some(kind), collegeId);
    forall e | e in events ensures !MatchesQuery(e, Some(kind), collegeId) {
      var j :| 0 <= j < |events| && events[j] == e;
    }
  }
}
