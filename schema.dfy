/** The rows of the relational store (colleges, students, events, registrations, attendance,
    feedback) and the table operations the ORM performs on them.

    Every table is a sequence of rows in insertion order. The three link tables are keyed by the
    compound key `(studentId, eventId)`; that the key is unique is an invariant of the store, not
    a property of the representation. */
module Schema {

  datatype Option<T> = None | Some(value: T)

  /** JavaScript truthiness of an optional string input: a missing value and `''` are falsy. */
  predicate Given(s: Option<string>) {
    s.Some? && s.value != ""
  }

  /** Timestamps are abstract and ordered, represented by an integer (e.g. milliseconds). */
  type Date = int

  datatype College = College(id: int, name: string)

  /** `studentNumber` is the `student_id` column (the roll number), `id` the row's primary key. */
  datatype Student = Student(id: int, name: string, email: string, studentNumber: string, collegeId: int)

  /** `kind` is the `type` column. */
  datatype Event = Event(id: int, title: string, description: string, kind: string, date: Date, collegeId: int)

  datatype Key = Key(studentId: int, eventId: int)

  datatype Registration = Registration(id: int, key: Key)
  datatype Attendance = Attendance(id: int, key: Key, attendedAt: Date)
  datatype Feedback = Feedback(id: int, key: Key, rating: int, comment: Option<string>)

  function EventId(e: Event): int { e.id }
  function RegistrationKey(r: Registration): Key { r.key }
  function RegistrationId(r: Registration): int { r.id }
  function AttendanceKey(a: Attendance): Key { a.key }
  function AttendanceId(a: Attendance): int { a.id }
  function FeedbackKey(f: Feedback): Key { f.key }
  function FeedbackId(f: Feedback): int { f.id }

  /** The position of the first row satisfying `p`. */
  function FirstIndex<T>(rows: seq<T>, p: T -> bool): (r: Option<nat>)
    ensures r.Some? ==> r.value < |rows| && p(rows[r.value])
    ensures r.Some? ==> forall j :: 0 <= j < r.value ==> !p(rows[j])
    ensures r.None? <==> forall j :: 0 <= j < |rows| ==> !p(rows[j])
  {
    if |rows| == 0 then None
    else if p(rows[0]) then Some(0)
    else match FirstIndex(rows[1..], p)
      case None => None
      case Some(i) => Some(i + 1)
  }

  /** `findFirst` on a table: the first row satisfying `p`. */
  function FindFirst<T>(rows: seq<T>, p: T -> bool): (r: Option<T>)
    ensures r.Some? <==> exists j :: 0 <= j < |rows| && p(rows[j])
    ensures r.Some? ==> exists i :: 0 <= i < |rows| && rows[i] == r.value && p(rows[i])
                                   && forall j :: 0 <= j < i ==> !p(rows[j])
  {
    match FirstIndex(rows, p)
    case None => None
    case Some(i) => Some(rows[i])
  }

  /** `findUnique({ where: { id } })` on the events table. */
  function FindEvent(events: seq<Event>, id: int): (r: Option<Event>)
    ensures r.Some? ==> r.value in events && r.value.id == id
    ensures r.None? <==> forall e :: e in events ==> e.id != id
  {
    FindFirst(events, (e: Event) => e.id == id)
  }

  /** The college a row refers to, as the ORM's `include: { college: true }` joins it. */
  function FindCollege(colleges: seq<College>, id: int): (r: Option<College>)
    ensures r.Some? ==> r.value in colleges && r.value.id == id
    ensures r.None? <==> forall c :: c in colleges ==> c.id != id
  {
    FindFirst(colleges, (c: College) => c.id == id)
  }

  // ---------------------------------------------------------------------------------------
  // Link tables keyed by (studentId, eventId)

  ghost predicate HasKey<T>(rows: seq<T>, keyOf: T -> Key, k: Key) {
    exists i :: 0 <= i < |rows| && keyOf(rows[i]) == k
  }

  /** The position of the row with key `k`, as the upsert's `where` clause finds it. */
  function IndexOf<T>(rows: seq<T>, keyOf: T -> Key, k: Key): (r: Option<nat>)
    ensures r.Some? ==> r.value < |rows| && keyOf(rows[r.value]) == k
    ensures r.Some? ==> forall j :: 0 <= j < r.value ==> keyOf(rows[j]) != k
    ensures r.None? <==> !HasKey(rows, keyOf, k)
  {
    FirstIndex(rows, (x: T) => keyOf(x) == k)
  }

  /** The compound key is unique: no two rows share it. */
  ghost predicate UniqueKeys<T>(rows: seq<T>, keyOf: T -> Key) {
    forall i, j :: 0 <= i < j < |rows| ==> keyOf(rows[i]) != keyOf(rows[j])
  }

  /** Autoincrement primary keys; nothing in the core deletes rows, so the row at position `i`
      has id `i + 1`. */
  ghost predicate IdsFromOne<T>(rows: seq<T>, idOf: T -> int) {
    forall i :: 0 <= i < |rows| ==> idOf(rows[i]) == i + 1
  }

  /** The number of rows with key `k`. */
  function CountKey<T>(rows: seq<T>, keyOf: T -> Key, k: Key): nat {
    if |rows| == 0 then 0
    else CountKey(rows[..|rows| - 1], keyOf, k) + (if keyOf(rows[|rows| - 1]) == k then 1 else 0)
  }

  /** The ORM's `_count` of a link table for one event. */
  function CountForEvent<T>(rows: seq<T>, keyOf: T -> Key, eventId: int): nat {
    if |rows| == 0 then 0
    else CountForEvent(rows[..|rows| - 1], keyOf, eventId) + (if keyOf(rows[|rows| - 1]).eventId == eventId then 1 else 0)
  }

  /** The ORM's `_count` of a link table for one student. */
  function CountForStudent<T>(rows: seq<T>, keyOf: T -> Key, studentId: int): nat {
    if |rows| == 0 then 0
    else CountForStudent(rows[..|rows| - 1], keyOf, studentId) + (if keyOf(rows[|rows| - 1]).studentId == studentId then 1 else 0)
  }

  /** The keys of the rows for one event. */
  function KeysForEvent<T>(rows: seq<T>, keyOf: T -> Key, eventId: int): set<Key> {
    if |rows| == 0 then {}
    else KeysForEvent(rows[..|rows| - 1], keyOf, eventId)
         + (if keyOf(rows[|rows| - 1]).eventId == eventId then {keyOf(rows[|rows| - 1])} else {})
  }

  lemma HasKeyOfPrefix<T>(rows: seq<T>, keyOf: T -> Key, k: Key)
    requires |rows| > 0 && keyOf(rows[|rows| - 1]) != k
    ensures HasKey(rows, keyOf, k) <==> HasKey(rows[..|rows| - 1], keyOf, k)
  {
    if HasKey(rows, keyOf, k) {
      var i :| 0 <= i < |rows| && keyOf(rows[i]) == k;
      assert rows[..|rows| - 1][i] == rows[i];
    }
    if HasKey(rows[..|rows| - 1], keyOf, k) {
      var i :| 0 <= i < |rows| - 1 && keyOf(rows[..|rows| - 1][i]) == k;
      assert rows[i] == rows[..|rows| - 1][i];
    }
  }

  /** A key no row carries is counted zero times. */
  lemma {:induction false} CountKeyAbsent<T>(rows: seq<T>, keyOf: T -> Key, k: Key)
    requires !HasKey(rows, keyOf, k)
    ensures CountKey(rows, keyOf, k) == 0
  {
    if |rows| > 0 {
      HasKeyOfPrefix(rows, keyOf, k);
      CountKeyAbsent(rows[..|rows| - 1], keyOf, k);
    }
  }

  /** Under the unique-key constraint every pair has at most one row, and exactly one when some
      row carries it. */
  lemma {:induction false} UniqueKeyCount<T>(rows: seq<T>, keyOf: T -> Key, k: Key)
    requires UniqueKeys(rows, keyOf)
    ensures CountKey(rows, keyOf, k) <= 1
    ensures HasKey(rows, keyOf, k) ==> CountKey(rows, keyOf, k) == 1
  {
    if |rows| > 0 {
      var init := rows[..|rows| - 1];
      assert UniqueKeys(init, keyOf) by {
        forall i, j | 0 <= i < j < |init| ensures keyOf(init[i]) != keyOf(init[j]) {
          assert init[i] == rows[i] && init[j] == rows[j];
        }
      }
      if keyOf(rows[|rows| - 1]) == k {
        forall i | 0 <= i < |init| ensures keyOf(init[i]) != k {
          assert init[i] == rows[i];
        }
        CountKeyAbsent(init, keyOf, k);
      } else {
        HasKeyOfPrefix(rows, keyOf, k);
        UniqueKeyCount(init, keyOf, k);
      }
    }
  }

  lemma {:induction false} KeysForEventMembers<T>(rows: seq<T>, keyOf: T -> Key, eventId: int, k: Key)
    ensures k in KeysForEvent(rows, keyOf, eventId) <==> HasKey(rows, keyOf, k) && k.eventId == eventId
  {
    if |rows| > 0 {
      var last := keyOf(rows[|rows| - 1]);
      KeysForEventMembers(rows[..|rows| - 1], keyOf, eventId, k);
      if last != k {
        HasKeyOfPrefix(rows, keyOf, k);
      }
    }
  }

  /** Under the unique-key constraint, counting an event's rows counts its distinct keys. */
  lemma {:induction false} KeysForEventCount<T>(rows: seq<T>, keyOf: T -> Key, eventId: int)
    requires UniqueKeys(rows, keyOf)
    ensures |KeysForEvent(rows, keyOf, eventId)| == CountForEvent(rows, keyOf, eventId)
  {
    if |rows| > 0 {
      var init := rows[..|rows| - 1];
      var last := keyOf(rows[|rows| - 1]);
      assert UniqueKeys(init, keyOf) by {
        forall i, j | 0 <= i < j < |init| ensures keyOf(init[i]) != keyOf(init[j]) {
          assert init[i] == rows[i] && init[j] == rows[j];
        }
      }
      KeysForEventCount(init, keyOf, eventId);
      KeysForEventMembers(init, keyOf, eventId, last);
      forall i | 0 <= i < |init| ensures keyOf(init[i]) != last {
        assert init[i] == rows[i];
      }
    }
  }

  /** If every row of `sub` has a partner row with the same key in `sup`, an event has no more
      rows in `sub` than in `sup`. */
  lemma CountForEventCovered<S, T>(sub: seq<S>, subKey: S -> Key, sup: seq<T>, supKey: T -> Key, eventId: int)
    requires UniqueKeys(sub, subKey) && UniqueKeys(sup, supKey)
    requires forall i :: 0 <= i < |sub| ==> HasKey(sup, supKey, subKey(sub[i]))
    ensures CountForEvent(sub, subKey, eventId) <= CountForEvent(sup, supKey, eventId)
  {
    var a := KeysForEvent(sub, subKey, eventId);
    var b := KeysForEvent(sup, supKey, eventId);
    forall k | k in a ensures k in b {
      KeysForEventMembers(sub, subKey, eventId, k);
      var i :| 0 <= i < |sub| && subKey(sub[i]) == k;
      KeysForEventMembers(sup, supKey, eventId, k);
    }
    KeysForEventCount(sub, subKey, eventId);
    KeysForEventCount(sup, supKey, eventId);
    SubsetCardinality(a, b);
  }

  lemma SubsetCardinality<X>(a: set<X>, b: set<X>)
    requires a <= b
    ensures |a| <= |b|
  {
    assert b == a + (b - a);
  }
}
