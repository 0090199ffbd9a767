/** The record store (src/lib/db.ts): one IndexedDB object store 'records'
    whose key path is `id`, with non-unique indexes on `timestamp` and
    `date`, reached through a connection that is opened once and kept in a
    module-level variable.

    The database and that variable are the fields of `RecordDb`.  Each
    operation awaits `initDB` first and then runs as one atomic step; the
    result of the host's open request is the parameter `canOpen`, and the
    two `Date.now()` readings of `addRecord` are parameters too. */
module Db {
  import opened Wrappers
  import opened Strings
  import opened Ordering

  /** The part of the day a reading belongs to (`time`). */
  datatype Slot = Morning | Evening

  function SlotName(t: Slot): (s: string)
    ensures |s| == 7
  {
    match t
    case Morning => "morning"
    case Evening => "evening"
  }

  /** A stored blood-pressure reading (`BloodPressureRecord`). */
  datatype Record = Record(
    id: string,
    date: string,
    time: Slot,
    systolic: int,
    diastolic: int,
    pulse: Option<int>,
    notes: Option<string>,
    timestamp: int)

  /** `r` is a reading of day `date` taken in part of day `t`. */
  predicate Matches(r: Record, date: string, t: Slot)
  {
    r.date == date && r.time == t
  }

  /** What a caller hands to `addRecord`: a record without `id` and `timestamp`. */
  datatype Draft = Draft(
    date: string,
    time: Slot,
    systolic: int,
    diastolic: int,
    pulse: Option<int>,
    notes: Option<string>)

  /** Why a promise of the store rejects: the open request failed, `add`
      met an existing key, or `IDBKeyRange.bound` refused its bounds. */
  datatype DbError = OpenFailed | ConstraintError | DataError

  datatype Result<T> = Ok(value: T) | Err(error: DbError)

  datatype Outcome = Done | Failed(error: DbError)

  /** An open connection; `serial` numbers the open request that made it. */
  datatype Connection = Connection(serial: nat)

  /** The key `addRecord` gives a new record: `${date}-${time}-${Date.now()}`.
      The key starts with the date and the part of day, and what follows the
      second dash is the decimal text of the clock reading. */
  function RecordId(date: string, time: Slot, now: nat): (id: string)
    ensures |id| > |date| + 9 && id[..|date|] == date && id[|date| + 1..|date| + 8] == SlotName(time)
    ensures AllDigits(id[|date| + 9..]) && DigitsValue(id[|date| + 9..]) == now
  {
    var p := date + "-" + SlotName(time) + "-";
    NatToStringRoundTrip(now);
    assert (p + NatToString(now))[|p|..] == NatToString(now);
    p + NatToString(now)
  }

  /** Dates of one length (every 'yyyy-MM-dd' text has ten characters):
      two generated keys are equal only when date, slot and clock reading
      all are, so two readings taken at different milliseconds never clash. */
  lemma RecordIdInjective(d1: string, t1: Slot, n1: nat, d2: string, t2: Slot, n2: nat)
    requires |d1| == |d2|
    ensures RecordId(d1, t1, n1) == RecordId(d2, t2, n2) <==> d1 == d2 && t1 == t2 && n1 == n2
  {
    var p1, p2 := d1 + "-" + SlotName(t1) + "-", d2 + "-" + SlotName(t2) + "-";
    if RecordId(d1, t1, n1) == RecordId(d2, t2, n2) {
      assert RecordId(d1, t1, n1) == p1 + NatToString(n1);
      assert RecordId(d2, t2, n2) == p2 + NatToString(n2);
      assert |p1| == |p2|;
      assert p1 == RecordId(d1, t1, n1)[..|p1|] && p2 == RecordId(d2, t2, n2)[..|p2|];
      assert NatToString(n1) == RecordId(d1, t1, n1)[|p1|..];
      assert NatToString(n2) == RecordId(d2, t2, n2)[|p2|..];
      assert d1 == p1[..|d1|] && d2 == p2[..|d2|];
      assert SlotName(t1) == p1[|d1| + 1..|d1| + 8] && SlotName(t2) == p2[|d2| + 1..|d2| + 8];
      NatToStringRoundTrip(n1);
      NatToStringRoundTrip(n2);
    }
  }

  /** What a caller would have handed over for a stored record. */
  function DraftOf(r: Record): Draft
  {
    Draft(r.date, r.time, r.systolic, r.diastolic, r.pulse, r.notes)
  }

  /** The stored form of a draft: its own fields plus `id` and `timestamp`. */
  function FromDraft(draft: Draft, id: string, timestamp: int): (r: Record)
    ensures DraftOf(r) == draft && r.id == id && r.timestamp == timestamp
  {
    Record(id, draft.date, draft.time, draft.systolic, draft.diastolic, draft.pulse, draft.notes, timestamp)
  }

  /** Every record sits under its own `id` (the store's key path). */
  predicate KeyedById(m: map<string, Record>)
  {
    forall k :: k in m ==> m[k].id == k
  }

  predicate UniqueIds(s: set<Record>)
  {
    forall a, b :: a in s && b in s && a.id == b.id ==> a == b
  }

  lemma KeyedValuesHaveUniqueIds(m: map<string, Record>)
    requires KeyedById(m)
    ensures UniqueIds(m.Values)
  {
    forall a, b | a in m.Values && b in m.Values && a.id == b.id
      ensures a == b
    {
      var ka :| ka in m && m[ka] == a;
      var kb :| kb in m && m[kb] == b;
    }
  }

  /** Order in which a cursor opened with direction 'prev' on the index
      'timestamp' visits records: timestamp descending and, among equal
      timestamps, primary key descending. */
  predicate TimestampIndexPrev(a: Record, b: Record)
    ensures TimestampIndexPrev(a, b) ==> a.timestamp >= b.timestamp
  {
    a.timestamp > b.timestamp || (a.timestamp == b.timestamp && StrLess(b.id, a.id))
  }

  /** Order in which a forward cursor on the index 'date' visits records:
      date ascending and, among equal dates, primary key ascending. */
  predicate DateIndexNext(a: Record, b: Record)
    ensures DateIndexNext(a, b) ==> !StrLess(b.date, a.date)
  {
    StrLessAsymmetric(a.date, b.date);
    StrLess(a.date, b.date) || (a.date == b.date && StrLess(a.id, b.id))
  }

  /** Order of the result of `getRecordsByDateRange`: the date-index order
      re-sorted, stably, by timestamp descending. */
  predicate RangeResultBefore(a: Record, b: Record)
  {
    a.timestamp > b.timestamp || (a.timestamp == b.timestamp && DateIndexNext(a, b))
  }

  /** `IDBKeyRange.bound(start, end)`: both bounds included, compared as strings. */
  predicate InDateRange(r: Record, start: string, end: string)
    ensures InDateRange(r, start, end) ==> !StrLess(end, start)
  {
    NotLessTransitive(start, r.date, end);
    !StrLess(r.date, start) && !StrLess(end, r.date)
  }

  lemma TimestampIndexIsStrictTotal(s: set<Record>)
    requires UniqueIds(s)
    ensures StrictTotalOn(TimestampIndexPrev, s)
  {
    forall x | x in s
      ensures !TimestampIndexPrev(x, x)
    {
      StrLessIrreflexive(x.id);
    }
    forall x, y, z | x in s && y in s && z in s && TimestampIndexPrev(x, y) && TimestampIndexPrev(y, z)
      ensures TimestampIndexPrev(x, z)
    {
      if x.timestamp == y.timestamp == z.timestamp {
        StrLessTransitive(z.id, y.id, x.id);
      }
    }
    forall x, y | x in s && y in s && x != y
      ensures TimestampIndexPrev(x, y) || TimestampIndexPrev(y, x)
    {
      StrLessTotal(x.id, y.id);
    }
  }

  lemma DateIndexIsStrictTotal(s: set<Record>)
    requires UniqueIds(s)
    ensures StrictTotalOn(DateIndexNext, s)
  {
    forall x | x in s
      ensures !DateIndexNext(x, x)
    {
      StrLessIrreflexive(x.date);
      StrLessIrreflexive(x.id);
    }
    forall x, y, z | x in s && y in s && z in s && DateIndexNext(x, y) && DateIndexNext(y, z)
      ensures DateIndexNext(x, z)
    {
      if StrLess(x.date, y.date) && StrLess(y.date, z.date) {
        StrLessTransitive(x.date, y.date, z.date);
      } else if x.date == y.date == z.date {
        StrLessTransitive(x.id, y.id, z.id);
      }
    }
    forall x, y | x in s && y in s && x != y
      ensures DateIndexNext(x, y) || DateIndexNext(y, x)
    {
      StrLessTotal(x.date, y.date);
      StrLessTotal(x.id, y.id);
    }
  }

  /** Timestamps never increase along `s`. */
  predicate NewestFirst(s: seq<Record>)
  {
    forall i, j :: 0 <= i < j < |s| ==> s[i].timestamp >= s[j].timestamp
  }

  /** The comparator `(a, b) => b.timestamp - a.timestamp` of the range
      query, read as "goes strictly before": the newer record first. */
  function NewerFirst(): (before: (Record, Record) -> bool)
    ensures forall a, b :: before(a, b) <==> b.timestamp - a.timestamp < 0
  {
    (a: Record, b: Record) => a.timestamp > b.timestamp
  }

  /** The comparator is consistent on any records, and a list it leaves in
      order is a newest-first list. */
  lemma NewerFirstConsistent(dom: set<Record>, s: seq<Record>)
    ensures StrictWeakOrderOn(NewerFirst(), dom)
    ensures SortedBy(NewerFirst(), s) <==> NewestFirst(s)
  {
  }

  /** A record not older than the head of a range-ordered list, and before
      all of it in date-index order, can go in front of it. */
  lemma PrependKeepsRangeOrder(x: Record, ys: seq<Record>)
    requires StrictlySorted(RangeResultBefore, ys)
    requires forall y :: y in ys ==> DateIndexNext(x, y)
    requires ys != [] ==> x.timestamp >= ys[0].timestamp
    ensures StrictlySorted(RangeResultBefore, [x] + ys)
  {
    var r := [x] + ys;
    forall i, j | 0 <= i < j < |r|
      ensures RangeResultBefore(r[i], r[j])
    {
      assert r[j] == ys[j - 1] && ys[j - 1] in ys;
      if i > 0 {
        assert r[i] == ys[i - 1];
      } else if j > 1 {
        assert RangeResultBefore(ys[0], ys[j - 1]);
      }
    }
  }

  /** A record range-ordered before every element of a range-ordered list
      can go in front of it. */
  lemma ConsKeepsRangeOrder(y: Record, rest: seq<Record>)
    requires StrictlySorted(RangeResultBefore, rest)
    requires forall e :: e in rest ==> RangeResultBefore(y, e)
    ensures StrictlySorted(RangeResultBefore, [y] + rest)
  {
    var r := [y] + rest;
    forall i, j | 0 <= i < j < |r|
      ensures RangeResultBefore(r[i], r[j])
    {
      assert r[j] == rest[j - 1] && r[j] in rest;
      if i > 0 {
        assert r[i] == rest[i - 1];
      }
    }
  }

  lemma {:induction false} InsertKeepsRangeOrder(dom: set<Record>, x: Record, ys: seq<Record>)
    requires x in dom && forall y :: y in ys ==> y in dom
    requires StrictlySorted(RangeResultBefore, ys)
    requires forall y :: y in ys ==> DateIndexNext(x, y)
    ensures StrictWeakOrderOn(NewerFirst(), dom) && SortedBy(NewerFirst(), ys)
    ensures StrictlySorted(RangeResultBefore, Insert(NewerFirst(), dom, x, ys))
  {
    NewerFirstConsistent(dom, ys);
    if ys == [] || !NewerFirst()(ys[0], x) {
      PrependKeepsRangeOrder(x, ys);
    } else {
      InsertKeepsRangeOrder(dom, x, ys[1..]);
      var rest := Insert(NewerFirst(), dom, x, ys[1..]);
      forall e | e in rest
        ensures RangeResultBefore(ys[0], e)
      {
        assert e in multiset(rest);
        if e != x {
          var k :| 1 <= k < |ys| && ys[k] == e;
        }
      }
      ConsKeepsRangeOrder(ys[0], rest);
    }
  }

  /** Sorting the date-index listing by timestamp keeps, among equal
      timestamps, the date-index order: the result is ordered by timestamp
      descending, then date ascending, then key ascending. */
  lemma {:induction false} RangeSortOrder(dom: set<Record>, xs: seq<Record>)
    requires forall x :: x in xs ==> x in dom
    requires StrictlySorted(DateIndexNext, xs)
    ensures StrictWeakOrderOn(NewerFirst(), dom)
    ensures StrictlySorted(RangeResultBefore, InsertionSort(NewerFirst(), dom, xs))
  {
    NewerFirstConsistent(dom, xs);
    if xs != [] {
      RangeSortOrder(dom, xs[1..]);
      var sorted := InsertionSort(NewerFirst(), dom, xs[1..]);
      SameMembers(sorted, xs[1..]);
      forall y | y in sorted
        ensures DateIndexNext(xs[0], y) && y in dom
      {
        var k :| 0 <= k < |xs[1..]| && xs[1..][k] == y;
        assert xs[k + 1] == y;
      }
      InsertKeepsRangeOrder(dom, xs[0], sorted);
    }
  }

  /** What `getAllRecords` resolves with on a store `m`: every stored record
      once, in the order of the 'prev' cursor on the timestamp index. */
  ghost predicate IsTimestampScan(m: map<string, Record>, s: seq<Record>)
  {
    StrictlySorted(TimestampIndexPrev, s) && forall x :: x in s <==> x in m.Values
  }

  /** What `getRecordsByDateRange(start, end)` resolves with on a store `m`. */
  ghost predicate IsRangeResult(m: map<string, Record>, start: string, end: string, s: seq<Record>)
  {
    && StrictlySorted(RangeResultBefore, s)
    && forall x :: x in s <==> x in m.Values && InDateRange(x, start, end)
  }

  /** The full scan is determined by the store: there is one such listing. */
  lemma TimestampScanUnique(m: map<string, Record>, a: seq<Record>, b: seq<Record>)
    requires KeyedById(m) && IsTimestampScan(m, a) && IsTimestampScan(m, b)
    ensures a == b
  {
    KeyedValuesHaveUniqueIds(m);
    forall x, y | x in a && y in a && TimestampIndexPrev(x, y)
      ensures !TimestampIndexPrev(y, x)
    {
      StrLessAsymmetric(y.id, x.id);
    }
    SortedUnique(TimestampIndexPrev, a, b);
  }

  /** The range result is determined by the store and the bounds. */
  lemma RangeResultUnique(m: map<string, Record>, start: string, end: string, a: seq<Record>, b: seq<Record>)
    requires IsRangeResult(m, start, end, a) && IsRangeResult(m, start, end, b)
    ensures a == b
  {
    forall x, y | x in a && y in a && RangeResultBefore(x, y)
      ensures !RangeResultBefore(y, x)
    {
      StrLessAsymmetric(x.date, y.date);
      StrLessAsymmetric(x.id, y.id);
    }
    SortedUnique(RangeResultBefore, a, b);
  }

  /** A listing strictly ordered by one of the store's orders holds no record twice. */
  lemma SortedHasNoDuplicates(s: seq<Record>)
    requires StrictlySorted(TimestampIndexPrev, s) || StrictlySorted(RangeResultBefore, s)
    ensures forall i, j :: 0 <= i < j < |s| ==> s[i] != s[j]
  {
    forall i, j | 0 <= i < j < |s|
      ensures s[i] != s[j]
    {
      StrLessIrreflexive(s[i].date);
      StrLessIrreflexive(s[i].id);
    }
  }

  class RecordDb {
    /** The module-level handle `db`: None until an open request has succeeded. */
    var connection: Option<Connection>
    /** How many times `indexedDB.open` has been called. */
    var openRequests: nat
    /** The contents of the object store 'records', by primary key. */
    var records: map<string, Record>

    ghost predicate Valid()
      reads this
    {
      KeyedById(records)
    }

    /** The module as loaded: no handle yet, the database as persisted. */
    constructor (persisted: map<string, Record>)
      requires KeyedById(persisted)
      ensures Valid()
      ensures connection == None && openRequests == 0 && records == persisted
    {
      connection := None;
      openRequests := 0;
      records := persisted;
    }

    /** How a call that first awaits `initDB` leaves the handle: a kept
        handle stays and no request is issued; otherwise exactly one open
        request is issued and its connection is kept only when it opens. */
    twostate predicate HandleAfterInit(canOpen: bool)
      reads this
    {
      && (old(connection).Some? ==> connection == old(connection) && openRequests == old(openRequests))
      && (old(connection).None? ==> openRequests == old(openRequests) + 1)
      && (old(connection).None? && canOpen ==> connection == Some(Connection(old(openRequests))))
      && (old(connection).None? && !canOpen ==> connection == None)
    }

    /** `initDB`: hand back the kept handle if there is one; otherwise issue
        an open request and keep the connection it yields.  Opening creates
        the store and its indexes only when they are missing, so the stored
        records are never touched. */
    method InitDB(canOpen: bool) returns (r: Result<Connection>)
      requires Valid()
      modifies this`connection, this`openRequests
      ensures Valid()
      ensures old(connection).Some? ==>
        r == Ok(old(connection).value) && connection == old(connection) && openRequests == old(openRequests)
      ensures old(connection).None? ==> openRequests == old(openRequests) + 1
      ensures old(connection).None? && canOpen ==>
        r == Ok(Connection(old(openRequests))) && connection == Some(Connection(old(openRequests)))
      ensures old(connection).None? && !canOpen ==> r == Err(OpenFailed) && connection == None
      ensures HandleAfterInit(canOpen)
    {
      if connection.Some? {
        return Ok(connection.value);
      }
      var request := Connection(openRequests);
      openRequests := openRequests + 1;
      if canOpen {
        connection := Some(request);
        r := Ok(request);
      } else {
        r := Err(OpenFailed);
      }
    }

    /** `addRecord`: complete the draft with `id` (from the first clock
        reading) and `timestamp` (from the second) and `add` it, which
        fails rather than overwrite when the key is already taken. */
    method AddRecord(draft: Draft, canOpen: bool, idClock: nat, stampClock: nat) returns (r: Outcome)
      requires Valid()
      modifies this
      ensures Valid()
      ensures HandleAfterInit(canOpen)
      ensures connection.Some? <==> old(connection).Some? || canOpen
      ensures connection.None? ==> r == Failed(OpenFailed) && records == old(records)
      ensures var id := RecordId(draft.date, draft.time, idClock);
        connection.Some? && id in old(records) ==> r == Failed(ConstraintError) && records == old(records)
      ensures var id := RecordId(draft.date, draft.time, idClock);
        connection.Some? && id !in old(records) ==>
          && r == Done
          && records == old(records)[id := FromDraft(draft, id, stampClock)]
          && records.Keys == old(records).Keys + {id}
    {
      var handle := InitDB(canOpen);
      if handle.Err? {
        return Failed(handle.error);
      }
      var id := RecordId(draft.date, draft.time, idClock);
      var fullRecord := FromDraft(draft, id, stampClock);
      if id in records {
        r := Failed(ConstraintError);
      } else {
        records := records[id := fullRecord];
        r := Done;
      }
    }

    /** The cursor loop of `getAllRecords`: walk the index 'timestamp' with
        direction 'prev', pushing each record reached. */
    method ScanTimestampIndexPrev() returns (out: seq<Record>)
      requires Valid()
      ensures IsTimestampScan(records, out)
    {
      KeyedValuesHaveUniqueIds(records);
      var unvisited := records.Values;
      out := [];
      while unvisited != {}
        invariant unvisited <= records.Values
        invariant forall x :: x in out <==> x in records.Values && x !in unvisited
        invariant StrictlySorted(TimestampIndexPrev, out)
        invariant forall i, x :: 0 <= i < |out| && x in unvisited ==> TimestampIndexPrev(out[i], x)
        decreases unvisited
      {
        TimestampIndexIsStrictTotal(unvisited);
        var next := Least(TimestampIndexPrev, unvisited);
        out := out + [next];
        unvisited := unvisited - {next};
      }
    }

    /** The cursor loop of `getRecordsByDateRange`: walk the index 'date'
        forward over the keys from `start` to `end`, pushing each record. */
    method ScanDateIndex(start: string, end: string) returns (out: seq<Record>)
      requires Valid()
      ensures StrictlySorted(DateIndexNext, out)
      ensures forall x :: x in out <==> x in records.Values && InDateRange(x, start, end)
    {
      KeyedValuesHaveUniqueIds(records);
      var unvisited := set x | x in records.Values && InDateRange(x, start, end);
      ghost var inRange := unvisited;
      out := [];
      while unvisited != {}
        invariant unvisited <= inRange
        invariant forall x :: x in out <==> x in inRange && x !in unvisited
        invariant StrictlySorted(DateIndexNext, out)
        invariant forall i, x :: 0 <= i < |out| && x in unvisited ==> DateIndexNext(out[i], x)
        decreases unvisited
      {
        DateIndexIsStrictTotal(unvisited);
        var next := Least(DateIndexNext, unvisited);
        out := out + [next];
        unvisited := unvisited - {next};
      }
    }

    /** `getAllRecords`: every record, newest first. */
    method GetAllRecords(canOpen: bool) returns (r: Result<seq<Record>>)
      requires Valid()
      modifies this`connection, this`openRequests
      ensures Valid()
      ensures HandleAfterInit(canOpen)
      ensures connection.Some? <==> old(connection).Some? || canOpen
      ensures connection.None? ==> r == Err(OpenFailed)
      ensures connection.Some? ==> r.Ok? && IsTimestampScan(records, r.value) && NewestFirst(r.value)
    {
      var handle := InitDB(canOpen);
      if handle.Err? {
        return Err(handle.error);
      }
      var scanned := ScanTimestampIndexPrev();
      r := Ok(scanned);
    }

    /** `getRecordsByDateRange(start, end)`: the records dated from `start`
        to `end` inclusive, newest first.  When `end` sorts before `start`
        the key range cannot be built and the promise rejects. */
    method GetRecordsByDateRange(start: string, end: string, canOpen: bool) returns (r: Result<seq<Record>>)
      requires Valid()
      modifies this`connection, this`openRequests
      ensures Valid()
      ensures HandleAfterInit(canOpen)
      ensures connection.Some? <==> old(connection).Some? || canOpen
      ensures connection.None? ==> r == Err(OpenFailed)
      ensures connection.Some? && StrLess(end, start) ==> r == Err(DataError)
      ensures connection.Some? && !StrLess(end, start) ==>
        r.Ok? && IsRangeResult(records, start, end, r.value) && NewestFirst(r.value)
    {
      var handle := InitDB(canOpen);
      if handle.Err? {
        return Err(handle.error);
      }
      if StrLess(end, start) {
        return Err(DataError);
      }
      var scanned := ScanDateIndex(start, end);
      ghost var dom := set x | x in scanned;
      RangeSortOrder(dom, scanned);
      var sorted := InsertionSort(NewerFirst(), dom, scanned);
      NewerFirstConsistent(dom, sorted);
      SameMembers(sorted, scanned);
      r := Ok(sorted);
    }

    /** `deleteRecord(id)`: remove the record with that key if there is one;
        a missing key is not an error. */
    method DeleteRecord(id: string, canOpen: bool) returns (r: Outcome)
      requires Valid()
      modifies this
      ensures Valid()
      ensures HandleAfterInit(canOpen)
      ensures connection.Some? <==> old(connection).Some? || canOpen
      ensures connection.None? ==> r == Failed(OpenFailed) && records == old(records)
      ensures connection.Some? ==> r == Done && records == old(records) - {id}
      ensures connection.Some? ==>
        id !in records && forall k :: k in old(records) && k != id ==> k in records && records[k] == old(records)[k]
    {
      var handle := InitDB(canOpen);
      if handle.Err? {
        return Failed(handle.error);
      }
      records := records - {id};
      r := Done;
    }
  }

  /** Deleting a key twice leaves the store as deleting it once does. */
  lemma DeleteIdempotent(m: map<string, Record>, id: string)
    ensures (m - {id}) - {id} == m - {id}
  {
  }
}
