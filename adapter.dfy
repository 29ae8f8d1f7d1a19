/**
 * The database adapters (PlantAI/database/adapter.py) as in-memory tables.
 *
 * A table is a sequence of rows in insertion order; the row id is assigned
 * by the table from a counter, as SQLite does for an autoincrement key. The
 * SQL statements become the functions below, and a statement that affects
 * no row fails with the message the connector raises
 * (PlantAI/database/connector.py:45-48).
 */
module Adapter {
  import opened Wrappers
  import opened Records

  const NoMatchingEntry: string := "No matching entry found."

  // ---------------------------------------------------------------------------
  // The measurement query: rows of one sensor, the most recent `limit` of
  // them by timestamp, returned oldest first.

  /** Which readings a query selects: all, only current ones or only archived ones. */
  datatype Mode = All | Current | Archived

  predicate Selected(m: Measurement, sensor: int, mode: Mode) {
    m.sensorId == sensor &&
    match mode
    case All => true
    case Current => m.IsCurrent()
    case Archived => m.IsArchived()
  }

  /** The selected rows, in table order. */
  function Matching(rows: seq<Measurement>, sensor: int, mode: Mode): (r: seq<Measurement>)
    ensures forall i :: 0 <= i < |r| ==> Selected(r[i], sensor, mode)
    decreases |rows|
  {
    if rows == [] then []
    else
      var front, m := rows[..|rows| - 1], rows[|rows| - 1];
      Matching(front, sensor, mode) + (if Selected(m, sensor, mode) then [m] else [])
  }

  /** Every selected row is matched, and nothing but rows of the table is. */
  lemma {:induction false} MatchingContents(rows: seq<Measurement>, sensor: int, mode: Mode)
    ensures forall m :: m in rows && Selected(m, sensor, mode) ==> m in Matching(rows, sensor, mode)
    ensures multiset(Matching(rows, sensor, mode)) <= multiset(rows)
    decreases |rows|
  {
    if rows != [] {
      var front, m := rows[..|rows| - 1], rows[|rows| - 1];
      assert rows == front + [m];
      MatchingContents(front, sensor, mode);
    }
  }

  predicate SortedByTime(s: seq<Measurement>) {
    forall i, j :: 0 <= i < j < |s| ==> s[i].timestamp <= s[j].timestamp
  }

  /** Places x after every element of s whose timestamp is not later than x's. */
  function InsertByTime(s: seq<Measurement>, x: Measurement): (r: seq<Measurement>)
    requires SortedByTime(s)
    ensures SortedByTime(r)
    ensures multiset(r) == multiset(s) + multiset{x}
    ensures |r| == |s| + 1
    ensures forall y :: y in r ==> y in s || y == x
    decreases |s|
  {
    if s == [] then [x]
    else
      var front, last := s[..|s| - 1], s[|s| - 1];
      assert s == front + [last];
      if last.timestamp <= x.timestamp then s + [x]
      else
        var r' := InsertByTime(front, x);
        assert forall i :: 0 <= i < |r'| ==> r'[i].timestamp <= last.timestamp by {
          forall i | 0 <= i < |r'| ensures r'[i].timestamp <= last.timestamp {
            assert r'[i] in r';
          }
        }
        r' + [last]
  }

  /** The rows ordered by timestamp; rows with equal timestamps keep their table order. */
  function SortByTime(s: seq<Measurement>): (r: seq<Measurement>)
    ensures SortedByTime(r)
    ensures multiset(r) == multiset(s)
    ensures |r| == |s|
    decreases |s|
  {
    if s == [] then []
    else
      var front, last := s[..|s| - 1], s[|s| - 1];
      assert s == front + [last];
      InsertByTime(SortByTime(front), last)
  }

  /** The last `limit` elements of s; a negative limit means no limit, as for SQL's LIMIT. */
  function TakeLast(s: seq<Measurement>, limit: int): seq<Measurement> {
    if limit < 0 || limit >= |s| then s else s[|s| - limit..]
  }

  /** Selecting and sorting one more row: the step of a scan over the table. */
  lemma SortMatchingStep(prefix: seq<Measurement>, x: Measurement, sensor: int, mode: Mode)
    ensures SortByTime(Matching(prefix + [x], sensor, mode)) ==
      if Selected(x, sensor, mode) then InsertByTime(SortByTime(Matching(prefix, sensor, mode)), x)
      else SortByTime(Matching(prefix, sensor, mode))
  {
    var rows := prefix + [x];
    assert rows[..|rows| - 1] == prefix;
    var m := Matching(prefix, sensor, mode);
    if Selected(x, sensor, mode) {
      assert Matching(rows, sensor, mode) == m + [x];
      assert (m + [x])[..|m|] == m;
    } else {
      assert Matching(rows, sensor, mode) == m;
    }
  }

  /** The selected rows among the first n of the table, sorted: what a scan has collected after n rows. */
  function ScanSorted(table: seq<Measurement>, n: nat, sensor: int, mode: Mode): (r: seq<Measurement>)
    requires n <= |table|
    ensures SortedByTime(r)
  {
    if n == 0 then []
    else if Selected(table[n - 1], sensor, mode) then InsertByTime(ScanSorted(table, n - 1, sensor, mode), table[n - 1])
    else ScanSorted(table, n - 1, sensor, mode)
  }

  /** SortMatchingStep for the row at index n - 1 of a table. */
  lemma SortMatchingAt(table: seq<Measurement>, n: nat, sensor: int, mode: Mode)
    requires 0 < n <= |table|
    ensures SortByTime(Matching(table[..n], sensor, mode)) ==
      if Selected(table[n - 1], sensor, mode) then InsertByTime(SortByTime(Matching(table[..n - 1], sensor, mode)), table[n - 1])
      else SortByTime(Matching(table[..n - 1], sensor, mode))
  {
    assert table[..n] == table[..n - 1] + [table[n - 1]];
    SortMatchingStep(table[..n - 1], table[n - 1], sensor, mode);
  }

  lemma {:induction false} ScanSortedPrefix(table: seq<Measurement>, n: nat, sensor: int, mode: Mode)
    requires n <= |table|
    ensures ScanSorted(table, n, sensor, mode) == SortByTime(Matching(table[..n], sensor, mode))
  {
    if n > 0 {
      var before := ScanSorted(table, n - 1, sensor, mode);
      ScanSortedPrefix(table, n - 1, sensor, mode);
      SortMatchingAt(table, n, sensor, mode);
      if Selected(table[n - 1], sensor, mode) {
        assert ScanSorted(table, n, sensor, mode) == InsertByTime(before, table[n - 1]);
      } else {
        assert ScanSorted(table, n, sensor, mode) == before;
      }
    }
  }

  lemma ScanSortedComplete(table: seq<Measurement>, sensor: int, mode: Mode)
    ensures ScanSorted(table, |table|, sensor, mode) == SortByTime(Matching(table, sensor, mode))
  {
    ScanSortedPrefix(table, |table|, sensor, mode);
    assert table[..|table|] == table;
  }

  /** The result of the getList statement, extended by a mode filter. */
  function Query(rows: seq<Measurement>, sensor: int, limit: int, mode: Mode): seq<Measurement> {
    TakeLast(SortByTime(Matching(rows, sensor, mode)), limit)
  }

  /** Only rows of the asked sensor (and mode) come back, and every one of them is a row of the table. */
  lemma QuerySelects(rows: seq<Measurement>, sensor: int, limit: int, mode: Mode)
    ensures multiset(Query(rows, sensor, limit, mode)) <= multiset(rows)
    ensures forall m :: m in Query(rows, sensor, limit, mode) ==> m in rows && Selected(m, sensor, mode)
  {
    var sorted := SortByTime(Matching(rows, sensor, mode));
    var q := Query(rows, sensor, limit, mode);
    MatchingContents(rows, sensor, mode);
    if !(limit < 0 || limit >= |sorted|) {
      assert sorted == sorted[..|sorted| - limit] + q;
    }
    assert multiset(q) <= multiset(sorted);
    forall m | m in q ensures m in rows && Selected(m, sensor, mode) {
      assert m in multiset(q);
      assert m in multiset(Matching(rows, sensor, mode));
    }
  }

  /** A negative limit returns every selected row; otherwise at most `limit` of them. */
  lemma QueryCount(rows: seq<Measurement>, sensor: int, limit: int, mode: Mode)
    ensures var n := |Matching(rows, sensor, mode)|;
      |Query(rows, sensor, limit, mode)| == if limit < 0 || limit >= n then n else limit
    ensures limit < 0 ==> multiset(Query(rows, sensor, limit, mode)) == multiset(Matching(rows, sensor, mode))
  {
  }

  /** The result is ordered oldest first. */
  lemma QuerySorted(rows: seq<Measurement>, sensor: int, limit: int, mode: Mode)
    ensures SortedByTime(Query(rows, sensor, limit, mode))
  {
    var sorted := SortByTime(Matching(rows, sensor, mode));
    var q := Query(rows, sensor, limit, mode);
    if !(limit < 0 || limit >= |sorted|) {
      forall i, j | 0 <= i < j < |q| ensures q[i].timestamp <= q[j].timestamp {
        assert q[i] == sorted[|sorted| - limit + i];
        assert q[j] == sorted[|sorted| - limit + j];
      }
    }
  }

  /** The result holds the most recent rows: every selected row left out is no later than every row returned. */
  lemma QueryMostRecent(rows: seq<Measurement>, sensor: int, limit: int, mode: Mode)
    ensures var q := Query(rows, sensor, limit, mode);
      forall x: Measurement, y: Measurement :: x in multiset(Matching(rows, sensor, mode)) - multiset(q) && y in q ==>
        x.timestamp <= y.timestamp
  {
    var sorted := SortByTime(Matching(rows, sensor, mode));
    var q := Query(rows, sensor, limit, mode);
    if !(limit < 0 || limit >= |sorted|) {
      var left := sorted[..|sorted| - limit];
      assert sorted == left + q;
      SplitDifference(sorted, left, q);
      forall x: Measurement, y: Measurement | x in multiset(left) && y in q ensures x.timestamp <= y.timestamp {
        EarlierPart(sorted, left, q, x, y);
      }
    }
  }

  lemma SplitDifference(s: seq<Measurement>, a: seq<Measurement>, b: seq<Measurement>)
    requires s == a + b
    ensures multiset(s) - multiset(b) == multiset(a)
  {
    assert multiset(s) == multiset(a) + multiset(b);
  }

  lemma EarlierPart(s: seq<Measurement>, a: seq<Measurement>, b: seq<Measurement>, x: Measurement, y: Measurement)
    requires s == a + b && SortedByTime(s)
    requires x in multiset(a) && y in b
    ensures x.timestamp <= y.timestamp
  {
    assert x in a;
    var i :| 0 <= i < |a| && a[i] == x;
    var j :| 0 <= j < |b| && b[j] == y;
    assert s[i] == x && s[|a| + j] == y;
  }

  /** The most recent current reading of a sensor: the row the recent-measurement lookup returns. */
  function MostRecentCurrent(rows: seq<Measurement>, sensor: int): Option<Measurement> {
    var q := Query(rows, sensor, 1, Current);
    if q == [] then None else Some(q[0])
  }

  /** There is a recent reading iff the sensor has a current row, and it is the latest of them. */
  lemma MostRecentCurrentIsLatest(rows: seq<Measurement>, sensor: int)
    ensures MostRecentCurrent(rows, sensor).None? <==>
      forall m :: m in rows ==> !Selected(m, sensor, Current)
    ensures MostRecentCurrent(rows, sensor).Some? ==>
      var r := MostRecentCurrent(rows, sensor).value;
      r in rows && Selected(r, sensor, Current) &&
      forall m :: m in rows && Selected(m, sensor, Current) ==> m.timestamp <= r.timestamp
  {
    var sel := Matching(rows, sensor, Current);
    var sorted := SortByTime(sel);
    MatchingContents(rows, sensor, Current);
    if |sel| > 0 {
      var r := sorted[|sorted| - 1];
      assert Query(rows, sensor, 1, Current) == [r];
      assert r in multiset(sel) by { assert r in multiset(sorted); }
      assert r in multiset(rows);
      forall m | m in rows && Selected(m, sensor, Current) ensures m.timestamp <= r.timestamp {
        assert m in multiset(sorted) by { assert m in multiset(sel); }
        var k :| 0 <= k < |sorted| && sorted[k] == m;
      }
    }
  }

  // ---------------------------------------------------------------------------
  // Row edits

  predicate UniqueIds(rows: seq<Measurement>) {
    forall i, j :: 0 <= i < j < |rows| ==> rows[i].measureId != rows[j].measureId
  }

  predicate HasId(rows: seq<Measurement>, id: int) {
    exists i :: 0 <= i < |rows| && rows[i].measureId == id
  }

  /**
   * The table after the whole-row update of the row whose id is data's: every
   * position keeps its id, a row that changed now holds data, and data is in
   * the table exactly when a row had its id; unique ids stay unique.
   */
  function ReplaceRow(rows: seq<Measurement>, data: Measurement): (r: seq<Measurement>)
    ensures |r| == |rows|
    ensures forall i :: 0 <= i < |r| ==> r[i].measureId == rows[i].measureId
    ensures forall i :: 0 <= i < |r| && r[i] != rows[i] ==> r[i] == data
    ensures !HasId(rows, data.measureId) ==> r == rows
    ensures HasId(rows, data.measureId) ==> data in r
    ensures UniqueIds(rows) ==> UniqueIds(r)
  {
    seq(|rows|, i requires 0 <= i < |rows| => if rows[i].measureId == data.measureId then data else rows[i])
  }

  /** The table without the rows of one sensor, in table order. */
  function WithoutSensor(rows: seq<Measurement>, sensor: int): (r: seq<Measurement>)
    ensures forall m :: m in r <==> m in rows && m.sensorId != sensor
    ensures |r| <= |rows|
    decreases |rows|
  {
    if rows == [] then []
    else
      var front, m := rows[..|rows| - 1], rows[|rows| - 1];
      assert rows == front + [m];
      WithoutSensor(front, sensor) + (if m.sensorId != sensor then [m] else [])
  }

  lemma {:induction false} WithoutSensorKeepsAll(rows: seq<Measurement>, sensor: int)
    requires forall m :: m in rows ==> m.sensorId != sensor
    ensures WithoutSensor(rows, sensor) == rows
    decreases |rows|
  {
    if rows != [] {
      var front := rows[..|rows| - 1];
      WithoutSensorKeepsAll(front, sensor);
      assert rows == front + [rows[|rows| - 1]];
    }
  }

  /** Deleting a sensor's readings fails exactly when it leaves the table as it was. */
  lemma WithoutSensorShrinks(rows: seq<Measurement>, sensor: int)
    ensures (exists i :: 0 <= i < |rows| && rows[i].sensorId == sensor) <==> |WithoutSensor(rows, sensor)| < |rows|
  {
    if exists i :: 0 <= i < |rows| && rows[i].sensorId == sensor {
      var i :| 0 <= i < |rows| && rows[i].sensorId == sensor;
      WithoutSensorCount(rows, sensor, i);
    } else {
      WithoutSensorKeepsAll(rows, sensor);
    }
  }

  lemma {:induction false} WithoutSensorCount(rows: seq<Measurement>, sensor: int, i: nat)
    requires i < |rows| && rows[i].sensorId == sensor
    ensures |WithoutSensor(rows, sensor)| < |rows|
    decreases |rows|
  {
    var front := rows[..|rows| - 1];
    if i < |rows| - 1 {
      WithoutSensorCount(front, sensor, i);
    }
  }

  /** The measurements table. */
  class MeasurementTable {
    var rows: seq<Measurement>
    var nextId: int

    /** Ids are unique, and every id in use is below the next one handed out. */
    ghost predicate Valid()
      reads this
    {
      UniqueIds(rows) && forall i :: 0 <= i < |rows| ==> rows[i].measureId < nextId
    }

    constructor ()
      ensures Valid() && rows == [] && nextId == 1
    {
      rows := [];
      nextId := 1;
    }

    /**
     * getList: the most recent `limit` readings of a sensor (all of them when
     * limit is negative), oldest first. The mode narrows the readings to the
     * current or the archived ones.
     */
    method GetList(sensor: int, limit: int, mode: Mode) returns (result: seq<Measurement>)
      ensures result == Query(rows, sensor, limit, mode)
    {
      var sorted: seq<Measurement> := [];
      for i := 0 to |rows|
        invariant sorted == ScanSorted(rows, i, sensor, mode)
      {
        if Selected(rows[i], sensor, mode) {
          sorted := InsertByTime(sorted, rows[i]);
        }
      }
      ScanSortedComplete(rows, sensor, mode);
      result := TakeLast(sorted, limit);
    }

    /** The lookup of the most recent current reading of a sensor, or None. */
    method GetRecent(sensor: int) returns (recent: Option<Measurement>)
      ensures recent == MostRecentCurrent(rows, sensor)
    {
      var q := GetList(sensor, 1, Current);
      recent := if q == [] then None else Some(q[0]);
    }

    /** insert: one new row carrying the five given fields and a fresh id. */
    method Insert(data: Measurement)
      requires Valid()
      modifies this
      ensures Valid()
      ensures rows == old(rows) + [data.(measureId := old(nextId))]
      ensures nextId == old(nextId) + 1
    {
      rows := rows + [data.(measureId := nextId)];
      nextId := nextId + 1;
    }

    /** update: all five fields of the row with data's id are overwritten; without such a row it fails. */
    method Update(data: Measurement) returns (outcome: Outcome<string>)
      requires Valid()
      modifies this
      ensures Valid() && nextId == old(nextId)
      ensures outcome == if HasId(old(rows), data.measureId) then Pass else Fail(NoMatchingEntry)
      ensures rows == ReplaceRow(old(rows), data)
    {
      if HasId(rows, data.measureId) {
        outcome := Pass;
      } else {
        outcome := Fail(NoMatchingEntry);
      }
      rows := ReplaceRow(rows, data);
    }

    /** delete: removes every reading of the given SENSOR; fails when there is none. */
    method Delete(sensor: int) returns (outcome: Outcome<string>)
      requires Valid()
      modifies this
      ensures Valid() && nextId == old(nextId)
      ensures outcome == if exists i :: 0 <= i < |old(rows)| && old(rows)[i].sensorId == sensor
                         then Pass else Fail(NoMatchingEntry)
      ensures rows == WithoutSensor(old(rows), sensor)
    {
      var kept := WithoutSensor(rows, sensor);
      WithoutSensorShrinks(rows, sensor);
      outcome := if |kept| < |rows| then Pass else Fail(NoMatchingEntry);
      WithoutSensorUnique(rows, sensor);
      rows := kept;
    }
  }

  lemma {:induction false} WithoutSensorUnique(rows: seq<Measurement>, sensor: int)
    requires UniqueIds(rows)
    ensures UniqueIds(WithoutSensor(rows, sensor))
    decreases |rows|
  {
    if rows != [] {
      var front, m := rows[..|rows| - 1], rows[|rows| - 1];
      WithoutSensorUnique(front, sensor);
      var r := WithoutSensor(front, sensor);
      forall k | 0 <= k < |r| ensures r[k].measureId != m.measureId {
        assert r[k] in front;
        var j :| 0 <= j < |front| && front[j] == r[k];
        assert rows[j] == front[j];
      }
    }
  }

  // ---------------------------------------------------------------------------
  // The plant, species and sensor tables, each keyed by its primary key.

  predicate UniqueKeys(rows: seq<Entry>) {
    forall i, j :: 0 <= i < j < |rows| ==> rows[i].Key() != rows[j].Key()
  }

  predicate HasKey(rows: seq<Entry>, key: int) {
    exists i :: 0 <= i < |rows| && rows[i].Key() == key
  }

  /**
   * The table after the update of the row whose key is data's: every
   * position keeps its key, a row that changed now holds data, and data is in
   * the table exactly when a row had its key; unique keys stay unique.
   */
  function ReplaceEntry(rows: seq<Entry>, data: Entry): (r: seq<Entry>)
    ensures |r| == |rows|
    ensures forall i :: 0 <= i < |r| ==> r[i].Key() == rows[i].Key()
    ensures forall i :: 0 <= i < |r| && r[i] != rows[i] ==> r[i] == data
    ensures !HasKey(rows, data.Key()) ==> r == rows
    ensures HasKey(rows, data.Key()) ==> data in r
    ensures UniqueKeys(rows) ==> UniqueKeys(r)
  {
    seq(|rows|, i requires 0 <= i < |rows| => if rows[i].Key() == data.Key() then data else rows[i])
  }

  /** The table without the rows that carry the given key, in table order. */
  function WithoutKey(rows: seq<Entry>, key: int): seq<Entry>
    decreases |rows|
  {
    if rows == [] then []
    else
      var front, e := rows[..|rows| - 1], rows[|rows| - 1];
      WithoutKey(front, key) + (if e.Key() != key then [e] else [])
  }

  /** Deleting by key keeps exactly the rows with other keys. */
  lemma {:induction false} WithoutKeyContents(rows: seq<Entry>, key: int)
    ensures forall e :: e in WithoutKey(rows, key) <==> e in rows && e.Key() != key
    decreases |rows|
  {
    if rows != [] {
      var front, e := rows[..|rows| - 1], rows[|rows| - 1];
      WithoutKeyContents(front, key);
      assert rows == front + [e];
    }
  }

  /** With unique keys, deleting by key removes exactly the one row with that key and keeps the order of the rest. */
  lemma {:induction false} WithoutKeyRemovesOne(rows: seq<Entry>, i: nat)
    requires UniqueKeys(rows) && i < |rows|
    ensures WithoutKey(rows, rows[i].Key()) == rows[..i] + rows[i + 1..]
    decreases |rows|
  {
    var n := |rows|;
    var front, e := rows[..n - 1], rows[n - 1];
    var key := rows[i].Key();
    assert WithoutKey(rows, key) == WithoutKey(front, key) + (if e.Key() != key then [e] else []);
    if i == n - 1 {
      assert forall k :: 0 <= k < |front| ==> front[k].Key() != key by {
        forall k | 0 <= k < |front| ensures front[k].Key() != key {
          assert front[k] == rows[k];
        }
      }
      WithoutKeyKeepsAll(front, key);
      assert rows[..i] + rows[i + 1..] == front;
    } else {
      assert UniqueKeys(front) by {
        forall j, k | 0 <= j < k < |front| ensures front[j].Key() != front[k].Key() {
          assert front[j] == rows[j] && front[k] == rows[k];
        }
      }
      assert front[i] == rows[i];
      WithoutKeyRemovesOne(front, i);
      assert e.Key() != key;
      assert rows == front + [e];
      RemoveBeforeLast(front, e, i);
    }
  }

  lemma RemoveBeforeLast<T>(front: seq<T>, e: T, i: nat)
    requires i < |front|
    ensures front[..i] + front[i + 1..] + [e] == (front + [e])[..i] + (front + [e])[i + 1..]
  {
    var rows := front + [e];
    assert front[..i] == rows[..i];
    assert front[i + 1..] + [e] == rows[i + 1..];
  }

  lemma RemovalKeepsUnique(rows: seq<Entry>, i: nat, bound: int)
    requires UniqueKeys(rows) && i < |rows|
    requires forall k :: 0 <= k < |rows| ==> rows[k].Key() < bound
    ensures var r := rows[..i] + rows[i + 1..];
      UniqueKeys(r) && forall k :: 0 <= k < |r| ==> r[k].Key() < bound
  {
    var r := rows[..i] + rows[i + 1..];
    assert forall k :: 0 <= k < |r| ==> r[k] == rows[if k < i then k else k + 1];
  }

  lemma {:induction false} WithoutKeyKeepsAll(rows: seq<Entry>, key: int)
    requires forall i :: 0 <= i < |rows| ==> rows[i].Key() != key
    ensures WithoutKey(rows, key) == rows
    decreases |rows|
  {
    if rows != [] {
      var front := rows[..|rows| - 1];
      WithoutKeyKeepsAll(front, key);
      assert rows == front + [rows[|rows| - 1]];
    }
  }

  /** A table keyed by its first column: plants, species or sensors, as `kind` says. */
  class KeyedTable {
    const kind: EntryKind
    var rows: seq<Entry>
    var nextId: int

    /** Keys are unique and below the next one handed out, and every row is of the table's kind. */
    ghost predicate Valid()
      reads this
    {
      UniqueKeys(rows) &&
      (forall i :: 0 <= i < |rows| ==> rows[i].Key() < nextId) &&
      forall i :: 0 <= i < |rows| ==> rows[i].Kind() == kind
    }

    constructor (kind: EntryKind)
      ensures Valid() && this.kind == kind && rows == [] && nextId == 1
    {
      this.kind := kind;
      rows := [];
      nextId := 1;
    }

    /** getList: every row, in table order. */
    method GetList() returns (result: seq<Entry>)
      ensures result == rows
    {
      result := rows;
    }

    /** insert: one new row carrying the given fields under a fresh key. */
    method Insert(data: Entry)
      requires Valid() && data.Kind() == kind
      modifies this
      ensures Valid()
      ensures rows == old(rows) + [data.WithKey(old(nextId))]
      ensures nextId == old(nextId) + 1
    {
      rows := rows + [data.WithKey(nextId)];
      nextId := nextId + 1;
    }

    /** update: the row with data's key takes data's fields; without such a row it fails. */
    method Update(data: Entry) returns (outcome: Outcome<string>)
      requires Valid() && data.Kind() == kind
      modifies this
      ensures Valid() && nextId == old(nextId)
      ensures outcome == if HasKey(old(rows), data.Key()) then Pass else Fail(NoMatchingEntry)
      ensures rows == ReplaceEntry(old(rows), data)
    {
      outcome := if HasKey(rows, data.Key()) then Pass else Fail(NoMatchingEntry);
      rows := ReplaceEntry(rows, data);
    }

    /** delete: removes the one row with the given key; without such a row it fails. */
    method Delete(key: int) returns (outcome: Outcome<string>)
      requires Valid()
      modifies this
      ensures Valid() && nextId == old(nextId)
      ensures outcome == if HasKey(old(rows), key) then Pass else Fail(NoMatchingEntry)
      ensures HasKey(old(rows), key) ==>
        exists i :: 0 <= i < |old(rows)| && old(rows)[i].Key() == key && rows == old(rows)[..i] + old(rows)[i + 1..]
      ensures !HasKey(old(rows), key) ==> rows == old(rows)
    {
      if HasKey(rows, key) {
        var i :| 0 <= i < |rows| && rows[i].Key() == key;
        WithoutKeyRemovesOne(rows, i);
        RemovalKeepsUnique(rows, i, nextId);
        outcome := Pass;
      } else {
        WithoutKeyKeepsAll(rows, key);
        outcome := Fail(NoMatchingEntry);
      }
      rows := WithoutKey(rows, key);
    }
  }
}
