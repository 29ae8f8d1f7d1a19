/**
 * The CSV export and the log file naming of PlantAI/system/streams.py. This
 * export writes the moisture with its decimals, so a measurement survives
 * the trip through a file apart from its id and sensor.
 */
module SystemStreams {
  import opened Wrappers
  import opened Records
  import opened Numerals
  import opened CsvRows

  /** One data row: minutes until dry, moisture, temperature and timestamp, each as str() writes it. */
  function ExportRow(m: Measurement): (row: Row)
    ensures |row| == 4
  {
    [IntText(m.minUntilDry), CentiText(m.moisture), CentiText(m.temperature), IntText(m.timestamp)]
  }

  /** The rows exportAsCSV writes: the header, then one row per measurement in the given order. */
  function ExportTable(ms: seq<Measurement>): (table: seq<Row>)
    ensures |table| == |ms| + 1 && table[0] == Header
    ensures forall i :: 0 <= i < |ms| ==> table[i + 1] == ExportRow(ms[i])
  {
    [Header] + seq(|ms|, i requires 0 <= i < |ms| => ExportRow(ms[i]))
  }

  /** exportAsCSV as the loop that writes the header and then one row per measurement. */
  method ExportAsCsv(allMeasurements: seq<Measurement>) returns (table: seq<Row>)
    ensures table == ExportTable(allMeasurements)
  {
    table := [Header];
    for i := 0 to |allMeasurements|
      invariant |table| == i + 1 && table[0] == Header
      invariant forall k :: 0 <= k < i ==> table[k + 1] == ExportRow(allMeasurements[k])
    {
      table := table + [ExportRow(allMeasurements[i])];
    }
  }

  /** The import reads back every exported row. */
  lemma ImportOfExport(ms: seq<Measurement>, sensorId: int)
    ensures var imported := ImportTable(ExportTable(ms), sensorId);
      imported.Success? && |imported.value| == |ms| &&
      forall i :: 0 <= i < |ms| ==> imported.value[i] == ImportRow(ExportRow(ms[i]), sensorId)
  {
    var table := ExportTable(ms);
    var rows := table[1..];
    forall i | 0 <= i < |rows| ensures |rows[i]| >= 4 {
      assert rows[i] == table[i + 1];
    }
    var imported := ImportRows(rows, sensorId);
    forall i | 0 <= i < |ms| ensures imported.value[i] == ImportRow(ExportRow(ms[i]), sensorId) {
      assert rows[i] == table[i + 1];
    }
  }

  /** One row: written, read back and stored, it is the measurement again under the importing sensor. */
  lemma RowRoundTrip(m: Measurement, sensorId: int)
    ensures Decode(ImportRow(ExportRow(m), sensorId)) == Some(m.(measureId := 0, sensorId := sensorId))
  {
    IntTextRoundTrip(m.minUntilDry);
    CentiTextRoundTrip(m.moisture);
    CentiTextRoundTrip(m.temperature);
    IntTextRoundTrip(m.timestamp);
  }

  /** Export followed by import keeps the count, the order and all four exported fields. */
  lemma ExportImportRoundTrip(ms: seq<Measurement>, sensorId: int)
    ensures var imported := ImportTable(ExportTable(ms), sensorId);
      imported.Success? && |imported.value| == |ms| &&
      forall i :: 0 <= i < |ms| ==> Decode(imported.value[i]) == Some(ms[i].(measureId := 0, sensorId := sensorId))
  {
    ImportOfExport(ms, sensorId);
    var imported := ImportTable(ExportTable(ms), sensorId);
    forall i | 0 <= i < |ms| ensures Decode(imported.value[i]) == Some(ms[i].(measureId := 0, sensorId := sensorId)) {
      RowRoundTrip(ms[i], sensorId);
    }
  }

  // ---------------------------------------------------------------------------
  // The name of a rotated log file

  /** The text after the last '.', or all of s when it has none: split(".")[-1]. */
  function LastSegment(s: string): (r: string)
    ensures |r| <= |s| && r == s[|s| - |r|..]
    ensures forall i :: 0 <= i < |r| ==> r[i] != '.'
    ensures |r| < |s| ==> s[|s| - |r| - 1] == '.'
    decreases |s|
  {
    if s == [] || s[|s| - 1] == '.' then []
    else LastSegment(s[..|s| - 1]) + [s[|s| - 1]]
  }

  /** The characters of the argument ".log", which str.strip treats as a set. */
  predicate IsStripChar(c: char) {
    c == '.' || c == 'l' || c == 'o' || c == 'g'
  }

  /** The number of set characters at the front of s. */
  function LeadingCount(s: string): (n: nat)
    ensures n <= |s|
    decreases |s|
  {
    if s != [] && IsStripChar(s[0]) then 1 + LeadingCount(s[1..]) else 0
  }

  /** The number of set characters at the end of s. */
  function TrailingCount(s: string): (n: nat)
    ensures n <= |s|
    decreases |s|
  {
    if s != [] && IsStripChar(s[|s| - 1]) then 1 + TrailingCount(s[..|s| - 1]) else 0
  }

  /** LeadingCount counts the whole run of set characters at the front, and no more. */
  lemma {:induction false} LeadingRun(s: string)
    ensures forall i :: 0 <= i < LeadingCount(s) ==> IsStripChar(s[i])
    ensures LeadingCount(s) < |s| ==> !IsStripChar(s[LeadingCount(s)])
    decreases |s|
  {
    if s != [] && IsStripChar(s[0]) {
      LeadingRun(s[1..]);
      forall i | 1 <= i < LeadingCount(s) ensures IsStripChar(s[i]) {
        assert s[i] == s[1..][i - 1];
      }
    }
  }

  /** TrailingCount counts the whole run of set characters at the end, and no more. */
  lemma {:induction false} TrailingRun(s: string)
    ensures forall i :: |s| - TrailingCount(s) <= i < |s| ==> IsStripChar(s[i])
    ensures TrailingCount(s) < |s| ==> !IsStripChar(s[|s| - TrailingCount(s) - 1])
    decreases |s|
  {
    if s != [] && IsStripChar(s[|s| - 1]) {
      var front := s[..|s| - 1];
      TrailingRun(front);
      forall i | |s| - TrailingCount(s) <= i < |s| - 1 ensures IsStripChar(s[i]) {
        assert s[i] == front[i];
      }
    }
  }

  /** name.strip(".log"): set characters removed from both ends. */
  function Strip(s: string): (r: string) {
    var front := s[LeadingCount(s)..];
    front[..|front| - TrailingCount(front)]
  }

  /**
   * The stripped name is a slice of the name with only set characters cut
   * away on either side, and it neither starts nor ends with one.
   */
  lemma StripIsTrim(s: string)
    ensures var r := Strip(s); var i := LeadingCount(s);
      i + |r| <= |s| && r == s[i..i + |r|] &&
      (forall k :: 0 <= k < i ==> IsStripChar(s[k])) &&
      (forall k :: i + |r| <= k < |s| ==> IsStripChar(s[k])) &&
      (|r| > 0 ==> !IsStripChar(r[0]) && !IsStripChar(r[|r| - 1]))
  {
    LeadingRun(s);
    StripCutsSetChars(s);
    StripEnds(s);
  }

  lemma StripCutsSetChars(s: string)
    ensures var r := Strip(s); var i := LeadingCount(s);
      i + |r| <= |s| && r == s[i..i + |r|] &&
      forall k :: i + |r| <= k < |s| ==> IsStripChar(s[k])
  {
    var i := LeadingCount(s);
    var front := s[i..];
    var r := Strip(s);
    TrailingRun(front);
    forall k | i + |r| <= k < |s| ensures IsStripChar(s[k]) {
      assert s[k] == front[k - i];
    }
  }

  lemma StripEnds(s: string)
    ensures var r := Strip(s); |r| > 0 ==> !IsStripChar(r[0]) && !IsStripChar(r[|r| - 1])
  {
    var i := LeadingCount(s);
    var front := s[i..];
    var t := TrailingCount(front);
    var r := Strip(s);
    if |r| > 0 {
      LeadingRun(s);
      TrailingRun(front);
      assert r[0] == s[i];
      assert r[|r| - 1] == front[|front| - t - 1];
    }
  }

  /** A string that neither starts nor ends with a set character is left alone. */
  lemma StripClean(s: string)
    requires |s| > 0 ==> !IsStripChar(s[0]) && !IsStripChar(s[|s| - 1])
    ensures Strip(s) == s
  {
    assert LeadingCount(s) == 0;
    assert s[0..] == s;
    assert TrailingCount(s) == 0;
  }

  /** Stripping twice strips no more than stripping once. */
  lemma StripIdempotent(s: string)
    ensures Strip(Strip(s)) == Strip(s)
  {
    StripIsTrim(s);
    StripClean(Strip(s));
  }

  /** strip is not suffix removal: "plantai.log" loses its extension ... */
  lemma StripPlantai()
    ensures Strip("plantai.log") == "plantai"
  {
    var a := "plantai.log";
    assert LeadingCount(a) == 0 && a[0..] == a;
    assert TrailingCount(a[..7]) == 0;
    TrailingStep(a, 7);
    TrailingStep(a, 8);
    TrailingStep(a, 9);
    TrailingStep(a, 10);
    assert a[..11] == a;
  }

  /** ... a name made only of '.', 'l', 'o' and 'g' vanishes ... */
  lemma StripAllSetChars()
    ensures Strip("log.log") == ""
  {
    var b := "log.log";
    assert LeadingCount(b[7..]) == 0;
    LeadingStep(b, 6);
    LeadingStep(b, 5);
    LeadingStep(b, 4);
    LeadingStep(b, 3);
    LeadingStep(b, 2);
    LeadingStep(b, 1);
    LeadingStep(b, 0);
    assert b[0..] == b;
  }

  /** ... and a name starting with such letters loses them too. */
  lemma StripLogger()
    ensures Strip("logger.log") == "er"
  {
    var c := "logger.log";
    var e := "er.log";
    assert c[4..] == e;
    assert LeadingCount(e) == 0;
    LeadingStep(c, 3);
    LeadingStep(c, 2);
    LeadingStep(c, 1);
    LeadingStep(c, 0);
    assert c[0..] == c;
    assert TrailingCount(e[..2]) == 0;
    TrailingStep(e, 2);
    TrailingStep(e, 3);
    TrailingStep(e, 4);
    TrailingStep(e, 5);
    assert e[..6] == e;
  }

  lemma LeadingStep(s: string, k: nat)
    requires k < |s| && IsStripChar(s[k])
    ensures LeadingCount(s[k..]) == 1 + LeadingCount(s[k + 1..])
  {
    assert s[k..][1..] == s[k + 1..];
  }

  lemma TrailingStep(s: string, k: nat)
    requires k < |s| && IsStripChar(s[k])
    ensures TrailingCount(s[..k + 1]) == 1 + TrailingCount(s[..k])
  {
    assert s[..k + 1][..k] == s[..k];
  }

  /** renameLog: the rotated file goes to the archive folder as <stripped name>_<timestamp>.log. */
  function RenameLog(path: string, name: string, defaultName: string): string {
    path + "/archive/" + Strip(name) + "_" + LastSegment(defaultName) + ".log"
  }

  /** The timestamp is whatever follows the last '.' of the default name. */
  lemma RenameLogTimestamp(path: string, name: string, base: string, timestamp: string)
    requires forall i :: 0 <= i < |timestamp| ==> timestamp[i] != '.'
    ensures RenameLog(path, name, base + "." + timestamp) ==
      path + "/archive/" + Strip(name) + "_" + timestamp + ".log"
  {
    var s := base + "." + timestamp;
    var r := LastSegment(s);
    assert s[|s| - |timestamp| - 1] == '.';
    assert r == s[|s| - |timestamp|..];
    assert s[|s| - |timestamp|..] == timestamp;
  }

  /** The rollover of plantai.log in a logs folder. */
  lemma RenameLogExample()
    ensures RenameLog("logs", "plantai.log", "logs/plantai.log" + "." + "2025-12-08") ==
      "logs" + "/archive/" + "plantai" + "_" + "2025-12-08" + ".log"
  {
    StripPlantai();
    RenameLogTimestamp("logs", "plantai.log", "logs/plantai.log", "2025-12-08");
  }
}
