/**
 * The CSV export of the console (PlantAI/database/streams.py): the moisture
 * is written as a whole number, truncated toward zero, so the round trip
 * through a file loses its decimals.
 */
module DatabaseStreams {
  import opened Wrappers
  import opened Records
  import opened Numerals
  import opened CsvRows

  /** One data row: minutes until dry, int() of the moisture, the temperature and the timestamp, each as str() writes it. */
  function ExportRow(m: Measurement): (row: Row)
    ensures |row| == 4
  {
    [IntText(m.minUntilDry), IntText(TruncateHundredths(m.moisture)), CentiText(m.temperature), IntText(m.timestamp)]
  }

  /** The rows exportAsCSV writes: the header, then one row per measurement in the given order. */
  function ExportTable(ms: seq<Measurement>): (table: seq<Row>)
    ensures |table| == |ms| + 1 && table[0] == Header
    ensures forall i :: 0 <= i < |ms| ==> table[i + 1] == ExportRow(ms[i])
  {
    [Header] + seq(|ms|, i requires 0 <= i < |ms| => ExportRow(ms[i]))
  }

  /** exportAsCSV as the loop that writes the header and then one row per measurement. */
  method ExportAsCsv(allMeasurements: seq<Measurement>) returns (table: seq<Row>)
    ensures table == ExportTable(allMeasurements)
  {
    table := [Header];
    for i := 0 to |allMeasurements|
      invariant |table| == i + 1 && table[0] == Header
      invariant forall k :: 0 <= k < i ==> table[k + 1] == ExportRow(allMeasurements[k])
    {
      table := table + [ExportRow(allMeasurements[i])];
    }
  }

  /** What the measurement looks like after a trip through the file: moisture cut to its whole part. */
  function Truncated(m: Measurement, sensorId: int): (r: Measurement)
    ensures r.measureId == 0 && r.sensorId == sensorId
    ensures r.minUntilDry == m.minUntilDry && r.temperature == m.temperature && r.timestamp == m.timestamp
    ensures r.moisture % 100 == 0 && (m.moisture >= 0 ==> 0 <= m.moisture - r.moisture < 100)
    ensures m.moisture < 0 ==> 0 <= r.moisture - m.moisture < 100
  {
    m.(measureId := 0, sensorId := sensorId, moisture := TruncateHundredths(m.moisture) * 100)
  }

  /**
   * Importing an export gives one measurement per exported one, in order,
   * under the importing sensor, with minutes until dry, temperature and
   * timestamp as they were and the moisture truncated.
   */
  lemma ExportImportRoundTrip(ms: seq<Measurement>, sensorId: int)
    ensures var imported := ImportTable(ExportTable(ms), sensorId);
      imported.Success? && |imported.value| == |ms| &&
      forall i :: 0 <= i < |ms| ==> Decode(imported.value[i]) == Some(Truncated(ms[i], sensorId))
  {
    ImportOfExport(ms, sensorId);
    var imported := ImportTable(ExportTable(ms), sensorId);
    forall i | 0 <= i < |ms| ensures Decode(imported.value[i]) == Some(Truncated(ms[i], sensorId)) {
      RowRoundTrip(ms[i], sensorId);
    }
  }

  /** The import reads back every exported row. */
  lemma ImportOfExport(ms: seq<Measurement>, sensorId: int)
    ensures var imported := ImportTable(ExportTable(ms), sensorId);
      imported.Success? && |imported.value| == |ms| &&
      forall i :: 0 <= i < |ms| ==> imported.value[i] == ImportRow(ExportRow(ms[i]), sensorId)
  {
    var table := ExportTable(ms);
    var rows := table[1..];
    forall i | 0 <= i < |rows| ensures |rows[i]| >= 4 {
      assert rows[i] == table[i + 1];
    }
    var imported := ImportRows(rows, sensorId);
    forall i | 0 <= i < |ms| ensures imported.value[i] == ImportRow(ExportRow(ms[i]), sensorId) {
      assert rows[i] == table[i + 1];
    }
  }

  /** One row: written, read back and stored. */
  lemma RowRoundTrip(m: Measurement, sensorId: int)
    ensures Decode(ImportRow(ExportRow(m), sensorId)) == Some(Truncated(m, sensorId))
  {
    IntTextRoundTrip(m.minUntilDry);
    IntTextAsCenti(TruncateHundredths(m.moisture));
    CentiTextRoundTrip(m.temperature);
    IntTextRoundTrip(m.timestamp);
  }

  /** A measurement with a whole moisture value survives the round trip unchanged, apart from id and sensor. */
  lemma WholeMoistureSurvives(m: Measurement, sensorId: int)
    requires m.moisture % 100 == 0
    ensures Truncated(m, sensorId) == m.(measureId := 0, sensorId := sensorId)
  {
  }

  /** The decimals of a moisture value are lost: 23.45 comes back as 23. */
  lemma MoistureDecimalsLost(sensorId: int)
    ensures var m := Measurement(7, 1, 2345, 2100, 90, 1000);
      ExportRow(m)[1] == "23" && Truncated(m, sensorId).moisture == 2300
  {
    assert NatText(23) == "23";
  }
}
