/**
 * CSV tables of measurements, at the level of rows of cells.
 *
 * The export writes a header row and then one row per measurement; the
 * import skips the first row and turns every further row into a
 * measurement whose four fields hold the text of the first four cells, as
 * Python's csv reader hands them over. The import is the same in
 * PlantAI/database/streams.py and PlantAI/system/streams.py.
 */
module CsvRows {
  import opened Wrappers
  import opened Records
  import opened Numerals

  /** One line of a CSV file, as its cells. */
  type Row = seq<string>

  /** The header both exports write. */
  const Header: Row := ["Minutes until Dry", "Moisture", "Temperature", "Timestamp"]

  /** The errors the import raises: a file without any row, and a row with fewer than four cells. */
  const NoHeaderRow: string := "StopIteration"
  const ShortRow: string := "IndexError: list index out of range"

  /** A measurement as the import builds it: the sensor id given to the import, the other fields the cell text. */
  datatype RawMeasurement = RawMeasurement(
    measureId: int,
    sensorId: int,
    minUntilDry: string,
    moisture: string,
    temperature: string,
    timestamp: string)

  /** The measurement built from one data row: cells 0 to 3 are minutes until dry, moisture, temperature and timestamp. */
  function ImportRow(row: Row, sensorId: int): (m: RawMeasurement)
    requires |row| >= 4
    ensures m.measureId == 0 && m.sensorId == sensorId
    ensures [m.minUntilDry, m.moisture, m.temperature, m.timestamp] == row[..4]
  {
    RawMeasurement(0, sensorId, row[0], row[1], row[2], row[3])
  }

  /** The data rows as measurements, in order, or the error of the first row with fewer than four cells. */
  function ImportRows(rows: seq<Row>, sensorId: int): (r: Result<seq<RawMeasurement>, string>)
    ensures r.Success? <==> forall i :: 0 <= i < |rows| ==> |rows[i]| >= 4
    ensures r.Failure? ==> r.error == ShortRow
    ensures r.Success? ==>
      |r.value| == |rows| &&
      forall i :: 0 <= i < |rows| ==> r.value[i] == ImportRow(rows[i], sensorId)
    decreases |rows|
  {
    if rows == [] then Success([])
    else if |rows[0]| < 4 then Failure(ShortRow)
    else
      match ImportRows(rows[1..], sensorId)
      case Failure(e) => Failure(e)
      case Success(ms) => Success([ImportRow(rows[0], sensorId)] + ms)
  }

  /** importFromCSV: the first row is skipped, whatever it holds; a file without rows raises. */
  function ImportTable(table: seq<Row>, sensorId: int): Result<seq<RawMeasurement>, string> {
    if table == [] then Failure(NoHeaderRow) else ImportRows(table[1..], sensorId)
  }

  /** importFromCSV as the loop that appends one measurement per data row. */
  method ImportFromCsv(table: seq<Row>, sensorId: int) returns (result: Result<seq<RawMeasurement>, string>)
    ensures result == ImportTable(table, sensorId)
  {
    if |table| == 0 {
      return Failure(NoHeaderRow);
    }
    var allMeasurements: seq<RawMeasurement> := [];
    for i := 1 to |table|
      invariant |allMeasurements| == i - 1
      invariant forall k :: 1 <= k < i ==> |table[k]| >= 4
      invariant forall k :: 0 <= k < i - 1 ==> allMeasurements[k] == ImportRow(table[k + 1], sensorId)
    {
      if |table[i]| < 4 {
        assert |table[1..][i - 1]| < 4;
        return Failure(ShortRow);
      }
      allMeasurements := allMeasurements + [ImportRow(table[i], sensorId)];
    }
    var rows := table[1..];
    assert forall k :: 0 <= k < |rows| ==> |rows[k]| >= 4 && rows[k] == table[k + 1];
    assert ImportRows(rows, sensorId).value == allMeasurements;
    result := Success(allMeasurements);
  }

  /** Import is the same for the header whatever the first row holds. */
  lemma ImportIgnoresFirstRow(first: Row, first': Row, rows: seq<Row>, sensorId: int)
    ensures ImportTable([first] + rows, sensorId) == ImportTable([first'] + rows, sensorId)
  {
    assert ([first] + rows)[1..] == rows;
    assert ([first'] + rows)[1..] == rows;
  }

  /**
   * The numbers held by an imported measurement once it is stored: the
   * minutes until dry and the timestamp as whole numbers, moisture and
   * temperature as values with at most two decimals. None when a cell does
   * not hold such a number.
   */
  function Decode(m: RawMeasurement): (r: Option<Measurement>)
    ensures r.Some? ==> r.value.measureId == m.measureId && r.value.sensorId == m.sensorId
  {
    match (ParseInt(m.minUntilDry), ParseCenti(m.moisture), ParseCenti(m.temperature), ParseInt(m.timestamp))
    case (Some(d), Some(h), Some(t), Some(s)) => Some(Measurement(m.measureId, m.sensorId, h, t, d, s))
    case _ => None
  }
}
