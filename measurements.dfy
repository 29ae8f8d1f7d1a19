/**
 * The measurement loop (PlantAI/core/measurements.py): the watering check,
 * the labelling of the current readings with their minutes until dry, and
 * one pass of the interval loop that either stores a new reading or, after
 * a watering, labels the readings and retrains the pipeline.
 *
 * The sensor hardware, the clock and the configuration are parameters: the
 * readings of one pass, the current time and the watering threshold are
 * handed in.
 */
module Measurements {
  import opened Wrappers
  import opened Records
  import opened Adapter
  import opened Predictions

  /** watered: the moisture rose by more than the threshold between the previous and the latest reading. */
  function Watered(previous: Centi, latest: Centi, threshold: Centi): (w: bool)
    ensures w && threshold >= 0 ==> latest > previous
  {
    latest - previous > threshold
  }

  /** A rise of exactly the threshold is not a watering; one hundredth more is. */
  lemma WateredBoundary(previous: Centi, threshold: Centi)
    requires threshold >= 0
    ensures !Watered(previous, previous + threshold, threshold)
    ensures Watered(previous, previous + threshold + 1, threshold)
    ensures !Watered(previous, previous, threshold)
  {
  }

  /** A wetter latest reading, or a lower threshold, cannot turn a watering into none. */
  lemma WateredMonotone(previous: Centi, latest: Centi, latest': Centi, threshold: Centi, threshold': Centi)
    requires Watered(previous, latest, threshold)
    requires latest <= latest' && threshold' <= threshold
    ensures Watered(previous, latest', threshold')
  {
  }

  // ---------------------------------------------------------------------------
  // Minutes until dry

  /** The reading labelled with the minutes from its timestamp to the reference time. */
  function Label(m: Measurement, reference: Minute): (r: Measurement)
    ensures r.timestamp + r.minUntilDry == reference
    ensures r.measureId == m.measureId && r.sensorId == m.sensorId && r.moisture == m.moisture
    ensures r.temperature == m.temperature && r.timestamp == m.timestamp
  {
    m.(minUntilDry := reference - m.timestamp)
  }

  /** The table after every current reading of the sensor has been labelled against the reference time. */
  function Labelled(rows: seq<Measurement>, sensor: int, reference: Minute): (r: seq<Measurement>)
    ensures |r| == |rows|
  {
    seq(|rows|, i requires 0 <= i < |rows| =>
      if Selected(rows[i], sensor, Current) then Label(rows[i], reference) else rows[i])
  }

  /**
   * Labelling changes only the minutes until dry of the sensor's current
   * readings: ids, sensors, values and timestamps stay, archived readings
   * and other sensors' readings stay as they were.
   */
  lemma LabelledKeepsRows(rows: seq<Measurement>, sensor: int, reference: Minute)
    ensures var r := Labelled(rows, sensor, reference);
      forall i :: 0 <= i < |rows| ==>
        r[i].measureId == rows[i].measureId && r[i].sensorId == rows[i].sensorId &&
        r[i].moisture == rows[i].moisture && r[i].temperature == rows[i].temperature &&
        r[i].timestamp == rows[i].timestamp &&
        (Selected(rows[i], sensor, Current) ==> r[i].timestamp + r[i].minUntilDry == reference) &&
        (!Selected(rows[i], sensor, Current) ==> r[i] == rows[i])
  {
  }

  /** The ids stay unique, so the table stays valid. */
  lemma LabelledKeepsIds(rows: seq<Measurement>, sensor: int, reference: Minute, bound: int)
    requires UniqueIds(rows) && forall i :: 0 <= i < |rows| ==> rows[i].measureId < bound
    ensures var r := Labelled(rows, sensor, reference);
      UniqueIds(r) && forall i :: 0 <= i < |r| ==> r[i].measureId < bound
  {
    var r := Labelled(rows, sensor, reference);
    assert forall i :: 0 <= i < |rows| ==> r[i].measureId == rows[i].measureId;
  }

  /** Older readings get more minutes until dry than newer ones. */
  lemma LabelledOlderDriesLater(rows: seq<Measurement>, sensor: int, reference: Minute, i: nat, j: nat)
    requires i < |rows| && j < |rows|
    requires Selected(rows[i], sensor, Current) && Selected(rows[j], sensor, Current)
    requires rows[i].timestamp <= rows[j].timestamp
    ensures var r := Labelled(rows, sensor, reference);
      r[i].minUntilDry >= r[j].minUntilDry &&
      r[i].minUntilDry - r[j].minUntilDry == rows[j].timestamp - rows[i].timestamp
  {
  }

  /**
   * Labelled against the most recent current reading, every current reading
   * of the sensor gets a non-negative number of minutes, the most recent one
   * gets zero, none of them is current any more, and the archive of the
   * sensor is not empty.
   */
  lemma LabelledAtMostRecent(rows: seq<Measurement>, sensor: int)
    requires MostRecentCurrent(rows, sensor).Some?
    ensures var recent := MostRecentCurrent(rows, sensor).value;
      var r := Labelled(rows, sensor, recent.timestamp);
      (forall i :: 0 <= i < |rows| && Selected(rows[i], sensor, Current) ==> r[i].minUntilDry >= 0) &&
      (forall i :: 0 <= i < |rows| && rows[i] == recent ==> r[i].minUntilDry == 0) &&
      (forall m :: m in r ==> !Selected(m, sensor, Current)) &&
      |Matching(r, sensor, Archived)| > 0
  {
    var recent := MostRecentCurrent(rows, sensor).value;
    var r := Labelled(rows, sensor, recent.timestamp);
    MostRecentCurrentIsLatest(rows, sensor);
    forall i | 0 <= i < |rows| && Selected(rows[i], sensor, Current)
      ensures r[i].minUntilDry >= 0
    {
      assert rows[i] in rows;
    }
    forall m | m in r ensures !Selected(m, sensor, Current) {
      var i :| 0 <= i < |r| && r[i] == m;
      if Selected(rows[i], sensor, Current) {
        assert rows[i] in rows;
      }
    }
    var k :| 0 <= k < |rows| && rows[k] == recent;
    assert r[k].minUntilDry == 0;
    assert r[k] in r && Selected(r[k], sensor, Archived);
    MatchingContents(r, sensor, Archived);
  }

  /** The table while the labelling is under way: the rows whose ids are done carry their label. */
  ghost function PartlyLabelled(rows: seq<Measurement>, done: set<int>, reference: Minute): (r: seq<Measurement>)
    ensures |r| == |rows|
  {
    seq(|rows|, j requires 0 <= j < |rows| =>
      if rows[j].measureId in done then Label(rows[j], reference) else rows[j])
  }

  /** The ids of the given rows. */
  function Ids(rows: seq<Measurement>): (ids: set<int>)
    decreases |rows|
  {
    if rows == [] then {} else Ids(rows[..|rows| - 1]) + {rows[|rows| - 1].measureId}
  }

  lemma {:induction false} IdsContain(rows: seq<Measurement>)
    ensures forall m :: m in rows ==> m.measureId in Ids(rows)
    decreases |rows|
  {
    if rows != [] {
      var front := rows[..|rows| - 1];
      IdsContain(front);
      assert rows == front + [rows[|rows| - 1]];
    }
  }

  /** Only ids of the sensor's current rows are done. */
  ghost predicate DoneSelected(rows: seq<Measurement>, done: set<int>, sensor: int) {
    forall j :: 0 <= j < |rows| && rows[j].measureId in done ==> Selected(rows[j], sensor, Current)
  }

  /** Updating one more current row of the table with its label: the row is there, and its id is done. */
  lemma LabelStep(rows: seq<Measurement>, done: set<int>, sensor: int, reference: Minute, entry: Measurement)
    requires UniqueIds(rows) && entry in rows && Selected(entry, sensor, Current)
    requires DoneSelected(rows, done, sensor)
    ensures DoneSelected(rows, done + {entry.measureId}, sensor)
    ensures HasId(PartlyLabelled(rows, done, reference), entry.measureId)
    ensures ReplaceRow(PartlyLabelled(rows, done, reference), entry.(minUntilDry := reference - entry.timestamp)) ==
      PartlyLabelled(rows, done + {entry.measureId}, reference)
  {
    var before := PartlyLabelled(rows, done, reference);
    var after := ReplaceRow(before, entry.(minUntilDry := reference - entry.timestamp));
    var j0 :| 0 <= j0 < |rows| && rows[j0] == entry;
    assert before[j0].measureId == entry.measureId;
    forall j | 0 <= j < |rows| && rows[j].measureId == entry.measureId ensures rows[j] == entry {
      assert j == j0;
    }
    assert after == PartlyLabelled(rows, done + {entry.measureId}, reference);
  }

  /** Once the done ids are exactly those of the sensor's current rows, the labelling is complete. */
  lemma LabelComplete(rows: seq<Measurement>, done: set<int>, sensor: int, reference: Minute)
    requires DoneSelected(rows, done, sensor)
    requires forall j :: 0 <= j < |rows| && Selected(rows[j], sensor, Current) ==> rows[j].measureId in done
    ensures PartlyLabelled(rows, done, reference) == Labelled(rows, sensor, reference)
  {
  }

  /** With no limit, the query of the current readings lists every current reading of the sensor. */
  lemma CurrentRowsListed(rows: seq<Measurement>, sensor: int)
    ensures forall j :: 0 <= j < |rows| && Selected(rows[j], sensor, Current) ==> rows[j] in Query(rows, sensor, -1, Current)
  {
    var q := Query(rows, sensor, -1, Current);
    MatchingContents(rows, sensor, Current);
    QueryCount(rows, sensor, -1, Current);
    forall j | 0 <= j < |rows| && Selected(rows[j], sensor, Current) ensures rows[j] in q {
      assert rows[j] in rows;
      assert rows[j] in multiset(q);
    }
  }

  /**
   * setMinutesUntilDry: every current reading of the sensor, as the query
   * returns them, is updated with the minutes from its timestamp to the
   * recent reading's.
   */
  method SetMinutesUntilDry(db: MeasurementTable, recent: Measurement, sensor: int)
    requires db.Valid()
    modifies db
    ensures db.Valid() && db.nextId == old(db.nextId)
    ensures db.rows == Labelled(old(db.rows), sensor, recent.timestamp)
  {
    ghost var orig := db.rows;
    var reference := recent.timestamp;
    var current := db.GetList(sensor, -1, Current);
    assert current[..0] == [];
    assert orig == PartlyLabelled(orig, {}, reference);
    for k := 0 to |current|
      invariant db.Valid() && db.nextId == old(db.nextId)
      invariant db.rows == PartlyLabelled(orig, Ids(current[..k]), reference)
      invariant DoneSelected(orig, Ids(current[..k]), sensor)
    {
      var entry := current[k];
      assert entry in orig && Selected(entry, sensor, Current) by {
        assert entry in current;
        QuerySelects(orig, sensor, -1, Current);
      }
      assert current[..k + 1][..k] == current[..k];
      LabelStep(orig, Ids(current[..k]), sensor, reference, entry);
      var outcome := db.Update(entry.(minUntilDry := reference - entry.timestamp));
      assert outcome == Pass;
    }
    assert current[..|current|] == current;
    assert PartlyLabelled(orig, Ids(current), reference) == Labelled(orig, sensor, reference) by {
      CurrentRowsListed(orig, sensor);
      IdsContain(current);
      LabelComplete(orig, Ids(current), sensor, reference);
    }
  }

  // ---------------------------------------------------------------------------
  // One pass of the interval loop

  /** What a pass of the loop did. */
  datatype Iteration =
    | CheckSkipped      // no current reading: the watering check is skipped and the reading is stored
    | NotWatered        // no watering: the reading is stored
    | WateringDetected  // the current readings are labelled, the pipeline is retrained, nothing is stored
    | TrainingRaised    // the current readings are labelled, the retraining raises: nothing is stored and the loop ends

  /**
   * saveMeasurement, one pass in interval mode: `checkMoisture` is the
   * single-sample reading of the watering check, `moisture` and
   * `temperature` the averaged readings that are stored, `now` the time of
   * the pass and `threshold` the configured watering threshold. The
   * program reads and queries sensor 1 only; `sensor` stands for it. When
   * the retraining raises, nothing in saveMeasurement catches it: the pass
   * ends after the labelling and the measurement loop ends with it.
   */
  method SaveMeasurement(db: MeasurementTable, predictor: Predictor, sensor: int, threshold: Centi,
                         checkMoisture: Centi, moisture: Centi, temperature: Centi, now: Minute)
    returns (iteration: Iteration)
    requires db.Valid()
    modifies db, predictor
    ensures db.Valid()
    ensures var recent := MostRecentCurrent(old(db.rows), sensor);
      iteration == if recent.None? then CheckSkipped
                   else if !Watered(recent.value.moisture, checkMoisture, threshold) then NotWatered
                   else if TrainSize(|Query(db.rows, sensor, -1, Archived)|) == 0 then TrainingRaised
                   else WateringDetected
    ensures iteration.WateringDetected? || iteration.TrainingRaised? ==>
      var recent := MostRecentCurrent(old(db.rows), sensor).value;
      db.rows == Labelled(old(db.rows), sensor, recent.timestamp) &&
      db.nextId == old(db.nextId)
    ensures iteration.WateringDetected? ==> FittedOn(predictor.pipe, Query(db.rows, sensor, -1, Archived))
    ensures iteration.TrainingRaised? ==> predictor.pipe == old(predictor.pipe)
    ensures iteration == CheckSkipped || iteration == NotWatered ==>
      db.rows == old(db.rows) + [Measurement(old(db.nextId), sensor, moisture, temperature, Unarchived, now)] &&
      db.nextId == old(db.nextId) + 1 &&
      predictor.pipe == old(predictor.pipe)
  {
    var recent := db.GetRecent(sensor);
    if recent.None? {
      iteration := CheckSkipped;
    } else if Watered(recent.value.moisture, checkMoisture, threshold) {
      ghost var orig := db.rows;
      SetMinutesUntilDry(db, recent.value, sensor);
      LabelledAtMostRecent(orig, sensor);
      QueryCount(db.rows, sensor, -1, Archived);
      var trained := predictor.TrainModel(db, sensor);
      iteration := if trained == SplitRaised then TrainingRaised else WateringDetected;
    } else {
      iteration := NotWatered;
    }
    if iteration == CheckSkipped || iteration == NotWatered {
      db.Insert(Measurement(0, sensor, moisture, temperature, Unarchived, now));
    }
  }

  /**
   * The first watering after a single stored reading labels that reading
   * and archives it alone, so the retraining that follows has one sample and
   * raises.
   */
  lemma FirstWateringRaises(m: Measurement, sensor: int)
    requires m.sensorId == sensor && m.IsCurrent()
    ensures MostRecentCurrent([m], sensor) == Some(m)
    ensures TrainSize(|Query(Labelled([m], sensor, m.timestamp), sensor, -1, Archived)|) == 0
  {
    assert Matching([m], sensor, Current) == [m];
    var r := Labelled([m], sensor, m.timestamp);
    assert r == [Label(m, m.timestamp)];
    assert Matching(r, sensor, Archived) == r;
    QueryCount(r, sensor, -1, Archived);
  }
}
