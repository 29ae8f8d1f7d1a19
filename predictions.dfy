/**
 * Training data extraction, the training skip rule and the conversion of a
 * predicted duration into days and hours (PlantAI/core/predictions.py).
 *
 * The random-forest pipeline is a value the model cannot look into: it is
 * either not fitted yet or fitted on a list of samples, and fitting is the
 * only thing that replaces it.
 */
module Predictions {
  import opened Wrappers
  import opened Records
  import opened Adapter

  /** The regression pipeline: not fitted yet, or fitted with these features (moisture) and targets (minutes until dry). */
  datatype Model = Unfitted | Fitted(moistures: seq<Centi>, minutes: seq<int>)

  /**
   * The error of predicting with an unfitted pipeline; the wording is that of
   * the scikit-learn version in use and only stands for the error.
   */
  const NotFitted: string := "This Pipeline instance is not fitted yet."

  /** How a call of trainModel ends: skipped, fitted, or raising in the train/test split. */
  datatype Training = Skipped | Trained | SplitRaised

  /**
   * The number of samples train_test_split(train_size=0.8, test_size=0.2)
   * puts in the training part: floor(0.8 * n). The split raises when it is 0.
   */
  function TrainSize(n: nat): (k: nat)
    ensures 5 * k <= 4 * n < 5 * k + 5
  {
    4 * n / 5
  }

  /** Of the non-empty sample sets, only a single sample leaves the training part empty. */
  lemma SplitRaisesOnlyForOne(n: nat)
    requires n > 0
    ensures TrainSize(n) == 0 <==> n == 1
  {
  }

  /** The two lists the training builds, index-aligned with the archived readings. */
  method ExtractTrainingData(archived: seq<Measurement>) returns (listMinUntilDry: seq<int>, listMoisture: seq<Centi>)
    ensures |listMinUntilDry| == |archived| && |listMoisture| == |archived|
    ensures forall i :: 0 <= i < |archived| ==>
      listMinUntilDry[i] == archived[i].minUntilDry && listMoisture[i] == archived[i].moisture
  {
    listMinUntilDry, listMoisture := [], [];
    for i := 0 to |archived|
      invariant |listMinUntilDry| == i && |listMoisture| == i
      invariant forall k :: 0 <= k < i ==>
        listMinUntilDry[k] == archived[k].minUntilDry && listMoisture[k] == archived[k].moisture
    {
      listMinUntilDry := listMinUntilDry + [archived[i].minUntilDry];
      listMoisture := listMoisture + [archived[i].moisture];
    }
  }

  /** The pipeline was fitted on exactly these readings: moisture as the feature, minutes until dry as the target, in order. */
  predicate FittedOn(pipe: Model, archived: seq<Measurement>) {
    pipe.Fitted? &&
    |pipe.moistures| == |archived| && |pipe.minutes| == |archived| &&
    forall i :: 0 <= i < |archived| ==>
      pipe.moistures[i] == archived[i].moisture && pipe.minutes[i] == archived[i].minUntilDry
  }

  /** The process-wide pipeline. */
  class Predictor {
    var pipe: Model

    constructor ()
      ensures pipe == Unfitted
    {
      pipe := Unfitted;
    }

    /**
     * trainModel: fits the pipeline on the archived readings of the sensor,
     * oldest first. With no archived reading the training is skipped; with a
     * single one the train/test split has no training sample and raises. In
     * both cases the pipeline stays as it was.
     */
    method TrainModel(db: MeasurementTable, sensor: int) returns (outcome: Training)
      modifies this
      ensures var archived := Query(db.rows, sensor, -1, Archived);
        outcome == (if |archived| == 0 then Skipped else if TrainSize(|archived|) == 0 then SplitRaised else Trained) &&
        (outcome != Trained ==> pipe == old(pipe)) &&
        (outcome == Trained ==> FittedOn(pipe, archived))
    {
      var allMeasurements := db.GetList(sensor, -1, Archived);
      if |allMeasurements| == 0 {
        outcome := Skipped;
      } else {
        var listMinUntilDry, listMoisture := ExtractTrainingData(allMeasurements);
        if TrainSize(|allMeasurements|) == 0 {
          outcome := SplitRaised;
        } else {
          pipe := Fitted(listMoisture, listMinUntilDry);
          outcome := Trained;
        }
      }
    }
  }

  /** Training sees exactly the archived readings of the sensor, one sample per archived reading. */
  lemma TrainingSamplesAreArchived(rows: seq<Measurement>, sensor: int)
    ensures var archived := Query(rows, sensor, -1, Archived);
      |archived| == |Matching(rows, sensor, Archived)| &&
      (forall i :: 0 <= i < |archived| ==>
        archived[i] in rows && archived[i].sensorId == sensor && archived[i].minUntilDry != Unarchived) &&
      forall m :: m in rows && Selected(m, sensor, Archived) ==> m in archived
  {
    var archived := Query(rows, sensor, -1, Archived);
    QuerySelects(rows, sensor, -1, Archived);
    QueryCount(rows, sensor, -1, Archived);
    forall m | m in rows && Selected(m, sensor, Archived) ensures m in archived {
      MatchingContents(rows, sensor, Archived);
      assert m in multiset(Matching(rows, sensor, Archived));
    }
    forall i | 0 <= i < |archived|
      ensures archived[i] in rows && archived[i].sensorId == sensor && archived[i].minUntilDry != Unarchived
    {
      assert archived[i] in archived;
    }
  }

  // ---------------------------------------------------------------------------
  // From a predicted duration to days and hours

  const SecondsPerDay: int := 86400
  const SecondsPerHour: int := 3600

  /** Python's round(seconds / 3600): the nearest whole number of hours, ties to the even one. */
  function RoundToHours(seconds: nat): (hours: nat)
    ensures 2 * (hours * SecondsPerHour - seconds) <= SecondsPerHour
    ensures 2 * (seconds - hours * SecondsPerHour) <= SecondsPerHour
    ensures (2 * (hours * SecondsPerHour - seconds) == SecondsPerHour ||
             2 * (seconds - hours * SecondsPerHour) == SecondsPerHour) ==> hours % 2 == 0
  {
    var q, rem := seconds / SecondsPerHour, seconds % SecondsPerHour;
    if 2 * rem > SecondsPerHour || (2 * rem == SecondsPerHour && q % 2 == 1) then q + 1 else q
  }

  /**
   * A duration of `total` seconds as the days of the normalised timedelta
   * and its remaining seconds rounded to whole hours.
   */
  function DaysHours(total: int): (r: (int, nat))
    ensures var (days, hours) := r; var seconds := total - days * SecondsPerDay;
      0 <= seconds < SecondsPerDay &&
      2 * (hours * SecondsPerHour - seconds) <= SecondsPerHour &&
      2 * (seconds - hours * SecondsPerHour) <= SecondsPerHour &&
      hours <= 24
  {
    var days := total / SecondsPerDay;
    var hours := RoundToHours(total % SecondsPerDay);
    (days, hours)
  }

  /** Twenty-four hours come out exactly when the rest of the day is at least 23.5 hours; they are not carried into the days. */
  lemma TwentyFourHours(total: int)
    ensures var (days, hours) := DaysHours(total);
      hours == 24 <==> total - days * SecondsPerDay >= 84600
  {
    var (days, hours) := DaysHours(total);
    var seconds := total - days * SecondsPerDay;
    assert seconds == total % SecondsPerDay;
    if seconds >= 84600 {
      assert hours >= 23;
      if hours == 23 {
        assert false;
      }
    }
  }

  /** A negative duration gives negative days and still a non-negative number of hours. */
  lemma NegativeDuration(total: int)
    requires total < 0
    ensures DaysHours(total).0 < 0
  {
  }

  /** The days are the whole days below the duration: days = floor(total / 86400). */
  lemma DaysAreFloor(total: int, d: int)
    requires d * SecondsPerDay <= total < (d + 1) * SecondsPerDay
    ensures DaysHours(total).0 == d
  {
  }

  /** predictTimeUntilDry: the regressor's prediction for the current moisture, as days and hours; an unfitted pipeline raises. */
  function PredictTimeUntilDry(pipe: Model, predictedSeconds: int): (r: Result<(int, nat), string>)
    ensures r.Failure? <==> pipe.Unfitted?
    ensures r.Success? ==> r.value == DaysHours(predictedSeconds)
  {
    if pipe.Unfitted? then Failure(NotFitted) else Success(DaysHours(predictedSeconds))
  }
}
