/**
 * The rows of the four database tables (PlantAI/core/models.py).
 *
 * Moisture (volumetric water content, %) and temperature (degrees Celsius)
 * are held in hundredths: the sensor readings are rounded to two decimal
 * places before they are stored, so every stored reading is a whole number
 * of hundredths. Timestamps are whole minutes since an arbitrary epoch: the
 * stored timestamp text has minute resolution.
 */
module Records {

  /** A value in hundredths of a unit (2350 stands for 23.50). */
  type Centi = int

  /** A point in time, in whole minutes. */
  type Minute = int

  /** The minutes-until-dry value of a reading that has not been archived yet. */
  const Unarchived: int := -1

  datatype Measurement = Measurement(
    measureId: int,
    sensorId: int,
    moisture: Centi,
    temperature: Centi,
    minUntilDry: int,
    timestamp: Minute)
  {
    /** A "current" reading still waits for the next watering to be labelled. */
    predicate IsCurrent() { minUntilDry == Unarchived }

    /** Every other reading is archived: its minutes-until-dry is known. */
    predicate IsArchived() { minUntilDry != Unarchived }
  }

  /** The three keyed tables. */
  datatype EntryKind = PlantKind | SpeciesKind | SensorKind

  /** The keyed tables: plants, species and sensors, each with its primary key as first field. */
  datatype Entry =
    | Plant(plantId: int, speciesId: int, sensorId: int, name: string)
    | Species(speciesId: int, name: string, minMoisture: Centi)
    | Sensor(sensorId: int, i2cAddress: int)
  {
    /** The primary key of the row. */
    function Key(): int {
      match this
      case Plant(id, _, _, _) => id
      case Species(id, _, _) => id
      case Sensor(id, _) => id
    }

    /** The table the row belongs to. */
    function Kind(): EntryKind {
      match this
      case Plant(_, _, _, _) => PlantKind
      case Species(_, _, _) => SpeciesKind
      case Sensor(_, _) => SensorKind
    }

    /** The same row under another primary key. */
    function WithKey(k: int): (e: Entry)
      ensures e.Key() == k && e.Kind() == Kind()
    {
      match this
      case Plant(_, sp, se, n) => Plant(k, sp, se, n)
      case Species(_, n, m) => Species(k, n, m)
      case Sensor(_, a) => Sensor(k, a)
    }
  }
}
