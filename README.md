# PlantAI in Dafny

PlantAI is a plant-watering assistant running on a Jetson Nano. A soil
sensor is read at a fixed interval and each reading is stored in an SQLite
table of measurements. When the moisture jumps by more than a threshold,
the plant has been watered. At that point every stored reading that still
waits for its label ("current", minutes until dry = -1) is labelled with
the minutes from its timestamp to the last reading before the watering. It
then becomes "archived", and a regression pipeline is retrained on the
archived readings to predict, for a given moisture, the days and hours left
until the plant is dry. Around this pipeline sit:

- table adapters for plants, species, sensors and measurements;
- a CSV export and import of measurements, in two variants;
- the naming of rotated log files;
- a console whose main menu picks a command from a line of input;
- a voice loop that collects speech chunks and tells a wakeword utterance from a command utterance.

The model,
module by module:

| module | file | models |
|---|---|---|
| `Wrappers` | wrappers.dfy | `Option`, `Result` and `Outcome` (an operation that passes or raises) |
| `Records` | records.dfy | the measurement record and the plant, species and sensor rows |
| `Numerals` | numerals.dfy | how Python's `str()` writes integers and two-decimal floats, the parsers that read them back, and `int()` of a float |
| `Adapter` | adapter.dfy | the measurement table as a class over a `seq` of rows (`getList`, insert, update, delete by sensor), and the plant, species and sensor tables as one keyed-table class |
| `Measurements` | measurements.dfy | `watered`, `setMinutesUntilDry` (a loop of updates), and one pass of the interval branch of `saveMeasurement` |
| `Predictions` | predictions.dfy | the data extraction and skip rule of `trainModel`, the pipeline as a class field, and the days/hours conversion of `predictTimeUntilDry` |
| `CsvRows` | csv_rows.dfy | the header, and `importFromCSV` as a loop over rows of cells; this import is the same for both CSV variants |
| `DatabaseStreams` | database_streams.dfy | the console's `exportAsCSV`, which writes the moisture as `int()`, and its round trip |
| `SystemStreams` | system_streams.dfy | the other `exportAsCSV` and its lossless round trip, plus `renameLog` with its character-set `strip` |
| `Substrings` | substrings.dfy | Python's `w in s` on strings |
| `Console` | console.dfy | the if/elif chain of `mainMenu` as a classifier from a line to a command |
| `Audio` | audio.dfy | one turn of the `vad` loop as a step function, the loop as a method, and runs over many frames |

Representation choices:

- Moisture and temperature are integers in hundredths, because the source rounds both to two decimals.
- Timestamps are whole minutes, because the timestamp format has minute resolution.
- The prediction works on whole seconds.
- The program reads and queries sensor 1 only. The model makes that sensor a parameter.

## Model

| member | source | states |
|---|---|---|
| Measurements.Watered | PlantAI/core/measurements.py:55-61 | a watering, with a non-negative threshold, means the moisture went up |
| Measurements.WateredBoundary | PlantAI/core/measurements.py:58-61 | a rise of exactly the threshold, or no rise, is not a watering; one hundredth more is |
| Measurements.WateredMonotone | PlantAI/core/measurements.py:58 | a wetter latest reading or a lower threshold keeps a watering a watering |
| Measurements.Label | PlantAI/core/measurements.py:112-116 | the label is the reference time minus the reading's time, so timestamp plus label is the reference; no other field changes |
| Measurements.Labelled | PlantAI/core/measurements.py:110-119 | labelling keeps the table's length |
| Measurements.LabelledKeepsRows | PlantAI/core/measurements.py:110-119 | only the sensor's current rows change; each gets its signed difference to the reference, unclamped, and other rows stay as they were |
| Measurements.LabelledKeepsIds | PlantAI/core/measurements.py:119 | labelling keeps the ids unique and below the next id |
| Measurements.LabelledOlderDriesLater | PlantAI/core/measurements.py:115-116 | an earlier current reading never gets a smaller label than a later one |
| Measurements.LabelledAtMostRecent | PlantAI/core/measurements.py:77-84 | labelled against the most recent current reading, that reading gets 0 and every label is non-negative; afterwards the sensor has no current reading and at least one archived one |
| Measurements.IdsContain | PlantAI/core/measurements.py:110 | every listed row's id is among the listed ids |
| Measurements.LabelStep | PlantAI/core/measurements.py:119 | one update in the loop labels one more current row, whose id is in the table |
| Measurements.LabelComplete | PlantAI/core/measurements.py:110-119 | once all current rows are done, the table is the fully labelled one |
| Measurements.CurrentRowsListed | PlantAI/core/measurements.py:110 | the unlimited query of current readings lists every current reading of the sensor |
| Measurements.SetMinutesUntilDry | PlantAI/core/measurements.py:105-122 | the loop of updates leaves the table labelled against the recent reading's time, valid, with no row added |
| Measurements.SaveMeasurement | PlantAI/core/measurements.py:75-97 | with no recent current reading, the check is skipped and exactly one current reading is inserted; on a watering, the current readings are labelled, nothing is inserted, and the pipeline is fitted on the archived readings unless the retraining raises (a single archived reading), which leaves the pipeline as it was and ends the loop; without a watering one current reading is inserted and the pipeline is unchanged |
| Measurements.FirstWateringRaises | PlantAI/core/measurements.py:81-88 | the first watering after a single stored reading archives that one reading, so the retraining raises |
| Predictions.ExtractTrainingData | PlantAI/core/predictions.py:30-32 | the target and feature lists are index-aligned with the archived readings, in their order, and of their length |
| Predictions.FittedOn | PlantAI/core/predictions.py:53 | definition: the pipeline was fitted on these readings' moistures and minutes until dry, in order |
| Predictions.TrainSize | PlantAI/core/predictions.py:50 | the training part of the 80/20 split has floor(0.8 n) samples |
| Predictions.SplitRaisesOnlyForOne | PlantAI/core/predictions.py:50 | the training part is empty, and the split raises, exactly for a single sample |
| Predictions.Predictor.TrainModel | PlantAI/core/predictions.py:23-59 | with no archived reading the training is skipped; with one, the split raises; otherwise the pipeline is fitted on all of them; unless fitted, the pipeline stays as it was |
| Predictions.TrainingSamplesAreArchived | PlantAI/core/predictions.py:26 | each training sample is an archived reading of the sensor taken from the table, every such reading is one, and there are as many samples as such readings |
| Predictions.RoundToHours | PlantAI/core/predictions.py:79 | round(seconds / 3600): within half an hour of the seconds, and even on a tie |
| Predictions.DaysHours | PlantAI/core/predictions.py:77-79 | days * 86400 plus the remaining seconds is the duration, with 0 <= seconds < 86400; hours are the seconds rounded, at most 24 |
| Predictions.TwentyFourHours | PlantAI/core/predictions.py:79 | 24 hours come out exactly when the remaining seconds are at least 84600, and they are not carried into the days |
| Predictions.NegativeDuration | PlantAI/core/predictions.py:77-79 | a negative duration gives negative days and non-negative hours |
| Predictions.DaysAreFloor | PlantAI/core/predictions.py:78 | the days are the floor of the duration in days |
| Predictions.PredictTimeUntilDry | PlantAI/core/predictions.py:70-84 | an unfitted pipeline fails; a fitted one gives the days and hours of the predicted duration |
| Adapter.Matching | PlantAI/database/adapter.py:121 | only rows of the asked sensor and mode are selected |
| Adapter.MatchingContents | PlantAI/database/adapter.py:121 | every row of the asked sensor and mode is selected, and only rows of the table |
| Adapter.InsertByTime | PlantAI/database/adapter.py:124 | insertion keeps the order by time and adds exactly one element |
| Adapter.SortByTime | PlantAI/database/adapter.py:124 | the result is ordered by time and is a permutation of the input |
| Adapter.ScanSorted | PlantAI/database/adapter.py:129-131 | what the scan has collected is ordered by time |
| Adapter.ScanSortedPrefix | PlantAI/database/adapter.py:129-131 | after n rows the scan holds the sorted selection of the first n rows |
| Adapter.ScanSortedComplete | PlantAI/database/adapter.py:129-131 | after the whole table, the scan holds the sorted selection |
| Adapter.TakeLast | PlantAI/database/adapter.py:123 | definition: the last `limit` elements, all of them for a negative limit; its properties are in QueryCount and QueryMostRecent |
| Adapter.Query | PlantAI/database/adapter.py:117-124 | definition of getList's statement: the selected rows sorted by time, the last `limit` of them; its properties are QuerySelects, QueryCount, QuerySorted and QueryMostRecent |
| Adapter.QuerySelects | PlantAI/database/adapter.py:121 | getList returns only rows of the asked sensor and mode, each a row of the table |
| Adapter.QueryCount | PlantAI/database/adapter.py:123 | at most `limit` rows come back (all selected rows when there are fewer); limit -1 returns every selected row |
| Adapter.QuerySorted | PlantAI/database/adapter.py:124 | the result is ordered oldest first |
| Adapter.QueryMostRecent | PlantAI/database/adapter.py:122-123 | every selected row left out is no later than every row returned |
| Adapter.MostRecentCurrent | PlantAI/core/measurements.py:77 | definition of the recent lookup: the query of current readings with limit 1; its property is MostRecentCurrentIsLatest |
| Adapter.MostRecentCurrentIsLatest | PlantAI/core/measurements.py:77 | a recent reading exists iff the sensor has a current row, and it is the latest of them |
| Adapter.ReplaceRow | PlantAI/database/adapter.py:139-142 | every position keeps its id; a row that changed now holds all of data; without a row of that id nothing changes, with one data is in the table; unique ids stay unique |
| Adapter.WithoutSensor | PlantAI/database/adapter.py:144-147 | exactly the rows of other sensors remain |
| Adapter.WithoutSensorKeepsAll | PlantAI/database/adapter.py:144-147 | with no row of the sensor, the table stays as it was |
| Adapter.WithoutSensorShrinks | PlantAI/database/connector.py:45-48 | the delete affects a row iff the sensor has one |
| Adapter.WithoutSensorCount | PlantAI/database/adapter.py:144-147 | a row of the sensor at index i makes the table shorter |
| Adapter.WithoutSensorUnique | PlantAI/database/adapter.py:144-147 | deleting keeps ids unique |
| Adapter.MeasurementTable.constructor | PlantAI/database/adapter.py:113-115 | the table starts empty and valid |
| Adapter.MeasurementTable.GetList | PlantAI/database/adapter.py:117-132 | the loop returns the query result: the latest `limit` selected rows, oldest first |
| Adapter.MeasurementTable.GetRecent | PlantAI/core/measurements.py:77 | the recent lookup yields the most recent current reading of the sensor, if any |
| Adapter.MeasurementTable.Insert | PlantAI/database/adapter.py:134-137 | exactly one row is appended, carrying the five given fields and a fresh id |
| Adapter.MeasurementTable.Update | PlantAI/database/adapter.py:139-142 | the row with data's id is replaced and all others kept; with no such row it fails with "No matching entry found." |
| Adapter.MeasurementTable.Delete | PlantAI/database/adapter.py:144-147 | every row of the given sensor, not the row with that id, is removed; with none it fails with "No matching entry found." |
| Adapter.ReplaceEntry | PlantAI/database/adapter.py:47-50 | every position keeps its key; a row that changed now holds data; without a row of that key nothing changes, with one data is in the table; unique keys stay unique |
| Adapter.WithoutKey | PlantAI/database/adapter.py:52-55 | definition of the keyed delete; its properties are WithoutKeyContents, WithoutKeyRemovesOne and WithoutKeyKeepsAll |
| Adapter.WithoutKeyContents | PlantAI/database/adapter.py:52-55 | exactly the rows with other keys remain |
| Adapter.WithoutKeyRemovesOne | PlantAI/database/adapter.py:52-55 | with unique keys, the delete removes exactly the one row with that key and keeps the others in order |
| Adapter.RemovalKeepsUnique | PlantAI/database/adapter.py:52-55 | removing one row keeps keys unique and below the next key |
| Adapter.WithoutKeyKeepsAll | PlantAI/database/adapter.py:52-55 | with no row of that key the table stays as it was |
| Adapter.KeyedTable.constructor | PlantAI/database/adapter.py:29-31 | the table starts empty and valid, holding rows of one kind (plants, species or sensors) |
| Adapter.KeyedTable.GetList | PlantAI/database/adapter.py:33-40 | every row, in table order |
| Adapter.KeyedTable.Insert | PlantAI/database/adapter.py:42-45 | exactly one row of the table's kind with the given fields under a fresh key is appended |
| Adapter.KeyedTable.Update | PlantAI/database/adapter.py:47-50 | the row with data's key is replaced and all others kept; with no such row it fails with "No matching entry found." |
| Adapter.KeyedTable.Delete | PlantAI/database/adapter.py:52-55 | only the row with that key is removed, the rest keep their order; with no such row it fails and nothing changes |
| Records.Entry.WithKey | PlantAI/database/adapter.py:39 | the row under another key has that key |
| Numerals.NatText | PlantAI/database/streams.py:18 | str() of a natural number is a non-empty run of digits |
| Numerals.IntText | PlantAI/database/streams.py:18 | str() of an int is non-empty and starts with '-' iff the number is negative |
| Numerals.ParseNat | PlantAI/database/streams.py:29 | a number is read iff the cell is a non-empty run of digits |
| Numerals.NatTextRoundTrip | PlantAI/database/streams.py:18 | the digits written for n have the value n |
| Numerals.ParseInt | PlantAI/database/streams.py:29 | definition: an optional minus sign and digits, read as an int; its property is IntTextRoundTrip |
| Numerals.IntTextRoundTrip | PlantAI/database/streams.py:18 | an int written by str() reads back as itself |
| Numerals.FracText | PlantAI/system/streams.py:29 | the decimals of a two-decimal float are one or two digits |
| Numerals.FracTextRoundTrip | PlantAI/system/streams.py:29 | the decimals read back as the same hundredths |
| Numerals.ParseDecimal | PlantAI/system/streams.py:53 | digits, a point and a fraction read as the whole part in hundreds plus the fraction |
| Numerals.ParseWhole | PlantAI/database/streams.py:29 | a cell of digits reads as that many hundreds |
| Numerals.DecimalRoundTrip | PlantAI/system/streams.py:29 | a written whole part and fraction read back as the same hundredths |
| Numerals.UnsignedCentiRoundTrip | PlantAI/system/streams.py:29 | a non-negative value written with its decimals reads back as itself |
| Numerals.CentiText | PlantAI/system/streams.py:29 | definition of str() of a two-decimal float; its property is CentiTextRoundTrip |
| Numerals.ParseCenti | PlantAI/system/streams.py:53 | definition: a signed decimal with at most two decimals, in hundredths; its properties are ParseCentiPlain, ParseCentiMinus and CentiTextRoundTrip |
| Numerals.CentiTextRoundTrip | PlantAI/system/streams.py:29 | str() of a two-decimal float reads back as the same value, negative values included |
| Numerals.IntTextAsCenti | PlantAI/database/streams.py:18 | a whole number written by str() reads back as that many hundreds |
| Numerals.TruncateHundredths | PlantAI/database/streams.py:18 | int() truncates toward zero: the result is the whole part, below the value for positive and above it for negative values |
| CsvRows.ImportRow | PlantAI/database/streams.py:27-29 | cells 0 to 3 become minutes until dry, moisture, temperature and timestamp; the sensor is the import's parameter |
| CsvRows.ImportTable | PlantAI/database/streams.py:20-30 | definition of importFromCSV: StopIteration without a row, else the mapping of the rows after the first; its properties are ImportIgnoresFirstRow and ImportOfExport |
| CsvRows.ImportRows | PlantAI/database/streams.py:26-30 | one measurement per data row, in order, iff every row has four cells; otherwise an IndexError |
| CsvRows.ImportFromCsv | PlantAI/database/streams.py:20-30 | the loop gives the row mapping, or StopIteration for a file with no row |
| CsvRows.ImportIgnoresFirstRow | PlantAI/database/streams.py:23 | exactly the first row is skipped, whatever it holds |
| CsvRows.Decode | PlantAI/database/streams.py:29 | storing an imported row keeps its id and sensor |
| DatabaseStreams.ExportRow | PlantAI/database/streams.py:18 | a data row has four cells |
| DatabaseStreams.ExportTable | PlantAI/database/streams.py:16-18 | the header first, then one row per measurement in input order |
| DatabaseStreams.ExportAsCsv | PlantAI/database/streams.py:11-18 | the writing loop produces that table |
| DatabaseStreams.Truncated | PlantAI/database/streams.py:18 | after the round trip, minutes until dry, temperature and timestamp are unchanged and the moisture is its whole part, truncated toward zero |
| DatabaseStreams.ImportOfExport | PlantAI/database/streams.py:23-29 | the import reads every exported row back |
| DatabaseStreams.RowRoundTrip | PlantAI/database/streams.py:18-29 | one written and read row stores the truncated measurement |
| DatabaseStreams.ExportImportRoundTrip | PlantAI/database/streams.py:11-30 | importing an export keeps the count and order, the minutes, temperature and timestamp, and truncates the moisture |
| DatabaseStreams.WholeMoistureSurvives | PlantAI/database/streams.py:18 | a whole moisture value survives unchanged |
| DatabaseStreams.MoistureDecimalsLost | PlantAI/database/streams.py:18 | 23.45 is written as "23" and comes back as 23 |
| SystemStreams.ExportRow | PlantAI/system/streams.py:29 | a data row has four cells |
| SystemStreams.ExportTable | PlantAI/system/streams.py:27-29 | the header first, then one row per measurement in input order |
| SystemStreams.ExportAsCsv | PlantAI/system/streams.py:14-31 | the writing loop produces that table |
| SystemStreams.ImportOfExport | PlantAI/system/streams.py:47-53 | the import reads every exported row back |
| SystemStreams.RowRoundTrip | PlantAI/system/streams.py:29-53 | a written and read row stores the same measurement under the importing sensor |
| SystemStreams.ExportImportRoundTrip | PlantAI/system/streams.py:14-54 | importing an export keeps the count, the order and all four exported fields |
| SystemStreams.LastSegment | PlantAI/system/streams.py:89 | split(".")[-1] is the dot-free end of the name that follows its last '.', or the whole name |
| SystemStreams.LeadingRun | PlantAI/system/streams.py:92 | the leading run counted is all set characters and stops at the first other one |
| SystemStreams.TrailingRun | PlantAI/system/streams.py:92 | the trailing run counted is all set characters and stops at the last other one |
| SystemStreams.StripIsTrim | PlantAI/system/streams.py:92 | strip(".log") cuts only characters of '.', 'l', 'o', 'g' from either end, and the result neither starts nor ends with one |
| SystemStreams.StripClean | PlantAI/system/streams.py:92 | a name without set characters at its ends is left alone |
| SystemStreams.StripIdempotent | PlantAI/system/streams.py:92 | stripping again changes nothing |
| SystemStreams.StripPlantai | PlantAI/system/streams.py:92 | "plantai.log" becomes "plantai" |
| SystemStreams.StripAllSetChars | PlantAI/system/streams.py:92 | "log.log" becomes "" |
| SystemStreams.StripLogger | PlantAI/system/streams.py:92 | "logger.log" becomes "er": strip removes characters, not a suffix |
| SystemStreams.Strip | PlantAI/system/streams.py:92 | definition of strip(".log"); its properties are StripIsTrim, StripClean and StripIdempotent |
| SystemStreams.RenameLog | PlantAI/system/streams.py:87-93 | definition of renameLog; its properties are RenameLogTimestamp and RenameLogExample |
| SystemStreams.RenameLogTimestamp | PlantAI/system/streams.py:87-93 | the new name is the path, "/archive/", the stripped name, "_", the text after the default name's last '.', and ".log" |
| SystemStreams.RenameLogExample | PlantAI/system/streams.py:84-93 | plantai.log.2025-12-08 becomes archive/plantai_2025-12-08.log, as the comment says |
| Substrings.Contains | PlantAI/interface/console.py:25 | definition of `w in s`; its properties are ContainsAt, ContainsWitness and MissingChar |
| Substrings.ContainsAt | PlantAI/interface/console.py:25 | an occurrence at some position is containment |
| Substrings.ContainsWitness | PlantAI/interface/console.py:25 | containment has a position where the word occurs |
| Substrings.MissingChar | PlantAI/interface/console.py:25 | a word with a character absent from the line does not occur in it |
| Console.Classify | PlantAI/interface/console.py:25-72 | definition of the if/elif chain; its properties are AddComesFirst, DeleteComesSecond, ShowComesThird, CsvComesFourth and ExactCommands |
| Console.AddComesFirst | PlantAI/interface/console.py:25-32 | a line containing "add" is an add command or unknown; plant before species before sensor; never measurements |
| Console.DeleteComesSecond | PlantAI/interface/console.py:33-43 | without "add", a line containing "delete" deletes from the first of plant, species, sensor, measure it names, else unknown |
| Console.ShowComesThird | PlantAI/interface/console.py:44-54 | the same for show, after add and delete fail |
| Console.CsvComesFourth | PlantAI/interface/console.py:55-61 | import before export, else unknown, after the first three fail |
| Console.ExactWordsHaveNoKeyword | PlantAI/interface/console.py:62-68 | the exact words contain none of the four substring keywords |
| Console.NoKeyword | PlantAI/interface/console.py:25-55 | a word lacking a character of each keyword contains none of them |
| Console.ExactCommands | PlantAI/interface/console.py:62-69 | predict, weather, help and exit/bye are chosen iff the line is exactly the word |
| Console.ShowAddress | PlantAI/interface/console.py:25-32 | "show address" contains "add" and so is an unknown add command |
| Console.ByeNow | PlantAI/interface/console.py:68-72 | "bye now" is not an exit but unknown |
| Audio.Join | PlantAI/interface/audio.py:115-116 | definition of b''.join; its property is JoinAppend |
| Audio.JoinAppend | PlantAI/interface/audio.py:115-116 | joining one chunk more puts it at the end |
| Audio.Step | PlantAI/interface/audio.py:93-143 | a turn keeps the buffer empty whenever no utterance is in progress |
| Audio.Run | PlantAI/interface/audio.py:78-143 | one event per frame |
| Audio.Vad | PlantAI/interface/audio.py:60-143 | the loop over its variables yields the state and events of the run, and ends with the buffer empty unless speech is in progress |
| Audio.SpeechIsBuffered | PlantAI/interface/audio.py:93-103 | a speech chunk is appended, sets speech detected and the time of last speech, reports voice only when speech starts, and leaves the wakeword alone |
| Audio.PauseEndsUtterance | PlantAI/interface/audio.py:110-120 | a long enough pause ends the utterance, empties the buffer and transcribes the chunks joined in order |
| Audio.ShortPauseChangesNothing | PlantAI/interface/audio.py:110-111 | a pause no longer than PAUSE changes nothing |
| Audio.CommandConsumesWakeword | PlantAI/interface/audio.py:123-125 | an utterance after a wakeword is recorded as the command and clears the wakeword |
| Audio.WakewordRecognised | PlantAI/interface/audio.py:126-133 | otherwise the wakeword is armed, with the time, iff WAKEWORD occurs in the transcript |
| Audio.WakewordExpires | PlantAI/interface/audio.py:139-143 | in silence outside an utterance an armed wakeword is reset iff it is older than TIMEOUT |
| Audio.NoTimeoutDuringSpeech | PlantAI/interface/audio.py:110-139 | while speech is in progress the wakeword changes only when an utterance ends, and no timeout is reported |
| Audio.RunQuiescent | PlantAI/interface/audio.py:64-66 | after any frames the buffer is empty whenever no utterance is in progress |
| Audio.ChunksAppend | PlantAI/interface/audio.py:95 | the chunks of two runs of frames are the chunks of each, one after the other |
| Audio.SpeechAccumulates | PlantAI/interface/audio.py:93-103 | a run of speech frames appends exactly their chunks, in order |
| Audio.RunAppend | PlantAI/interface/audio.py:78 | one frame more is one turn more |
| Audio.UtteranceHeard | PlantAI/interface/audio.py:93-103 | speech heard from silence fills the empty buffer with exactly its chunks |
| Audio.UtteranceIsTranscribed | PlantAI/interface/audio.py:110-133 | speech followed by a long pause transcribes exactly the joined speech chunks, records it as the command if a wakeword was armed, and otherwise as a wakeword attempt that succeeds iff WAKEWORD occurs in it |

## Left out

- Sensor hardware: `readVoltage` and `readMoisture`/`readTemperature` with their averaging and float rounding are left out. The ADS1115 set-up, the platform test, the debug branch, the endless loop and its sleeps are left out too. One pass of the interval branch is modelled, and the readings are its parameters.
- Floats: moisture and temperature are hundredths, and minutes until dry are whole minutes. The source computes minutes until dry as a float division of whole-minute timestamps, which always gives whole values.
- Timestamps: `strptime`/`strftime` calendar arithmetic is not modelled. Timestamps are integer minutes, and a CSV file holds them as decimal minute counts rather than formatted dates.
- The regression is not modelled: `RandomForestRegressor`, `pipe.predict`, `evaluation`, MAE/R² and `plot` are foreign numeric code. The pipeline is an opaque value that records what it was fitted on, and the predicted duration is an input to the conversion in seconds.
- Predictions.Predictor.TrainModel: of the 80/20 `train_test_split`, only the size rule is modelled: with a single archived reading the training part is empty and the split raises. With more readings the model fits on all of them, not on the shuffled training part.
- The recent lookup and the mode argument of `getList` (PlantAI/core/measurements.py:77,110 and PlantAI/core/predictions.py:26) are not part of the adapter's source. "Recent" is modelled as the most recent current reading of the sensor, and a mode filters the query.
- Measurements.SetMinutesUntilDry: the source calls `update(entry.measureId, minUntilDry)` while the adapter's `update` takes a whole record. The model updates the whole row, which is the stored row with only minutes until dry changed.
- Adapter: SQLite connection handling and schema creation are not modelled. SQL's order among rows with equal timestamps is unspecified; the model keeps table order. The table schema is not part of this model: ids are assumed to come from a counter, `nextId`, that never hands an id out twice, as SQLite's AUTOINCREMENT does (a plain integer key can reuse the largest id after a delete).
- CsvRows.ImportRow: the import hands the raw cell strings to the store. `CsvRows.Decode` models the number conversion of the store. CSV quoting and file encoding are left out.
- Numerals.CentiText: Python's `repr` of floats switches to exponent form for very large or very small values; the model always writes the plain decimal form.
- Audio: speech detection and transcription are inputs of each turn. `stt`, `tts`, `play`, pyaudio and the Silero models are left out. The clock is the frame time. After a transcription the source reads the clock again for `lastWakeword`; the model uses the frame time. PAUSE and TIMEOUT are whole clock ticks rather than float seconds. The greeting is represented by the "detected" flag of the event.
- The older variants PlantAI/interface/vad.py, PlantAI/interface/hmi.py and hmi/hmi.py repeat the modelled logic and are not modelled separately; neither are PlantAI/database/export.py and PlantAI/database/Export.py.
- The network clients, the LLM and assistant glue, the YAML configuration loaders and the logging handler set-up of `initLog` are not modelled (apart from `renameLog`). Neither are the threads of the entry points, nor the console's per-command handlers, which are prompt and print I/O.
