/**
 * The command dispatch of the console's main menu
 * (PlantAI/interface/console.py): a line of input is tested against
 * keywords in a fixed order, the first four tests by substring, the last
 * ones by equality, and anything else is an unknown command.
 */
module Console {
  import opened Wrappers
  import opened Substrings

  /** The table an add, delete or show command works on. */
  datatype Table = Plants | SpeciesTable | Sensors | Measurements

  /** The action the main menu takes for a line of input. */
  datatype Command =
    | Add(table: Table)
    | Delete(table: Table)
    | Show(table: Table)
    | ImportCsv
    | ExportCsv
    | Predict
    | Weather
    | Help
    | Exit
    | Unknown

  /** mainMenu's if/elif chain. */
  function Classify(input: string): Command {
    if Contains(input, "add") then
      if Contains(input, "plant") then Add(Plants)
      else if Contains(input, "species") then Add(SpeciesTable)
      else if Contains(input, "sensor") then Add(Sensors)
      else Unknown
    else if Contains(input, "delete") then
      if Contains(input, "plant") then Delete(Plants)
      else if Contains(input, "species") then Delete(SpeciesTable)
      else if Contains(input, "sensor") then Delete(Sensors)
      else if Contains(input, "measure") then Delete(Measurements)
      else Unknown
    else if Contains(input, "show") then
      if Contains(input, "plant") then Show(Plants)
      else if Contains(input, "species") then Show(SpeciesTable)
      else if Contains(input, "sensor") then Show(Sensors)
      else if Contains(input, "measure") then Show(Measurements)
      else Unknown
    else if Contains(input, "csv") then
      if Contains(input, "import") then ImportCsv
      else if Contains(input, "export") then ExportCsv
      else Unknown
    else if input == "predict" then Predict
    else if input == "weather" then Weather
    else if input == "help" then Help
    else if input == "exit" || input == "bye" then Exit
    else Unknown
  }

  /** The table a line names, by the first of plant, species, sensor and measure it contains. */
  function NamedTable(input: string, withMeasure: bool): Option<Table> {
    if Contains(input, "plant") then Some(Plants)
    else if Contains(input, "species") then Some(SpeciesTable)
    else if Contains(input, "sensor") then Some(Sensors)
    else if withMeasure && Contains(input, "measure") then Some(Measurements)
    else None
  }

  /**
   * A line containing "add" is an add command or unknown, whatever else it
   * contains; add never reaches the measurements, and without a table name
   * the line is unknown.
   */
  lemma AddComesFirst(input: string)
    requires Contains(input, "add")
    ensures Classify(input).Add? || Classify(input) == Unknown
    ensures Classify(input) != Add(Measurements)
    ensures Classify(input).Add? <==> NamedTable(input, false).Some?
    ensures Classify(input).Add? ==> Classify(input).table == NamedTable(input, false).value
  {
  }

  /** Delete is tested second: a line with "delete" and without "add" deletes from the table it names first. */
  lemma DeleteComesSecond(input: string)
    requires !Contains(input, "add") && Contains(input, "delete")
    ensures Classify(input).Delete? || Classify(input) == Unknown
    ensures Classify(input).Delete? <==> NamedTable(input, true).Some?
    ensures Classify(input).Delete? ==> Classify(input).table == NamedTable(input, true).value
  {
  }

  /** Show is tested third, with the same tables as delete. */
  lemma ShowComesThird(input: string)
    requires !Contains(input, "add") && !Contains(input, "delete") && Contains(input, "show")
    ensures Classify(input).Show? || Classify(input) == Unknown
    ensures Classify(input).Show? <==> NamedTable(input, true).Some?
    ensures Classify(input).Show? ==> Classify(input).table == NamedTable(input, true).value
  {
  }

  /** The CSV commands come fourth, import before export. */
  lemma CsvComesFourth(input: string)
    requires !Contains(input, "add") && !Contains(input, "delete") && !Contains(input, "show") && Contains(input, "csv")
    ensures Classify(input) == ImportCsv <==> Contains(input, "import")
    ensures Classify(input) == ExportCsv <==> !Contains(input, "import") && Contains(input, "export")
    ensures Classify(input) in {ImportCsv, ExportCsv, Unknown}
  {
  }

  /** None of the four keywords occurs in the words the menu compares whole. */
  lemma ExactWordsHaveNoKeyword(w: string)
    requires w in {"predict", "weather", "help", "exit", "bye"}
    ensures !Contains(w, "add") && !Contains(w, "delete") && !Contains(w, "show") && !Contains(w, "csv")
  {
    if w == "weather" {
      NoKeyword(w, 1, 0, 0, 0);
    } else if w == "predict" {
      NoKeyword(w, 0, 2, 0, 1);
    } else {
      NoKeyword(w, 0, 0, 0, 1);
    }
  }

  /** A word lacking one character of each keyword contains none of them. */
  lemma NoKeyword(w: string, a: nat, d: nat, s: nat, c: nat)
    requires a < 3 && "add"[a] !in w
    requires d < 6 && "delete"[d] !in w
    requires s < 4 && "show"[s] !in w
    requires c < 3 && "csv"[c] !in w
    ensures !Contains(w, "add") && !Contains(w, "delete") && !Contains(w, "show") && !Contains(w, "csv")
  {
    MissingChar(w, "add", a);
    MissingChar(w, "delete", d);
    MissingChar(w, "show", s);
    MissingChar(w, "csv", c);
  }

  /** The last commands match only the whole line. */
  lemma ExactCommands(input: string)
    ensures Classify(input) == Predict <==> input == "predict"
    ensures Classify(input) == Weather <==> input == "weather"
    ensures Classify(input) == Help <==> input == "help"
    ensures Classify(input) == Exit <==> input == "exit" || input == "bye"
  {
    if input in {"predict", "weather", "help", "exit", "bye"} {
      ExactWordsHaveNoKeyword(input);
    }
  }

  /** A keyword inside another word counts: "show address" holds "add", so it is an add command without a table. */
  lemma ShowAddress(input: string)
    requires input == "show address"
    ensures Classify(input) == Unknown
  {
    ContainsAt(input, "add", 5);
    MissingChar(input, "plant", 0);
    MissingChar(input, "species", 1);
    MissingChar(input, "sensor", 2);
  }

  /** The exact words must be the whole line: "bye now" is not an exit. */
  lemma ByeNow(input: string)
    requires input == "bye now"
    ensures Classify(input) == Unknown
  {
    NoKeyword(input, 0, 0, 0, 0);
  }
}
