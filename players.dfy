/** The player records and their extraction from a loaded table: each data
    line gives one record, read from fixed 1-based columns, with the age and
    the overall rating converted by std::stoi. */
module Players {
  import opened Wrappers
  import opened IntParse
  import opened CsvTable

  datatype Player = Player(name: string, position: string, age: int, overall: int, nationality: string)

  // The 1-based columns of the FIFA tables that the records are read from.
  const NAME_COLUMN: int := 2
  const AGE_COLUMN: int := 3
  const NATIONALITY_COLUMN: int := 5
  const OVERALL_COLUMN: int := 7
  const POSITION_COLUMN: int := 62

  /** The exception std::stoi throws, with the cell it was reading. */
  datatype LoadError = LoadError(line: int, column: int, reason: ConversionError)

  /** The record built from 1-based line `line`; the age is converted before
      the overall rating, so a line where both fail reports the age. */
  function PlayerAt(file: CsvFile, line: int): (r: Result<Player, LoadError>)
    reads file
    requires 1 <= line <= file.numLines ==> file.Loaded()
    ensures r.Success? <==> Stoi(file.ReadCell(AGE_COLUMN, line)).Success? && Stoi(file.ReadCell(OVERALL_COLUMN, line)).Success?
    ensures r.Success? ==>
      && r.value.name == file.ReadCell(NAME_COLUMN, line)
      && r.value.position == file.ReadCell(POSITION_COLUMN, line)
      && Stoi(file.ReadCell(AGE_COLUMN, line)) == Success(r.value.age)
      && Stoi(file.ReadCell(OVERALL_COLUMN, line)) == Success(r.value.overall)
      && r.value.nationality == file.ReadCell(NATIONALITY_COLUMN, line)
    ensures r.Failure? ==> r.error.line == line
    ensures r.Failure? && Stoi(file.ReadCell(AGE_COLUMN, line)).Failure? ==>
      r.error == LoadError(line, AGE_COLUMN, Stoi(file.ReadCell(AGE_COLUMN, line)).error)
    ensures r.Failure? && Stoi(file.ReadCell(AGE_COLUMN, line)).Success? ==>
      r.error == LoadError(line, OVERALL_COLUMN, Stoi(file.ReadCell(OVERALL_COLUMN, line)).error)
  {
    var name := file.ReadCell(NAME_COLUMN, line);
    var position := file.ReadCell(POSITION_COLUMN, line);
    match Stoi(file.ReadCell(AGE_COLUMN, line))
    case Failure(e) => Failure(LoadError(line, AGE_COLUMN, e))
    case Success(age) =>
      match Stoi(file.ReadCell(OVERALL_COLUMN, line))
      case Failure(e) => Failure(LoadError(line, OVERALL_COLUMN, e))
      case Success(overall) =>
        Success(Player(name, position, age, overall, file.ReadCell(NATIONALITY_COLUMN, line)))
  }

  /** The number of lines load_data reads: 2 .. numLines - 1. */
  function DataLines(numLines: nat): nat
  {
    if numLines >= 2 then numLines - 2 else 0
  }

  /** load_data: one record per 1-based line 2 .. numLines - 1, appended to
      `players`; the first line and the last line are never read. A failed
      conversion ends the load with the error of the first failing line. */
  method LoadData(file: CsvFile, players: seq<Player>) returns (r: Result<seq<Player>, LoadError>)
    requires file.numLines > 2 ==> file.Loaded()
    ensures r.Success? <==> forall line :: 2 <= line < file.numLines ==> PlayerAt(file, line).Success?
    ensures r.Success? ==>
      && |r.value| == |players| + DataLines(file.numLines)
      && r.value[..|players|] == players
      && forall line :: 2 <= line < file.numLines ==> PlayerAt(file, line) == Success(r.value[|players| + line - 2])
    ensures r.Failure? ==>
      exists line :: && 2 <= line < file.numLines
                     && PlayerAt(file, line) == Failure(r.error)
                     && forall earlier :: 2 <= earlier < line ==> PlayerAt(file, earlier).Success?
  {
    var loaded := players;
    var i := 2;
    while i < file.numLines
      invariant 2 <= i
      invariant i <= file.numLines || i == 2
      invariant |loaded| == |players| + i - 2 && loaded[..|players|] == players
      invariant forall line :: 2 <= line < i ==> PlayerAt(file, line) == Success(loaded[|players| + line - 2])
    {
      var p := PlayerAt(file, i);
      if p.Failure? {
        return Failure(p.error);
      }
      loaded := loaded + [p.value];
      i := i + 1;
    }
    return Success(loaded);
  }
}
