/** The table loader `csv_file`: it measures a file in a first pass (number
    of lines, widest comma-split line), sizes its grid to that shape, and
    writes every field into its cell in a second pass. Cells are read with
    1-based (column, line) coordinates. The file is given as its lines, or
    None when it cannot be opened; both passes see the same lines. */
module CsvTable {
  import opened Wrappers
  import opened Getline

  /** The widest line: the largest number of fields any line splits into (0 without lines). */
  function Width(lines: seq<string>): nat
  {
    if lines == [] then 0
    else
      var w := Width(lines[..|lines| - 1]);
      var n := |Fields(lines[|lines| - 1])|;
      if n > w then n else w
  }

  /** Every line fits in the width, and a line of that many fields exists. */
  lemma {:induction false} WidthIsWidest(lines: seq<string>)
    ensures forall i :: 0 <= i < |lines| ==> |Fields(lines[i])| <= Width(lines)
    ensures lines != [] ==> exists i :: 0 <= i < |lines| && |Fields(lines[i])| == Width(lines)
    ensures lines == [] ==> Width(lines) == 0
  {
    if lines != [] {
      var init := lines[..|lines| - 1];
      WidthIsWidest(init);
      assert forall i :: 0 <= i < |init| ==> init[i] == lines[i];
      if init != [] && Width(init) >= |Fields(lines[|lines| - 1])| {
        var k :| 0 <= k < |init| && |Fields(init[k])| == Width(init);
        assert |Fields(lines[k])| == Width(lines);
      }
    }
  }

  /** Measuring one more line widens the table to that line if it is wider. */
  lemma WidthStep(lines: seq<string>, n: nat)
    requires n < |lines|
    ensures Width(lines[..n + 1]) == if |Fields(lines[n])| > Width(lines[..n]) then |Fields(lines[n])| else Width(lines[..n])
  {
    assert lines[..n + 1][..n] == lines[..n];
  }

  /** The c-th field (0-based) of a line, or "" when the line has fewer fields. */
  function FieldOrEmpty(line: string, c: int): string
  {
    var fs := Fields(line);
    if 0 <= c < |fs| then fs[c] else ""
  }

  /** What readCell(column, line) is meant to give for a file with these lines:
      the column-th field of the line-th line, "" for every other coordinate. */
  function CellOf(lines: seq<string>, column: int, line: int): string
  {
    if 1 <= line <= |lines| then FieldOrEmpty(lines[line - 1], column - 1) else ""
  }

  /** A grid row in which the first `filled` fields of `line` are written and the other cells are "". */
  function PartialRow(line: string, filled: nat, width: nat): seq<string>
  {
    seq(width, c => if c < filled then FieldOrEmpty(line, c) else "")
  }

  /** numLines rows of numColumns empty cells, as sized before the populating pass. */
  function BlankGrid(numLines: nat, numColumns: nat): seq<seq<string>>
  {
    seq(numLines, _ => PartialRow("", 0, numColumns))
  }

  lemma PartialRowEmpty(line: string, width: nat)
    ensures PartialRow(line, 0, width) == PartialRow("", 0, width)
  {
  }

  /** Writing the next field of a line into a partly written row. */
  lemma PartialRowStep(line: string, filled: nat, width: nat)
    requires filled < |Fields(line)| && filled < width
    ensures PartialRow(line, filled, width)[filled := Fields(line)[filled]] == PartialRow(line, filled + 1, width)
  {
  }

  /** A suffix that starts with `x` then `rest`: `x` is its first element
      and `rest` the suffix after it. */
  lemma DropStep(all: seq<string>, i: nat, x: string, rest: seq<string>)
    requires i <= |all| && all[i..] == [x] + rest
    ensures i < |all| && all[i] == x && all[i + 1..] == rest
  {
    assert all[i..][0] == x;
    assert all[i + 1..] == all[i..][1..];
  }

  /** The grid the constructor builds for the lines of an opened file. */
  function Grid(lines: seq<string>): (g: seq<seq<string>>)
    ensures |g| == |lines| && forall l :: 0 <= l < |g| ==> |g[l]| == Width(lines)
  {
    seq(|lines|, l requires 0 <= l < |lines| => PartialRow(lines[l], |Fields(lines[l])|, Width(lines)))
  }

  /** The lines the two passes read: none when the file cannot be opened. */
  function LinesOf(file: Option<seq<string>>): seq<string>
  {
    if file.Some? then file.value else []
  }

  /** The cache test: the dimensions recorded for a file name, if any. */
  function Lookup(cache: map<string, (nat, nat)>, fileName: string): Option<(nat, nat)>
  {
    if fileName in cache then Some(cache[fileName]) else None
  }

  /** The cached dimensions on a hit, the measured ones on a miss. */
  function CachedOr(cached: Option<(nat, nat)>, measured: (nat, nat)): (nat, nat)
  {
    match cached
    case Some(d) => d
    case None => measured
  }

  /** The inner loop of the measuring pass: how many getline(ss, value, ',')
      calls succeed on one line. */
  method CountFields(row: string) returns (n: nat)
    ensures n == |Fields(row)|
  {
    var pos := 0;
    n := 0;
    var next := GetField(row, pos);
    while next.Some?
      invariant pos <= |row| && next == GetField(row, pos)
      invariant n + |FieldsFrom(row, pos)| == |Fields(row)|
      decreases |row| - pos
    {
      GetFieldStep(row, pos);
      n := n + 1;
      pos := next.value.1;
      next := GetField(row, pos);
    }
    GetFieldStep(row, pos);
  }

  class CsvFile {
    var fileName: string
    var numColumns: nat
    var numLines: nat
    /** Dimensions per file name; a member of each object, so it starts empty. */
    var cache: map<string, (nat, nat)>
    var data: seq<seq<string>>
    /** Whether the constructor's cache test found the file name. */
    ghost var cacheHit: bool
    /** The lines the object was loaded from (none when the file could not be opened). */
    ghost var lines: seq<string>

    /** The dimension fields describe the lines the object was loaded from. */
    ghost predicate Dimensions()
      reads this
    {
      numLines == |lines| && numColumns == Width(lines)
    }

    /** The grid has the shape the dimension fields say. */
    ghost predicate Loaded()
      reads this
    {
      |data| == numLines && forall l :: 0 <= l < |data| ==> |data[l]| == numColumns
    }

    /** The 1-based coordinates that readCell looks up in the grid. */
    predicate InRange(column: int, line: int)
      reads this
    {
      1 <= column <= numColumns && 1 <= line <= numLines
    }

    constructor (fileName: string, file: Option<seq<string>>)
      ensures this.fileName == fileName
      ensures !cacheHit
      ensures numLines == |LinesOf(file)| && numColumns == Width(LinesOf(file))
      ensures data == Grid(LinesOf(file))
      ensures cache == if file.Some? then map[fileName := (numColumns, numLines)] else map[]
      ensures Loaded()
      ensures lines == LinesOf(file) && Dimensions()
    {
      this.fileName := fileName;
      numColumns := 0;
      numLines := 0;
      cache := map[];
      data := [];
      cacheHit := false;
      lines := LinesOf(file);
      new;
      // The cache test: on a hit the dimensions come from the cache; on a
      // miss an opened file is measured and its dimensions are recorded.
      var cached := Lookup(cache, fileName);
      cacheHit := cached.Some?;
      if cached.None? && file.Some? {
        Measure(file.value);
        cache := cache[fileName := (numColumns, numLines)];
      }
      var dims := CachedOr(cached, (numColumns, numLines));
      numColumns, numLines := dims.0, dims.1;
      Resize();
      if file.Some? {
        Populate(file.value);
      }
    }

    /** The measuring pass: count the lines and keep the widest field count. */
    method Measure(fileLines: seq<string>)
      requires numLines == 0 && numColumns == 0
      modifies this`numLines, this`numColumns
      ensures numLines == |fileLines| && numColumns == Width(fileLines)
    {
      while numLines < |fileLines|
        invariant numLines <= |fileLines| && numColumns == Width(fileLines[..numLines])
      {
        var currentColumn := CountFields(fileLines[numLines]);
        WidthStep(fileLines, numLines);
        numLines := numLines + 1;
        if currentColumn > numColumns {
          numColumns := currentColumn;
        }
      }
      assert fileLines[..numLines] == fileLines;
    }

    /** Sizing the grid: numLines rows of numColumns empty strings. */
    method Resize()
      modifies this`data
      ensures data == BlankGrid(numLines, numColumns)
    {
      data := seq(numLines, _ => []);
      var i := 0;
      while i < numLines
        invariant i <= numLines && |data| == numLines
        invariant forall l :: 0 <= l < i ==> data[l] == PartialRow("", 0, numColumns)
      {
        data := data[i := seq(numColumns, _ => "")];
        i := i + 1;
      }
    }

    /** The populating pass: every field of line l goes to its cell of row l. */
    method Populate(fileLines: seq<string>)
      requires numLines == |fileLines| && numColumns == Width(fileLines)
      requires data == BlankGrid(numLines, numColumns)
      modifies this`data
      ensures data == Grid(fileLines)
    {
      WidthIsWidest(fileLines);
      var currentLine := 0;
      while currentLine < |fileLines|
        invariant currentLine <= |fileLines| && |data| == |fileLines|
        invariant forall l :: 0 <= l < currentLine ==> data[l] == Grid(fileLines)[l]
        invariant forall l :: currentLine <= l < |fileLines| ==> data[l] == PartialRow("", 0, numColumns)
      {
        var row := fileLines[currentLine];
        currentLine := currentLine + 1;
        PopulateRow(currentLine - 1, row);
      }
    }

    /** The inner loop of the populating pass, for one line. */
    method PopulateRow(l: nat, row: string)
      requires l < |data| && data[l] == PartialRow("", 0, numColumns)
      requires |Fields(row)| <= numColumns
      modifies this`data
      ensures data == old(data)[l := PartialRow(row, |Fields(row)|, numColumns)]
    {
      var pos := 0;
      var currentColumn := 0;
      var next := GetField(row, pos);
      PartialRowEmpty(row, numColumns);
      while next.Some?
        invariant pos <= |row| && next == GetField(row, pos)
        invariant currentColumn <= |Fields(row)|
        invariant FieldsFrom(row, pos) == Fields(row)[currentColumn..]
        invariant data == old(data)[l := PartialRow(row, currentColumn, numColumns)]
        decreases |row| - pos
      {
        GetFieldStep(row, pos);
        var value := next.value.0;
        DropStep(Fields(row), currentColumn, value, FieldsFrom(row, next.value.1));
        PartialRowStep(row, currentColumn, numColumns);
        data := data[l := data[l][currentColumn := value]];
        currentColumn := currentColumn + 1;
        pos := next.value.1;
        next := GetField(row, pos);
      }
      GetFieldStep(row, pos);
    }

    /** The widest field count of the lines the object was loaded from. */
    function GetNumColumns(): (n: nat)
      reads this
      requires Dimensions()
      ensures n == Width(lines)
      ensures forall i :: 0 <= i < |lines| ==> |Fields(lines[i])| <= n
    {
      WidthIsWidest(lines);
      numColumns
    }

    /** The number of lines the object was loaded from. */
    function GetNumLines(): (n: nat)
      reads this
      requires Dimensions()
      ensures n == |lines|
    {
      numLines
    }

    /** The cell at 1-based (column, line), or "" outside the table. The grid
        is indexed only for coordinates inside the dimensions, which is
        defined only while the grid has that shape. */
    function ReadCell(column: int, line: int): (r: string)
      reads this
      requires InRange(column, line) ==> Loaded()
      ensures !InRange(column, line) ==> r == ""
    {
      if column < 1 || column > numColumns || line < 1 || line > numLines then ""
      else data[line - 1][column - 1]
    }

    /** Clears every row, then the grid and the cache; the dimensions stay. */
    method CleanMemory()
      modifies this`data, this`cache
      ensures data == [] && cache == map[]
      ensures numColumns == old(numColumns) && numLines == old(numLines) && fileName == old(fileName)
      ensures lines == old(lines) && cacheHit == old(cacheHit)
      ensures old(Dimensions()) ==> Dimensions()
      ensures Loaded() <==> numLines == 0
    {
      var i := 0;
      while i < |data|
        invariant i <= |data| && |data| == old(|data|)
        invariant forall l :: 0 <= l < i ==> data[l] == []
        invariant numColumns == old(numColumns) && numLines == old(numLines) && fileName == old(fileName)
      {
        data := data[i := []];
        i := i + 1;
      }
      data := [];
      cache := map[];
    }
  }

  /** On a freshly loaded file, readCell gives the field of the line, or "". */
  lemma ReadCellAfterLoad(f: CsvFile, lines: seq<string>, column: int, line: int)
    requires f.numLines == |lines| && f.numColumns == Width(lines) && f.data == Grid(lines)
    ensures f.ReadCell(column, line) == CellOf(lines, column, line)
  {
    if f.InRange(column, line) {
      assert f.ReadCell(column, line) == f.data[line - 1][column - 1];
      GridCell(lines, line - 1, column - 1);
    } else {
      assert f.ReadCell(column, line) == "";
      if 1 <= line <= |lines| {
        CellBeyondWidth(lines, column, line);
      }
    }
  }

  /** Outside the width a line has no field. */
  lemma CellBeyondWidth(lines: seq<string>, column: int, line: int)
    requires 1 <= line <= |lines| && !(1 <= column <= Width(lines))
    ensures CellOf(lines, column, line) == ""
  {
    LineWithinWidth(lines, line);
  }

  /** The line-th line (1-based) has no more fields than the width. */
  lemma LineWithinWidth(lines: seq<string>, line: int)
    requires 1 <= line <= |lines|
    ensures |Fields(lines[line - 1])| <= Width(lines)
  {
    WidthIsWidest(lines);
  }

  lemma GridCell(lines: seq<string>, l: nat, c: nat)
    requires l < |lines| && c < Width(lines)
    ensures Grid(lines)[l][c] == FieldOrEmpty(lines[l], c)
  {
  }

  /** A table written out as one comma-joined line per row. */
  function JoinedLines(rows: seq<seq<string>>): seq<string>
  {
    seq(|rows|, l requires 0 <= l < |rows| => Join(rows[l]))
  }

  /** Every row has `width` fields and no field holds a comma. */
  predicate Rectangular(rows: seq<seq<string>>, width: nat)
  {
    && (forall l :: 0 <= l < |rows| ==> |rows[l]| == width)
    && (forall l, c :: 0 <= l < |rows| && 0 <= c < |rows[l]| ==> DELIMITER !in rows[l][c])
  }

  /** A rectangular table of comma-free fields comes back field for field:
      every cell holds the field written there. An empty last cell is the
      segment getline drops, and it comes back as the padding "". The widest
      line is the table's width as soon as one row has a non-empty last cell;
      otherwise it may be narrower. */
  lemma RectangularRoundTrip(rows: seq<seq<string>>, width: nat)
    requires Rectangular(rows, width)
    ensures Width(JoinedLines(rows)) <= width
    ensures width > 0 && (exists l :: 0 <= l < |rows| && rows[l][width - 1] != "") ==> Width(JoinedLines(rows)) == width
    ensures forall l, c :: 1 <= l <= |rows| && 1 <= c <= width ==> CellOf(JoinedLines(rows), c, l) == rows[l - 1][c - 1]
  {
    var lines := JoinedLines(rows);
    forall l | 0 <= l < |rows|
      ensures Fields(lines[l]) == if width > 0 && rows[l][width - 1] == "" then rows[l][..width - 1] else rows[l]
    {
      FieldsOfAnyJoin(rows[l]);
    }
    forall l, c | 1 <= l <= |rows| && 1 <= c <= width
      ensures CellOf(lines, c, l) == rows[l - 1][c - 1]
    {
      assert CellOf(lines, c, l) == FieldOrEmpty(lines[l - 1], c - 1);
    }
    WidthIsWidest(lines);
    if rows != [] {
      var i :| 0 <= i < |lines| && |Fields(lines[i])| == Width(lines);
    }
  }

  /** Loading a rectangular table written as comma-joined lines: the object
      has one line per row, the table's width as soon as one row has a
      non-empty last cell, and readCell gives back every field. */
  lemma LoadedRoundTrip(f: CsvFile, rows: seq<seq<string>>, width: nat)
    requires Rectangular(rows, width)
    requires f.lines == JoinedLines(rows) && f.Dimensions() && f.data == Grid(f.lines)
    ensures f.GetNumLines() == |rows|
    ensures width > 0 && (exists l :: 0 <= l < |rows| && rows[l][width - 1] != "") ==> f.GetNumColumns() == width
    ensures forall l, c :: 1 <= l <= |rows| && 1 <= c <= width ==> f.ReadCell(c, l) == rows[l - 1][c - 1]
  {
    RectangularRoundTrip(rows, width);
    forall l, c | 1 <= l <= |rows| && 1 <= c <= width
      ensures f.ReadCell(c, l) == rows[l - 1][c - 1]
    {
      ReadCellAfterLoad(f, f.lines, c, l);
    }
  }
}
