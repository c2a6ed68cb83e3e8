# FIFA player statistics: table loader and statistics routines

This project models `mmarchutprojekt.cpp` in Dafny. The program loads FIFA player
tables from comma-separated files and prints statistics about the players.
The model covers two parts:

- **The `csv_file` class** (module `CsvTable`).
  - The constructor measures the file in a first pass: it counts the lines and
    finds the widest comma-split line.
  - It sizes its grid to `numLines` rows of `numColumns` cells.
  - It writes every field into its cell in a second pass.
  - `readCell` looks up a cell by 1-based (column, line) coordinates and gives `""`
    outside the table. `cleanMemory` empties the grid and the cache.
  - The class keeps the per-object dimension cache. Because every object starts
    with an empty cache, the constructor's cache test always misses.
- **The statistics routines** (modules `Players` and `Stats`).
  - `load_data` builds one player record per data line.
  - Histograms: `position_stats` counts per position and sorts by count,
    `age_stats` uses age buckets and `overall_stats` uses rating buckets.
  - Extremes: `first_last_age` and `first_last_overall` report the players tied at
    the least and at the greatest value. `country_stats` reports the most and the
    least frequent nationality.
  - Each routine returns what it prints, not the text it prints.

The library behaviour the program relies on is modelled in modules of its own:

- `Getline`: the field splitting of `std::getline(ss, value, ',')`. An empty line
  gives no field, and a trailing comma gives no empty last field.
- `IntParse`: `std::stoi`, including its two exceptions as error values.
- `OrderedMap`: `std::map<std::string, int>`. This means `operator[]` with `++`,
  iteration in ascending key order, and the key order of `std::string`.
- `Sorting`: `std::sort`. It is implemented as an insertion sort, and only what
  `std::sort` promises is stated about it: the result is sorted and is a
  permutation of the input.

The file is modelled as an optional sequence of lines. `None` means the file
cannot be opened. Both passes of the constructor read the same lines.

The code differs from its own comment in one place. The comment above
`load_data` says it starts from the third line. The loop actually reads the
1-based lines `2 .. numLines - 1`: it skips the header line and also the last
line. The model follows the code.

## Model

| member | source | states |
|---|---|---|
| Getline.GetField | mmarchutprojekt.cpp:55-57 | One `getline(ss, value, ',')` call fails exactly at the end of the line. Otherwise it advances the read position and extracts a field that holds no comma. |
| Getline.GetFieldStep | mmarchutprojekt.cpp:89-92 | One successful call delivers the first of the remaining fields and leaves the stream positioned at the others. A failed call leaves no field. |
| Getline.FieldsHaveNoDelimiter | mmarchutprojekt.cpp:55-57 | No field a line splits into contains a comma. |
| Getline.FieldsOfJoin | mmarchutprojekt.cpp:52-57 | Joining comma-free fields with commas and splitting the result gives back exactly those fields, provided the last field is not empty. |
| Getline.FieldsOfAnyJoin | mmarchutprojekt.cpp:52-57 | Joining comma-free fields with commas and splitting the result gives back those fields, except that one empty last field is dropped. |
| Getline.JoinOfFields | mmarchutprojekt.cpp:52-57 | Joining a line's fields with commas gives back the line, minus the one trailing comma that yields no field. |
| CsvTable.CountFields | mmarchutprojekt.cpp:52-57 | The inner measuring loop counts exactly the number of fields the line splits into. |
| CsvTable.WidthIsWidest | mmarchutprojekt.cpp:48-63 | The measured width is at least every line's field count, and some line attains it. Without lines it is 0. |
| CsvTable.CsvFile.Measure | mmarchutprojekt.cpp:45-63 | The measuring pass sets `numLines` to the number of lines and `numColumns` to the widest field count. |
| CsvTable.CsvFile.Resize | mmarchutprojekt.cpp:70-74 | The grid becomes `numLines` rows of `numColumns` empty strings. |
| CsvTable.CsvFile.Populate | mmarchutprojekt.cpp:76-94 | After the populating pass, every row holds its line's fields in order, padded with `""` to the width. |
| CsvTable.CsvFile.PopulateRow | mmarchutprojekt.cpp:86-92 | The inner loop writes field c of the line into cell c of its row and changes no other row. |
| CsvTable.Grid | mmarchutprojekt.cpp:71-74 | The loaded grid has exactly one row per line, and every row is as wide as the widest line. |
| CsvTable.CsvFile.constructor | mmarchutprojekt.cpp:33-95 | The cache test on a new object misses. For an opened file, `numLines` is the line count, `numColumns` is the widest field count, the grid holds every field and the cache is `{fileName ↦ (numColumns, numLines)}`. The dimensions are recorded against the lines the object was loaded from. For a file that cannot be opened, both counts are 0, the grid and the cache are empty. |
| CsvTable.CsvFile.GetNumColumns | mmarchutprojekt.cpp:98-100 | Gives the widest field count of the lines the object was loaded from, which bounds the field count of every line. It still does so after `cleanMemory`. |
| CsvTable.CsvFile.GetNumLines | mmarchutprojekt.cpp:103-105 | Gives the number of lines the object was loaded from. It still does so after `cleanMemory`. |
| CsvTable.CsvFile.ReadCell | mmarchutprojekt.cpp:108-116 | Every coordinate outside `1..numColumns × 1..numLines` gives `""`, including 0, negative values and `numColumns + 1`. |
| CsvTable.ReadCellAfterLoad | mmarchutprojekt.cpp:108-116 | On a loaded file, `readCell(c, l)` is field c of line l, or `""` when that line has fewer than c fields, or when (c, l) lies outside the table. |
| CsvTable.CellBeyondWidth | mmarchutprojekt.cpp:110-111 | A column outside the width holds no field of any line. |
| CsvTable.RectangularRoundTrip | mmarchutprojekt.cpp:45-94 | Write each row of a table (equal width, no comma in any field) as a comma-joined line and load the lines: every field comes back in its cell. An empty last cell comes back as the padding `""`. The measured width never exceeds the table's, and equals it once some row's last cell is not empty. |
| CsvTable.LoadedRoundTrip | mmarchutprojekt.cpp:33-116 | A file loaded from such a table: `getNumLines` is the number of rows, `getNumColumns` is the table's width once some row's last cell is not empty, and `readCell(c, l)` gives back every field. |
| CsvTable.CsvFile.CleanMemory | mmarchutprojekt.cpp:119-128 | Afterwards the grid and the cache are empty. `numColumns`, `numLines`, `fileName` and the lines the object was loaded from are unchanged, so the dimension queries still describe the loaded file. |
| IntParse.Stoi | mmarchutprojekt.cpp:140-141 | `std::stoi` on a cell. A result is always a 32-bit `int`, and an empty cell is an invalid argument. |
| IntParse.Convert | mmarchutprojekt.cpp:140-141 | The text after the sign converts its leading digits. It is an invalid argument exactly when no digit comes first. |
| IntParse.StoiOfDecimal | mmarchutprojekt.cpp:140-141 | `stoi` reads back the decimal text of any integer followed by non-digit text. It succeeds with that integer exactly when it fits in an `int`, and is out of range otherwise. |
| Players.PlayerAt | mmarchutprojekt.cpp:137-142 | A record is built exactly when both the age cell (column 3) and the overall cell (column 7) convert. Its fields come from columns 2, 62, 3, 7 and 5 of that line. On failure the error names the line and the first failing column, age before overall. |
| Players.LoadData | mmarchutprojekt.cpp:135-146 | On success, exactly `max(0, numLines - 2)` records are appended and the existing prefix is unchanged. Record k comes from line k + 2, so lines 1 and `numLines` are never read. It fails exactly when some line in between fails to convert, and then reports the first such line. |
| OrderedMap.StrLessIrreflexive | mmarchutprojekt.cpp:154 | No key comes before itself in `std::string` order. |
| OrderedMap.StrLessTransitive | mmarchutprojekt.cpp:154 | The key order is transitive. |
| OrderedMap.StrLessTotal | mmarchutprojekt.cpp:154 | Of two different keys, one comes first. |
| OrderedMap.StrLessAsymmetric | mmarchutprojekt.cpp:154 | The key order is asymmetric. |
| OrderedMap.MinKey | mmarchutprojekt.cpp:160 | Picks the key that comes before every other key of a non-empty key set. |
| OrderedMap.Entries | mmarchutprojekt.cpp:160-162 | Iterating a map visits each entry once, in strictly ascending key order. |
| OrderedMap.Inc | mmarchutprojekt.cpp:157 | `m[k]++` adds `k` with count 1 when it is missing, otherwise increments its count. It leaves every other key alone. |
| OrderedMap.Tally | mmarchutprojekt.cpp:156-158 | After `m[k]++` over a list of keys, the map has exactly the keys of the list, each with the number of times it occurs. |
| OrderedMap.Count | mmarchutprojekt.cpp:157 | The count of a key is at most the list's length, and it is positive exactly when the key occurs. |
| OrderedMap.SumOfTally | mmarchutprojekt.cpp:159-162 | The counts of a tally, summed in iteration order, add up to the number of keys counted. |
| OrderedMap.EnumerationIsPermutation | mmarchutprojekt.cpp:164 | The vector built from the map's iteration is a permutation of the map's entries. |
| Sorting.Sort | mmarchutprojekt.cpp:165 | The sort of a copy is ordered by the key and is a permutation of the input. |
| Sorting.InsertSorted | mmarchutprojekt.cpp:165 | Inserting into a sorted list keeps it sorted. |
| Stats.BandFrom | mmarchutprojekt.cpp:180-200 | The bucket label found for a value belongs to a bucket that holds the value. No label is found exactly when no bucket holds it. |
| Stats.AtMostOneBand | mmarchutprojekt.cpp:176-255 | In buckets that follow each other, a value lies in at most one bucket. |
| Stats.BandsAscending | mmarchutprojekt.cpp:180-249 | The age buckets and the rating buckets follow each other without overlap. |
| Stats.AgeBandChain | mmarchutprojekt.cpp:180-200 | The age bucket of a value is the one picked by the chain of tests: 16–19, 21–23, 25–28, 29–32 and 33 or more. |
| Stats.AgeGaps | mmarchutprojekt.cpp:180-200 | An age falls in no bucket exactly when it is below 16, or is 20 or 24. |
| Stats.OverallBandChain | mmarchutprojekt.cpp:218-249 | The rating bucket of a value is the one picked by the chain of tests: 47–57, 58–62, 63–66, 67–72, 73–79, 80–83, 84–94 and 95 or more. |
| Stats.OverallCoverage | mmarchutprojekt.cpp:218-249 | A rating falls in no bucket exactly when it is below 47. |
| Stats.Histogram | mmarchutprojekt.cpp:304-308 | The counting loop builds the tally of the players' labels. |
| Stats.SumCounts | mmarchutprojekt.cpp:202-205 | The summing loop adds up the counts in iteration order. |
| Stats.TallyReport | mmarchutprojekt.cpp:252-255 | The sum over the report is the number of labelled players, and it is positive when the report is not empty. |
| Stats.PositionStats | mmarchutprojekt.cpp:153-166 | The sorted list is a permutation of the position counts. Each count is the number of players with that position. The counts are in non-increasing order, and their sum is the number of players. |
| Stats.AgeStats | mmarchutprojekt.cpp:176-205 | The report lists, in key order, the count of each age bucket. Its sum is the number of players in some bucket, so it never exceeds the number of players. |
| Stats.OverallStats | mmarchutprojekt.cpp:214-255 | The report lists, in key order, the count of each rating bucket. Its sum is the number of players rated 47 or more, so it never exceeds the number of players. |
| Stats.HavingCount | mmarchutprojekt.cpp:270-277 | The group for a key value holds every copy of a player with that value and no other player. |
| Stats.HavingPermutation | mmarchutprojekt.cpp:265-266 | Permuted lists have permuted groups, so sorting the copy does not change a group. |
| Stats.HavingRun | mmarchutprojekt.cpp:269-278 | When the players with a key value are exactly those in one run of positions, the run is the group. |
| Stats.SortedEnds | mmarchutprojekt.cpp:266-268 | After sorting a list whose values are not all equal, the first element has the least value, the last has the greatest, and the two differ. |
| Stats.FrontRun | mmarchutprojekt.cpp:269-273 | The walk from the front collects exactly the group of the least value. |
| Stats.BackRun | mmarchutprojekt.cpp:274-278 | The walk from the back collects exactly the group of the greatest value. |
| Stats.TieGroups | mmarchutprojekt.cpp:265-279 | `least` and `most` are the least and the greatest value. The two walks collect exactly the players with each of them, up to order. The caller's list is not changed. |
| Stats.FirstLastAge | mmarchutprojekt.cpp:265-279 | The youngest age and all players of that age, then the oldest age and all players of that age. The source stores the youngest age in a variable named `highest`. |
| Stats.FirstLastOverall | mmarchutprojekt.cpp:282-296 | The same for the overall rating. |
| Stats.ScanExtremes | mmarchutprojekt.cpp:310-323 | Without entries, the result is `("", 0)` and `("", INT32_MAX)`. Otherwise the scan visits every entry. The strict `>` test ends holding the first entry with the greatest count, and the strict `<` test the first entry with the least count. |
| Stats.FirstGreatest | mmarchutprojekt.cpp:314-318 | The first entry in key order with the greatest count carries the map's maximum. Its key comes before every other key with that count. |
| Stats.FirstLeast | mmarchutprojekt.cpp:319-322 | The first entry in key order with the least count carries the map's minimum. Its key comes before every other key with that count. |
| Stats.CountryStats | mmarchutprojekt.cpp:302-325 | The highest result is the maximum nationality count, paired with the smallest nationality in key order that has it; the lowest result likewise for the minimum. With no players the results are `("", 0)` and `("", INT32_MAX)`. |

## Left out

- File access (`filebuf`, `istream`, the `getline(is, row)` reading of lines) is left out. A file is given as its lines, or `None` when it cannot be opened. Both passes are assumed to read the same lines.
- Console output and the `float` percentages (lines 168, 207, 257) are left out. The routines return the counts and the sum that is the denominator of the percentages.
- `main`, the three tables it loads and the `chrono` timing are left out. They only orchestrate and print.
- Counters and counts are unbounded integers. Overflow of the `int` fields `numColumns`, `numLines`, `currentColumn` and of the map counts is not modelled.
- CountryStats: requires fewer than `INT32_MAX` players. This keeps every count below the initial `lowest`; the source does not guard against it.
- LoadData: on an exception from `stoi` it returns only the error. In the source, the caller's vector keeps the records pushed before the failing line; the model does not return that partly extended vector.
- Sorting.Sort: `std::sort` is not stable, so the model's insertion sort is specified only by sortedness and permutation. The order among tied elements is not stated.
- CsvTable.CsvFile.ReadCell: requires the grid to have its recorded shape for coordinates inside the table. After `cleanMemory`, such a read indexes an empty vector, which is undefined behaviour in the source.
- Stats.TieGroups, Stats.FirstLastAge, Stats.FirstLastOverall: require a list whose values are not all equal. On an empty list or a constant list, the source's walks read out of bounds.
- Keys are modelled as sequences of characters compared by code, not as byte strings.
- IntParse.Stoi: models ASCII white space and decimal digits only. Locale-dependent white space and the `pos`/`base` parameters of `std::stoi` are not modelled.
