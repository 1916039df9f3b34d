# Balance-file parser and workbook layout, modelled in Dafny

`parse_files.py` turns a set of daily balance files into a spreadsheet. Each
file parses to one record:

- the balance name, from the lines before the first date line;
- the date;
- the declared hour count;
- the readings and their sign codes, one pair per data line;
- a trailing `unknown` line.

The records go into a `defaultdict(list)` keyed by name. Each list is sorted
by date and checked for repeated dates and for inconsistent reading counts.
Every list then becomes one sheet:

- sheets are numbered in ascending name order;
- each row holds 25 hour cells and a sign cell;
- a 23-reading day gets a blank third hour.

The model has five modules:

- `BalanceFile` holds `read_file` as a loop over the stripped lines
  (`ReadFile`). The loop is proved equal to a phase-by-phase statement of
  the result (`ReadFileSpec`).
- `BalanceFileProperties` holds what the parser promises about that result.
- `Aggregation` holds the loop over the files, the in-place sort of each
  list and the warnings.
- `Workbook` holds the row and sheet layout and the whole run (`Run`).
- `Text` and `Sequences` hold the Python string and list operations the
  code relies on: `split`, `join`, string order, `sorted(set(...))`, `str(n)`
  and `len(set(...))`.

The library recognisers `datetime.strptime`, `int` and `float` are
abstract partial functions, passed in as a `Parsers` value. A reading has
an opaque type `R`. `strftime` is a `Date -> string` parameter. Warnings
are values in a list, in the order the program raises them.

Four behaviours of the code are easy to miss, and the model states them:

- The hour-column width is the fixed constant `MAX_HOURS = 25`
  (parse_files.py:12). Every sheet has 25 hour columns, whatever hour count
  its records declare.
- A file with fewer data lines than it declares is not an error. The lists
  are just shorter (parse_files.py:39-45).
- A file without a date line is not a parse failure either. `read_file`
  returns the initial dictionary, whose `hours` is None. The same holds for
  a file that ends right after its date line. The hour check
  `abs(file_dict["hours"] - 24)` (parse_files.py:79) then raises TypeError
  and the run stops. This is `RunError.MissingHours`, naming the first such
  file and carrying the warnings raised before it.
- A 23-reading day keeps all 23 readings: a blank is inserted at index 2
  and the padding leaves the last hour blank (parse_files.py:105-108).

## Model

| member | source | states |
|---|---|---|
| `BalanceFile.DateLe` | parse_files.py:84 | the comparison of `datetime` values the sort uses; stated by `BalanceFile.DateLeTotalOrder` |
| `BalanceFile.DateLeTotalOrder` | parse_files.py:84 | the date order is reflexive, total, antisymmetric and transitive, so the sort by date is well defined |
| `BalanceFile.Initial` | parse_files.py:19-26 | the dictionary `read_file` starts from; what a file without a date line returns is stated by `BalanceFileProperties.NoDateLine` |
| `BalanceFile.ReadFileSpec` | parse_files.py:15-46 | the phase-wise statement of what `read_file` returns; it carries no contract of its own, and `ReadFile` and the `BalanceFileProperties` lemmas state its properties |
| `BalanceFile.FirstDate` | parse_files.py:30-36 | the index found is the first line that reads as a date; none is found exactly when no line reads as a date |
| `BalanceFile.FirstDateUnique` | parse_files.py:30-36 | the first date line is unique, so a later date-like line never becomes the date |
| `BalanceFile.DataLines` | parse_files.py:39-43 | a successful data phase gives one reading and one sign per line; a failure is a bad reading or a missing sign |
| `BalanceFile.DataLine` | parse_files.py:41-43 | the parse of one data line; its cases are stated by `BalanceFileProperties.DataLineCases` |
| `BalanceFile.DataCount` | parse_files.py:39-40 | the data phase takes `min(max(h, 0), available)` lines: none when the count is not positive, never more than the declared count nor more than remain, and all that remain when fewer than declared |
| `BalanceFile.DataLinesFailurePersists` | parse_files.py:39-43 | once a data line fails, every longer run of data lines fails with the same error |
| `BalanceFile.ReadFile` | parse_files.py:15-46 | the line-by-line loop over `found_date`, `hour_counter` and the record returns exactly the phase-wise result `ReadFileSpec`, including its three error cases |
| `BalanceFileProperties.DataLinesAt` | parse_files.py:39-43 | entry `j` of the readings and of the signs comes from data line `j`, in file order |
| `BalanceFileProperties.DataLinesFirstFailure` | parse_files.py:41-43 | the first failing data line decides the error |
| `BalanceFileProperties.DataLinesAllSucceed` | parse_files.py:41-43 | if every data line parses, the data phase succeeds |
| `BalanceFileProperties.DataLineCases` | parse_files.py:41-43 | a data line fails on its reading exactly when `float` refuses the first field, fails on its sign exactly when it has no comma, and otherwise yields the second field; fields after a second comma are ignored |
| `BalanceFileProperties.ReadingsAndSignsParallel` | parse_files.py:37-45 | `numbers` and `signs` have equal length; with no hour count both are empty and `unknown` is None; with a count `h` there are at most `max(h, 0)` entries and a date is present |
| `BalanceFileProperties.NoDateLine` | parse_files.py:19-36 | a file with no date line yields the initial record: empty name, no date, no hours, empty lists, no unknown |
| `BalanceFileProperties.NameAndDate` | parse_files.py:30-36 | the name is the `_`-join of the lines before the first date line, and the date is that line's parse |
| `BalanceFileProperties.HourLine` | parse_files.py:37-38 | the line after the date is the hour count: the file may end there with no hours, `int` refusing it fails the parse, and otherwise it is `hours` |
| `BalanceFileProperties.DataPhase` | parse_files.py:39-45 | with `h` declared, exactly `min(h, lines left)` entries are read (none when `h <= 0`); entry `j` comes from line `k + 2 + j`; `unknown` is the last line after them, or None |
| `BalanceFileProperties.FirstBadDataLine` | parse_files.py:39-43 | the first data line within the declared count that does not parse fails the whole file with its error |
| `BalanceFileProperties.AllDataLinesParse` | parse_files.py:37-45 | if every data line within the declared count parses, the file parses, with the declared hours and one reading per data line read, even when the file has fewer lines than declared |
| `Text.Split` | parse_files.py:41 | `split(",")` yields at least one piece and no piece contains the separator |
| `Text.JoinSplit` | parse_files.py:41 | joining the pieces of a split with the separator gives back the line |
| `Text.Join` | parse_files.py:34 | `"_".join` and `" ".join`; its inverse is stated by `Text.JoinSplit` and `Text.SplitJoin` |
| `Text.SplitJoin` | parse_files.py:110 | splitting a join of separator-free pieces gives back the pieces |
| `Text.SplitHasSecond` | parse_files.py:41-43 | `nums[1]` exists exactly when the line holds a comma |
| `Text.Less` | parse_files.py:96 | Python's code-point order on strings; its order laws are stated by the three lemmas below |
| `Text.LessIrreflexive` | parse_files.py:96 | Python's string `<` is irreflexive |
| `Text.LessTransitive` | parse_files.py:96 | Python's string `<` is transitive |
| `Text.LessTotal` | parse_files.py:96 | any two different strings are ordered one way or the other |
| `Text.Insert` | parse_files.py:110 | inserting into an ascending repetition-free list keeps it so and adds exactly the new element |
| `Text.SortedSet` | parse_files.py:110 | `sorted(set(xs))` is strictly ascending and has exactly the elements of `xs` |
| `Text.StrictlySortedUnique` | parse_files.py:110 | two strictly ascending lists with the same elements are equal, so `sorted(set(xs))` is determined |
| `Text.Decimal` | parse_files.py:115 | `str(n)` is a non-empty string of decimal digits, one digit exactly when `n < 10` |
| `Text.DecimalValue` | parse_files.py:115 | the digits of `str(n)` read back as `n`, with no leading zero for `n > 0` |
| `Text.DecimalInjective` | parse_files.py:115 | different numbers render differently |
| `Sequences.Elements` | parse_files.py:86 | `set(xs)`, also at lines 88 and 110; its size is stated by `Sequences.ElementsCount` and `Sequences.ElementsSingleton` |
| `Sequences.ElementsCount` | parse_files.py:86 | `len(set(xs)) <= len(xs)`, with equality exactly when no value repeats |
| `Sequences.ElementsSingleton` | parse_files.py:88 | for a non-empty list, `len(set(xs)) != 1` exactly when two entries differ |
| `Aggregation.WrongHours` | parse_files.py:79 | `abs(hours - 24) > 1`; its use is stated by `Aggregation.FileWarningsExact` |
| `Aggregation.Hourless` | parse_files.py:79 | the file parses to a record whose `hours` is None, so line 79 raises; its use is stated by `Aggregation.Collect` |
| `Aggregation.FileWarning` | parse_files.py:75-80 | the warnings one file raises in the loop; stated by `Aggregation.FileWarningsExact` |
| `Aggregation.FileWarnings` | parse_files.py:72-80 | the warnings of the files in discovery order; stated by `Aggregation.FileWarningsIn` |
| `Aggregation.Parsed` | parse_files.py:72-80 | the records of the files that parse, in discovery order; stated by `Aggregation.ParsedAreTheSuccesses` and `Aggregation.ParsedSnoc` |
| `Aggregation.NameOrder` | parse_files.py:71-78 | the insertion order of the dictionary's keys; stated by `Aggregation.NameOrderDistinct` and `Aggregation.GroupsOfByName` |
| `Aggregation.GroupsOf` | parse_files.py:71-78 | the `defaultdict(list)` after the appends of line 78; stated by `Aggregation.GroupsOfByName` and `Aggregation.GroupsOfSnoc` |
| `Aggregation.NameOrderDistinct` | parse_files.py:71-78 | the dictionary's key order lists each record name once and nothing else |
| `Aggregation.ByName` | parse_files.py:78 | the list under a name holds only records of that name, drawn from the records; it is empty for a name no record has |
| `Aggregation.GroupsOfSnoc` | parse_files.py:78 | appending a record extends the list of its name, or opens a new key at the end of the key order |
| `Aggregation.GroupsOfByName` | parse_files.py:71-78 | the dictionary's keys are exactly the key order, and each list holds the records of its name in file order |
| `Aggregation.ByNameComplete` | parse_files.py:78 | every record is in the list of its own name |
| `Aggregation.ByNameExact` | parse_files.py:78 | each record lands in the list of its name as often as it occurs, and in no other list |
| `Aggregation.ParsedSnoc` | parse_files.py:72-80 | one more file adds its record, or nothing if it fails; it adds the incorrect-file warning on failure and the wrong-hours warning when the hours are off |
| `Aggregation.ParsedAreDated` | parse_files.py:79 | when no file lacks an hour count, every collected record has hours and a date |
| `Aggregation.ParsedAreTheSuccesses` | parse_files.py:72-78 | a record reaches the dictionary exactly when some file parses to it |
| `Aggregation.FileWarningsExact` | parse_files.py:75-80 | a path is warned about as incorrect exactly when its file fails to parse, and for wrong hours exactly when its hours are more than one away from 24 |
| `Aggregation.FileWarningsIn` | parse_files.py:75-80 | a warning is raised by the loop exactly when one of the files raises it |
| `Aggregation.Collect` | parse_files.py:71-80 | the run stops exactly when some file has no hour count, naming the first such file and the warnings raised for the files before it; otherwise it yields the key order, the dictionary of the parsed records and the file warnings, all well formed |
| `Aggregation.CollectedStep` | parse_files.py:72-80 | one turn of the loop: a failing file adds only its warning, a file without hours stops the run as the first such file with the warnings so far, and any other file extends the key order, its name's list and the warnings |
| `Aggregation.CollectedAll` | parse_files.py:71-80 | after the last file the loop holds the key order, dictionary and warnings of all files, well formed |
| `Aggregation.CollectedWellFormed` | parse_files.py:71-80 | the collected key order is repetition-free and matches the keys; every list is non-empty and dated |
| `Aggregation.AppendedAsWritten` | parse_files.py:73-78 | as written, the run stops with NameError exactly when the first file fails; otherwise there is one appended record per file, a file that parses appends its own record and a failing file appends the same record as the file before it |
| `Aggregation.AppendedAfter` | parse_files.py:73-78 | with `file_dict` holding `previous`: the result is missing exactly when nothing is held and the first file fails; otherwise there is one record per file, a parsed file contributes its own record, a failing file repeats the record before it, and a failing first file appends `previous` |
| `Aggregation.StaleRecordAppendedTwice` | parse_files.py:73-87 | as written, a parsed file followed by a failing one appends the first record twice, and that alone raises the repeated-date warning |
| `Aggregation.FailedFileAddsNothing` | parse_files.py:73-78 | in the corrected loop, a failing file adds no record and a parsing one adds exactly its own |
| `Aggregation.Dates` | parse_files.py:85 | `[b["date"] for b in balance]`: one entry per record, entry `i` the date of record `i` |
| `Aggregation.Sizes` | parse_files.py:88 | `[len(b["numbers"]) for b in balance]`: one entry per record, entry `i` the reading count of record `i` |
| `Aggregation.HasRepeatingDates` | parse_files.py:85-86 | `len(set(all_dates)) != len(all_dates)`; stated by `Aggregation.RepeatingDatesExact` |
| `Aggregation.HasDifferentSizes` | parse_files.py:88 | `len(set(sizes)) != 1`; stated by `Aggregation.DifferentSizesExact` |
| `Aggregation.RepeatingDatesExact` | parse_files.py:85-87 | the repeated-date warning fires exactly when two records of the list share a date |
| `Aggregation.DifferentSizesExact` | parse_files.py:88-91 | for a non-empty list, the size warning fires exactly when two records have different numbers of readings |
| `Aggregation.InsertByDate` | parse_files.py:84 | inserting a dated record into a date-ordered list keeps it ordered and adds exactly that record |
| `Aggregation.InsertBeforeLast` | parse_files.py:84 | when the new record goes before the last one, the last record can follow the rest with the new record inserted |
| `Aggregation.SortedInit` | parse_files.py:84 | dropping the last record keeps the date order |
| `Aggregation.LastIsLatest` | parse_files.py:84 | the last record of a date-ordered list is dated no earlier than any other |
| `Aggregation.SortedSnoc` | parse_files.py:84 | appending a record dated no earlier than the rest keeps the date order |
| `Aggregation.InsertByDateStable` | parse_files.py:84 | insertion puts the record after all records of its date and leaves the other dates untouched |
| `Aggregation.StableBeforeLast` | parse_files.py:84 | the records of one date are unchanged by moving a later-dated record behind the inserted one |
| `Aggregation.WithDateSnoc` | parse_files.py:84 | appending a record adds it to the records of its own date and to no other date |
| `Aggregation.SortByDate` | parse_files.py:84 | the stable sort by date yields a date-ordered permutation of the list in which records of equal date keep their order |
| `Aggregation.GroupWarning` | parse_files.py:86-91 | the warnings of one list; stated by `Aggregation.GroupWarningsHas` |
| `Aggregation.GroupWarnings` | parse_files.py:83-91 | the warnings of the lists in key order; stated by `Aggregation.GroupWarningsHas` and `Aggregation.GroupWarningsExact` |
| `Aggregation.GroupWarningsFrame` | parse_files.py:83-91 | the list warnings depend only on the lists of the names checked |
| `Aggregation.GroupWarningsExact` | parse_files.py:83-91 | a name gets the repeated-date warning exactly when two of its records share a date, and the size warning exactly when two of its records differ in reading count |
| `Aggregation.GroupWarningsHas` | parse_files.py:83-91 | a name gets a list warning exactly when it is checked and its list fails that check |
| `Aggregation.SortedUpToStep` | parse_files.py:83-84 | sorting the next list in key order leaves every other list as it was |
| `Aggregation.CheckGroups` | parse_files.py:83-91 | every list ends up sorted by date in place, and the warnings are those of the sorted lists in key order |
| `Aggregation.SortedWarningsAreGroupWarnings` | parse_files.py:83-91 | checking each list as it is sorted gives the warnings of the sorted dictionary |
| `Aggregation.SortedAll` | parse_files.py:83-84 | after the loop every list is its sorted original |
| `Aggregation.SortedEverywhere` | parse_files.py:83-84 | the dictionary after the loop is the dictionary with each list sorted |
| `Aggregation.SortedGroups` | parse_files.py:83-84 | sorting keeps the keys, and each dated list becomes a date-ordered permutation of itself |
| `Workbook.ColumnsLayout` | parse_files.py:98 | the constant `Columns` is the hours 1 to 25, then `sign` |
| `Workbook.SignSummary` | parse_files.py:110 | `" ".join(sorted(set(signs)))`; stated by `Workbook.SignSummaryTokens` and fixed by `Text.SortedSet` and `Text.StrictlySortedUnique` |
| `Workbook.SignSummaryEmpty` | parse_files.py:110 | a record without signs gets the empty sign cell, which splits into one empty token |
| `Workbook.SignSummaryTokens` | parse_files.py:110 | for a record with at least one sign, none holding a space, the sign cell splits back into the record's distinct signs, ascending |
| `Workbook.IsRow` | parse_files.py:103-110 | the cell layout of one row; `Workbook.BuildRow` meets it, `Workbook.RowUnique` shows it fixes the row, `Workbook.RowKeepsReadings` what it shows |
| `Workbook.RowUnique` | parse_files.py:103-110 | the cell layout fixes the row completely |
| `Workbook.ReadingsOfAppend` | parse_files.py:103-108 | the readings shown by two runs of cells are those of each, in order |
| `Workbook.ReadingsOfReadings` | parse_files.py:103 | cells holding readings show exactly those readings |
| `Workbook.ReadingsOfBlanks` | parse_files.py:106-108 | blank cells show no reading |
| `Workbook.RowKeepsReadings` | parse_files.py:103-108 | the hour cells show the first readings, at most 25, in order, and nothing else |
| `Workbook.ShortDayReadings` | parse_files.py:105-108 | with 23 readings, the two inserted blanks hide no reading: the hour cells show all 23 in order |
| `Workbook.BuildRow` | parse_files.py:103-110 | a row has 26 cells with the sign summary last; with 23 readings, cell 2 and cell 24 are blank and the readings fill cells 0-1 and 3-23; otherwise the first `min(n, 25)` cells are the readings and the other hour cells are blank |
| `Workbook.BuildSheet` | parse_files.py:98-115 | a sheet is named `sheet_<i>`, has the 26 columns, labels each row with its record's formatted date and lays out each row per record |
| `Workbook.BuildSheets` | parse_files.py:95-118 | one sheet per name in ascending name order, numbered from 1, each showing that name's list |
| `Workbook.SheetsInNameOrder` | parse_files.py:95-115 | sheet balance names are strictly ascending, cover every name exactly once, and sheet names are pairwise different |
| `Workbook.RowsInDateOrder` | parse_files.py:84-101 | the records behind a sheet's rows are in date order, and those of one date keep file order |
| `Workbook.Run` | parse_files.py:69-118 | the run stops exactly when some file lacks an hour count, naming the first and the warnings raised before it; otherwise the warnings are the file warnings and then the list warnings of the sorted dictionary, and the sheets lay out the sorted lists in name order |

## Left out

- Command-line parsing (`parse_args`), file discovery with `glob`, opening and reading of files and `line.strip()`. A file is given as its path and its already-stripped lines, in discovery order.
- The `input('Press ENTER to close...')` prompts (parse_files.py:77, 120). They wait for the user; with standard input at end of file they raise EOFError, which at line 77 would end the run at the first failing file. The model treats them as returning.
- pandas and xlsxwriter. The model stops at the data handed to `DataFrame` (labels, columns, rows) and the sheet name. The write of the balance name into cell A1 is kept only as the sheet's `balance` field.
- The real behaviour of `strptime("%d-%m-%Y")`, `int`, `float` and `strftime`. These are library parsers and formatters, so they are abstract parameters. The model proves nothing about which texts they accept.
- Floating-point readings. They are only copied, so their type is opaque.
- The `warn` calls as side effects. Warnings are values, appended in the order raised.
- The exception path at parse_files.py:73-78 as the program runs it. The model uses the corrected behaviour, which skips a failing file after its warning. The as-written behaviour is kept under Findings.
- `Aggregation.SortedGroups`: for a list holding an undated record the result keeps the list unsorted, where Python would raise comparing None with a date. Such a list cannot reach the sort, because line 79 stops the run first.

## Findings

| source | as written | input that shows it | evidently intended | confidence | as-written member | corrected member |
|---|---|---|---|---|---|---|
| parse_files.py:73-78 | after `read_file` raises, the loop goes on to append `file_dict`. That is the previous file's record, or an unbound name when no file has parsed yet | a file that parses followed by a file whose hour line is not an integer: the first record is appended twice, so its balance gets a spurious repeated-date warning | a failing file is skipped after its warning | not executed | `Aggregation.StaleRecordAppendedTwice` | `Aggregation.Collect` |
