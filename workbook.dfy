/** The second half of the main block (parse_files.py:93-118): one sheet per
    balance name, in ascending name order, with one row per record of 25
    hour cells and a sign cell; and the whole run, from the discovered files
    to the warnings and the sheets. */
module Workbook {
  import opened Wrappers
  import opened Text
  import opened Sequences
  import opened BalanceFile
  import opened Aggregation

  /** `MAX_HOURS` (parse_files.py:12): the number of hour columns of a sheet. */
  const MaxHours: nat := 25

  /** One cell of a row: a missing value (`None`), a reading, or the sign summary. */
  datatype Cell<R> = Blank | Reading(value: R) | Signs(text: string)

  /** A column header: an hour number, or `"sign"`. */
  datatype Column = Hour(number: nat) | SignColumn

  /** One sheet as handed to the spreadsheet writer: its sheet name, the
      balance name written into its corner cell, the column headers, the row
      labels and the rows. */
  datatype Sheet<R> = Sheet(name: string, balance: string, columns: seq<Column>, labels: seq<string>, rows: seq<seq<Cell<R>>>)

  /** What one run produces: the warnings, in the order raised, and the sheets. */
  datatype Report<R> = Report(warnings: seq<Warning>, sheets: seq<Sheet<R>>)

  /** `list(range(1, MAX_HOURS + 1)) + ["sign"]` (line 98). */
  const Columns: seq<Column> := seq(MaxHours, k requires 0 <= k < MaxHours => Hour(k + 1)) + [SignColumn]

  lemma ColumnsLayout()
    ensures |Columns| == MaxHours + 1
    ensures forall k :: 0 <= k < MaxHours ==> Columns[k] == Hour(k + 1)
    ensures Columns[MaxHours] == SignColumn
  {
  }

  /** `" ".join(sorted(set(signs)))` (line 110). */
  function SignSummary(signs: seq<string>): string
  {
    Join(SortedSet(signs), " ")
  }

  /** A record without signs (no data lines) gets an empty sign cell, which
      splits into one empty token. */
  lemma SignSummaryEmpty()
    ensures SignSummary([]) == ""
    ensures Split(SignSummary([]), ' ') == [""]
  {
    assert SortedSet([]) == [];
  }

  /** When no sign holds a space, the sign cell can be split back into its
      tokens: every sign of the record once, ascending. A sign is the text
      after the comma of a data line, so a line such as `1.0, +` gives the
      sign ` +`, which this lemma does not cover; the cell itself is still
      fixed for every input by `SignSummary`, `Text.SortedSet` and
      `Text.StrictlySortedUnique`. */
  lemma SignSummaryTokens(signs: seq<string>)
    requires signs != []
    requires forall i :: 0 <= i < |signs| ==> ' ' !in signs[i]
    ensures StrictlySorted(Split(SignSummary(signs), ' '))
    ensures forall t :: t in Split(SignSummary(signs), ' ') <==> t in signs
  {
    var tokens := SortedSet(signs);
    assert signs[0] in tokens;
    forall i | 0 <= i < |tokens| ensures ' ' !in tokens[i] {
      assert tokens[i] in signs;
    }
    SplitJoin(tokens, ' ');
  }

  /** The cell layout of lines 103-110 for a record: 25 hour cells and the
      sign cell. With exactly 23 readings a blank goes in at the third hour
      and the last hour is blank; otherwise the first readings, at most 25,
      fill the hours from the first and the rest are blank. */
  ghost predicate IsRow<R>(row: seq<Cell<R>>, numbers: seq<R>, signs: seq<string>)
  {
    && |row| == MaxHours + 1
    && row[MaxHours] == Signs(SignSummary(signs))
    && if |numbers| == 23 then
         && row[2] == Blank && row[24] == Blank
         && (forall k :: 0 <= k < 2 ==> row[k] == Reading(numbers[k]))
         && (forall k :: 3 <= k < 24 ==> row[k] == Reading(numbers[k - 1]))
       else
         forall k :: 0 <= k < MaxHours ==> row[k] == if k < |numbers| then Reading(numbers[k]) else Blank
  }

  /** The layout determines the row. */
  lemma RowUnique<R>(a: seq<Cell<R>>, b: seq<Cell<R>>, numbers: seq<R>, signs: seq<string>)
    requires IsRow(a, numbers, signs) && IsRow(b, numbers, signs)
    ensures a == b
  {
    forall k | 0 <= k < |a| ensures a[k] == b[k] {
      if |numbers| == 23 && k < MaxHours {
        if k < 2 {
        } else if k == 2 || k == 24 {
        } else {
          assert 3 <= k < 24;
        }
      }
    }
  }

  /** The readings a sequence of cells shows, left to right. */
  function ReadingsOf<R>(cells: seq<Cell<R>>): seq<R>
  {
    if cells == [] then []
    else ReadingsOf(cells[..|cells| - 1]) + (match cells[|cells| - 1] case Reading(x) => [x] case _ => [])
  }

  lemma {:induction false} ReadingsOfAppend<R>(a: seq<Cell<R>>, b: seq<Cell<R>>)
    ensures ReadingsOf(a + b) == ReadingsOf(a) + ReadingsOf(b)
  {
    if b == [] {
      assert a + b == a;
    } else {
      var init := b[..|b| - 1];
      ReadingsOfAppend(a, init);
      assert (a + b)[..|a + b| - 1] == a + init;
    }
  }

  /** Cells that show exactly `xs`, in order, read back as `xs`. */
  lemma {:induction false} ReadingsOfReadings<R>(cells: seq<Cell<R>>, xs: seq<R>)
    requires |cells| == |xs| && forall k :: 0 <= k < |xs| ==> cells[k] == Reading(xs[k])
    ensures ReadingsOf(cells) == xs
  {
    if xs != [] {
      ReadingsOfReadings(cells[..|cells| - 1], xs[..|xs| - 1]);
      assert xs == xs[..|xs| - 1] + [xs[|xs| - 1]];
    }
  }

  /** Blank cells show nothing. */
  lemma {:induction false} ReadingsOfBlanks<R>(cells: seq<Cell<R>>)
    requires forall k :: 0 <= k < |cells| ==> cells[k] == Blank
    ensures ReadingsOf(cells) == []
  {
    if cells != [] {
      ReadingsOfBlanks(cells[..|cells| - 1]);
    }
  }

  /** The hour cells of a row show the first readings of the record, at most
      25, in order, and nothing else: readings beyond the 25th are dropped. */
  lemma RowKeepsReadings<R>(row: seq<Cell<R>>, numbers: seq<R>, signs: seq<string>)
    requires IsRow(row, numbers, signs)
    ensures ReadingsOf(row[..MaxHours]) == numbers[..if |numbers| < MaxHours then |numbers| else MaxHours]
  {
    if |numbers| == 23 {
      ShortDayReadings(row, numbers, signs);
    } else {
      var hours := row[..MaxHours];
      var m := if |numbers| < MaxHours then |numbers| else MaxHours;
      assert hours == hours[..m] + hours[m..];
      ReadingsOfAppend(hours[..m], hours[m..]);
      ReadingsOfReadings(hours[..m], numbers[..m]);
      ReadingsOfBlanks(hours[m..]);
    }
  }

  /** The 23-reading case of `RowKeepsReadings`: the blank at the third hour
      and the one at the end hide no reading. */
  lemma ShortDayReadings<R>(row: seq<Cell<R>>, numbers: seq<R>, signs: seq<string>)
    requires IsRow(row, numbers, signs) && |numbers| == 23
    ensures ReadingsOf(row[..MaxHours]) == numbers
  {
    var hours := row[..MaxHours];
    var blank: seq<Cell<R>> := [Blank];
    assert hours == hours[..2] + blank + hours[3..24] + blank;
    ReadingsOfAppend(hours[..2] + blank + hours[3..24], blank);
    ReadingsOfAppend(hours[..2] + blank, hours[3..24]);
    ReadingsOfAppend(hours[..2], blank);
    ReadingsOfReadings(hours[..2], numbers[..2]);
    ReadingsOfReadings(hours[3..24], numbers[2..]);
    ReadingsOfBlanks(blank);
    assert numbers == numbers[..2] + numbers[2..];
  }

  /** The row of one record (lines 103-110): its readings cut to 25, a blank
      inserted at the third hour when exactly 23 remain, blanks up to 25
      hours, and the sign summary at the end. */
  method BuildRow<R>(numbers: seq<R>, signs: seq<string>) returns (row: seq<Cell<R>>)
    ensures IsRow(row, numbers, signs)
  {
    var kept := numbers[..if |numbers| < MaxHours then |numbers| else MaxHours];
    row := seq(|kept|, k requires 0 <= k < |kept| => Reading(kept[k]));
    if |row| == 23 {
      row := row[..2] + [Blank] + row[2..];
    }
    row := row + seq(MaxHours - |row|, _ => Blank);
    row := row + [Signs(SignSummary(signs))];
  }

  /** The sheet with number `number` (counting from 1) for the sorted list
      `group` of the balance `balance`, as lines 98-115 lay it out. */
  ghost predicate Shows<R>(sheet: Sheet<R>, number: nat, balance: string, group: seq<Balance<R>>, formatDate: Date -> string)
    requires Dated(group)
  {
    && sheet.name == "sheet_" + Decimal(number)
    && sheet.balance == balance
    && sheet.columns == Columns
    && |sheet.labels| == |group| && |sheet.rows| == |group|
    && (forall j :: 0 <= j < |group| ==> sheet.labels[j] == formatDate(group[j].date.value))
    && (forall j :: 0 <= j < |group| ==> IsRow(sheet.rows[j], group[j].numbers, group[j].signs))
  }

  /** One sheet of lines 98-115: the row labels are the record dates
      rendered by `formatDate` (strftime), the rows are built one by one. */
  method BuildSheet<R>(number: nat, balance: string, group: seq<Balance<R>>, formatDate: Date -> string) returns (sheet: Sheet<R>)
    requires Dated(group)
    ensures Shows(sheet, number, balance, group, formatDate)
  {
    var labels := seq(|group|, j requires 0 <= j < |group| => formatDate(group[j].date.value));
    var rows: seq<seq<Cell<R>>> := [];
    var j := 0;
    while j < |group|
      invariant j <= |group| && |rows| == j
      invariant forall k :: 0 <= k < j ==> IsRow(rows[k], group[k].numbers, group[k].signs)
    {
      var row := BuildRow(group[j].numbers, group[j].signs);
      rows := rows + [row];
      j := j + 1;
    }
    sheet := Sheet("sheet_" + Decimal(number), balance, Columns, labels, rows);
  }

  /** The sheets of lines 95-118 for the lists `groups` with key order
      `names`: one per name, in ascending name order, numbered from 1. */
  ghost predicate Renders<R>(sheets: seq<Sheet<R>>, names: seq<string>, groups: map<string, seq<Balance<R>>>, formatDate: Date -> string)
  {
    var order := SortedSet(names);
    && |sheets| == |order|
    && forall i :: 0 <= i < |sheets| ==>
         order[i] in groups && Dated(groups[order[i]]) &&
         Shows(sheets[i], i + 1, order[i], groups[order[i]], formatDate)
  }

  /** The loop of lines 95-118 over the lists in ascending name order. */
  method BuildSheets<R>(names: seq<string>, groups: map<string, seq<Balance<R>>>, formatDate: Date -> string) returns (sheets: seq<Sheet<R>>)
    requires forall n :: n in names ==> n in groups && Dated(groups[n])
    ensures Renders(sheets, names, groups, formatDate)
  {
    var order := SortedSet(names);
    sheets := [];
    var i := 0;
    while i < |order|
      invariant i <= |order| && |sheets| == i
      invariant forall k :: 0 <= k < i ==>
        order[k] in groups && Dated(groups[order[k]]) &&
        Shows(sheets[k], k + 1, order[k], groups[order[k]], formatDate)
    {
      var name := order[i];
      assert name in names;
      var sheet := BuildSheet(i + 1, name, groups[name], formatDate);
      sheets := sheets + [sheet];
      i := i + 1;
    }
  }

  /** The sheets hold every balance name once, in strictly ascending order,
      under pairwise different sheet names. */
  lemma SheetsInNameOrder<R>(sheets: seq<Sheet<R>>, names: seq<string>, groups: map<string, seq<Balance<R>>>, formatDate: Date -> string)
    requires Renders(sheets, names, groups, formatDate)
    ensures forall i, j :: 0 <= i < j < |sheets| ==> Less(sheets[i].balance, sheets[j].balance)
    ensures forall n :: n in names <==> exists i :: 0 <= i < |sheets| && sheets[i].balance == n
    ensures forall i, j :: 0 <= i < j < |sheets| ==> sheets[i].name != sheets[j].name
  {
    var order := SortedSet(names);
    forall n | n in names ensures exists i :: 0 <= i < |sheets| && sheets[i].balance == n {
      var i :| 0 <= i < |order| && order[i] == n;
      assert sheets[i].balance == n;
    }
    forall i, j | 0 <= i < j < |sheets| ensures sheets[i].name != sheets[j].name {
      var a, b := sheets[i].name, sheets[j].name;
      if a == b {
        var prefix := "sheet_";
        assert a == prefix + Decimal(i + 1) && b == prefix + Decimal(j + 1);
        assert Decimal(i + 1) == a[|prefix|..] == b[|prefix|..] == Decimal(j + 1);
        DecimalInjective(i + 1, j + 1);
        assert false;
      }
    }
    forall i | 0 <= i < |sheets| ensures sheets[i].balance in names {
      assert sheets[i].balance == order[i];
    }
  }

  /** The sorted list of `name`, whose records become the rows of its sheet,
      is in date order, and records of one date keep their file order. */
  lemma RowsInDateOrder<R>(records: seq<Balance<R>>, name: string)
    requires name in GroupsOf(records) && Dated(GroupsOf(records)[name])
    ensures SortedByDate(SortedGroups(GroupsOf(records))[name])
    ensures forall d :: WithDate(SortedGroups(GroupsOf(records))[name], d) == WithDate(ByName(records, name), d)
  {
    GroupsOfByName(records);
  }

  /** The whole run (parse_files.py:69-120) on the discovered files: collect
      and check the records, then lay out the sheets. */
  method Run<R>(p: Parsers<R>, formatDate: Date -> string, files: seq<InputFile>) returns (r: Result<Report<R>, RunError>)
    ensures r.Failure? <==> exists i :: 0 <= i < |files| && Hourless(p, files[i])
    ensures r.Failure? ==> exists i :: (0 <= i < |files| && Hourless(p, files[i]) &&
      (forall j :: 0 <= j < i ==> !Hourless(p, files[j])) &&
      r.error == MissingHours(files[i].path, FileWarnings(p, files[..i])))
    ensures r.Success? ==>
      var records := Parsed(p, files);
      var groups := SortedGroups(GroupsOf(records));
      && r.value.warnings == FileWarnings(p, files) + GroupWarnings(NameOrder(records), groups)
      && Renders(r.value.sheets, NameOrder(records), groups, formatDate)
  {
    var collected := Collect(p, files);
    if collected.Failure? {
      return Failure(collected.error);
    }
    var c := collected.value;
    var groups, warnings := CheckGroups(c);
    forall n | n in c.names ensures n in groups && Dated(groups[n]) {
      assert groups[n] == SortByDate(c.groups[n]);
    }
    var sheets := BuildSheets(c.names, groups, formatDate);
    r := Success(Report(c.warnings + warnings, sheets));
  }
}
