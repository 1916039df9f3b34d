/** `read_file`: the line-driven parser of one balance file
    (parse_files.py:15-46).

    A file is a sequence of already-stripped lines: name lines up to the
    first line that reads as a `DD-MM-YYYY` date, then the hour count, then
    up to that many `reading,sign` lines; every later line overwrites the
    `unknown` slot. The library recognisers `datetime.strptime`, `int` and
    `float` are abstract partial functions handed in as `Parsers`. */
module BalanceFile {
  import opened Wrappers
  import opened Text

  /** A calendar date as `strptime` produces it (at midnight). */
  datatype Date = Date(day: int, month: int, year: int)

  /** Chronological order of dates: by year, then month, then day. */
  predicate DateLe(a: Date, b: Date)
  {
    a.year < b.year ||
    (a.year == b.year && (a.month < b.month || (a.month == b.month && a.day <= b.day)))
  }

  /** `DateLe` is a total order, as Python's comparison of dates is. */
  lemma DateLeTotalOrder(a: Date, b: Date, c: Date)
    ensures DateLe(a, a)
    ensures DateLe(a, b) || DateLe(b, a)
    ensures DateLe(a, b) && DateLe(b, a) ==> a == b
    ensures DateLe(a, b) && DateLe(b, c) ==> DateLe(a, c)
  {
  }

  /** The dictionary `read_file` returns; readings have the opaque type `R`. */
  datatype Balance<R> = Balance(
    name: string,
    date: Option<Date>,
    numbers: seq<R>,
    signs: seq<string>,
    unknown: Option<string>,
    hours: Option<int>)

  /** The exception that ends `read_file`: `int` refusing the hour line
      (ValueError), `float` refusing a reading (ValueError), or a data line
      without a comma (IndexError on `nums[1]`). */
  datatype ParseError = BadHourCount(line: string) | BadReading(line: string) | MissingSign(line: string)

  /** The recognisers `datetime.strptime(_, "%d-%m-%Y")`, `int` and `float`,
      each answering `None` where the library raises ValueError. */
  datatype Parsers<R> = Parsers(date: string -> Option<Date>, integer: string -> Option<int>, reading: string -> Option<R>)

  /** The dictionary as initialised at parse_files.py:19-26. */
  function Initial<R>(): Balance<R>
  {
    Balance("", None, [], [], None, None)
  }

  /** Line `k` is the first line that reads as a date. */
  predicate IsFirstDate<R>(p: Parsers<R>, lines: seq<string>, k: nat)
  {
    k < |lines| && p.date(lines[k]).Some? && forall i :: 0 <= i < k ==> p.date(lines[i]).None?
  }

  /** The index of the first date line, if there is one. */
  function FirstDate<R>(p: Parsers<R>, lines: seq<string>): (k: Option<nat>)
    ensures k.Some? ==> IsFirstDate(p, lines, k.value)
    ensures k.None? ==> forall i :: 0 <= i < |lines| ==> p.date(lines[i]).None?
  {
    if lines == [] then None
    else if p.date(lines[0]).Some? then Some(0)
    else match FirstDate(p, lines[1..])
      case None =>
        assert forall i :: 0 < i < |lines| ==> lines[i] == lines[1..][i - 1];
        None
      case Some(k) =>
        assert forall i :: 0 < i <= k ==> lines[i] == lines[1..][i - 1];
        Some(k + 1)
  }

  lemma FirstDateUnique<R>(p: Parsers<R>, lines: seq<string>, j: nat, k: nat)
    requires IsFirstDate(p, lines, j) && IsFirstDate(p, lines, k)
    ensures j == k
  {
  }

  /** One data line, `nums = line.split(",")`, gives the reading `float(nums[0])`
      and the sign `nums[1]`; the reading is converted first. */
  function DataLine<R>(p: Parsers<R>, line: string): Result<(R, string), ParseError>
  {
    var fields := Split(line, ',');
    match p.reading(fields[0])
    case None => Failure(BadReading(line))
    case Some(x) => if |fields| < 2 then Failure(MissingSign(line)) else Success((x, fields[1]))
  }

  /** The data lines in file order, stopping at the first one that fails. */
  function DataLines<R>(p: Parsers<R>, ls: seq<string>): (r: Result<(seq<R>, seq<string>), ParseError>)
    ensures r.Success? ==> |r.value.0| == |ls| && |r.value.1| == |ls|
    ensures r.Failure? ==> r.error.BadReading? || r.error.MissingSign?
  {
    if ls == [] then Success(([], []))
    else
      match DataLines(p, ls[..|ls| - 1])
      case Failure(e) => Failure(e)
      case Success(prefix) =>
        match DataLine(p, ls[|ls| - 1])
        case Failure(e) => Failure(e)
        case Success(cell) => Success((prefix.0 + [cell.0], prefix.1 + [cell.1]))
  }

  /** How many lines the data phase consumes when `hours` is declared and
      `available` lines follow the hour line: `hour_counter < hours` admits
      a line as data. */
  function DataCount(hours: int, available: nat): (n: nat)
    ensures n <= available
    ensures n == available || n == hours || (hours <= 0 && n == 0)
    ensures hours <= 0 ==> n == 0
    ensures hours > 0 ==> n <= hours
  {
    if hours <= 0 then 0 else if hours < available then hours else available
  }

  /** What `read_file` returns for `lines`, stated phase by phase rather than
      line by line: the name lines are those before the first date line, the
      hour line follows it, the data lines follow that, and the unknown slot
      holds the last line after the data lines. */
  function ReadFileSpec<R>(p: Parsers<R>, lines: seq<string>): Result<Balance<R>, ParseError>
  {
    match FirstDate(p, lines)
    case None => Success(Initial())
    case Some(k) =>
      var name := Join(lines[..k], "_");
      var date := p.date(lines[k]);
      if k + 1 == |lines| then Success(Balance(name, date, [], [], None, None))
      else
        match p.integer(lines[k + 1])
        case None => Failure(BadHourCount(lines[k + 1]))
        case Some(h) =>
          var n := DataCount(h, |lines| - k - 2);
          match DataLines(p, lines[k + 2..k + 2 + n])
          case Failure(e) => Failure(e)
          case Success(cells) =>
            var unknown := if k + 2 + n < |lines| then Some(lines[|lines| - 1]) else None;
            Success(Balance(name, date, cells.0, cells.1, unknown, Some(h)))
  }

  /** Once a line of a prefix fails, the parse of the longer sequence fails
      with the same error. */
  lemma {:induction false} DataLinesFailurePersists<R>(p: Parsers<R>, ls: seq<string>, m: nat)
    requires m <= |ls|
    requires DataLines(p, ls[..m]).Failure?
    ensures DataLines(p, ls) == DataLines(p, ls[..m])
    decreases |ls|
  {
    if m < |ls| {
      var init := ls[..|ls| - 1];
      assert init[..m] == ls[..m];
      DataLinesFailurePersists(p, init, m);
    } else {
      assert ls[..m] == ls;
    }
  }

  /** Extending the data lines by one line. */
  lemma DataLinesSnoc<R>(p: Parsers<R>, ls: seq<string>, line: string)
    ensures DataLines(p, ls + [line]) ==
      match DataLines(p, ls)
      case Failure(e) => Failure(e)
      case Success(prefix) =>
        match DataLine(p, line)
        case Failure(e) => Failure(e)
        case Success(cell) => Success((prefix.0 + [cell.0], prefix.1 + [cell.1]))
  {
    assert (ls + [line])[..|ls|] == ls;
  }

  lemma SpecNoDate<R>(p: Parsers<R>, lines: seq<string>)
    requires forall i :: 0 <= i < |lines| ==> p.date(lines[i]).None?
    ensures ReadFileSpec(p, lines) == Success(Initial())
  {
  }

  lemma SpecEndsAfterDate<R>(p: Parsers<R>, lines: seq<string>, k: nat)
    requires IsFirstDate(p, lines, k) && k + 1 == |lines|
    ensures ReadFileSpec(p, lines) == Success(Balance(Join(lines[..k], "_"), p.date(lines[k]), [], [], None, None))
  {
    FirstDateUnique(p, lines, k, FirstDate(p, lines).value);
  }

  lemma SpecBadHourCount<R>(p: Parsers<R>, lines: seq<string>, k: nat)
    requires IsFirstDate(p, lines, k) && k + 1 < |lines| && p.integer(lines[k + 1]).None?
    ensures ReadFileSpec(p, lines) == Failure(BadHourCount(lines[k + 1]))
  {
    FirstDateUnique(p, lines, k, FirstDate(p, lines).value);
  }

  lemma SpecDataFailure<R>(p: Parsers<R>, lines: seq<string>, k: nat, h: int, m: nat)
    requires IsFirstDate(p, lines, k) && k + 1 < |lines| && p.integer(lines[k + 1]) == Some(h)
    requires m <= DataCount(h, |lines| - k - 2)
    requires DataLines(p, lines[k + 2..k + 2 + m]).Failure?
    ensures ReadFileSpec(p, lines) == Failure(DataLines(p, lines[k + 2..k + 2 + m]).error)
  {
    FirstDateUnique(p, lines, k, FirstDate(p, lines).value);
    var ls := lines[k + 2..k + 2 + DataCount(h, |lines| - k - 2)];
    assert ls[..m] == lines[k + 2..k + 2 + m];
    DataLinesFailurePersists(p, ls, m);
  }

  lemma SpecSuccess<R>(p: Parsers<R>, lines: seq<string>, k: nat, h: int, numbers: seq<R>, signs: seq<string>, unknown: Option<string>)
    requires IsFirstDate(p, lines, k) && k + 1 < |lines| && p.integer(lines[k + 1]) == Some(h)
    requires DataLines(p, lines[k + 2..k + 2 + DataCount(h, |lines| - k - 2)]) == Success((numbers, signs))
    requires unknown == if k + 2 + DataCount(h, |lines| - k - 2) < |lines| then Some(lines[|lines| - 1]) else None
    ensures ReadFileSpec(p, lines) == Success(Balance(Join(lines[..k], "_"), p.date(lines[k]), numbers, signs, unknown, Some(h)))
  {
    FirstDateUnique(p, lines, k, FirstDate(p, lines).value);
  }

  /** The state of the loop of `read_file` after the first `i` lines:
      `at` is the index of the date line once `foundDate` holds. */
  ghost predicate Scanned<R>(p: Parsers<R>, lines: seq<string>, i: nat, foundDate: bool, at: nat,
                             hourCounter: nat, data: Balance<R>, names: seq<string>)
  {
    && i <= |lines|
    && (!foundDate ==>
          data == Initial() && names == lines[..i] && hourCounter == 0 &&
          forall j :: 0 <= j < i ==> p.date(lines[j]).None?)
    && (foundDate ==>
          at < i && IsFirstDate(p, lines, at) &&
          data.name == Join(lines[..at], "_") && data.date == p.date(lines[at]))
    && (foundDate && data.hours.None? ==>
          i == at + 1 && hourCounter == 0 && data.numbers == [] && data.signs == [] && data.unknown.None?)
    && (data.hours.Some? ==>
          foundDate && at + 2 <= i &&
          p.integer(lines[at + 1]) == data.hours &&
          hourCounter == DataCount(data.hours.value, i - at - 2) &&
          DataLines(p, lines[at + 2..at + 2 + hourCounter]) == Success((data.numbers, data.signs)) &&
          data.unknown == if at + 2 + hourCounter < i then Some(lines[i - 1]) else None)
  }

  lemma StepName<R>(p: Parsers<R>, lines: seq<string>, i: nat, at: nat, data: Balance<R>, names: seq<string>)
    requires Scanned(p, lines, i, false, at, 0, data, names) && i < |lines| && p.date(lines[i]).None?
    ensures Scanned(p, lines, i + 1, false, at, 0, data, names + [lines[i]])
  {
    assert lines[..i + 1] == lines[..i] + [lines[i]];
  }

  lemma StepDate<R>(p: Parsers<R>, lines: seq<string>, i: nat, at: nat, data: Balance<R>, names: seq<string>)
    requires Scanned(p, lines, i, false, at, 0, data, names) && i < |lines| && p.date(lines[i]).Some?
    ensures Scanned(p, lines, i + 1, true, i, 0,
                    data.(date := p.date(lines[i]), name := data.name + Join(names, "_")), names)
  {
  }

  lemma StepHours<R>(p: Parsers<R>, lines: seq<string>, i: nat, at: nat, data: Balance<R>, names: seq<string>, h: int)
    requires Scanned(p, lines, i, true, at, 0, data, names) && i < |lines|
    requires data.hours.None? && p.integer(lines[i]) == Some(h)
    ensures Scanned(p, lines, i + 1, true, at, 0, data.(hours := Some(h)), names)
  {
  }

  lemma StepBadHours<R>(p: Parsers<R>, lines: seq<string>, i: nat, at: nat, data: Balance<R>, names: seq<string>)
    requires Scanned(p, lines, i, true, at, 0, data, names) && i < |lines|
    requires data.hours.None? && p.integer(lines[i]).None?
    ensures ReadFileSpec(p, lines) == Failure(BadHourCount(lines[i]))
  {
    SpecBadHourCount(p, lines, at);
  }

  lemma StepData<R>(p: Parsers<R>, lines: seq<string>, i: nat, at: nat, hourCounter: nat,
                    data: Balance<R>, names: seq<string>, x: R, sign: string)
    requires Scanned(p, lines, i, true, at, hourCounter, data, names) && i < |lines|
    requires data.hours.Some? && hourCounter < data.hours.value
    requires DataLine(p, lines[i]) == Success((x, sign))
    ensures Scanned(p, lines, i + 1, true, at, hourCounter + 1,
                    data.(numbers := data.numbers + [x], signs := data.signs + [sign]), names)
  {
    var ls := lines[at + 2..at + 2 + hourCounter];
    assert lines[at + 2..at + 2 + hourCounter + 1] == ls + [lines[i]];
    DataLinesSnoc(p, ls, lines[i]);
  }

  lemma StepDataFailure<R>(p: Parsers<R>, lines: seq<string>, i: nat, at: nat, hourCounter: nat,
                           data: Balance<R>, names: seq<string>)
    requires Scanned(p, lines, i, true, at, hourCounter, data, names) && i < |lines|
    requires data.hours.Some? && hourCounter < data.hours.value
    requires DataLine(p, lines[i]).Failure?
    ensures ReadFileSpec(p, lines) == Failure(DataLine(p, lines[i]).error)
  {
    var h := data.hours.value;
    assert i == at + 2 + hourCounter by {
      assert hourCounter == DataCount(h, i - at - 2) < h;
    }
    var ls := lines[at + 2..at + 2 + hourCounter];
    assert lines[at + 2..at + 2 + hourCounter + 1] == ls + [lines[i]];
    DataLinesSnoc(p, ls, lines[i]);
    assert hourCounter + 1 <= DataCount(h, |lines| - at - 2);
    SpecDataFailure(p, lines, at, h, hourCounter + 1);
  }

  lemma StepUnknown<R>(p: Parsers<R>, lines: seq<string>, i: nat, at: nat, hourCounter: nat,
                       data: Balance<R>, names: seq<string>)
    requires Scanned(p, lines, i, true, at, hourCounter, data, names) && i < |lines|
    requires data.hours.Some? && hourCounter >= data.hours.value
    ensures Scanned(p, lines, i + 1, true, at, hourCounter, data.(unknown := Some(lines[i])), names)
  {
  }

  lemma Finished<R>(p: Parsers<R>, lines: seq<string>, foundDate: bool, at: nat, hourCounter: nat,
                    data: Balance<R>, names: seq<string>)
    requires Scanned(p, lines, |lines|, foundDate, at, hourCounter, data, names)
    ensures ReadFileSpec(p, lines) == Success(data)
  {
    if !foundDate {
      SpecNoDate(p, lines);
    } else if data.hours.None? {
      SpecEndsAfterDate(p, lines, at);
    } else {
      SpecSuccess(p, lines, at, data.hours.value, data.numbers, data.signs, data.unknown);
    }
  }

  /** The loop of parse_files.py:29-45 over the lines of one file. */
  method ReadFile<R>(p: Parsers<R>, lines: seq<string>) returns (r: Result<Balance<R>, ParseError>)
    ensures r == ReadFileSpec(p, lines)
  {
    var foundDate := false;
    var hourCounter: nat := 0;
    var data: Balance<R> := Initial();
    var names: seq<string> := [];
    ghost var at: nat := 0;
    var i := 0;
    while i < |lines|
      invariant Scanned(p, lines, i, foundDate, at, hourCounter, data, names)
    {
      var line := lines[i];
      if !foundDate {
        var d := p.date(line);
        if d.Some? {
          StepDate(p, lines, i, at, data, names);
          foundDate := true;
          data := data.(date := d, name := data.name + Join(names, "_"));
          at := i;
        } else {
          StepName(p, lines, i, at, data, names);
          names := names + [line];
        }
      } else if data.hours.None? {
        var h := p.integer(line);
        if h.None? {
          StepBadHours(p, lines, i, at, data, names);
          return Failure(BadHourCount(line));
        }
        StepHours(p, lines, i, at, data, names, h.value);
        data := data.(hours := Some(h.value));
      } else if hourCounter < data.hours.value {
        var cell := DataLine(p, line);
        if cell.Failure? {
          StepDataFailure(p, lines, i, at, hourCounter, data, names);
          return Failure(cell.error);
        }
        StepData(p, lines, i, at, hourCounter, data, names, cell.value.0, cell.value.1);
        hourCounter := hourCounter + 1;
        data := data.(numbers := data.numbers + [cell.value.0], signs := data.signs + [cell.value.1]);
      } else {
        StepUnknown(p, lines, i, at, hourCounter, data, names);
        data := data.(unknown := Some(line));
      }
      i := i + 1;
    }
    Finished(p, lines, foundDate, at, hourCounter, data, names);
    return Success(data);
  }
}

/** What `read_file` promises about the dictionary it returns. */
module BalanceFileProperties {
  import opened Wrappers
  import opened Text
  import opened BalanceFile

  /** Each parsed data line contributes its reading and its sign, in file order. */
  lemma {:induction false} DataLinesAt<R>(p: Parsers<R>, ls: seq<string>)
    requires DataLines(p, ls).Success?
    ensures forall j :: 0 <= j < |ls| ==>
      DataLine(p, ls[j]) == Success((DataLines(p, ls).value.0[j], DataLines(p, ls).value.1[j]))
  {
    if ls != [] {
      var init := ls[..|ls| - 1];
      DataLinesAt(p, init);
      forall j | 0 <= j < |ls| - 1 ensures ls[j] == init[j] { }
    }
  }

  /** The first data line that fails decides the error. */
  lemma {:induction false} DataLinesFirstFailure<R>(p: Parsers<R>, ls: seq<string>, m: nat)
    requires m < |ls|
    requires forall j :: 0 <= j < m ==> DataLine(p, ls[j]).Success?
    requires DataLine(p, ls[m]).Failure?
    ensures DataLines(p, ls) == Failure(DataLine(p, ls[m]).error)
  {
    var prefix := ls[..m];
    DataLinesAllSucceed(p, prefix);
    assert ls[..m + 1] == prefix + [ls[m]];
    DataLinesSnoc(p, prefix, ls[m]);
    assert ls[..m + 1][..m + 1] == ls[..m + 1];
    DataLinesFailurePersists(p, ls, m + 1);
  }

  lemma {:induction false} DataLinesAllSucceed<R>(p: Parsers<R>, ls: seq<string>)
    requires forall j :: 0 <= j < |ls| ==> DataLine(p, ls[j]).Success?
    ensures DataLines(p, ls).Success?
  {
    if ls != [] {
      var init := ls[..|ls| - 1];
      forall j | 0 <= j < |init| ensures DataLine(p, init[j]).Success? { assert init[j] == ls[j]; }
      DataLinesAllSucceed(p, init);
    }
  }

  /** A data line fails on its reading when `float` refuses the text before
      the first comma, fails on its sign when there is no comma, and otherwise
      yields the second comma-separated field as its sign: fields after a
      second comma are ignored. */
  lemma DataLineCases<R>(p: Parsers<R>, line: string)
    ensures DataLine(p, line) == Failure(BadReading(line)) <==> p.reading(Split(line, ',')[0]).None?
    ensures DataLine(p, line) == Failure(MissingSign(line)) <==>
      p.reading(Split(line, ',')[0]).Some? && ',' !in line
    ensures DataLine(p, line).Success? ==>
      ',' in line &&
      Some(DataLine(p, line).value.0) == p.reading(Split(line, ',')[0]) &&
      DataLine(p, line).value.1 == Split(line, ',')[1]
  {
    SplitHasSecond(line, ',');
  }

  /** `numbers` and `signs` have equal length; without an hour line both are
      empty, and with one they hold at most `hours` entries (none when the
      declared count is not positive). */
  lemma ReadingsAndSignsParallel<R>(p: Parsers<R>, lines: seq<string>)
    requires ReadFileSpec(p, lines).Success?
    ensures var b := ReadFileSpec(p, lines).value;
      && |b.numbers| == |b.signs|
      && (b.hours.None? ==> b.numbers == [] && b.unknown.None?)
      && (b.hours.Some? ==> b.date.Some? && |b.numbers| <= if b.hours.value < 0 then 0 else b.hours.value)
  {
  }

  /** A file without a date line yields the initial dictionary. */
  lemma NoDateLine<R>(p: Parsers<R>, lines: seq<string>)
    requires forall i :: 0 <= i < |lines| ==> p.date(lines[i]).None?
    ensures ReadFileSpec(p, lines) == Success(Initial())
  {
    SpecNoDate(p, lines);
  }

  /** `name` joins with `_` the lines before the first date line, and `date`
      is what that line parses to; later date-like lines play no part. */
  lemma NameAndDate<R>(p: Parsers<R>, lines: seq<string>, k: nat)
    requires IsFirstDate(p, lines, k)
    requires ReadFileSpec(p, lines).Success?
    ensures ReadFileSpec(p, lines).value.name == Join(lines[..k], "_")
    ensures ReadFileSpec(p, lines).value.date == p.date(lines[k])
  {
    FirstDateUnique(p, lines, k, FirstDate(p, lines).value);
  }

  /** The line after the date line is the hour count: the file ends there
      with no hours, `int` refusing it fails the parse, and otherwise it is
      the `hours` of the result. */
  lemma HourLine<R>(p: Parsers<R>, lines: seq<string>, k: nat)
    requires IsFirstDate(p, lines, k)
    ensures k + 1 == |lines| ==>
      ReadFileSpec(p, lines) == Success(Balance(Join(lines[..k], "_"), p.date(lines[k]), [], [], None, None))
    ensures k + 1 < |lines| && p.integer(lines[k + 1]).None? ==>
      ReadFileSpec(p, lines) == Failure(BadHourCount(lines[k + 1]))
    ensures k + 1 < |lines| && p.integer(lines[k + 1]).Some? ==>
      match ReadFileSpec(p, lines)
      case Success(b) => b.hours == p.integer(lines[k + 1])
      case Failure(e) => !e.BadHourCount?
  {
    FirstDateUnique(p, lines, k, FirstDate(p, lines).value);
  }

  /** With the hour count `h` declared on line `k + 1`, the data lines are
      the next `h` lines, or as many as the file still has: a file shorter
      than declared is not an error. Entry `j` of the result comes from line
      `k + 2 + j`; `unknown` is the last line after them, or None. */
  lemma DataPhase<R>(p: Parsers<R>, lines: seq<string>, k: nat, h: int)
    requires IsFirstDate(p, lines, k) && k + 1 < |lines| && p.integer(lines[k + 1]) == Some(h)
    requires ReadFileSpec(p, lines).Success?
    ensures var b := ReadFileSpec(p, lines).value;
      && |b.numbers| == (if h <= 0 then 0 else if h < |lines| - k - 2 then h else |lines| - k - 2)
      && (forall j :: 0 <= j < |b.numbers| ==>
            DataLine(p, lines[k + 2 + j]) == Success((b.numbers[j], b.signs[j])))
      && b.unknown == if k + 2 + |b.numbers| < |lines| then Some(lines[|lines| - 1]) else None
  {
    FirstDateUnique(p, lines, k, FirstDate(p, lines).value);
    var n := DataCount(h, |lines| - k - 2);
    var ls := lines[k + 2..k + 2 + n];
    var cells := DataLines(p, ls);
    assert cells.Success? && ReadFileSpec(p, lines).value.numbers == cells.value.0 &&
      ReadFileSpec(p, lines).value.signs == cells.value.1 &&
      ReadFileSpec(p, lines).value.unknown == if k + 2 + n < |lines| then Some(lines[|lines| - 1]) else None;
    DataLinesAt(p, ls);
    assert forall j :: 0 <= j < n ==> ls[j] == lines[k + 2 + j];
  }

  /** When every data line within the declared count parses, the file is
      read successfully: running out of lines before the declared count is
      not an error, and the record holds one reading per data line read. */
  lemma AllDataLinesParse<R>(p: Parsers<R>, lines: seq<string>, k: nat, h: int)
    requires IsFirstDate(p, lines, k) && k + 1 < |lines| && p.integer(lines[k + 1]) == Some(h)
    requires forall i :: k + 2 <= i < k + 2 + DataCount(h, |lines| - k - 2) ==> DataLine(p, lines[i]).Success?
    ensures ReadFileSpec(p, lines).Success?
    ensures ReadFileSpec(p, lines).value.hours == Some(h)
    ensures |ReadFileSpec(p, lines).value.numbers| == DataCount(h, |lines| - k - 2)
  {
    FirstDateUnique(p, lines, k, FirstDate(p, lines).value);
    var n := DataCount(h, |lines| - k - 2);
    var ls := lines[k + 2..k + 2 + n];
    forall j | 0 <= j < |ls| ensures DataLine(p, ls[j]).Success? {
      assert ls[j] == lines[k + 2 + j];
    }
    DataLinesAllSucceed(p, ls);
  }

  /** The first data line within the declared count that does not parse
      fails the whole file with that line's error. */
  lemma FirstBadDataLine<R>(p: Parsers<R>, lines: seq<string>, k: nat, h: int, m: nat)
    requires IsFirstDate(p, lines, k) && k + 1 < |lines| && p.integer(lines[k + 1]) == Some(h)
    requires m < h && k + 2 + m < |lines|
    requires forall i :: k + 2 <= i < k + 2 + m ==> DataLine(p, lines[i]).Success?
    requires DataLine(p, lines[k + 2 + m]).Failure?
    ensures ReadFileSpec(p, lines) == Failure(DataLine(p, lines[k + 2 + m]).error)
  {
    FirstDateUnique(p, lines, k, FirstDate(p, lines).value);
    var ls := lines[k + 2..k + 2 + DataCount(h, |lines| - k - 2)];
    forall j | 0 <= j < m ensures DataLine(p, ls[j]).Success? {
      assert ls[j] == lines[k + 2 + j];
    }
    assert ls[m] == lines[k + 2 + m];
    DataLinesFirstFailure(p, ls, m);
  }
}
