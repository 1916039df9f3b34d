/** The first half of the main block (parse_files.py:71-91): every file is
    parsed and its record appended to the list kept under its name, each
    list is then sorted by date, and the consistency warnings are raised. */
module Aggregation {
  import opened Wrappers
  import opened Sequences
  import opened BalanceFile
  import opened BalanceFileProperties

  /** A discovered file: its path and its stripped lines. */
  datatype InputFile = InputFile(path: string, lines: seq<string>)

  /** The warnings the main block raises, in the order it raises them. */
  datatype Warning =
    | IncorrectFile(path: string)      // parse_files.py:76
    | WrongHourCount(path: string)     // parse_files.py:80
    | RepeatingDates(name: string)     // parse_files.py:87
    | DifferentSizes(name: string)     // parse_files.py:89-91

  /** `abs(hours - 24)` with `hours` None raises TypeError, which ends the run
      at file `path`, after the warnings already raised for the files before it. */
  datatype RunError = MissingHours(path: string, warnings: seq<Warning>)

  /** `abs(hours - 24) > 1`. */
  predicate WrongHours(hours: int)
  {
    (if hours < 24 then 24 - hours else hours - 24) > 1
  }

  /** The file parses to a record without an hour count (no date line, or
      nothing after it): the hour check on line 79 raises on it. */
  predicate Hourless<R>(p: Parsers<R>, f: InputFile)
  {
    ReadFileSpec(p, f.lines).Success? && ReadFileSpec(p, f.lines).value.hours.None?
  }

  /** The records of the files that parse, in discovery order; a file that
      fails to parse contributes nothing. */
  function Parsed<R>(p: Parsers<R>, files: seq<InputFile>): seq<Balance<R>>
  {
    if files == [] then []
    else
      Parsed(p, files[..|files| - 1]) +
      match ReadFileSpec(p, files[|files| - 1].lines)
      case Success(b) => [b]
      case Failure(_) => []
  }

  /** The warnings the loop of lines 72-80 raises for one file. */
  function FileWarning<R>(p: Parsers<R>, f: InputFile): seq<Warning>
  {
    match ReadFileSpec(p, f.lines)
    case Failure(_) => [IncorrectFile(f.path)]
    case Success(b) => if b.hours.Some? && WrongHours(b.hours.value) then [WrongHourCount(f.path)] else []
  }

  function FileWarnings<R>(p: Parsers<R>, files: seq<InputFile>): seq<Warning>
  {
    if files == [] then [] else FileWarnings(p, files[..|files| - 1]) + FileWarning(p, files[|files| - 1])
  }

  /** The keys of the `defaultdict`, in the order they were first used. */
  function NameOrder<R>(records: seq<Balance<R>>): seq<string>
  {
    if records == [] then []
    else
      var names := NameOrder(records[..|records| - 1]);
      var n := records[|records| - 1].name;
      if n in names then names else names + [n]
  }

  /** The key order lists every name of a record, once. */
  lemma {:induction false} NameOrderDistinct<R>(records: seq<Balance<R>>)
    ensures Distinct(NameOrder(records))
    ensures forall n :: n in NameOrder(records) <==> exists i :: 0 <= i < |records| && records[i].name == n
  {
    if records != [] {
      var init := records[..|records| - 1];
      NameOrderDistinct(init);
      assert forall i :: 0 <= i < |init| ==> init[i] == records[i];
      var names := NameOrder(init);
      var n := records[|records| - 1].name;
      if n !in names {
        var r := names + [n];
        forall i, j | 0 <= i < j < |r| ensures r[i] != r[j] {
          if j == |r| - 1 { assert r[i] in names; }
        }
      }
    }
  }

  /** The list kept under `name`: the records with that name, in order. */
  function ByName<R>(records: seq<Balance<R>>, name: string): (group: seq<Balance<R>>)
    ensures forall b :: b in group ==> b.name == name && b in records
    ensures (forall i :: 0 <= i < |records| ==> records[i].name != name) ==> group == []
  {
    if records == [] then []
    else
      var init := records[..|records| - 1];
      var last := records[|records| - 1];
      assert forall i :: 0 <= i < |init| ==> init[i] == records[i];
      assert forall b :: b in init ==> b in records;
      ByName(init, name) + if last.name == name then [last] else []
  }

  /** The `defaultdict(list)` after appending `records` one by one. */
  function GroupsOf<R>(records: seq<Balance<R>>): map<string, seq<Balance<R>>>
  {
    if records == [] then map[]
    else
      var groups := GroupsOf(records[..|records| - 1]);
      var b := records[|records| - 1];
      if b.name in groups then groups[b.name := groups[b.name] + [b]] else groups[b.name := [b]]
  }

  /** Appending one more record to the dictionary and its key order. */
  lemma GroupsOfSnoc<R>(records: seq<Balance<R>>, b: Balance<R>)
    ensures GroupsOf(records + [b]) ==
      var groups := GroupsOf(records);
      if b.name in groups then groups[b.name := groups[b.name] + [b]] else groups[b.name := [b]]
    ensures NameOrder(records + [b]) ==
      var names := NameOrder(records);
      if b.name in GroupsOf(records) then names else names + [b.name]
  {
    assert (records + [b])[..|records|] == records;
    GroupsOfByName(records);
  }

  /** The dictionary has a key for exactly the names in the key order, and
      the list under each name is the records of that name, in order. */
  lemma {:induction false} GroupsOfByName<R>(records: seq<Balance<R>>)
    ensures forall n :: n in GroupsOf(records) <==> n in NameOrder(records)
    ensures forall n :: n in GroupsOf(records) ==> GroupsOf(records)[n] == ByName(records, n)
  {
    if records != [] {
      var init := records[..|records| - 1];
      var last := records[|records| - 1];
      GroupsOfByName(init);
      NameOrderDistinct(init);
      assert records == init + [last];
      forall n | n in GroupsOf(records) ensures GroupsOf(records)[n] == ByName(records, n) {
        if n == last.name && n !in GroupsOf(init) {
          assert forall i :: 0 <= i < |init| ==> init[i].name != n;
          assert ByName(init, n) == [];
        } else if n != last.name {
          assert ByName(records, n) == ByName(init, n) + [];
        }
      }
    }
  }

  /** The dictionary and warnings the loop of lines 72-80 produces are valid:
      the key order lists every name once, and each list is non-empty, holds
      only records of its name, and only records with an hour count and a
      date. */
  ghost predicate WellFormed<R>(c: Collection<R>)
  {
    && Distinct(c.names)
    && (forall n :: n in c.groups <==> n in c.names)
    && (forall n :: n in c.groups ==> c.groups[n] != [] && Dated(c.groups[n]))
  }

  /** Every record of `s` has a date, so that the records compare. */
  predicate Dated<R>(s: seq<Balance<R>>)
  {
    forall i :: 0 <= i < |s| ==> s[i].date.Some?
  }

  /** The `defaultdict` with its key order, and the warnings of the loop. */
  datatype Collection<R> = Collection(names: seq<string>, groups: map<string, seq<Balance<R>>>, warnings: seq<Warning>)

  /** One more file: what it adds to the records and to the warnings,
      given its parse `res`. */
  lemma ParsedSnoc<R>(p: Parsers<R>, files: seq<InputFile>, i: nat, res: Result<Balance<R>, ParseError>)
    requires i < |files| && res == ReadFileSpec(p, files[i].lines)
    ensures Hourless(p, files[i]) <==> res.Success? && res.value.hours.None?
    ensures res.Failure? ==>
      Parsed(p, files[..i + 1]) == Parsed(p, files[..i]) &&
      FileWarnings(p, files[..i + 1]) == FileWarnings(p, files[..i]) + [IncorrectFile(files[i].path)]
    ensures res.Success? ==>
      Parsed(p, files[..i + 1]) == Parsed(p, files[..i]) + [res.value] &&
      FileWarnings(p, files[..i + 1]) == FileWarnings(p, files[..i]) +
        if res.value.hours.Some? && WrongHours(res.value.hours.value) then [WrongHourCount(files[i].path)] else []
  {
    assert files[..i + 1][..i] == files[..i];
  }

  /** The records of files without an hour-count problem all have an hour
      count and a date. */
  lemma {:induction false} ParsedAreDated<R>(p: Parsers<R>, files: seq<InputFile>)
    requires forall i :: 0 <= i < |files| ==> !Hourless(p, files[i])
    ensures forall b :: b in Parsed(p, files) ==> b.hours.Some? && b.date.Some?
  {
    if files != [] {
      var init := files[..|files| - 1];
      ParsedAreDated(p, init);
      var r := ReadFileSpec(p, files[|files| - 1].lines);
      if r.Success? {
        ReadingsAndSignsParallel(p, files[|files| - 1].lines);
      }
    }
  }

  /** The loop of parse_files.py:72-80, with a file that fails to parse
      skipped after its warning. */
  method Collect<R>(p: Parsers<R>, files: seq<InputFile>) returns (r: Result<Collection<R>, RunError>)
    ensures r.Failure? <==> exists i :: 0 <= i < |files| && Hourless(p, files[i])
    ensures r.Failure? ==> exists i :: (0 <= i < |files| && Hourless(p, files[i]) &&
      (forall j :: 0 <= j < i ==> !Hourless(p, files[j])) &&
      r.error == MissingHours(files[i].path, FileWarnings(p, files[..i])))
    ensures r.Success? ==>
      r.value.names == NameOrder(Parsed(p, files)) &&
      r.value.groups == GroupsOf(Parsed(p, files)) &&
      r.value.warnings == FileWarnings(p, files) &&
      WellFormed(r.value)
  {
    var names: seq<string> := [];
    var groups: map<string, seq<Balance<R>>> := map[];
    var warnings: seq<Warning> := [];
    var i := 0;
    while i < |files|
      invariant i <= |files|
      invariant Collected(p, files, i, names, groups, warnings)
    {
      var f := files[i];
      var parsed := ReadFile(p, f.lines);
      CollectedStep(p, files, i, parsed, names, groups, warnings);
      if parsed.Failure? {
        warnings := warnings + [IncorrectFile(f.path)];
      } else {
        var b := parsed.value;
        if b.hours.None? {
          return Failure(MissingHours(f.path, warnings));
        }
        if b.name in groups {
          groups := groups[b.name := groups[b.name] + [b]];
        } else {
          names := names + [b.name];
          groups := groups[b.name := [b]];
        }
        if WrongHours(b.hours.value) {
          warnings := warnings + [WrongHourCount(f.path)];
        }
      }
      i := i + 1;
    }
    CollectedAll(p, files, names, groups, warnings);
    r := Success(Collection(names, groups, warnings));
  }

  /** The state of the loop of lines 72-80 after the first `i` files: none
      of them lacks an hour count, and the key order, the dictionary and the
      warnings are those of their records. */
  ghost predicate Collected<R>(p: Parsers<R>, files: seq<InputFile>, i: nat, names: seq<string>,
                               groups: map<string, seq<Balance<R>>>, warnings: seq<Warning>)
  {
    && i <= |files|
    && (forall j :: 0 <= j < i ==> !Hourless(p, files[j]))
    && names == NameOrder(Parsed(p, files[..i]))
    && groups == GroupsOf(Parsed(p, files[..i]))
    && warnings == FileWarnings(p, files[..i])
  }

  /** One turn of the loop of lines 72-80, given the parse `res` of file `i`. */
  lemma CollectedStep<R>(p: Parsers<R>, files: seq<InputFile>, i: nat, res: Result<Balance<R>, ParseError>,
                         names: seq<string>, groups: map<string, seq<Balance<R>>>, warnings: seq<Warning>)
    requires i < |files| && res == ReadFileSpec(p, files[i].lines)
    requires Collected(p, files, i, names, groups, warnings)
    ensures res.Failure? ==> Collected(p, files, i + 1, names, groups, warnings + [IncorrectFile(files[i].path)])
    ensures res.Success? && res.value.hours.None? ==>
      Hourless(p, files[i]) && (forall j :: 0 <= j < i ==> !Hourless(p, files[j])) &&
      warnings == FileWarnings(p, files[..i])
    ensures res.Success? && res.value.hours.Some? ==>
      var b := res.value;
      Collected(p, files, i + 1,
        if b.name in groups then names else names + [b.name],
        if b.name in groups then groups[b.name := groups[b.name] + [b]] else groups[b.name := [b]],
        warnings + if WrongHours(b.hours.value) then [WrongHourCount(files[i].path)] else [])
  {
    ParsedSnoc(p, files, i, res);
    if res.Success? {
      GroupsOfSnoc(Parsed(p, files[..i]), res.value);
    }
  }

  /** After the last file, the loop's state is that of the whole run. */
  lemma CollectedAll<R>(p: Parsers<R>, files: seq<InputFile>, names: seq<string>,
                        groups: map<string, seq<Balance<R>>>, warnings: seq<Warning>)
    requires Collected(p, files, |files|, names, groups, warnings)
    ensures forall j :: 0 <= j < |files| ==> !Hourless(p, files[j])
    ensures names == NameOrder(Parsed(p, files)) && groups == GroupsOf(Parsed(p, files))
    ensures warnings == FileWarnings(p, files)
    ensures WellFormed(Collection(names, groups, warnings))
  {
    assert files[..|files|] == files;
    CollectedWellFormed(p, files, names, groups, warnings);
  }

  lemma CollectedWellFormed<R>(p: Parsers<R>, files: seq<InputFile>, names: seq<string>,
                               groups: map<string, seq<Balance<R>>>, warnings: seq<Warning>)
    requires forall j :: 0 <= j < |files| ==> !Hourless(p, files[j])
    requires names == NameOrder(Parsed(p, files)) && groups == GroupsOf(Parsed(p, files))
    ensures WellFormed(Collection(names, groups, warnings))
  {
    ParsedAreDated(p, files);
    GroupsOfByName(Parsed(p, files));
    NameOrderDistinct(Parsed(p, files));
    forall n | n in groups ensures groups[n] != [] && Dated(groups[n]) {
      var records := Parsed(p, files);
      var k :| 0 <= k < |records| && records[k].name == n;
      ByNameComplete(records, n, k);
      forall j | 0 <= j < |groups[n]| ensures groups[n][j].date.Some? {
        assert groups[n][j] in records;
      }
    }
  }

  /** A record is in the list of its own name. */
  lemma {:induction false} ByNameComplete<R>(records: seq<Balance<R>>, name: string, k: nat)
    requires k < |records| && records[k].name == name
    ensures records[k] in ByName(records, name)
  {
    if k < |records| - 1 {
      var init := records[..|records| - 1];
      ByNameComplete(init, name, k);
    }
  }

  /** Each record lands in the list of its name, as often as it occurs, and
      in no other list. */
  lemma {:induction false} ByNameExact<R>(records: seq<Balance<R>>, name: string, b: Balance<R>)
    ensures multiset(ByName(records, name))[b] == if b.name == name then multiset(records)[b] else 0
  {
    if records != [] {
      var init := records[..|records| - 1];
      ByNameExact(init, name, b);
      assert records == init + [records[|records| - 1]];
    }
  }

  /** A record reaches the dictionary exactly when its file parses. */
  lemma {:induction false} ParsedAreTheSuccesses<R>(p: Parsers<R>, files: seq<InputFile>, b: Balance<R>)
    ensures b in Parsed(p, files) <==> exists i :: 0 <= i < |files| && ReadFileSpec(p, files[i].lines) == Success(b)
  {
    if files != [] {
      var init := files[..|files| - 1];
      ParsedAreTheSuccesses(p, init, b);
      if exists i :: 0 <= i < |files| && ReadFileSpec(p, files[i].lines) == Success(b) {
        var i :| 0 <= i < |files| && ReadFileSpec(p, files[i].lines) == Success(b);
        if i < |files| - 1 { assert init[i] == files[i]; }
      }
      if exists i :: 0 <= i < |init| && ReadFileSpec(p, init[i].lines) == Success(b) {
        var i :| 0 <= i < |init| && ReadFileSpec(p, init[i].lines) == Success(b);
        assert files[i] == init[i];
      }
    }
  }

  /** A file is warned about as incorrect exactly when it fails to parse,
      and for a wrong hour count exactly when it parses with `hours` more
      than one away from 24. */
  lemma {:induction false} FileWarningsExact<R>(p: Parsers<R>, files: seq<InputFile>, path: string)
    ensures IncorrectFile(path) in FileWarnings(p, files) <==>
      exists i :: 0 <= i < |files| && files[i].path == path && ReadFileSpec(p, files[i].lines).Failure?
    ensures WrongHourCount(path) in FileWarnings(p, files) <==>
      exists i :: 0 <= i < |files| && files[i].path == path && ReadFileSpec(p, files[i].lines).Success? &&
        ReadFileSpec(p, files[i].lines).value.hours.Some? && WrongHours(ReadFileSpec(p, files[i].lines).value.hours.value)
  {
    FileWarningsIn(p, files, IncorrectFile(path));
    FileWarningsIn(p, files, WrongHourCount(path));
  }

  /** A warning is raised by the run exactly when one of its files raises it. */
  lemma {:induction false} FileWarningsIn<R>(p: Parsers<R>, files: seq<InputFile>, w: Warning)
    ensures w in FileWarnings(p, files) <==> exists i :: 0 <= i < |files| && w in FileWarning(p, files[i])
  {
    if files != [] {
      var init := files[..|files| - 1];
      FileWarningsIn(p, init, w);
      assert forall i :: 0 <= i < |init| ==> init[i] == files[i];
    }
  }

  /** As line 78 is written: after a parse fails, `file_dict` still holds
      the previous file's record and that is appended again; if no file has
      parsed yet it is unbound and the run stops with NameError (None). */
  function AppendedAsWritten<R>(results: seq<Result<Balance<R>, ParseError>>): (r: Option<seq<Balance<R>>>)
    ensures r.None? <==> results != [] && results[0].Failure?
    ensures r.Some? ==> |r.value| == |results|
    ensures r.Some? ==> forall i :: 0 <= i < |results| && results[i].Success? ==> r.value[i] == results[i].value
    ensures r.Some? ==> forall i :: 0 < i < |results| && results[i].Failure? ==> r.value[i] == r.value[i - 1]
  {
    AppendedAfter(None, results)
  }

  /** The records line 78 appends for `results`, when `file_dict` holds
      `previous` before the first of them: a parse that succeeds appends its
      own record, a failed one the record `file_dict` still holds. */
  function AppendedAfter<R>(previous: Option<Balance<R>>, results: seq<Result<Balance<R>, ParseError>>): (r: Option<seq<Balance<R>>>)
    ensures r.None? <==> previous.None? && results != [] && results[0].Failure?
    ensures r.Some? ==> |r.value| == |results|
    ensures r.Some? ==> forall i :: 0 <= i < |results| && results[i].Success? ==> r.value[i] == results[i].value
    ensures r.Some? ==> forall i :: 0 < i < |results| && results[i].Failure? ==> r.value[i] == r.value[i - 1]
    ensures r.Some? && results != [] && results[0].Failure? ==> r.value[0] == previous.value
    decreases |results|
  {
    if results == [] then Some([])
    else
      var current := if results[0].Success? then Some(results[0].value) else previous;
      if current.None? then None
      else
        var rest := AppendedAfter(current, results[1..]);
        assert rest.Some?;
        var r := [current.value] + rest.value;
        assert forall i :: 0 < i < |results| ==> r[i] == rest.value[i - 1] && results[i] == results[1..][i - 1];
        assert |results| > 1 && results[1].Failure? ==> rest.value[0] == current.value;
        Some(r)
  }

  /** A file that parses followed by one that does not: as written, the
      first record is appended twice, which alone raises the repeated-date
      warning. */
  lemma StaleRecordAppendedTwice<R>(a: Balance<R>, e: ParseError)
    ensures AppendedAsWritten([Success(a), Failure(e)]) == Some([a, a])
    ensures HasRepeatingDates([a, a]) && !HasRepeatingDates([a])
  {
    var ra: Result<Balance<R>, ParseError> := Success(a);
    var rb: Result<Balance<R>, ParseError> := Failure(e);
    var rs := [ra, rb];
    var tail := [rb];
    assert rs[1..] == tail && tail[1..] == [];
    assert AppendedAfter(Some(a), tail[1..]) == Some([]);
    var prev: Option<Balance<R>> := Some(a);
    assert !tail[0].Success?;
    var rest := AppendedAfter(prev, tail[1..]);
    assert rest == Some([]);
    assert [prev.value] + rest.value == [a];
    assert AppendedAfter(prev, tail) == Some([a]);
    assert AppendedAfter(None, rs) == Some([a] + [a]);
    assert [a] + [a] == [a, a];
    assert Dates([a, a]) == [a.date, a.date];
    assert Elements(Dates([a, a])) == {a.date};
    var one := [a];
    assert Dates(one) == [a.date];
    assert Elements(Dates(one)) == {a.date};
    assert |Elements(Dates(one))| == 1 == |one|;
  }

  /** The corrected loop: a file that fails to parse adds no record, and one
      that parses adds exactly its own. */
  lemma FailedFileAddsNothing<R>(p: Parsers<R>, files: seq<InputFile>, f: InputFile)
    ensures ReadFileSpec(p, f.lines).Failure? ==> Parsed(p, files + [f]) == Parsed(p, files)
    ensures ReadFileSpec(p, f.lines).Success? ==> Parsed(p, files + [f]) == Parsed(p, files) + [ReadFileSpec(p, f.lines).value]
  {
    assert (files + [f])[..|files|] == files;
  }

  /** The dates of a list, as line 85 collects them. */
  function Dates<R>(s: seq<Balance<R>>): (d: seq<Option<Date>>)
    ensures |d| == |s| && forall i :: 0 <= i < |s| ==> d[i] == s[i].date
  {
    seq(|s|, i requires 0 <= i < |s| => s[i].date)
  }

  /** The reading counts of a list, as line 88 collects them. */
  function Sizes<R>(s: seq<Balance<R>>): (z: seq<nat>)
    ensures |z| == |s| && forall i :: 0 <= i < |s| ==> z[i] == |s[i].numbers|
  {
    seq(|s|, i requires 0 <= i < |s| => |s[i].numbers|)
  }

  /** `len(set(all_dates)) != len(all_dates)` (line 86). */
  predicate HasRepeatingDates<R>(s: seq<Balance<R>>)
  {
    |Elements(Dates(s))| != |s|
  }

  /** `len(set(len(b["numbers"]) for b in balance)) != 1` (line 88). */
  predicate HasDifferentSizes<R>(s: seq<Balance<R>>)
  {
    |Elements(Sizes(s))| != 1
  }

  /** The repeated-date warning fires exactly when two records share a date. */
  lemma RepeatingDatesExact<R>(s: seq<Balance<R>>)
    ensures HasRepeatingDates(s) <==> exists i, j :: 0 <= i < j < |s| && s[i].date == s[j].date
  {
    ElementsCount(Dates(s));
  }

  /** For a non-empty list, the size warning fires exactly when two records
      have different numbers of readings. */
  lemma DifferentSizesExact<R>(s: seq<Balance<R>>)
    requires s != []
    ensures HasDifferentSizes(s) <==>
      exists i, j :: 0 <= i < |s| && 0 <= j < |s| && |s[i].numbers| != |s[j].numbers|
  {
    ElementsSingleton(Sizes(s));
    var z := Sizes(s);
    if exists i, j :: 0 <= i < |z| && 0 <= j < |z| && z[i] != z[j] {
      var i, j :| 0 <= i < |z| && 0 <= j < |z| && z[i] != z[j];
      assert |s[i].numbers| != |s[j].numbers|;
    }
  }

  /** The date order on records that have a date. */
  predicate RecordLe<R>(a: Balance<R>, b: Balance<R>)
    requires a.date.Some? && b.date.Some?
  {
    DateLe(a.date.value, b.date.value)
  }

  /** Ordered by date, earliest first. */
  predicate SortedByDate<R>(s: seq<Balance<R>>)
  {
    Dated(s) && forall i, j :: 0 <= i < j < |s| ==> RecordLe(s[i], s[j])
  }

  /** The records of `s` dated `d`, in order. */
  function WithDate<R>(s: seq<Balance<R>>, d: Option<Date>): seq<Balance<R>>
  {
    if s == [] then [] else WithDate(s[..|s| - 1], d) + if s[|s| - 1].date == d then [s[|s| - 1]] else []
  }

  /** Puts `x` after every record of `s` dated no later than it. */
  function InsertByDate<R>(s: seq<Balance<R>>, x: Balance<R>): (r: seq<Balance<R>>)
    requires SortedByDate(s) && x.date.Some?
    ensures SortedByDate(r)
    ensures multiset(r) == multiset(s) + multiset{x}
  {
    if s == [] then [x]
    else
      var init, last := s[..|s| - 1], s[|s| - 1];
      SortedInit(s);
      if RecordLe(last, x) then
        SortedSnoc(s, x);
        s + [x]
      else
        var front := InsertByDate(init, x);
        InsertBeforeLast(s, x, front);
        front + [last]
  }

  /** When `x` goes before the last record of `s`, that record can follow
      the rest with `x` inserted. */
  lemma InsertBeforeLast<R>(s: seq<Balance<R>>, x: Balance<R>, front: seq<Balance<R>>)
    requires SortedByDate(s) && s != [] && x.date.Some? && !RecordLe(s[|s| - 1], x)
    requires SortedByDate(front) && multiset(front) == multiset(s[..|s| - 1]) + multiset{x}
    ensures SortedByDate(front + [s[|s| - 1]])
    ensures multiset(front + [s[|s| - 1]]) == multiset(s) + multiset{x}
  {
    var init, last := s[..|s| - 1], s[|s| - 1];
    forall y | y in multiset(front) ensures RecordLe(y, last) {
      if y != x {
        LastIsLatest(s, y);
      }
    }
    SortedSnoc(front, last);
    assert s == init + [last];
  }

  /** The last record of a date-ordered list is dated no earlier than the others. */
  lemma LastIsLatest<R>(s: seq<Balance<R>>, y: Balance<R>)
    requires SortedByDate(s) && s != [] && y in multiset(s[..|s| - 1])
    ensures y.date.Some? && RecordLe(y, s[|s| - 1])
  {
    var i :| 0 <= i < |s| - 1 && s[..|s| - 1][i] == y;
    assert s[i] == y;
  }

  /** Dropping the last record of a date-ordered list keeps it ordered. */
  lemma SortedInit<R>(s: seq<Balance<R>>)
    requires SortedByDate(s) && s != []
    ensures SortedByDate(s[..|s| - 1])
  {
  }

  /** Appending a record dated no earlier than every other keeps the order. */
  lemma SortedSnoc<R>(s: seq<Balance<R>>, x: Balance<R>)
    requires SortedByDate(s) && x.date.Some?
    requires (forall y :: y in multiset(s) ==> RecordLe(y, x)) || (s != [] && RecordLe(s[|s| - 1], x))
    ensures SortedByDate(s + [x])
  {
    var r := s + [x];
    forall i, j | 0 <= i < j < |r| ensures RecordLe(r[i], r[j]) {
      if j == |r| - 1 {
        assert r[i] == s[i] && s[i] in multiset(s);
      }
    }
  }

  /** Inserting `x` adds it at the end of the records dated like it and
      leaves those of every other date as they were. */
  lemma {:induction false} InsertByDateStable<R>(s: seq<Balance<R>>, x: Balance<R>, d: Option<Date>)
    requires SortedByDate(s) && x.date.Some?
    ensures WithDate(InsertByDate(s, x), d) == WithDate(s, d) + if x.date == d then [x] else []
  {
    if s == [] {
      WithDateSnoc([], x, d);
      assert [] + [x] == [x];
    } else {
      var init, last := s[..|s| - 1], s[|s| - 1];
      assert s == init + [last];
      if RecordLe(last, x) {
        assert InsertByDate(s, x) == s + [x];
        WithDateSnoc(s, x, d);
      } else {
        SortedInit(s);
        var front := InsertByDate(init, x);
        assert InsertByDate(s, x) == front + [last];
        InsertByDateStable(init, x, d);
        StableBeforeLast(init, last, x, front, d);
      }
    }
  }

  /** The step of `InsertByDateStable` where `x` goes before `last`, which
      is dated later than `x`. */
  lemma StableBeforeLast<R>(init: seq<Balance<R>>, last: Balance<R>, x: Balance<R>, front: seq<Balance<R>>, d: Option<Date>)
    requires x.date.Some? && last.date.Some? && !RecordLe(last, x)
    requires WithDate(front, d) == WithDate(init, d) + if x.date == d then [x] else []
    ensures WithDate(front + [last], d) == WithDate(init + [last], d) + if x.date == d then [x] else []
  {
    WithDateSnoc(front, last, d);
    WithDateSnoc(init, last, d);
    if x.date == d {
      assert last.date != d;
      assert WithDate(front + [last], d) == WithDate(init, d) + [x];
      assert WithDate(init + [last], d) == WithDate(init, d);
    } else {
      assert WithDate(front + [last], d) == WithDate(init + [last], d);
    }
  }

  lemma WithDateSnoc<R>(s: seq<Balance<R>>, y: Balance<R>, d: Option<Date>)
    ensures WithDate(s + [y], d) == WithDate(s, d) + if y.date == d then [y] else []
  {
    assert (s + [y])[..|s|] == s;
  }

  /** `balance.sort(key=lambda x: x["date"])` (line 84): Python's sort is
      stable, modelled here as insertion sort. */
  function SortByDate<R>(s: seq<Balance<R>>): (r: seq<Balance<R>>)
    requires Dated(s)
    ensures SortedByDate(r)
    ensures multiset(r) == multiset(s)
    ensures forall d :: WithDate(r, d) == WithDate(s, d)
  {
    if s == [] then []
    else
      var init := s[..|s| - 1];
      assert s == init + [s[|s| - 1]];
      var sorted := SortByDate(init);
      forall d ensures WithDate(InsertByDate(sorted, s[|s| - 1]), d) == WithDate(s, d) {
        InsertByDateStable(sorted, s[|s| - 1], d);
      }
      InsertByDate(sorted, s[|s| - 1])
  }

  /** The warnings of lines 86-91 for one list. */
  function GroupWarning<R>(name: string, group: seq<Balance<R>>): seq<Warning>
  {
    (if HasRepeatingDates(group) then [RepeatingDates(name)] else []) +
    (if HasDifferentSizes(group) then [DifferentSizes(name)] else [])
  }

  /** The warnings of lines 83-91, list by list in key order. */
  function GroupWarnings<R>(names: seq<string>, groups: map<string, seq<Balance<R>>>): seq<Warning>
  {
    if names == [] then []
    else
      var n := names[|names| - 1];
      GroupWarnings(names[..|names| - 1], groups) + (if n in groups then GroupWarning(n, groups[n]) else [])
  }

  lemma {:induction false} GroupWarningsFrame<R>(names: seq<string>, g: map<string, seq<Balance<R>>>, h: map<string, seq<Balance<R>>>)
    requires forall n :: n in names ==> (n in g <==> n in h) && (n in g ==> g[n] == h[n])
    ensures GroupWarnings(names, g) == GroupWarnings(names, h)
  {
    if names != [] {
      GroupWarningsFrame(names[..|names| - 1], g, h);
    }
  }

  /** A name gets each list warning exactly when it is checked and its list
      fails that check. */
  lemma {:induction false} GroupWarningsHas<R>(names: seq<string>, groups: map<string, seq<Balance<R>>>, name: string)
    ensures RepeatingDates(name) in GroupWarnings(names, groups) <==>
      name in names && name in groups && HasRepeatingDates(groups[name])
    ensures DifferentSizes(name) in GroupWarnings(names, groups) <==>
      name in names && name in groups && HasDifferentSizes(groups[name])
  {
    if names != [] {
      var init, last := names[..|names| - 1], names[|names| - 1];
      GroupWarningsHas(init, groups, name);
      assert names == init + [last];
      var tail := if last in groups then GroupWarning(last, groups[last]) else [];
      assert GroupWarnings(names, groups) == GroupWarnings(init, groups) + tail;
      assert RepeatingDates(name) in tail <==> name == last && last in groups && HasRepeatingDates(groups[last]);
      assert DifferentSizes(name) in tail <==> name == last && last in groups && HasDifferentSizes(groups[last]);
    }
  }

  /** A list's name is warned about for repeated dates exactly when two of
      its records share a date, and for sizes exactly when two of its
      records have different numbers of readings. */
  lemma GroupWarningsExact<R>(names: seq<string>, groups: map<string, seq<Balance<R>>>, name: string)
    requires forall n :: n in names ==> n in groups && groups[n] != []
    ensures RepeatingDates(name) in GroupWarnings(names, groups) <==>
      name in names && exists i, j :: 0 <= i < j < |groups[name]| && groups[name][i].date == groups[name][j].date
    ensures DifferentSizes(name) in GroupWarnings(names, groups) <==>
      name in names && exists i, j :: (0 <= i < |groups[name]| && 0 <= j < |groups[name]| &&
        |groups[name][i].numbers| != |groups[name][j].numbers|)
  {
    GroupWarningsHas(names, groups, name);
    if name in names {
      RepeatingDatesExact(groups[name]);
      DifferentSizesExact(groups[name]);
    }
  }

  /** The first `i` lists in key order are sorted and the others untouched. */
  ghost predicate SortedUpTo<R>(c: Collection<R>, groups: map<string, seq<Balance<R>>>, i: nat)
    requires WellFormed(c) && i <= |c.names|
  {
    && groups.Keys == c.groups.Keys
    && (forall j :: 0 <= j < i ==> groups[c.names[j]] == SortByDate(c.groups[c.names[j]]))
    && (forall j :: i <= j < |c.names| ==> groups[c.names[j]] == c.groups[c.names[j]])
  }

  /** Sorting the list of the next name in key order. */
  lemma SortedUpToStep<R>(c: Collection<R>, groups: map<string, seq<Balance<R>>>, i: nat)
    requires WellFormed(c) && i < |c.names| && SortedUpTo(c, groups, i)
    ensures c.names[i] in groups && groups[c.names[i]] == c.groups[c.names[i]]
    ensures SortedUpTo(c, groups[c.names[i] := SortByDate(c.groups[c.names[i]])], i + 1)
  {
    var name := c.names[i];
    var next := groups[name := SortByDate(c.groups[name])];
    forall j | 0 <= j < |c.names| && j != i ensures next[c.names[j]] == groups[c.names[j]] {
      assert c.names[j] != name;
    }
  }

  /** The loop of parse_files.py:83-91: every list sorted by date in place,
      then checked. */
  method CheckGroups<R>(c: Collection<R>) returns (groups: map<string, seq<Balance<R>>>, warnings: seq<Warning>)
    requires WellFormed(c)
    ensures groups == SortedGroups(c.groups)
    ensures forall n :: n in groups ==> groups[n] == SortByDate(c.groups[n])
    ensures warnings == GroupWarnings(c.names, groups)
  {
    groups := c.groups;
    warnings := [];
    var i := 0;
    while i < |c.names|
      invariant i <= |c.names|
      invariant SortedUpTo(c, groups, i)
      invariant warnings == SortedWarnings(c.names[..i], c.groups)
    {
      var name := c.names[i];
      SortedUpToStep(c, groups, i);
      var sorted := SortByDate(groups[name]);
      groups := groups[name := sorted];
      PrefixSnoc(c.names, i);
      warnings := warnings + GroupWarning(name, sorted);
      i := i + 1;
    }
    assert c.names[..i] == c.names;
    SortedAll(c, groups);
    SortedWarningsAreGroupWarnings(c.names, c.groups, groups);
  }

  /** The warnings of lines 86-91 for the lists of `names`, each sorted first. */
  function SortedWarnings<R>(names: seq<string>, groups: map<string, seq<Balance<R>>>): seq<Warning>
  {
    if names == [] then []
    else
      var n := names[|names| - 1];
      SortedWarnings(names[..|names| - 1], groups) +
      if n in groups && Dated(groups[n]) then GroupWarning(n, SortByDate(groups[n])) else []
  }

  lemma {:induction false} SortedWarningsAreGroupWarnings<R>(names: seq<string>, g: map<string, seq<Balance<R>>>, h: map<string, seq<Balance<R>>>)
    requires forall n :: n in names ==> n in g && Dated(g[n]) && n in h && h[n] == SortByDate(g[n])
    ensures SortedWarnings(names, g) == GroupWarnings(names, h)
  {
    if names != [] {
      SortedWarningsAreGroupWarnings(names[..|names| - 1], g, h);
    }
  }

  lemma SortedAll<R>(c: Collection<R>, groups: map<string, seq<Balance<R>>>)
    requires WellFormed(c) && SortedUpTo(c, groups, |c.names|)
    ensures groups == SortedGroups(c.groups)
    ensures forall n :: n in groups ==> groups[n] == SortByDate(c.groups[n])
  {
    forall n | n in groups ensures groups[n] == SortByDate(c.groups[n]) {
      var j :| 0 <= j < |c.names| && c.names[j] == n;
    }
    SortedEverywhere(c, groups);
  }

  lemma SortedEverywhere<R>(c: Collection<R>, groups: map<string, seq<Balance<R>>>)
    requires WellFormed(c) && groups.Keys == c.groups.Keys
    requires forall n :: n in groups ==> groups[n] == SortByDate(c.groups[n])
    ensures groups == SortedGroups(c.groups)
  {
    var sorted := SortedGroups(c.groups);
    forall n | n in groups ensures groups[n] == sorted[n] {
    }
  }

  /** Every list of the dictionary sorted by date, as the loop of lines 83-84
      leaves it. A list holding a record without a date is kept as it is: it
      cannot arise, since such a record ends the run at line 79. */
  function SortedGroups<R>(groups: map<string, seq<Balance<R>>>): (sorted: map<string, seq<Balance<R>>>)
    ensures sorted.Keys == groups.Keys
    ensures forall n :: n in groups && Dated(groups[n]) ==> SortedByDate(sorted[n]) && multiset(sorted[n]) == multiset(groups[n])
  {
    map n | n in groups :: if Dated(groups[n]) then SortByDate(groups[n]) else groups[n]
  }
}
