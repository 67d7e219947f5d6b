/**
 * The whole script: split the listing into lines, parse them, look every
 * package up, then print the report. Each stage either completes or raises,
 * and a raise ends the run with what has been written so far.
 */
module Pipeline {
  import opened Wrappers
  import opened Timestamps
  import opened Packages
  import opened Parser
  import opened RegistryClient
  import opened Reporter

  /** The exception that ends a run early. */
  datatype Failure =
    | ParseFailed(parse: ParseError)
    | FetchAborted(fetch: FetchError)
    | Unorderable(report: ReportError)

  /** What a run leaves behind: the lines printed, the diagnostics written, how it ended. */
  datatype Outcome = Outcome(stdout: seq<string>, stderr: seq<Diagnostic>, failure: Option<Failure>)

  predicate Succeeded(o: Outcome) {
    o.failure.None?
  }

  /** Every line parses, and every package's fetch answers with its version. */
  predicate AllFound(lines: seq<string>, registry: Registry) {
    && ParseAll(lines).Ok?
    && forall k :: 0 <= k < |ParseAll(lines).value| ==> Found(ParseAll(lines).value[k], registry)
  }

  /**
   * The behaviour of a run over the listing's lines. The report prints
   * nothing unless every record is dated, so a failed run prints nothing.
   */
  function RunLines(lines: seq<string>, registry: Registry): (o: Outcome)
    ensures !Succeeded(o) ==> o.stdout == []
    ensures ParseAll(lines).Err? ==> o == Outcome([], [], Some(ParseFailed(ParseAll(lines).error)))
  {
    match ParseAll(lines)
    case Err(e) => Outcome([], [], Some(ParseFailed(e)))
    case Ok(rs) => RunRecords(rs, registry)
  }

  /** The run once the listing has been parsed into records: enrichment, then the report. */
  function RunRecords(rs: seq<PkgRecord>, registry: Registry): (o: Outcome)
    ensures !Succeeded(o) ==> o.stdout == []
  {
    var f := FirstUnavailable(rs, registry);
    var diagnostics := Diagnostics(rs[..f], registry);
    if f < |rs| then Outcome([], diagnostics, Some(FetchAborted(FetchFailed(rs[f].name))))
    else match Report(EnrichAll(rs, registry))
      case Err(e) => Outcome([], diagnostics, Some(Unorderable(e)))
      case Ok(out) => Outcome(out, diagnostics, None)
  }

  /** A run succeeds exactly when every line parses and every package's version is found. */
  lemma RunSucceedsIff(lines: seq<string>, registry: Registry)
    ensures Succeeded(RunLines(lines, registry)) <==> AllFound(lines, registry)
  {
    if ParseAll(lines).Ok? {
      var rs := ParseAll(lines).value;
      var f := FirstUnavailable(rs, registry);
      if f == |rs| {
        var enriched := EnrichAll(rs, registry);
        forall k | 0 <= k < |rs| ensures Resolved(enriched[k]) <==> Found(rs[k], registry) {
          EnrichAllDatesExactlyFound(rs, registry, k);
        }
      } else {
        assert !Found(rs[f], registry);
      }
    }
  }

  /**
   * A successful run prints one line per package, in date order, and writes
   * no diagnostic.
   */
  lemma SuccessPrintsEveryPackage(lines: seq<string>, registry: Registry)
    requires Succeeded(RunLines(lines, registry))
    ensures ParseAll(lines).Ok?
    ensures var rs := ParseAll(lines).value;
      && AllResolved(EnrichAll(rs, registry))
      && SortedByDate(SortByDate(EnrichAll(rs, registry)))
      && RunLines(lines, registry).stdout == Lines(SortByDate(EnrichAll(rs, registry)))
      && RunLines(lines, registry).stderr == []
  {
    RunSucceedsIff(lines, registry);
    var rs := ParseAll(lines).value;
    SortByDateSorted(EnrichAll(rs, registry));
    assert rs[..|rs|] == rs;
    if Diagnostics(rs, registry) != [] {
      var d := Diagnostics(rs, registry)[0];
      DiagnosticsExactlyNotFound(rs, registry, d);
    }
  }

  /**
   * Every line a successful run prints is a package name, `: ` and a date
   * that reads back as the local date and time of that package's timestamp.
   */
  lemma PrintedDatesReadBack(lines: seq<string>, registry: Registry, k: nat)
    requires Succeeded(RunLines(lines, registry)) && k < |RunLines(lines, registry).stdout|
    ensures ParseAll(lines).Ok? && AllResolved(EnrichAll(ParseAll(lines).value, registry))
    ensures var s := SortByDate(EnrichAll(ParseAll(lines).value, registry));
      && k < |s|
      && exists d: string ::
        && RunLines(lines, registry).stdout[k] == s[k].name + ": " + d
        && ReadDate(d) == Some(Shown(s[k].publishDate.value))
  {
    SuccessPrintsEveryPackage(lines, registry);
    var rs := ParseAll(lines).value;
    var enriched := EnrichAll(rs, registry);
    EnrichAllDatesValid(rs, registry);
    SortByDateDatesValid(enriched);
    var s := SortByDate(enriched);
    var t := s[k].publishDate.value;
    FormatDateRoundTrip(t);
    assert RunLines(lines, registry).stdout[k] == s[k].name + ": " + FormatDate(t);
  }

  /**
   * A run stopped by a failing fetch names the first package whose fetch
   * fails, after writing the diagnostics of the packages looked up before it.
   */
  lemma FetchAbortNamesFirstUnavailable(lines: seq<string>, registry: Registry, i: nat)
    requires ParseAll(lines).Ok? && i < |ParseAll(lines).value|
    requires ParseAll(lines).value[i].name !in registry
    requires forall j :: 0 <= j < i ==> ParseAll(lines).value[j].name in registry
    ensures var rs := ParseAll(lines).value;
      RunLines(lines, registry) == Outcome([], Diagnostics(rs[..i], registry), Some(FetchAborted(FetchFailed(rs[i].name))))
  {
    var rs := ParseAll(lines).value;
    FirstUnavailableIs(rs, i, registry);
  }

  /** The plain line of the scenario. */
  lemma ParseFooLine(line: string)
    requires line == "foo@1.0.0"
    ensures ParseLine(line) == Ok(Some(PkgRecord("foo", "1.0.0", None)))
  {
    assert StartsAt(line, 0);
    assert line[3] == '@' && forall j :: 3 < j < |line| ==> line[j] != '@';
    assert line[0..3] == "foo" && line[4..] == "1.0.0";
    ParseLineSplitsAt(line, 0, 3);
  }

  /** The scoped line of the scenario: its rightmost `@` separates the version. */
  lemma ParseBarLine(line: string)
    requires line == "@bar/baz@2.0.0"
    ensures ParseLine(line) == Ok(Some(PkgRecord("@bar/baz", "2.0.0", None)))
  {
    assert StartsAt(line, 0);
    assert line[8] == '@' && forall j :: 8 < j < |line| ==> line[j] != '@';
    assert line[0..8] == "@bar/baz" && line[9..] == "2.0.0";
    ParseLineSplitsAt(line, 0, 8);
  }

  /** The listing `["", "foo@1.0.0", "@bar/baz@2.0.0"]` yields two records, in line order. */
  lemma ScenarioParses(lines: seq<string>)
    requires lines == ["", "foo@1.0.0", "@bar/baz@2.0.0"]
    ensures ParseAll(lines) == Ok([PkgRecord("foo", "1.0.0", None), PkgRecord("@bar/baz", "2.0.0", None)])
  {
    ParseFooLine(lines[1]);
    ParseBarLine(lines[2]);
    ParseAllThree(lines, PkgRecord("foo", "1.0.0", None), PkgRecord("@bar/baz", "2.0.0", None));
  }

  /** A blank line followed by two entries gives the two records in order. */
  lemma ParseAllThree(lines: seq<string>, p: PkgRecord, q: PkgRecord)
    requires |lines| == 3 && ParseLine(lines[0]) == Ok(None)
    requires ParseLine(lines[1]) == Ok(Some(p)) && ParseLine(lines[2]) == Ok(Some(q))
    ensures ParseAll(lines) == Ok([p, q])
  {
    var one, two := lines[..1], lines[..2];
    assert one[..0] == [] && one[0] == lines[0];
    assert ParseAll(one) == Ok([]);
    assert two[..1] == one && two[1] == lines[1];
    assert [] + [p] == [p] && [p] + [q] == [p, q];
    assert ParseAll(two) == Ok([p]);
    assert lines[..2] == two;
  }

  /** When every parsed package is found, the run prints the date-sorted report and no diagnostics. */
  lemma EveryPackageFound(lines: seq<string>, registry: Registry, rs: seq<PkgRecord>)
    requires ParseAll(lines) == Ok(rs) && forall k :: 0 <= k < |rs| ==> Found(rs[k], registry)
    ensures AllResolved(EnrichAll(rs, registry))
    ensures RunLines(lines, registry) == Outcome(Lines(SortByDate(EnrichAll(rs, registry))), [], None)
  {
    RunSucceedsIff(lines, registry);
    SuccessPrintsEveryPackage(lines, registry);
  }

  /**
   * A listing with a blank line, `foo@1.0.0` and `@bar/baz@2.0.0`, against a
   * registry that knows both versions: nothing is written to the error
   * stream, and the two lines come out in ascending publish order, `foo`
   * first when both were published at the same instant.
   */
  lemma ScenarioRun(t1: ValidTimestamp, t2: ValidTimestamp, foo: PkgRecord, bar: PkgRecord, expected: seq<string>,
                    lines: seq<string>, registry: Registry)
    requires foo == PkgRecord("foo", "1.0.0", Some(t1)) && bar == PkgRecord("@bar/baz", "2.0.0", Some(t2))
    requires expected == Lines(if Instant(t2) < Instant(t1) then [bar, foo] else [foo, bar])
    requires lines == ["", "foo@1.0.0", "@bar/baz@2.0.0"]
    requires registry == map["foo" := map["1.0.0" := t1], "@bar/baz" := map["2.0.0" := t2]]
    ensures RunLines(lines, registry) == Outcome(expected, [], None)
  {
    var rs := [PkgRecord("foo", "1.0.0", None), PkgRecord("@bar/baz", "2.0.0", None)];
    ScenarioParses(lines);
    ScenarioEnriched(t1, t2, foo, bar, registry, rs);
    TwoFound(lines, registry, rs, foo, bar);
  }

  /** Both packages of the scenario are found and get their timestamps. */
  lemma ScenarioEnriched(t1: ValidTimestamp, t2: ValidTimestamp, foo: PkgRecord, bar: PkgRecord, registry: Registry, rs: seq<PkgRecord>)
    requires foo == PkgRecord("foo", "1.0.0", Some(t1)) && bar == PkgRecord("@bar/baz", "2.0.0", Some(t2))
    requires registry == map["foo" := map["1.0.0" := t1], "@bar/baz" := map["2.0.0" := t2]]
    requires rs == [PkgRecord("foo", "1.0.0", None), PkgRecord("@bar/baz", "2.0.0", None)]
    ensures Found(rs[0], registry) && Found(rs[1], registry) && EnrichAll(rs, registry) == [foo, bar]
  {
    assert Resolve(rs[0], registry) == foo;
    assert Resolve(rs[1], registry) == bar;
  }

  /** Two found packages are printed earliest first, in listing order when published at the same instant. */
  lemma TwoFound(lines: seq<string>, registry: Registry, rs: seq<PkgRecord>, x: PkgRecord, y: PkgRecord)
    requires Resolved(x) && Resolved(y)
    requires ParseAll(lines) == Ok(rs) && |rs| == 2 && Found(rs[0], registry) && Found(rs[1], registry)
    requires EnrichAll(rs, registry) == [x, y]
    ensures Key(x) <= Key(y) ==> RunLines(lines, registry) == Outcome(Lines([x, y]), [], None)
    ensures Key(y) < Key(x) ==> RunLines(lines, registry) == Outcome(Lines([y, x]), [], None)
  {
    EveryPackageFound(lines, registry, rs);
    if Key(y) < Key(x) {
      SortTwo(x, y);
    } else {
      SortTwoInOrder(x, y);
    }
  }

  /**
   * When a version is missing from its package's mapping, the run writes the
   * diagnostic, then fails at the report and prints nothing.
   */
  lemma MissingVersionListing(lines: seq<string>, registry: Registry, time: TimeMap)
    requires lines == ["\U{2514}\U{2500} lodash@4.17.21"]
    requires "4.17.21" !in time && registry == map["lodash" := time]
    ensures RunLines(lines, registry)
      == Outcome([], [VersionNotFound("lodash", "4.17.21", time)], Some(Unorderable(UnresolvedDate)))
  {
    var r := PkgRecord("lodash", "4.17.21", None);
    ParsePlainLine(lines[0]);
    ParseAllOneLine(lines[0]);
    assert ParseAll(lines) == Ok([r]);
    MissingVersionRun([r], registry, time);
  }

  lemma MissingVersionRun(rs: seq<PkgRecord>, registry: Registry, time: TimeMap)
    requires rs == [PkgRecord("lodash", "4.17.21", None)]
    requires "4.17.21" !in time && registry == map["lodash" := time]
    ensures FirstUnavailable(rs, registry) == 1
    ensures Diagnostics(rs[..1], registry) == [VersionNotFound("lodash", "4.17.21", time)]
    ensures Report(EnrichAll(rs, registry)) == Err(UnresolvedDate)
  {
    FirstUnavailableIs(rs, 1, registry);
    assert rs[..1] == rs && rs[..0] == [];
    assert EnrichAll(rs, registry) == rs;
  }

  /** The script: split, parse, enrich in place, print. */
  method Run(listing: string, registry: Registry) returns (o: Outcome)
    ensures o == RunLines(SplitLines(listing), registry)
  {
    var lines := SplitLines(listing);
    var parsed := ParsePackages(lines);
    if parsed.Err? {
      return Outcome([], [], Some(ParseFailed(parsed.error)));
    }
    o := EnrichAndReport(parsed.value, registry);
  }

  /** Looks the parsed records up, setting their dates in place, then prints the report. */
  method EnrichAndReport(pkgs: seq<Pkg>, registry: Registry) returns (o: Outcome)
    requires Distinct(pkgs)
    modifies set p | p in pkgs
    ensures o == RunRecords(old(Records(pkgs)), registry)
  {
    ghost var rs := Records(pkgs);
    var diagnostics, failure := Enrich(pkgs, registry);
    ghost var f := FirstUnavailable(rs, registry);
    assert diagnostics == Diagnostics(rs[..f], registry);
    if failure.Some? {
      assert f < |rs| && failure.value == FetchFailed(rs[f].name);
      return Outcome([], diagnostics, Some(FetchAborted(failure.value)));
    }
    assert f == |rs|;
    RecordsAfter(pkgs, rs, |pkgs|, registry);
    assert rs[..|pkgs|] == rs && rs[|pkgs|..] == [];
    var records := Records(pkgs);
    assert records == EnrichAll(rs, registry);
    var report := PrintReport(records);
    if report.Err? {
      return Outcome([], diagnostics, Some(Unorderable(report.error)));
    }
    return Outcome(report.value, diagnostics, None);
  }
}
