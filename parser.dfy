/**
 * The line parser: turns the lines of the dependency listing into package
 * records, skipping the tree-drawing decoration in front of each entry.
 */
module Parser {
  import opened Wrappers
  import opened Packages

  // Splitting the listing text into lines, as `str.split('\n')` does.

  /** The pieces of `s` between newlines; there is always at least one. */
  function SplitLines(s: string): (r: seq<string>)
    ensures |r| >= 1
    decreases |s|
  {
    if s == [] then [""]
    else
      var rest := SplitLines(s[1..]);
      if s[0] == '\n' then [""] + rest else [[s[0]] + rest[0]] + rest[1..]
  }

  /** `'\n'.join(ls)`, the inverse of SplitLines. */
  function JoinLines(ls: seq<string>): string
    requires |ls| >= 1
  {
    if |ls| == 1 then ls[0] else ls[0] + "\n" + JoinLines(ls[1..])
  }

  predicate NoNewlines(ls: seq<string>) {
    forall k :: 0 <= k < |ls| ==> '\n' !in ls[k]
  }

  /** Splitting loses nothing but the separators, and no piece holds one. */
  lemma {:induction false} SplitLinesJoin(s: string)
    ensures JoinLines(SplitLines(s)) == s
    ensures NoNewlines(SplitLines(s))
    decreases |s|
  {
    if s != [] {
      SplitLinesJoin(s[1..]);
      var rest := SplitLines(s[1..]);
      if s[0] == '\n' {
        assert ([""] + rest)[1..] == rest;
      } else {
        var r := SplitLines(s);
        assert r[1..] == rest[1..];
        if |rest| > 1 {
          assert JoinLines(rest) == rest[0] + "\n" + JoinLines(rest[1..]);
        }
        assert forall k :: 1 <= k < |r| ==> r[k] == rest[k];
      }
    }
  }

  /** Joining lines that hold no newline and splitting again gives them back. */
  lemma {:induction false} JoinLinesSplit(ls: seq<string>)
    requires |ls| >= 1 && NoNewlines(ls)
    ensures SplitLines(JoinLines(ls)) == ls
    decreases |ls|, |ls[0]|
  {
    if ls[0] == [] {
      if |ls| > 1 {
        assert JoinLines(ls) == "\n" + JoinLines(ls[1..]);
        JoinLinesSplit(ls[1..]);
        assert (JoinLines(ls))[1..] == JoinLines(ls[1..]);
      }
    } else {
      var ls' := [ls[0][1..]] + ls[1..];
      assert NoNewlines(ls') by {
        forall k | 0 <= k < |ls'| ensures '\n' !in ls'[k] {
          if k == 0 {
            assert forall c :: c in ls[0][1..] ==> c in ls[0];
          } else {
            assert ls'[k] == ls[k];
          }
        }
      }
      JoinLinesSplit(ls');
      assert ls'[1..] == ls[1..];
      assert JoinLines(ls) == [ls[0][0]] + JoinLines(ls');
      assert ls[0][0] != '\n' by { assert ls[0][0] in ls[0]; }
      assert (JoinLines(ls))[1..] == JoinLines(ls');
      assert [ls[0][0]] + ls'[0] == ls[0];
      assert ls == [ls[0]] + ls'[1..];
    }
  }

  // Finding where a package entry starts.

  /** `str.isalnum`, over ASCII letters and digits. */
  predicate IsAlnum(c: char) {
    'a' <= c <= 'z' || 'A' <= c <= 'Z' || '0' <= c <= '9'
  }

  /** A character that may begin a package name: `@` for a scope, or alphanumeric. */
  predicate IsValidPkgPrefix(c: char) {
    c == '@' || IsAlnum(c)
  }

  /** `i` is the first position in `line` that may begin a package name. */
  predicate StartsAt(line: string, i: int) {
    && 0 <= i < |line|
    && IsValidPkgPrefix(line[i])
    && forall j :: 0 <= j < i ==> !IsValidPkgPrefix(line[j])
  }

  /** The first position that may begin a package name, if any. */
  function FirstValid(s: string): (r: Option<nat>)
    ensures r.Some? ==> StartsAt(s, r.value)
    ensures r.None? ==> forall j :: 0 <= j < |s| ==> !IsValidPkgPrefix(s[j])
  {
    if s == [] then None
    else if IsValidPkgPrefix(s[0]) then Some(0)
    else match FirstValid(s[1..])
      case None => None
      case Some(i) => Some(i + 1)
  }

  /** The position of the rightmost `@`, as `str.rindex('@')` gives it; `None` where it raises. */
  function LastAt(s: string): (r: Option<nat>)
    ensures r.Some? ==> r.value < |s| && s[r.value] == '@' && forall j :: r.value < j < |s| ==> s[j] != '@'
    ensures r.None? <==> '@' !in s
  {
    if s == [] then None
    else if s[|s| - 1] == '@' then Some(|s| - 1)
    else LastAt(s[..|s| - 1])
  }

  lemma FirstValidAt(s: string, i: nat)
    requires StartsAt(s, i)
    ensures FirstValid(s) == Some(i)
  {
  }

  lemma LastAtIs(s: string, i: nat)
    requires i < |s| && s[i] == '@' && forall j :: i < j < |s| ==> s[j] != '@'
    ensures LastAt(s) == Some(i)
  {
    assert s[i] in s;
  }

  // Parsing one line, and the listing.

  /** Raised by `rindex` when the entry holds no `@` to separate the version. */
  datatype ParseError = NoSeparator(line: string)

  /**
   * One record for an entry `name@version` starting at the first valid
   * character, split at the rightmost `@`; nothing for a line with no valid
   * character; an error when the entry holds no `@`.
   */
  function ParseLine(line: string): (r: Result<Option<PkgRecord>, ParseError>)
    ensures r.Err? ==> r.error == NoSeparator(line)
    ensures r.Ok? && r.value.Some? ==> r.value.value.publishDate.None?
  {
    match FirstValid(line)
    case None => Ok(None)
    case Some(i) =>
      var fullName := line[i..];
      match LastAt(fullName)
      case None => Err(NoSeparator(line))
      case Some(v) => Ok(Some(PkgRecord(fullName[..v], fullName[v + 1..], None)))
  }

  /** A line yields nothing exactly when no character of it may begin a package name. */
  lemma ParseLineBlank(line: string)
    ensures ParseLine(line) == Ok(None) <==> forall j :: 0 <= j < |line| ==> !IsValidPkgPrefix(line[j])
  {
  }

  /**
   * A line whose entry starts at `i` fails exactly when the entry holds no
   * `@`; otherwise its record's name and version, joined by `@`, give back
   * the entry, and the version holds no `@`.
   */
  lemma ParseLineEntry(line: string, i: nat)
    requires StartsAt(line, i)
    ensures ParseLine(line).Err? <==> '@' !in line[i..]
    ensures ParseLine(line).Ok? ==>
      && ParseLine(line).value.Some?
      && ParseLine(line).value.value.name + "@" + ParseLine(line).value.value.version == line[i..]
      && '@' !in ParseLine(line).value.value.version
  {
    FirstValidAt(line, i);
    var fullName := line[i..];
    if LastAt(fullName).Some? {
      var v := LastAt(fullName).value;
      var name, version := fullName[..v], fullName[v + 1..];
      assert name + "@" + version == fullName;
      forall k | 0 <= k < |version| ensures version[k] != '@' {
        assert version[k] == fullName[v + 1 + k];
      }
    }
  }

  /**
   * The records of all lines, in line order; the first line whose entry has
   * no `@` stops the run.
   */
  function ParseAll(lines: seq<string>): (r: Result<seq<PkgRecord>, ParseError>)
    ensures r.Ok? ==> |r.value| <= |lines| && AllUnresolved(r.value)
  {
    if lines == [] then Ok([])
    else match ParseAll(lines[..|lines| - 1])
      case Err(e) => Err(e)
      case Ok(ps) =>
        match ParseLine(lines[|lines| - 1])
        case Err(e) => Err(e)
        case Ok(None) => Ok(ps)
        case Ok(Some(p)) => Ok(ps + [p])
  }

  /** How the outcome of two parts of a listing combine into the outcome of the whole. */
  function Concat(a: Result<seq<PkgRecord>, ParseError>, b: Result<seq<PkgRecord>, ParseError>): Result<seq<PkgRecord>, ParseError> {
    match a
    case Err(e) => Err(e)
    case Ok(ps) =>
      match b
      case Err(e) => Err(e)
      case Ok(qs) => Ok(ps + qs)
  }

  /** Each line contributes its own record, or none, in line order: the listing parses part by part. */
  lemma {:induction false} ParseAllAppend(a: seq<string>, b: seq<string>)
    ensures ParseAll(a + b) == Concat(ParseAll(a), ParseAll(b))
    decreases |b|
  {
    if b == [] {
      assert a + b == a;
      if ParseAll(a).Ok? {
        assert ParseAll(a).value + [] == ParseAll(a).value;
      }
    } else {
      var b', l := b[..|b| - 1], b[|b| - 1];
      assert (a + b)[..|a + b| - 1] == a + b';
      assert (a + b)[|a + b| - 1] == l;
      ParseAllAppend(a, b');
      if ParseAll(a).Ok? && ParseAll(b').Ok? && ParseLine(l).Ok? && ParseLine(l).value.Some? {
        assert ParseAll(a).value + (ParseAll(b').value + [ParseLine(l).value.value])
          == (ParseAll(a).value + ParseAll(b').value) + [ParseLine(l).value.value];
      }
    }
  }

  /** A line that parses extends the outcome of the lines before it. */
  lemma ParseAllStep(lines: seq<string>, n: nat)
    requires n < |lines| && ParseAll(lines[..n]).Ok? && ParseLine(lines[n]).Ok?
    ensures ParseAll(lines[..n + 1]) == Ok(match ParseLine(lines[n]).value
      case None => ParseAll(lines[..n]).value
      case Some(p) => ParseAll(lines[..n]).value + [p])
  {
    assert lines[..n + 1][..n] == lines[..n];
  }

  /** A line without a package entry, such as the empty line after the listing's last newline, adds nothing. */
  lemma ParseAllBlankLine(lines: seq<string>, line: string)
    requires forall j :: 0 <= j < |line| ==> !IsValidPkgPrefix(line[j])
    ensures ParseAll(lines + [line]) == ParseAll(lines)
  {
    assert (lines + [line])[..|lines|] == lines;
  }

  /** A line that fails after lines that parse fails the whole listing. */
  lemma ParseAllStopsAt(lines: seq<string>, n: nat)
    requires n < |lines| && ParseAll(lines[..n]).Ok? && ParseLine(lines[n]).Err?
    ensures ParseAll(lines) == Err(ParseLine(lines[n]).error)
  {
    var head := lines[..n + 1];
    assert head[..|head| - 1] == lines[..n] && head[|head| - 1] == lines[n];
    assert ParseAll(head[..|head| - 1]).Ok?;
    assert ParseAll(head) == Err(ParseLine(lines[n]).error);
    ParseAllKeepsError(lines, n + 1);
  }

  /** Once a prefix of the listing fails, the whole listing fails with the same error. */
  lemma {:induction false} ParseAllKeepsError(lines: seq<string>, m: nat)
    requires m <= |lines| && ParseAll(lines[..m]).Err?
    ensures ParseAll(lines) == ParseAll(lines[..m])
    decreases |lines|
  {
    if m == |lines| {
      assert lines[..m] == lines;
    } else {
      var init := lines[..|lines| - 1];
      assert init[..m] == lines[..m];
      ParseAllKeepsError(init, m);
    }
  }

  /** A single line yields at most one record. */
  lemma ParseAllOneLine(line: string)
    ensures ParseAll([line]) == match ParseLine(line)
      case Err(e) => Err(e)
      case Ok(None) => Ok([])
      case Ok(Some(p)) => Ok([p])
  {
    assert [line][..0] == [];
    assert ParseAll([line][..0]) == Ok([]);
    if ParseLine(line).Ok? && ParseLine(line).value.Some? {
      assert [] + [ParseLine(line).value.value] == [ParseLine(line).value.value];
    }
  }

  /** The listing parses exactly when every one of its lines does. */
  lemma {:induction false} ParseAllOkIff(lines: seq<string>)
    ensures ParseAll(lines).Ok? <==> forall k :: 0 <= k < |lines| ==> ParseLine(lines[k]).Ok?
    decreases |lines|
  {
    if lines != [] {
      var init, last := lines[..|lines| - 1], lines[|lines| - 1];
      ParseAllOkIff(init);
      assert ParseAll(lines).Ok? <==> ParseAll(init).Ok? && ParseLine(last).Ok?;
      if forall k :: 0 <= k < |lines| ==> ParseLine(lines[k]).Ok? {
        assert forall k :: 0 <= k < |init| ==> init[k] == lines[k];
      } else {
        var k :| 0 <= k < |lines| && !ParseLine(lines[k]).Ok?;
        if k < |init| {
          assert init[k] == lines[k];
        }
      }
    }
  }

  /** The error reported is that of the first line that fails. */
  lemma ParseAllFirstError(lines: seq<string>, k: nat)
    requires k < |lines| && ParseLine(lines[k]).Err?
    requires forall j :: 0 <= j < k ==> ParseLine(lines[j]).Ok?
    ensures ParseAll(lines) == Err(NoSeparator(lines[k]))
  {
    assert forall j :: 0 <= j < k ==> lines[..k][j] == lines[j];
    ParseAllOkIff(lines[..k]);
    ParseAllStopsAt(lines, k);
  }

  /** The record of a line whose entry starts at `i` and whose rightmost `@` is at `i + v`. */
  lemma ParseLineSplitsAt(line: string, i: nat, v: nat)
    requires StartsAt(line, i) && i + v < |line| && line[i + v] == '@'
    requires forall j :: i + v < j < |line| ==> line[j] != '@'
    ensures ParseLine(line) == Ok(Some(PkgRecord(line[i..i + v], line[i + v + 1..], None)))
  {
    FirstValidAt(line, i);
    LastAtIs(line[i..], v);
    assert line[i..][..v] == line[i..i + v];
    assert line[i..][v + 1..] == line[i + v + 1..];
  }

  /** An example from a scoped package: the leading `@` belongs to the name. */
  lemma ParseScopedLine(line: string)
    requires line == "\U{251c}\U{2500} @scope/name@1.2.3"
    ensures ParseLine(line) == Ok(Some(PkgRecord("@scope/name", "1.2.3", None)))
  {
    assert StartsAt(line, 3);
    assert line[14] == '@' && forall j :: 14 < j < |line| ==> line[j] != '@';
    assert line[3..14] == "@scope/name" && line[15..] == "1.2.3";
    ParseLineSplitsAt(line, 3, 11);
  }

  /** An example of an unscoped package. */
  lemma ParsePlainLine(line: string)
    requires line == "\U{2514}\U{2500} lodash@4.17.21"
    ensures ParseLine(line) == Ok(Some(PkgRecord("lodash", "4.17.21", None)))
  {
    assert StartsAt(line, 3);
    assert line[9] == '@' && forall j :: 9 < j < |line| ==> line[j] != '@';
    assert line[3..9] == "lodash" && line[10..] == "4.17.21";
    ParseLineSplitsAt(line, 3, 6);
  }

  /** A bare `@` before the version is not rejected: the name comes out empty. */
  lemma ParseEmptyName(line: string)
    requires line == "@foo"
    ensures ParseLine(line) == Ok(Some(PkgRecord("", "foo", None)))
  {
    assert StartsAt(line, 0);
    assert line[0] == '@' && forall j :: 0 < j < |line| ==> line[j] != '@';
    assert line[0..0] == "" && line[1..] == "foo";
    ParseLineSplitsAt(line, 0, 0);
  }

  // The parse loop, over package objects.

  /** The `enumerate` scan for the first character that may begin a package name. */
  method FindStart(dirtyPkg: string) returns (start: Option<nat>)
    ensures start == FirstValid(dirtyPkg)
  {
    for i := 0 to |dirtyPkg|
      invariant forall j :: 0 <= j < i ==> !IsValidPkgPrefix(dirtyPkg[j])
    {
      if IsValidPkgPrefix(dirtyPkg[i]) {
        FirstValidAt(dirtyPkg, i);
        return Some(i);
      }
    }
    return None;
  }

  /**
   * The body of the parsing loop for one line: a new record when the line
   * holds an entry, nothing when it holds none, an error when the entry has
   * no `@`.
   */
  method ParseEntry(dirtyPkg: string) returns (r: Result<Option<Pkg>, ParseError>)
    ensures r.Err? <==> ParseLine(dirtyPkg).Err?
    ensures r.Err? ==> r.error == ParseLine(dirtyPkg).error
    ensures r.Ok? ==> (r.value.Some? <==> ParseLine(dirtyPkg).value.Some?)
    ensures r.Ok? && r.value.Some? ==> fresh(r.value.value) && r.value.value.Value() == ParseLine(dirtyPkg).value.value
  {
    var start := FindStart(dirtyPkg);
    if start.None? {
      return Ok(None);
    }
    var fullName := dirtyPkg[start.value..];
    var vIndex := LastAt(fullName);
    if vIndex.None? {
      return Err(NoSeparator(dirtyPkg));
    }
    var pkg := new Pkg(fullName[..vIndex.value], fullName[vIndex.value + 1..]);
    assert ParseLine(dirtyPkg) == Ok(Some(pkg.Value()));
    return Ok(Some(pkg));
  }

  /**
   * Creates one new record, with no publish date, per line that holds a
   * package entry, in line order; stops at the first entry with no `@`.
   */
  method ParsePackages(lines: seq<string>) returns (r: Result<seq<Pkg>, ParseError>)
    ensures r.Err? <==> ParseAll(lines).Err?
    ensures r.Err? ==> r.error == ParseAll(lines).error
    ensures r.Ok? ==> Records(r.value) == ParseAll(lines).value
    ensures r.Ok? ==> Distinct(r.value) && forall k :: 0 <= k < |r.value| ==> fresh(r.value[k])
  {
    var pkgs: seq<Pkg> := [];
    ghost var done: seq<PkgRecord> := [];
    ghost var made: set<Pkg> := {};
    for n := 0 to |lines|
      invariant ParseAll(lines[..n]) == Ok(done)
      invariant Records(pkgs) == done
      invariant Distinct(pkgs) && fresh(made) && forall k :: 0 <= k < |pkgs| ==> pkgs[k] in made
    {
      var entry := ParseEntry(lines[n]);
      if entry.Err? {
        ParseAllStopsAt(lines, n);
        return Err(entry.error);
      }
      ParseAllStep(lines, n);
      if entry.value.Some? {
        var pkg := entry.value.value;
        DistinctSnoc(pkgs, pkg);
        assert (pkgs + [pkg])[..|pkgs|] == pkgs;
        pkgs, done, made := pkgs + [pkg], done + [pkg.Value()], made + {pkg};
      }
    }
    assert lines[..|lines|] == lines;
    return Ok(pkgs);
  }
}
