/**
 * The reporter: sorts the records by publish date, as `sorted` with the date
 * as key does, and renders one line `<name>: <date>` per record.
 */
module Reporter {
  import opened Wrappers
  import opened Timestamps
  import opened Packages

  /** The sort key: aware datetimes compare by the instant they denote. */
  function Key(p: PkgRecord): int
    requires Resolved(p)
  {
    Instant(p.publishDate.value)
  }

  predicate SortedByDate(rs: seq<PkgRecord>)
    requires AllResolved(rs)
  {
    forall i, j :: 0 <= i < j < |rs| ==> Key(rs[i]) <= Key(rs[j])
  }

  /** Places `p` before the first record that is not earlier than it. */
  function Insert(p: PkgRecord, rs: seq<PkgRecord>): (r: seq<PkgRecord>)
    requires Resolved(p) && AllResolved(rs)
    ensures |r| == |rs| + 1
    ensures multiset(r) == multiset(rs) + multiset{p}
    ensures AllResolved(r)
  {
    if rs == [] || Key(p) <= Key(rs[0]) then [p] + rs
    else
      var t := Insert(p, rs[1..]);
      assert rs == [rs[0]] + rs[1..];
      [rs[0]] + t
  }

  /** A stable sort by publish date: insertion of each record into the sorted rest. */
  function SortByDate(rs: seq<PkgRecord>): (r: seq<PkgRecord>)
    requires AllResolved(rs)
    ensures |r| == |rs|
    ensures multiset(r) == multiset(rs)
    ensures AllResolved(r)
  {
    if rs == [] then []
    else
      assert rs == [rs[0]] + rs[1..];
      Insert(rs[0], SortByDate(rs[1..]))
  }

  lemma {:induction false} InsertAbove(p: PkgRecord, rs: seq<PkgRecord>, lo: int)
    requires Resolved(p) && AllResolved(rs)
    requires lo <= Key(p) && forall k :: 0 <= k < |rs| ==> lo <= Key(rs[k])
    ensures forall k :: 0 <= k < |Insert(p, rs)| ==> lo <= Key(Insert(p, rs)[k])
    decreases |rs|
  {
    if rs != [] && Key(p) > Key(rs[0]) {
      InsertAbove(p, rs[1..], lo);
      assert Insert(p, rs) == [rs[0]] + Insert(p, rs[1..]);
    }
  }

  lemma {:induction false} InsertSorted(p: PkgRecord, rs: seq<PkgRecord>)
    requires Resolved(p) && AllResolved(rs) && SortedByDate(rs)
    ensures SortedByDate(Insert(p, rs))
    decreases |rs|
  {
    if rs != [] && Key(p) > Key(rs[0]) {
      var t := Insert(p, rs[1..]);
      InsertSorted(p, rs[1..]);
      InsertAbove(p, rs[1..], Key(rs[0]));
      assert Insert(p, rs) == [rs[0]] + t;
    }
  }

  /** The report is in non-decreasing order of publish instant. */
  lemma {:induction false} SortByDateSorted(rs: seq<PkgRecord>)
    requires AllResolved(rs)
    ensures SortedByDate(SortByDate(rs))
    decreases |rs|
  {
    if rs != [] {
      SortByDateSorted(rs[1..]);
      InsertSorted(rs[0], SortByDate(rs[1..]));
    }
  }

  /** The records whose publish date denotes the instant `v`, in their order. */
  function WithInstant(rs: seq<PkgRecord>, v: int): seq<PkgRecord>
    requires AllResolved(rs)
  {
    if rs == [] then [] else (if Key(rs[0]) == v then [rs[0]] else []) + WithInstant(rs[1..], v)
  }

  lemma {:induction false} InsertWithInstant(p: PkgRecord, rs: seq<PkgRecord>, v: int)
    requires Resolved(p) && AllResolved(rs)
    ensures WithInstant(Insert(p, rs), v) == if Key(p) == v then [p] + WithInstant(rs, v) else WithInstant(rs, v)
    decreases |rs|
  {
    var r := Insert(p, rs);
    if rs == [] || Key(p) <= Key(rs[0]) {
      assert r[1..] == rs;
    } else {
      InsertWithInstant(p, rs[1..], v);
      assert r[1..] == Insert(p, rs[1..]);
    }
  }

  /**
   * The sort is stable: for every instant, the records published at that
   * instant appear in the report in the order they were listed.
   */
  lemma {:induction false} SortByDateStable(rs: seq<PkgRecord>, v: int)
    requires AllResolved(rs)
    ensures WithInstant(SortByDate(rs), v) == WithInstant(rs, v)
    decreases |rs|
  {
    if rs != [] {
      SortByDateStable(rs[1..], v);
      InsertWithInstant(rs[0], SortByDate(rs[1..]), v);
    }
  }

  lemma {:induction false} WithInstantNonEmpty(rs: seq<PkgRecord>, v: int)
    requires AllResolved(rs)
    ensures WithInstant(rs, v) != [] <==> exists k :: 0 <= k < |rs| && Key(rs[k]) == v
    decreases |rs|
  {
    if rs != [] {
      WithInstantNonEmpty(rs[1..], v);
      if Key(rs[0]) != v && exists k :: 0 <= k < |rs| && Key(rs[k]) == v {
        var k :| 0 <= k < |rs| && Key(rs[k]) == v;
        assert rs[1..][k - 1] == rs[k];
      }
    }
  }

  /**
   * A sorted sequence is fixed by the order of the records at each instant:
   * any stable sort by date, such as Python's `sorted`, yields SortByDate.
   */
  lemma {:induction false} StableSortUnique(a: seq<PkgRecord>, b: seq<PkgRecord>)
    requires AllResolved(a) && AllResolved(b) && SortedByDate(a) && SortedByDate(b)
    requires forall v :: WithInstant(a, v) == WithInstant(b, v)
    ensures a == b
    decreases |a|
  {
    if a == [] || b == [] {
      if a != [] {
        WithInstantNonEmpty(a, Key(a[0]));
      } else if b != [] {
        WithInstantNonEmpty(b, Key(b[0]));
      }
    } else {
      SameHead(a, b);
      forall v ensures WithInstant(a[1..], v) == WithInstant(b[1..], v) {
        SameTailFilter(a, b, v);
      }
      StableSortUnique(a[1..], b[1..]);
      assert a == [a[0]] + a[1..] && b == [b[0]] + b[1..];
    }
  }

  /** Two sorted sequences with the same records at every instant start alike. */
  lemma SameHead(a: seq<PkgRecord>, b: seq<PkgRecord>)
    requires AllResolved(a) && AllResolved(b) && SortedByDate(a) && SortedByDate(b)
    requires a != [] && b != []
    requires forall v :: WithInstant(a, v) == WithInstant(b, v)
    ensures a[0] == b[0]
  {
    var va, vb := Key(a[0]), Key(b[0]);
    WithInstantNonEmpty(b, va);
    WithInstantNonEmpty(a, vb);
    assert WithInstant(a, va) == WithInstant(b, va);
    assert WithInstant(a, vb) == WithInstant(b, vb);
    assert WithInstant(a, va)[0] == a[0];
    assert WithInstant(b, vb)[0] == b[0];
  }

  lemma SameTailFilter(a: seq<PkgRecord>, b: seq<PkgRecord>, v: int)
    requires AllResolved(a) && AllResolved(b) && a != [] && b != [] && a[0] == b[0]
    requires WithInstant(a, v) == WithInstant(b, v)
    ensures WithInstant(a[1..], v) == WithInstant(b[1..], v)
  {
    var head := if Key(a[0]) == v then [a[0]] else [];
    assert WithInstant(a[1..], v) == WithInstant(a, v)[|head|..];
    assert WithInstant(b[1..], v) == WithInstant(b, v)[|head|..];
  }

  /** Sorting moves records but does not alter them, so their dates stay valid. */
  lemma SortByDateDatesValid(rs: seq<PkgRecord>)
    requires AllResolved(rs) && DatesValid(rs)
    ensures DatesValid(SortByDate(rs))
  {
    var s := SortByDate(rs);
    forall k | 0 <= k < |s| && s[k].publishDate.Some? ensures Valid(s[k].publishDate.value) {
      assert s[k] in multiset(s);
      assert s[k] in multiset(rs);
      var j :| 0 <= j < |rs| && rs[j] == s[k];
    }
  }

  // Rendering.

  /** One report line: `<name>: <YYYY/MM/DD HH:MM:SS>`. */
  function FormatLine(p: PkgRecord): string
    requires Resolved(p)
  {
    p.name + ": " + FormatDate(p.publishDate.value)
  }

  function Lines(rs: seq<PkgRecord>): (r: seq<string>)
    requires AllResolved(rs)
    ensures |r| == |rs|
    ensures forall k :: 0 <= k < |rs| ==> r[k] == FormatLine(rs[k])
  {
    if rs == [] then [] else Lines(rs[..|rs| - 1]) + [FormatLine(rs[|rs| - 1])]
  }

  /** Comparing a missing date raises, and so does rendering one. */
  datatype ReportError = UnresolvedDate

  /**
   * The printed report: one line per record in date order, or a failure,
   * before anything is printed, when some record has no publish date.
   */
  function Report(rs: seq<PkgRecord>): (r: Result<seq<string>, ReportError>)
    ensures r.Err? <==> exists k :: 0 <= k < |rs| && !Resolved(rs[k])
    ensures r.Ok? ==> |r.value| == |rs|
  {
    if AllResolved(rs) then Ok(Lines(SortByDate(rs))) else Err(UnresolvedDate)
  }

  /**
   * The report of dated records is the rendering of any date-ordered list
   * that holds, publish instant by publish instant, the same records in the
   * same relative order: the report is the stable sort by date.
   */
  lemma ReportIsStableSort(rs: seq<PkgRecord>, s: seq<PkgRecord>)
    requires AllResolved(rs) && AllResolved(s) && SortedByDate(s)
    requires forall v :: WithInstant(s, v) == WithInstant(rs, v)
    ensures Report(rs) == Ok(Lines(s))
  {
    SortByDateSorted(rs);
    forall v ensures WithInstant(SortByDate(rs), v) == WithInstant(s, v) {
      SortByDateStable(rs, v);
    }
    StableSortUnique(SortByDate(rs), s);
  }

  /** Sorts the records, then renders them, or fails when some date is missing. */
  method PrintReport(rs: seq<PkgRecord>) returns (r: Result<seq<string>, ReportError>)
    ensures r == Report(rs)
  {
    if !AllResolved(rs) {
      return Err(UnresolvedDate);
    }
    var out := PrintLines(SortByDate(rs));
    return Ok(out);
  }

  /** The printing loop: one line per record, in order. */
  method PrintLines(sorted: seq<PkgRecord>) returns (out: seq<string>)
    requires AllResolved(sorted)
    ensures out == Lines(sorted)
  {
    out := [];
    for k := 0 to |sorted|
      invariant |out| == k
      invariant forall j :: 0 <= j < k ==> out[j] == FormatLine(sorted[j])
    {
      out := out + [FormatLine(sorted[k])];
    }
    LinesAre(sorted, out);
  }

  lemma LinesAre(rs: seq<PkgRecord>, out: seq<string>)
    requires AllResolved(rs) && |out| == |rs|
    requires forall j :: 0 <= j < |rs| ==> out[j] == FormatLine(rs[j])
    ensures Lines(rs) == out
  {
  }

  /** Two records listed out of date order are swapped. */
  lemma SortTwo(x: PkgRecord, y: PkgRecord)
    requires Resolved(x) && Resolved(y) && Key(y) < Key(x)
    ensures SortByDate([x, y]) == [y, x]
  {
    assert [x, y][1..] == [y];
    assert SortByDate([y]) == [y];
  }

  /** Two records already in date order, or published at the same instant, keep their order. */
  lemma SortTwoInOrder(x: PkgRecord, y: PkgRecord)
    requires Resolved(x) && Resolved(y) && Key(x) <= Key(y)
    ensures SortByDate([x, y]) == [x, y]
  {
    assert [x, y][1..] == [y];
    assert SortByDate([y]) == [y];
  }

  /** Of two resolved records, the one published in 2020 is printed before the one from 2021. */
  lemma EarlierPrintedFirst(later: PkgRecord, earlier: PkgRecord)
    requires later == PkgRecord("b", "2.0.0", Some(Timestamp(2021, 6, 15, 12, 30, 0, 0, 0)))
    requires earlier == PkgRecord("a", "1.0.0", Some(Timestamp(2020, 1, 1, 0, 0, 0, 0, 0)))
    ensures Report([later, earlier]) == Ok(Lines([earlier, later]))
  {
    InstantOrdersByLocalFields(earlier.publishDate.value, later.publishDate.value);
    SortTwo(later, earlier);
  }
}
