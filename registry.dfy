/**
 * The registry client: looks up each record's version in its package's
 * `time` mapping and attaches the publish date when the version is there.
 * The HTTP request and the JSON decoding are replaced by the answers they
 * would give, one `time` mapping per package name.
 */
module RegistryClient {
  import opened Wrappers
  import opened Timestamps
  import opened Packages

  /** A package's `time` mapping, from version string to publish timestamp. */
  type TimeMap = map<string, ValidTimestamp>

  /** The registry's answer per package name; a name without an answer is a fetch that fails. */
  type Registry = map<string, TimeMap>

  /** The line written to the error stream when a version has no publish date. */
  datatype Diagnostic = VersionNotFound(name: string, version: string, available: TimeMap)

  /** A fetch that raises (unreachable host, error status, malformed body). */
  datatype FetchError = FetchFailed(name: string)

  predicate Found(p: PkgRecord, registry: Registry) {
    p.name in registry && p.version in registry[p.name]
  }

  /** A record after its lookup: dated when its version is found, as it was otherwise. */
  function Resolve(p: PkgRecord, registry: Registry): PkgRecord {
    if Found(p, registry) then p.(publishDate := Some(registry[p.name][p.version])) else p
  }

  /** Every record after its lookup. */
  function EnrichAll(rs: seq<PkgRecord>, registry: Registry): (r: seq<PkgRecord>)
    ensures |r| == |rs|
    ensures forall k :: 0 <= k < |rs| ==> r[k] == Resolve(rs[k], registry)
  {
    if rs == [] then [] else EnrichAll(rs[..|rs| - 1], registry) + [Resolve(rs[|rs| - 1], registry)]
  }

  /** Index of the first record whose fetch fails, or the number of records when none does. */
  function FirstUnavailable(rs: seq<PkgRecord>, registry: Registry): (f: nat)
    ensures f <= |rs|
    ensures forall k :: 0 <= k < f ==> rs[k].name in registry
    ensures f < |rs| ==> rs[f].name !in registry
  {
    if rs == [] || rs[0].name !in registry then 0 else 1 + FirstUnavailable(rs[1..], registry)
  }

  lemma FirstUnavailableIs(rs: seq<PkgRecord>, i: nat, registry: Registry)
    requires i <= |rs| && AllAvailable(rs[..i], registry) && (i < |rs| ==> rs[i].name !in registry)
    ensures FirstUnavailable(rs, registry) == i
  {
  }

  predicate AllAvailable(rs: seq<PkgRecord>, registry: Registry) {
    forall k :: 0 <= k < |rs| ==> rs[k].name in registry
  }

  /** The diagnostics for a list of records, in order: one per record whose version is not found. */
  function Diagnostics(rs: seq<PkgRecord>, registry: Registry): seq<Diagnostic>
    requires AllAvailable(rs, registry)
  {
    if rs == [] then []
    else
      var p := rs[|rs| - 1];
      Diagnostics(rs[..|rs| - 1], registry)
        + (if p.version in registry[p.name] then [] else [VersionNotFound(p.name, p.version, registry[p.name])])
  }

  /** The dates enrichment attaches come from the registry, so they are valid. */
  lemma EnrichAllDatesValid(rs: seq<PkgRecord>, registry: Registry)
    requires DatesValid(rs)
    ensures DatesValid(EnrichAll(rs, registry))
  {
    var r := EnrichAll(rs, registry);
    forall k | 0 <= k < |r| && r[k].publishDate.Some? ensures Valid(r[k].publishDate.value) {
      assert r[k] == Resolve(rs[k], registry);
    }
  }

  /**
   * Starting from records without dates, a record ends up dated exactly when
   * its version is a key of its package's mapping, with that key's timestamp;
   * names and versions do not change.
   */
  lemma EnrichAllDatesExactlyFound(rs: seq<PkgRecord>, registry: Registry, k: nat)
    requires AllUnresolved(rs) && k < |rs|
    ensures |EnrichAll(rs, registry)| == |rs|
    ensures var r := EnrichAll(rs, registry)[k];
      && r.name == rs[k].name && r.version == rs[k].version
      && (r.publishDate.Some? <==> Found(rs[k], registry))
      && (Found(rs[k], registry) ==> r.publishDate == Some(registry[rs[k].name][rs[k].version]))
  {
  }

  lemma {:induction false} DiagnosticsAppend(a: seq<PkgRecord>, b: seq<PkgRecord>, registry: Registry)
    requires AllAvailable(a, registry) && AllAvailable(b, registry)
    ensures AllAvailable(a + b, registry)
    ensures Diagnostics(a + b, registry) == Diagnostics(a, registry) + Diagnostics(b, registry)
    decreases |b|
  {
    if b == [] {
      assert a + b == a;
    } else {
      var b' := b[..|b| - 1];
      assert (a + b)[..|a + b| - 1] == a + b';
      assert (a + b)[|a + b| - 1] == b[|b| - 1];
      DiagnosticsAppend(a, b', registry);
    }
  }

  /**
   * A diagnostic is written for a record exactly when its version is missing
   * from its package's mapping, and it names the package, the version and the
   * mapping that was searched.
   */
  lemma {:induction false} DiagnosticsExactlyNotFound(rs: seq<PkgRecord>, registry: Registry, d: Diagnostic)
    requires AllAvailable(rs, registry)
    ensures d in Diagnostics(rs, registry) <==>
      exists k :: 0 <= k < |rs| && !Found(rs[k], registry)
        && d == VersionNotFound(rs[k].name, rs[k].version, registry[rs[k].name])
    decreases |rs|
  {
    if rs != [] {
      var init, n := rs[..|rs| - 1], |rs| - 1;
      DiagnosticsExactlyNotFound(init, registry, d);
      assert forall k :: 0 <= k < |init| ==> init[k] == rs[k];
      if d in Diagnostics(rs, registry) && d !in Diagnostics(init, registry) {
        assert !Found(rs[n], registry) && d == VersionNotFound(rs[n].name, rs[n].version, registry[rs[n].name]);
      }
    }
  }

  lemma DiagnosticsStep(rs: seq<PkgRecord>, i: nat, registry: Registry)
    requires i < |rs| && AllAvailable(rs[..i], registry) && rs[i].name in registry
    ensures AllAvailable(rs[..i + 1], registry)
    ensures Diagnostics(rs[..i + 1], registry) == Diagnostics(rs[..i], registry)
      + (if rs[i].version in registry[rs[i].name] then [] else [VersionNotFound(rs[i].name, rs[i].version, registry[rs[i].name])])
  {
    assert rs[..i + 1][..i] == rs[..i];
  }

  /**
   * The enrichment loop. It looks each record up in turn and sets its publish
   * date in place when the version is found, writing a diagnostic otherwise;
   * the first package whose fetch fails stops it, leaving the later records
   * as they were.
   */
  method Enrich(pkgs: seq<Pkg>, registry: Registry) returns (diagnostics: seq<Diagnostic>, failure: Option<FetchError>)
    requires Distinct(pkgs)
    modifies set p | p in pkgs
    ensures var f := FirstUnavailable(old(Records(pkgs)), registry);
      && failure == (if f < |pkgs| then Some(FetchFailed(pkgs[f].name)) else None)
      && diagnostics == Diagnostics(old(Records(pkgs))[..f], registry)
      && forall j :: 0 <= j < |pkgs| ==>
           pkgs[j].Value() == if j < f then Resolve(old(pkgs[j].Value()), registry) else old(pkgs[j].Value())
  {
    ghost var initial := Records(pkgs);
    diagnostics := [];
    var i := 0;
    while i < |pkgs| && pkgs[i].name in registry
      invariant 0 <= i <= |pkgs|
      invariant AllAvailable(initial[..i], registry)
      invariant diagnostics == Diagnostics(initial[..i], registry)
      invariant forall j :: 0 <= j < i ==> pkgs[j].Value() == Resolve(initial[j], registry)
      invariant forall j :: i <= j < |pkgs| ==> pkgs[j].Value() == initial[j]
    {
      DiagnosticsStep(initial, i, registry);
      var missing := LookUp(pkgs[i], registry[pkgs[i].name]);
      diagnostics := diagnostics + missing;
      i := i + 1;
    }
    failure := if i < |pkgs| then Some(FetchFailed(pkgs[i].name)) else None;
    FirstUnavailableIs(initial, i, registry);
  }

  /**
   * One lookup: sets the record's publish date in place from the package's
   * mapping when its version is a key, and otherwise leaves it alone and
   * returns the diagnostic to write.
   */
  method LookUp(pkg: Pkg, time: TimeMap) returns (missing: seq<Diagnostic>)
    modifies pkg
    ensures pkg.publishDate == if pkg.version in time then Some(time[pkg.version]) else old(pkg.publishDate)
    ensures missing == if pkg.version in time then [] else [VersionNotFound(pkg.name, pkg.version, time)]
  {
    if pkg.version in time {
      pkg.publishDate := Some(time[pkg.version]);
      missing := [];
    } else {
      missing := [VersionNotFound(pkg.name, pkg.version, time)];
    }
  }

  /** The values of the records once the first `i` have been looked up. */
  lemma RecordsAfter(pkgs: seq<Pkg>, initial: seq<PkgRecord>, i: nat, registry: Registry)
    requires i <= |pkgs| == |initial|
    requires forall j :: 0 <= j < i ==> pkgs[j].Value() == Resolve(initial[j], registry)
    requires forall j :: i <= j < |pkgs| ==> pkgs[j].Value() == initial[j]
    ensures Records(pkgs) == EnrichAll(initial[..i], registry) + initial[i..]
  {
    RecordsAre(pkgs, EnrichAll(initial[..i], registry) + initial[i..]);
  }
}
