/** The package record the pipeline creates, enriches and reports. */
module Packages {
  import opened Wrappers
  import opened Timestamps

  /** The value of a package record at one moment. */
  datatype PkgRecord = PkgRecord(name: string, version: string, publishDate: Option<Timestamp>)

  /**
   * A package record. The parser creates it with no publish date and the
   * enrichment step later sets `publishDate` in place; name and version are
   * never reassigned.
   */
  class Pkg {
    const name: string
    const version: string
    var publishDate: Option<Timestamp>

    constructor (name: string, version: string)
      ensures this.name == name && this.version == version && publishDate == None
    {
      this.name := name;
      this.version := version;
      publishDate := None;
    }

    function Value(): PkgRecord
      reads this
    {
      PkgRecord(name, version, publishDate)
    }
  }

  /** The values of a list of records, entry by entry. */
  function Records(pkgs: seq<Pkg>): (rs: seq<PkgRecord>)
    reads set p | p in pkgs
    ensures |rs| == |pkgs|
    ensures forall k :: 0 <= k < |pkgs| ==> rs[k] == pkgs[k].Value()
  {
    if pkgs == [] then [] else Records(pkgs[..|pkgs| - 1]) + [pkgs[|pkgs| - 1].Value()]
  }

  /** No record object is listed twice, as the parser guarantees. */
  predicate Distinct(pkgs: seq<Pkg>) {
    forall a, b :: 0 <= a < |pkgs| && 0 <= b < |pkgs| && a != b ==> pkgs[a] != pkgs[b]
  }

  lemma DistinctSnoc(pkgs: seq<Pkg>, p: Pkg)
    requires Distinct(pkgs) && p !in pkgs
    ensures Distinct(pkgs + [p])
  {
  }

  /** Records are determined by the values of their entries. */
  lemma RecordsAre(pkgs: seq<Pkg>, rs: seq<PkgRecord>)
    requires |rs| == |pkgs| && forall k :: 0 <= k < |pkgs| ==> pkgs[k].Value() == rs[k]
    ensures Records(pkgs) == rs
  {
  }

  predicate Resolved(p: PkgRecord) {
    p.publishDate.Some?
  }

  predicate AllResolved(rs: seq<PkgRecord>) {
    forall k :: 0 <= k < |rs| ==> Resolved(rs[k])
  }

  predicate AllUnresolved(rs: seq<PkgRecord>) {
    forall k :: 0 <= k < |rs| ==> rs[k].publishDate.None?
  }

  /** Every date the records carry is one `strptime` could have returned. */
  predicate DatesValid(rs: seq<PkgRecord>) {
    forall k :: 0 <= k < |rs| && rs[k].publishDate.Some? ==> Valid(rs[k].publishDate.value)
  }
}
