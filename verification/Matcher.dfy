/** `matcher.Evaluate` and the (ecosystem, name) key of the bulk lookup.
    Parsing and checking of semver strings are parameters. */
module Matcher {
  import opened Ordering
  import opened Domain

  datatype Semver = Semver(
    constraintParses: string -> bool,
    versionParses: string -> bool,
    check: (string, string) -> bool)

  datatype Match = Match(matched: bool, packages: seq<PackageVersion>)

  predicate EcosystemsMeet(a: string, b: string) {
    a == "" || b == "" || a == b
  }

  /** The kind-specific predicate on one package. */
  predicate Fires(sv: Semver, ioc: IoC, p: PackageVersion) {
    match ioc.kind
    case ByVersion => ioc.exact.Some? && p.name == ioc.exact.value.name && p.version == ioc.exact.value.version
    case ByRange =>
      && ioc.range.Some? && sv.constraintParses(ioc.range.value.constraint)
      && p.name == ioc.range.value.name && sv.versionParses(p.version)
      && sv.check(ioc.range.value.constraint, p.version)
    case ByAnomaly =>
      ioc.anomalyRef.Some? && ioc.anomalyRef.value != "" && p.ecosystem + ":" + p.name == ioc.anomalyRef.value
    case OtherKind(_) => false
  }

  /** What it means for an indicator to match an SBOM. */
  ghost predicate Matches(sv: Semver, ioc: IoC, sbom: SBOM) {
    EcosystemsMeet(sbom.ecosystem, ioc.ecosystem) && exists p :: p in sbom.packages && Fires(sv, ioc, p)
  }

  /** The packages of a list that fire, in order. */
  function Hits(sv: Semver, ioc: IoC, ps: seq<PackageVersion>): (hits: seq<PackageVersion>)
    ensures forall p :: p in hits <==> p in ps && Fires(sv, ioc, p)
  {
    if ps == [] then []
    else
      var n := |ps| - 1;
      Hits(sv, ioc, ps[..n]) + (if Fires(sv, ioc, ps[n]) then [ps[n]] else [])
  }

  /** What the verdict is, kind by kind: every package of an SBOM of the same
      ecosystem, or of either side's wildcard, that meets the indicator's body. */
  method Evaluate(sv: Semver, ioc: IoC, sbom: SBOM) returns (m: Match)
    ensures m.matched <==> Matches(sv, ioc, sbom)
    ensures m.packages == if m.matched then Hits(sv, ioc, sbom.packages) else []
    ensures m.matched <==> m.packages != []
    ensures sbom.ecosystem != "" && ioc.ecosystem != "" && sbom.ecosystem != ioc.ecosystem ==> m.packages == []
    ensures (sbom.ecosystem == "" || ioc.ecosystem == "" || sbom.ecosystem == ioc.ecosystem) ==>
      match ioc.kind
      case ByVersion => forall p :: p in m.packages <==>
        && p in sbom.packages && ioc.exact.Some?
        && p.name == ioc.exact.value.name && p.version == ioc.exact.value.version
      case ByRange => forall p :: p in m.packages <==>
        && p in sbom.packages && ioc.range.Some? && p.name == ioc.range.value.name
        && sv.constraintParses(ioc.range.value.constraint) && sv.versionParses(p.version)
        && sv.check(ioc.range.value.constraint, p.version)
      case ByAnomaly => forall p :: p in m.packages <==>
        && p in sbom.packages && ioc.anomalyRef.Some? && ioc.anomalyRef.value == p.ecosystem + ":" + p.name
      case OtherKind(_) => m.packages == []
  {
    if sbom.ecosystem != "" && ioc.ecosystem != "" && sbom.ecosystem != ioc.ecosystem {
      return Match(false, []);
    }
    var hits: seq<PackageVersion> := [];
    match ioc.kind {
      case ByVersion => hits := EvaluateVersion(sv, ioc, sbom);
      case ByRange => hits := EvaluateRange(sv, ioc, sbom);
      case ByAnomaly => hits := EvaluateAnomaly(sv, ioc, sbom);
      case OtherKind(_) => NeverFires(sv, ioc, sbom.packages);
    }
    m := Match(|hits| > 0, hits);
    assert |hits| > 0 ==> hits[0] in hits;
  }

  lemma {:induction false} NeverFires(sv: Semver, ioc: IoC, ps: seq<PackageVersion>)
    requires forall p :: p in ps ==> !Fires(sv, ioc, p)
    ensures Hits(sv, ioc, ps) == []
  {
    if ps == [] {
    } else {
      NeverFires(sv, ioc, ps[..|ps| - 1]);
    }
  }

  method EvaluateVersion(sv: Semver, ioc: IoC, sbom: SBOM) returns (hits: seq<PackageVersion>)
    requires ioc.kind.ByVersion?
    ensures hits == Hits(sv, ioc, sbom.packages)
    ensures forall p :: p in hits <==>
      && p in sbom.packages && ioc.exact.Some?
      && p.name == ioc.exact.value.name && p.version == ioc.exact.value.version
  {
    hits := [];
    if ioc.exact.None? {
      NeverFires(sv, ioc, sbom.packages);
      return;
    }
    var target := ioc.exact.value;
    var ps := sbom.packages;
    for i := 0 to |ps|
      invariant hits == Hits(sv, ioc, ps[..i])
    {
      assert ps[..i + 1][..i] == ps[..i];
      if ps[i].name == target.name && ps[i].version == target.version {
        hits := hits + [ps[i]];
      }
    }
    assert ps[..|ps|] == ps;
  }

  method EvaluateRange(sv: Semver, ioc: IoC, sbom: SBOM) returns (hits: seq<PackageVersion>)
    requires ioc.kind.ByRange?
    ensures hits == Hits(sv, ioc, sbom.packages)
    ensures forall p :: p in hits <==>
      && p in sbom.packages && ioc.range.Some? && p.name == ioc.range.value.name
      && sv.constraintParses(ioc.range.value.constraint) && sv.versionParses(p.version)
      && sv.check(ioc.range.value.constraint, p.version)
  {
    hits := [];
    if ioc.range.None? || !sv.constraintParses(ioc.range.value.constraint) {
      NeverFires(sv, ioc, sbom.packages);
      return;
    }
    var target := ioc.range.value;
    var ps := sbom.packages;
    for i := 0 to |ps|
      invariant hits == Hits(sv, ioc, ps[..i])
    {
      assert ps[..i + 1][..i] == ps[..i];
      if ps[i].name != target.name || !sv.versionParses(ps[i].version) {
        continue;
      }
      if sv.check(target.constraint, ps[i].version) {
        hits := hits + [ps[i]];
      }
    }
    assert ps[..|ps|] == ps;
  }

  method EvaluateAnomaly(sv: Semver, ioc: IoC, sbom: SBOM) returns (hits: seq<PackageVersion>)
    requires ioc.kind.ByAnomaly?
    ensures hits == Hits(sv, ioc, sbom.packages)
    ensures forall p :: p in hits <==>
      p in sbom.packages && ioc.anomalyRef.Some? && ioc.anomalyRef.value == p.ecosystem + ":" + p.name
  {
    hits := [];
    if ioc.anomalyRef.None? || ioc.anomalyRef.value == "" {
      NeverFires(sv, ioc, sbom.packages);
      return;
    }
    var target := ioc.anomalyRef.value;
    var ps := sbom.packages;
    for i := 0 to |ps|
      invariant hits == Hits(sv, ioc, ps[..i])
    {
      assert ps[..i + 1][..i] == ps[..i];
      if ps[i].ecosystem + ":" + ps[i].name == target {
        hits := hits + [ps[i]];
      }
    }
    assert ps[..|ps|] == ps;
  }

  // ---------------------------------------------------------------------
  // The bulk-lookup key and when looking up by key loses nothing
  // ---------------------------------------------------------------------

  datatype Key = Key(ecosystem: string, name: string)

  function IndexOfColon(s: string): (i: int)
    ensures -1 <= i < |s|
    ensures i >= 0 ==> s[i] == ':' && ':' !in s[..i]
    ensures i == -1 ==> ':' !in s
  {
    if s == "" then -1
    else if s[0] == ':' then 0
    else
      var i := IndexOfColon(s[1..]);
      assert s == [s[0]] + s[1..];
      if i < 0 then -1
      else
        assert s[..i + 1] == [s[0]] + s[1..][..i];
        i + 1
  }

  function LookupKey(ioc: IoC): Option<Key> {
    match ioc.kind
    case ByVersion => if ioc.exact.None? then None else Some(Key(ioc.ecosystem, ioc.exact.value.name))
    case ByRange => if ioc.range.None? then None else Some(Key(ioc.ecosystem, ioc.range.value.name))
    case ByAnomaly =>
      if ioc.anomalyRef.None? then None
      else
        var ref := ioc.anomalyRef.value;
        var i := IndexOfColon(ref);
        if i <= 0 || i == |ref| - 1 then None else Some(Key(ref[..i], ref[i + 1..]))
    case OtherKind(_) => None
  }

  /** A row of the bulk lookup wrapped in a one-package SBOM. */
  function Synthetic(ecosystem: string, p: PackageVersion): SBOM {
    SBOM("", "", ecosystem, 0, [p])
  }

  /** The key finds a package of the SBOM and the indicator matches it. */
  ghost predicate IndexedMatch(sv: Semver, ioc: IoC, sbom: SBOM) {
    && LookupKey(ioc).Some?
    && sbom.ecosystem == LookupKey(ioc).value.ecosystem
    && exists p :: p in sbom.packages && p.name == LookupKey(ioc).value.name &&
                   Matches(sv, ioc, Synthetic(sbom.ecosystem, p))
  }

  /** What every parser guarantees of the SBOMs it produces. */
  ghost predicate WellFormed(sbom: SBOM) {
    && sbom.ecosystem != "" && ':' !in sbom.ecosystem
    && forall p :: p in sbom.packages ==> p.ecosystem == sbom.ecosystem
  }

  /** Indicators whose key cannot find what `Evaluate` would match: a package
      indicator with the wildcard ecosystem, or a package ref with no name. */
  predicate Unindexed(ioc: IoC) {
    match ioc.kind
    case ByVersion => ioc.ecosystem == ""
    case ByRange => ioc.ecosystem == ""
    case ByAnomaly => ioc.anomalyRef.Some? && ioc.anomalyRef.value != "" &&
                      IndexOfColon(ioc.anomalyRef.value) == |ioc.anomalyRef.value| - 1
    case OtherKind(_) => false
  }

  lemma {:induction false} SplitAtColon(e: string, n: string)
    requires ':' !in e
    ensures var ref := e + ":" + n;
      IndexOfColon(ref) == |e| && ref[..|e|] == e && ref[|e| + 1..] == n
  {
    if e == "" {
    } else {
      SplitAtColon(e[1..], n);
      assert (e + ":" + n)[1..] == e[1..] + ":" + n;
      assert (e + ":" + n)[0] in e;
    }
  }

  lemma SyntheticMatches(sv: Semver, ioc: IoC, e: string, p: PackageVersion)
    ensures Matches(sv, ioc, Synthetic(e, p)) <==> EcosystemsMeet(e, ioc.ecosystem) && Fires(sv, ioc, p)
  {
    assert p in Synthetic(e, p).packages;
  }

  lemma IndexedIsSound(sv: Semver, ioc: IoC, sbom: SBOM)
    requires IndexedMatch(sv, ioc, sbom)
    ensures Matches(sv, ioc, sbom)
  {
    var p :| p in sbom.packages && p.name == LookupKey(ioc).value.name
      && Matches(sv, ioc, Synthetic(sbom.ecosystem, p));
    SyntheticMatches(sv, ioc, sbom.ecosystem, p);
  }

  lemma IndexedIsComplete(sv: Semver, ioc: IoC, sbom: SBOM)
    requires WellFormed(sbom) && !Unindexed(ioc) && Matches(sv, ioc, sbom)
    ensures IndexedMatch(sv, ioc, sbom)
  {
    var p :| p in sbom.packages && Fires(sv, ioc, p);
    SyntheticMatches(sv, ioc, sbom.ecosystem, p);
    if ioc.kind.ByAnomaly? { SplitAtColon(p.ecosystem, p.name); }
    assert p.name == LookupKey(ioc).value.name;
  }

  lemma UnindexedFindsNothing(sv: Semver, ioc: IoC, sbom: SBOM)
    requires WellFormed(sbom) && Unindexed(ioc)
    ensures !IndexedMatch(sv, ioc, sbom)
  {
  }

  /** On a parser-produced SBOM, key lookup and full evaluation differ exactly
      when the indicator is unindexed and matches. */
  lemma IndexAgreesIff(sv: Semver, ioc: IoC, sbom: SBOM)
    requires WellFormed(sbom)
    ensures (IndexedMatch(sv, ioc, sbom) <==> Matches(sv, ioc, sbom)) <==> !(Unindexed(ioc) && Matches(sv, ioc, sbom))
  {
    if IndexedMatch(sv, ioc, sbom) { IndexedIsSound(sv, ioc, sbom); }
    if Unindexed(ioc) {
      UnindexedFindsNothing(sv, ioc, sbom);
    } else if Matches(sv, ioc, sbom) {
      IndexedIsComplete(sv, ioc, sbom);
    }
  }
}
