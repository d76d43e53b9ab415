/** The HTTP handlers and the two forward-match paths, as code over the store
    and the event log, each proved to be one step of the state machine. */
module Server {
  import opened Ordering
  import opened Domain
  import opened Matcher
  import opened Engine
  import opened EngineInvariants
  import opened EngineTheorems
  import opened Store

  datatype Reply = Created | Done | BadRequest | NotFound | Conflict

  /** One entry of a parsed npm lockfile. */
  datatype LockEntry = LockEntry(name: string, version: string)

  /** The parser stamps its ecosystem on every package. */
  function NpmPackages(entries: seq<LockEntry>): (ps: seq<PackageVersion>)
    ensures |ps| == |entries| && forall i :: 0 <= i < |ps| ==>
      ps[i] == PackageVersion("npm", entries[i].name, entries[i].version)
  {
    seq(|entries|, i requires 0 <= i < |entries| => PackageVersion("npm", entries[i].name, entries[i].version))
  }

  ghost predicate RowsByRef(rows: seq<PackageRow>) {
    forall i, j :: 0 <= i < j < |rows| ==> AtMost(rows[i].ref, rows[j].ref)
  }

  /** The distinct refs of the rows the indicator matches; in ref order when
      the rows are. */
  method MatchPackagesAgainstIoC(sv: Semver, ioc: IoC, ecosystem: string, rows: seq<PackageRow>)
    returns (out: seq<string>)
    ensures Distinct(out)
    ensures forall r :: r in out <==> HitAmong(sv, ioc, ecosystem, rows, |rows|, r)
    ensures RowsByRef(rows) ==> Ascending(out)
  {
    out := [];
    var seen: set<string> := {};
    for k := 0 to |rows|
      invariant forall r :: r in seen <==> r in out
      invariant HitsSoFar(sv, ioc, ecosystem, rows, k, out)
    {
      HitsOneMore(sv, ioc, ecosystem, rows, k, out);
      var p := rows[k];
      if p.ref in seen { continue; }
      var m := Evaluate(sv, ioc, Synthetic(ecosystem, p.package));
      if !m.matched { continue; }
      seen := seen + {p.ref};
      out := out + [p.ref];
    }
  }

  /** One of the first k rows belongs to component r and is matched. */
  ghost predicate HitAmong(sv: Semver, ioc: IoC, ecosystem: string, rows: seq<PackageRow>, k: nat, r: string)
    requires k <= |rows|
  {
    exists i :: 0 <= i < k && rows[i].ref == r && Matches(sv, ioc, Synthetic(ecosystem, rows[i].package))
  }

  ghost predicate HitsSoFar(sv: Semver, ioc: IoC, ecosystem: string, rows: seq<PackageRow>, k: nat, out: seq<string>)
    requires k <= |rows|
  {
    && Distinct(out)
    && (forall r :: r in out <==> HitAmong(sv, ioc, ecosystem, rows, k, r))
    && (RowsByRef(rows) ==> Ascending(out))
  }

  lemma HitsOneMore(sv: Semver, ioc: IoC, ecosystem: string, rows: seq<PackageRow>, k: nat, out: seq<string>)
    requires k < |rows| && HitsSoFar(sv, ioc, ecosystem, rows, k, out)
    ensures HitsSoFar(sv, ioc, ecosystem, rows, k + 1,
      if Matches(sv, ioc, Synthetic(ecosystem, rows[k].package)) && rows[k].ref !in out then out + [rows[k].ref]
        else out)
  {
    var ref := rows[k].ref;
    var hit := Matches(sv, ioc, Synthetic(ecosystem, rows[k].package));
    forall r ensures HitAmong(sv, ioc, ecosystem, rows, k + 1, r) <==>
                     HitAmong(sv, ioc, ecosystem, rows, k, r) || (hit && r == ref) {}
    if hit && ref !in out && RowsByRef(rows) {
      forall r | r in out ensures AtMost(r, ref) {
        var i :| 0 <= i < k && rows[i].ref == r;
      }
      AscendingSnoc(out, ref);
    }
  }

  /** The indexed forward match. */
  method ForwardMatch(sv: Semver, store: Store, ioc: IoC) returns (pairs: seq<Pair>, refs: seq<string>)
    ensures Ascending(refs) && Elements(refs) == IndexedRefs(sv, store.sboms, ioc)
    ensures pairs == PairsFor(ioc.id, refs)
  {
    var key := LookupKey(ioc);
    if key.None? {
      assert IndexedRefs(sv, store.sboms, ioc) == {};
      return [], [];
    }
    var rows := store.ListSBOMPackages(key.value.ecosystem, key.value.name);
    RowOrderRefines(rows);
    refs := MatchPackagesAgainstIoC(sv, ioc, key.value.ecosystem, rows);
    RowsGiveIndexedRefs(sv, store.sboms, ioc, rows, refs);
    pairs := [];
    for i := 0 to |refs|
      invariant pairs == PairsFor(ioc.id, refs[..i])
    {
      pairs := pairs + [Pair(ioc.id, refs[i])];
    }
    assert refs[..|refs|] == refs;
  }

  lemma RowOrderRefines(rows: seq<PackageRow>)
    requires SortedBy(ByRefThenVersion, rows)
    ensures RowsByRef(rows)
  {
    forall i, j | 0 <= i < j < |rows| ensures AtMost(rows[i].ref, rows[j].ref) {
      assert ByRefThenVersion(rows[i], rows[j]);
    }
  }

  lemma RowsGiveIndexedRefs(sv: Semver, sboms: map<string, SBOM>, ioc: IoC, rows: seq<PackageRow>, refs: seq<string>)
    requires LookupKey(ioc).Some?
    requires var key := LookupKey(ioc).value;
      && (forall r :: r in rows <==> exists id :: id in sboms && IsRow(sboms[id], key.ecosystem, key.name, r))
      && (forall r :: r in refs <==> HitAmong(sv, ioc, key.ecosystem, rows, |rows|, r))
    ensures Elements(refs) == IndexedRefs(sv, sboms, ioc)
  {
    var key := LookupKey(ioc).value;
    forall r | r in refs ensures r in IndexedRefs(sv, sboms, ioc) {
      var i :| 0 <= i < |rows| && rows[i].ref == r && Matches(sv, ioc, Synthetic(key.ecosystem, rows[i].package));
      assert rows[i] in rows;
      var id :| id in sboms && IsRow(sboms[id], key.ecosystem, key.name, rows[i]);
      assert IndexedMatch(sv, ioc, sboms[id]);
    }
    forall r | r in IndexedRefs(sv, sboms, ioc) ensures r in refs {
      var id :| id in sboms && IndexedMatch(sv, ioc, sboms[id]) && sboms[id].componentRef == r;
      var p :| p in sboms[id].packages && p.name == key.name && Matches(sv, ioc, Synthetic(sboms[id].ecosystem, p));
      assert IsRow(sboms[id], key.ecosystem, key.name, PackageRow(r, p));
      assert PackageRow(r, p) in rows;
      var i :| 0 <= i < |rows| && rows[i] == PackageRow(r, p);
      assert HitAmong(sv, ioc, key.ecosystem, rows, |rows|, r);
    }
  }

  /** The full-scan forward match: every component, every SBOM of it. */
  method ScanForwardMatch(sv: Semver, store: Store, ioc: IoC) returns (pairs: seq<Pair>, refs: seq<string>)
    requires forall r :: r in store.components ==> store.components[r].ref == r
    ensures Ascending(refs) && Elements(refs) == ScanRefs(sv, store.sboms, ioc) * store.components.Keys
    ensures pairs == PairsFor(ioc.id, refs)
  {
    var comps := store.ListComponents();
    refs, pairs := [], [];
    for k := 0 to |comps|
      invariant pairs == PairsFor(ioc.id, refs)
      invariant Ascending(refs) && forall r :: r in refs ==> exists i :: 0 <= i < k && comps[i].ref == r
      invariant forall i :: 0 <= i < k ==> (comps[i].ref in refs <==> comps[i].ref in ScanRefs(sv, store.sboms, ioc))
    {
      var sboms := store.ListSBOMsByComponent(comps[k].ref);
      var hit := AnyMatches(sv, ioc, sboms);
      assert hit <==> comps[k].ref in ScanRefs(sv, store.sboms, ioc) by {
        if comps[k].ref in ScanRefs(sv, store.sboms, ioc) {
          var id :| id in store.sboms && Matches(sv, ioc, store.sboms[id])
            && store.sboms[id].componentRef == comps[k].ref;
          assert store.sboms[id] in sboms;
        }
      }
      if hit {
        LessIrreflexive(comps[k].ref);
        forall r | r in refs ensures Less(r, comps[k].ref) {
          var i :| 0 <= i < k && comps[i].ref == r;
        }
        AscendingSnoc(refs, comps[k].ref);
        pairs := pairs + [Pair(ioc.id, comps[k].ref)];
        refs := refs + [comps[k].ref];
      }
    }
    ScannedAll(comps, store.components, refs, ScanRefs(sv, store.sboms, ioc));
  }

  lemma ScannedAll(comps: seq<Component>, components: map<string, Component>, refs: seq<string>, hits: set<string>)
    requires forall r :: r in components ==> components[r].ref == r
    requires forall c :: c in comps <==> c.ref in components && components[c.ref] == c
    requires forall r :: r in refs ==> exists i :: 0 <= i < |comps| && comps[i].ref == r
    requires forall i :: 0 <= i < |comps| ==> (comps[i].ref in refs <==> comps[i].ref in hits)
    ensures Elements(refs) == hits * components.Keys
  {
    forall r ensures r in Elements(refs) <==> r in hits * components.Keys {
      if r in refs {
        var i :| 0 <= i < |comps| && comps[i].ref == r;
        assert comps[i] in comps;
      }
      if r in components {
        assert components[r] in comps;
        var i :| 0 <= i < |comps| && comps[i] == components[r];
      }
    }
  }

  /** The inner loop of the scan, which stops at the first match. */
  method AnyMatches(sv: Semver, ioc: IoC, sboms: seq<SBOM>) returns (hit: bool)
    ensures hit <==> exists b :: b in sboms && Matches(sv, ioc, b)
  {
    for i := 0 to |sboms|
      invariant forall j :: 0 <= j < i ==> !Matches(sv, ioc, sboms[j])
    {
      var m := Evaluate(sv, ioc, sboms[i]);
      if m.matched {
        assert sboms[i] in sboms;
        return true;
      }
    }
    hit := false;
  }

  /** Every stored indicator that matches the new SBOM. */
  method RetroactiveMatch(sv: Semver, store: Store, sbom: SBOM) returns (pairs: seq<Pair>, iocIds: seq<string>)
    requires forall id :: id in store.iocs ==> store.iocs[id].id == id
    ensures RetroPairs(sv, store.iocs, sbom, pairs)
    ensures Distinct(iocIds) && forall id :: id in iocIds <==> Pair(id, sbom.componentRef) in pairs
  {
    var iocs := store.ListIoCs();
    pairs := [];
    var matched: set<string> := {};
    for i := 0 to |iocs|
      invariant MatchedSoFar(sv, iocs, i, sbom, pairs, matched)
    {
      MatchedOneMore(sv, iocs, i, sbom, pairs, matched);
      var m := Evaluate(sv, iocs[i], sbom);
      if !m.matched { continue; }
      if iocs[i].id in matched { continue; }
      matched := matched + {iocs[i].id};
      pairs := pairs + [Pair(iocs[i].id, sbom.componentRef)];
    }
    MatchedAll(sv, iocs, store.iocs, sbom, matched);
    iocIds := Enumerate(matched);
    assert forall id :: id in iocIds <==> id in Elements(iocIds);
  }

  ghost predicate MatchedSoFar(sv: Semver, iocs: seq<IoC>, i: nat, sbom: SBOM, pairs: seq<Pair>, matched: set<string>)
    requires i <= |iocs|
  {
    && Distinct(pairs)
    && (forall p :: p in pairs <==> p.ref == sbom.componentRef && p.iocId in matched)
    && (forall id :: id in matched <==> exists j :: 0 <= j < i && iocs[j].id == id && Matches(sv, iocs[j], sbom))
  }

  lemma MatchedOneMore(sv: Semver, iocs: seq<IoC>, i: nat, sbom: SBOM, pairs: seq<Pair>, matched: set<string>)
    requires i < |iocs| && MatchedSoFar(sv, iocs, i, sbom, pairs, matched)
    ensures if Matches(sv, iocs[i], sbom) && iocs[i].id !in matched
            then MatchedSoFar(sv, iocs, i + 1, sbom, pairs + [Pair(iocs[i].id, sbom.componentRef)],
              matched + {iocs[i].id})
            else MatchedSoFar(sv, iocs, i + 1, sbom, pairs, matched)
  {
    var id := iocs[i].id;
    if Matches(sv, iocs[i], sbom) {
      var matched' := matched + {id};
      forall x ensures x in matched' <==> exists j :: 0 <= j < i + 1 && iocs[j].id == x && Matches(sv, iocs[j], sbom) {}
      if id !in matched { assert Pair(id, sbom.componentRef) !in pairs; }
    }
  }

  lemma MatchedAll(sv: Semver, listed: seq<IoC>, iocs: map<string, IoC>, sbom: SBOM, matched: set<string>)
    requires forall id :: id in iocs ==> iocs[id].id == id
    requires forall i :: i in listed <==> i.id in iocs && iocs[i.id] == i
    requires forall id :: id in matched <==>
      exists j :: 0 <= j < |listed| && listed[j].id == id && Matches(sv, listed[j], sbom)
    ensures forall id :: id in matched <==> id in iocs && Matches(sv, iocs[id], sbom)
  {
    forall id ensures id in matched <==> id in iocs && Matches(sv, iocs[id], sbom) {
      if id in matched {
        var j :| 0 <= j < |listed| && listed[j].id == id && Matches(sv, listed[j], sbom);
        assert listed[j] in listed;
      }
      if id in iocs {
        assert iocs[id] in listed;
        var j :| 0 <= j < |listed| && listed[j] == iocs[id];
      }
    }
  }

  /** The pairs that already have an open incident. */
  method IndexOpen(existing: seq<Incident>, ghost m: Incidents) returns (open: map<Pair, Incident>)
    requires forall i :: i in existing <==> i.id in m && m[i.id] == i
    requires forall id :: id in m ==> m[id].id == id
    ensures forall p :: p in open <==> IsOpen(m, p)
  {
    open := map[];
    for i := 0 to |existing|
      invariant forall p :: p in open <==>
        exists j :: 0 <= j < i && Concerns(existing[j], p) && NonTerminal(existing[j].state)
    {
      var inc := existing[i];
      if !NonTerminal(inc.state) { continue; }
      ghost var before := open;
      for k := 0 to |inc.snapshot|
        invariant forall p :: p in open <==> p in before || (p.iocId == inc.iocId && p.ref in inc.snapshot[..k])
      {
        assert forall r :: r in inc.snapshot[..k + 1] <==> r in inc.snapshot[..k] || r == inc.snapshot[k];
        open := open[Pair(inc.iocId, inc.snapshot[k]) := inc];
      }
      assert inc.snapshot[..|inc.snapshot|] == inc.snapshot;
    }
    forall p ensures p in open <==> IsOpen(m, p) {
      if p in open {
        var j :| 0 <= j < |existing| && Concerns(existing[j], p) && NonTerminal(existing[j].state);
        assert existing[j] in existing && existing[j].id in m;
      }
      if IsOpen(m, p) {
        var id :| id in m && Concerns(m[id], p) && NonTerminal(m[id].state);
        assert m[id] in existing;
        var j :| 0 <= j < |existing| && existing[j] == m[id];
      }
    }
  }

  lemma FreshPairsStep(m: Incidents, pairs: seq<Pair>, i: nat)
    requires i < |pairs|
    ensures FreshPairs(m, pairs[..i + 1]) ==
            if IsOpen(m, pairs[i]) || pairs[i] in FreshPairs(m, pairs[..i]) then FreshPairs(m, pairs[..i])
            else FreshPairs(m, pairs[..i]) + [pairs[i]]
  {
    assert pairs[..i + 1][..i] == pairs[..i];
  }

  /** The first i pairs have been dealt with, and `open` knows every open pair. */
  ghost predicate Raising(m: Incidents, pairs: seq<Pair>, i: nat, now: int, raised: seq<Incident>, open: map<Pair,
      Incident>)
    requires i <= |pairs|
  {
    && Opens(m, pairs[..i], now, raised)
    && (forall p :: p in open <==> IsOpen(m, p) || p in FreshPairs(m, pairs[..i]))
  }

  lemma RaisingSkips(m: Incidents, pairs: seq<Pair>, i: nat, now: int, raised: seq<Incident>, open: map<Pair, Incident>)
    requires i < |pairs| && Raising(m, pairs, i, now, raised, open) && pairs[i] in open
    ensures Raising(m, pairs, i + 1, now, raised, open)
  {
    FreshPairsStep(m, pairs, i);
  }

  lemma RaisingOpens(
    m: Incidents, pairs: seq<Pair>, i: nat, now: int, raised: seq<Incident>, open: map<Pair, Incident>,
      incident: Incident)
    requires i < |pairs| && Raising(m, pairs, i, now, raised, open) && pairs[i] !in open
    requires incident == NewIncident(incident.id, pairs[i], now) && incident.id !in AddAll(m, raised)
    ensures Raising(m, pairs, i + 1, now, raised + [incident], open[pairs[i] := incident])
  {
    KnowsOpened(m, pairs, i, open, incident);
    OpensOneMore(m, pairs, i, now, raised, incident);
  }

  lemma KnowsOpened(m: Incidents, pairs: seq<Pair>, i: nat, open: map<Pair, Incident>, incident: Incident)
    requires i < |pairs| && pairs[i] !in open
    requires forall p :: p in open <==> IsOpen(m, p) || p in FreshPairs(m, pairs[..i])
    ensures forall p :: p in open[pairs[i] := incident] <==> IsOpen(m, p) || p in FreshPairs(m, pairs[..i + 1])
  {
    FreshPairsStep(m, pairs, i);
    assert !IsOpen(m, pairs[i]) && pairs[i] !in FreshPairs(m, pairs[..i]);
  }

  lemma OpensOneMore(m: Incidents, pairs: seq<Pair>, i: nat, now: int, raised: seq<Incident>, incident: Incident)
    requires i < |pairs| && Opens(m, pairs[..i], now, raised)
    requires !IsOpen(m, pairs[i]) && pairs[i] !in FreshPairs(m, pairs[..i])
    requires incident == NewIncident(incident.id, pairs[i], now) && incident.id !in AddAll(m, raised)
    ensures Opens(m, pairs[..i + 1], now, raised + [incident])
  {
    FreshPairsStep(m, pairs, i);
    var known := FreshPairs(m, pairs[..i]);
    var more, news := raised + [incident], known + [pairs[i]];
    FreshIdsSnoc(m, raised, incident);
    forall j | 0 <= j < |more| ensures more[j] == NewIncident(more[j].id, news[j], now) {
      if j < |raised| { assert more[j] == raised[j] && news[j] == known[j]; }
    }
  }

  lemma FreshIdsSnoc(m: Incidents, raised: seq<Incident>, incident: Incident)
    requires FreshIds(m, raised) && incident.id !in AddAll(m, raised)
    ensures FreshIds(m, raised + [incident])
  {
    AddAllAdds(m, raised);
  }

  lemma AddedLast(m: Incidents, raised: seq<Incident>, incident: Incident)
    ensures AddAll(m, raised + [incident]) == AddAll(m, raised)[incident.id := incident]
  {
    assert (raised + [incident])[..|raised|] == raised;
  }

  /** The log once the raised incidents have been published, if there is a bus. */
  ghost function Announced(log: seq<Event>, raised: seq<Incident>, bus: bool): seq<Event> {
    if bus then log + OpenedEvents(raised) else log
  }

  lemma AnnouncedLast(log: seq<Event>, raised: seq<Incident>, incident: Incident, bus: bool)
    ensures Announced(log, raised + [incident], bus) ==
            if bus then Announced(log, raised, bus) + [OpenedEvent(incident)] else Announced(log, raised, bus)
  {
  }

  /** The first n readings of a clock. */
  function Readings(clock: nat -> int, n: nat): (r: seq<int>)
    ensures |r| == n && forall i :: 0 <= i < n ==> r[i] == clock(i)
  {
    seq(n, i requires 0 <= i < n => clock(i))
  }

  lemma MatchedSnoc(iocIds: seq<string>, ref: string, ats: seq<int>, i: nat)
    requires i < |iocIds| == |ats|
    ensures MatchedEvents(iocIds[..i + 1], ref, ats[..i + 1]) ==
            MatchedEvents(iocIds[..i], ref, ats[..i]) + [IoCMatched(iocIds[i], [ref], ats[i])]
  {
  }

  lemma SBOMStored(
    sv: Semver, s: State, sbom: SBOM, now: int, pairs: seq<Pair>, raised: seq<Incident>, matched: seq<string>,
    ats: seq<int>, s': State)
    requires WellShaped(s) && WellFormed(sbom) && sbom.componentRef in s.components && sbom.id !in s.sboms
    requires RetroPairs(sv, s.iocs, sbom, pairs) && Opens(s.incidents, pairs, now, raised)
    requires Distinct(matched) && forall id :: id in matched <==> Pair(id, sbom.componentRef) in pairs
    requires |ats| == |matched|
    requires s' == s.(sboms := s.sboms[sbom.id := sbom], incidents := AddAll(s.incidents, raised),
                      log := s.log + [SBOMIngested(sbom.id, sbom.componentRef, sbom.generatedAt)]
                             + OpenedEvents(raised) + MatchedEvents(matched, sbom.componentRef, ats))
    ensures Next(sv, s, SubmitSBOM(sbom, now, pairs, raised, matched, ats), s') && WellShaped(s')
  {
    StepKeepsShape(sv, s, SubmitSBOM(sbom, now, pairs, raised, matched, ats), s');
  }

  lemma IoCStored(sv: Semver, s: State, ioc: IoC, now: int, refs: seq<string>, raised: seq<Incident>, at: int,
      s': State)
    requires WellShaped(s) && AcceptableIoC(sv, ioc)
    requires Ascending(refs) && Elements(refs) == IndexedRefs(sv, s.sboms, ioc)
    requires Opens(s.incidents, PairsFor(ioc.id, refs), now, raised)
    requires s' == s.(iocs := s.iocs[ioc.id := ioc], incidents := AddAll(s.incidents, raised),
                      log := s.log + OpenedEvents(raised) + MatchedEvent(ioc, refs, at),
                        submitted := s.submitted + {ioc})
    ensures Next(sv, s, SubmitIoC(ioc, now, refs, raised, at), s') && WellShaped(s')
  {
    StepKeepsShape(sv, s, SubmitIoC(ioc, now, refs, raised, at), s');
  }

  lemma IoCForwarded(
    sv: Semver, s: State, ioc: IoC, now: int, refs: seq<string>, raised: seq<Incident>, bus: bool, at: int, s': State)
    requires WellShaped(s) && Ascending(refs) && Elements(refs) == ScanRefs(sv, s.sboms, ioc) * s.components.Keys
    requires Opens(s.incidents, PairsFor(ioc.id, refs), now, raised)
    requires s' == s.(iocs := s.iocs[ioc.id := ioc], incidents := AddAll(s.incidents, raised),
                      log := if bus then s.log + OpenedEvents(raised) + MatchedEvent(ioc, refs, at) else s.log,
                      submitted := s.submitted + {ioc},
                      silent := if bus then s.silent else s.silent + (set i | i in raised :: i.id))
    ensures Next(sv, s, ForwardIoC(ioc, now, refs, raised, bus, at), s') && WellShaped(s')
  {
    StepKeepsShape(sv, s, ForwardIoC(ioc, now, refs, raised, bus, at), s');
  }

  lemma RemediationStored(sv: Semver, s: State, id: string, rem: Remediation, now: int, s': State)
    requires WellShaped(s) && id in s.incidents && rem.incidentId == id && !rem.kind.UnknownRemediation?
    requires var i := s.incidents[id];
      s' == s.(incidents := s.incidents[id := i.(remediations := i.remediations + [rem])],
               log := s.log + [RemediationAdded(id, rem.id, rem.kind, now)])
    ensures Next(sv, s, AddRemediation(id, rem, now), s') && WellShaped(s')
  {
    StepKeepsShape(sv, s, AddRemediation(id, rem, now), s');
  }

  class Server {
    const sv: Semver
    const store: Store
    var log: seq<Event>
    ghost var submitted: set<IoC>
    ghost var silent: set<string>

    constructor (sv: Semver)
      ensures this.sv == sv && fresh(store) && View() == EMPTY
    {
      this.sv := sv;
      store := new Store();
      log := [];
      submitted, silent := {}, {};
    }

    ghost function View(): State
      reads this, store
    {
      State(store.components, store.sboms, store.iocs, store.incidents, log, submitted, silent)
    }

    ghost predicate Valid()
      reads this, store
    {
      WellShaped(View())
    }

    method Publish(e: Event)
      modifies this`log
      ensures log == old(log) + [e]
    {
      log := log + [e];
    }

    /** Opens one incident per pair without an open one, publishing each. */
    method OpenIncidentsForMatches(pairs: seq<Pair>, now: int, bus: bool) returns (raised: seq<Incident>)
      requires forall id :: id in store.incidents ==> store.incidents[id].id == id
      modifies this`log, store`incidents
      ensures Opens(old(store.incidents), pairs, now, raised)
      ensures store.incidents == AddAll(old(store.incidents), raised)
      ensures log == Announced(old(log), raised, bus)
    {
      raised := [];
      if |pairs| == 0 { return; }
      var existing := store.ListIncidents();
      var open := IndexOpen(existing, store.incidents);
      raised := RaiseUnopened(open, pairs, now, bus);
    }

    method RaiseUnopened(open0: map<Pair, Incident>, pairs: seq<Pair>, now: int, bus: bool)
      returns (raised: seq<Incident>)
      requires forall p :: p in open0 <==> IsOpen(store.incidents, p)
      modifies this`log, store`incidents
      ensures Opens(old(store.incidents), pairs, now, raised)
      ensures store.incidents == AddAll(old(store.incidents), raised)
      ensures log == Announced(old(log), raised, bus)
    {
      raised := [];
      ghost var m := store.incidents;
      var open := open0;
      assert FreshPairs(m, pairs[..0]) == [];
      for i := 0 to |pairs|
        invariant Raising(m, pairs, i, now, raised, open)
        invariant store.incidents == AddAll(m, raised)
        invariant log == Announced(old(log), raised, bus)
      {
        if pairs[i] in open {
          RaisingSkips(m, pairs, i, now, raised, open);
          continue;
        }
        var incident := Raise(pairs[i], now, bus);
        RaisingOpens(m, pairs, i, now, raised, open, incident);
        AddedLast(m, raised, incident);
        AnnouncedLast(old(log), raised, incident, bus);
        raised := raised + [incident];
        open := open[pairs[i] := incident];
      }
      assert pairs[..|pairs|] == pairs;
    }

    method Raise(p: Pair, now: int, bus: bool) returns (incident: Incident)
      modifies this`log, store`incidents
      ensures incident == NewIncident(incident.id, p, now) && incident.id !in old(store.incidents)
      ensures store.incidents == old(store.incidents)[incident.id := incident]
      ensures log == if bus then old(log) + [OpenedEvent(incident)] else old(log)
    {
      var id := FreshId(store.incidents.Keys);
      incident := NewIncident(id, p, now);
      store.UpsertIncident(incident);
      if bus {
        Publish(OpenedEvent(incident));
      }
    }

    /** `parses` says which refs have the shape of a component ref. */
    method UpsertComponent(c: Component, parses: string -> bool) returns (reply: Reply, ghost step: Step)
      requires Valid()
      modifies store`components
      ensures reply == if c.ref == "" || !parses(c.ref) then BadRequest
                       else if c.ref in old(store.components) then Done else Created
      ensures reply == BadRequest ==> View() == old(View())
      ensures reply != BadRequest ==> step == RegisterComponent(c) && Next(sv, old(View()), step, View())
      ensures Valid()
    {
      step := RegisterComponent(c);
      if c.ref == "" || !parses(c.ref) { return BadRequest, step; }
      reply := if c.ref in store.components then Done else Created;
      store.UpsertComponent(c);
      StepKeepsShape(sv, old(View()), step, View());
    }

    /** `lockfile` is the parser's result, None when it fails. The clock is read
        when the SBOM is built, when incidents are opened, and for every match
        event. */
    method SubmitSBOM(ref: string, ecosystem: string, format: string, lockfile: Option<seq<LockEntry>>,
                      generatedAt: int, now: int, clock: nat -> int)
      returns (reply: Reply, ghost step: Step)
      requires Valid()
      modifies this, store
      ensures reply == if ref !in old(store.components) then NotFound
                       else if ecosystem != "npm" || format != "npm-package-lock-v3" || lockfile.None? then BadRequest
                       else Created
      ensures reply != Created ==> View() == old(View())
      ensures reply == Created ==>
        && step.SubmitSBOM? && Next(sv, old(View()), step, View())
        && step.sbom == SBOM(step.sbom.id, ref, "npm", generatedAt, NpmPackages(lockfile.value))
        && step.now == now && step.ats == Readings(clock, |step.matched|)
      ensures Valid()
    {
      step := RegisterComponent(Component("", ""));
      if ref !in store.components { return NotFound, step; }
      if ecosystem != "npm" || format != "npm-package-lock-v3" || lockfile.None? { return BadRequest, step; }
      var id := FreshId(store.sboms.Keys);
      var sbom := SBOM(id, ref, "npm", generatedAt, NpmPackages(lockfile.value));
      step := IngestSBOM(sbom, now, clock);
      reply := Created;
    }

    /** The part of the handler after validation. */
    method IngestSBOM(sbom: SBOM, now: int, clock: nat -> int) returns (ghost step: Step)
      requires Valid() && WellFormed(sbom) && sbom.componentRef in store.components && sbom.id !in store.sboms
      modifies this, store
      ensures step.SubmitSBOM? && Next(sv, old(View()), step, View()) && Valid()
      ensures step.sbom == sbom && step.now == now && step.ats == Readings(clock, |step.matched|)
    {
      store.UpsertSBOM(sbom);
      Publish(SBOMIngested(sbom.id, sbom.componentRef, sbom.generatedAt));
      var pairs, iocIds := RetroactiveMatch(sv, store, sbom);
      var raised := OpenIncidentsForMatches(pairs, now, true);
      ghost var ats := PublishMatched(iocIds, sbom.componentRef, clock);
      step := Step.SubmitSBOM(sbom, now, pairs, raised, iocIds, ats);
      SBOMStored(sv, old(View()), sbom, now, pairs, raised, iocIds, ats, View());
    }

    method PublishMatched(iocIds: seq<string>, ref: string, clock: nat -> int) returns (ghost ats: seq<int>)
      modifies this`log
      ensures ats == Readings(clock, |iocIds|)
      ensures log == old(log) + MatchedEvents(iocIds, ref, ats)
    {
      ats := Readings(clock, |iocIds|);
      for i := 0 to |iocIds|
        invariant log == old(log) + MatchedEvents(iocIds[..i], ref, ats[..i])
      {
        MatchedSnoc(iocIds, ref, ats, i);
        assert ats[i] == clock(i);
        Publish(IoCMatched(iocIds[i], [ref], clock(i)));
      }
      assert iocIds[..|iocIds|] == iocIds && ats[..|ats|] == ats;
    }

    /** Opens the incidents of an indicator and, with a bus, announces what it
        matched. */
    method OpenAndAnnounce(ioc: IoC, pairs: seq<Pair>, refs: seq<string>, now: int, at: int, bus: bool)
      returns (raised: seq<Incident>)
      requires forall id :: id in store.incidents ==> store.incidents[id].id == id
      modifies this`log, store`incidents
      ensures Opens(old(store.incidents), pairs, now, raised)
      ensures store.incidents == AddAll(old(store.incidents), raised)
      ensures log == if bus then old(log) + OpenedEvents(raised) + MatchedEvent(ioc, refs, at) else old(log)
    {
      raised := OpenIncidentsForMatches(pairs, now, bus);
      if bus && |refs| > 0 {
        Publish(IoCMatched(ioc.id, refs, at));
      }
    }

    method SubmitIoC(ioc: IoC, now: int, at: int) returns (reply: Reply, ghost step: Step)
      requires Valid()
      modifies this, store
      ensures reply == if AcceptableIoC(sv, ioc) then Created else BadRequest
      ensures reply != Created ==> View() == old(View())
      ensures reply == Created ==>
        step.SubmitIoC? && step.ioc == ioc && step.now == now && step.at == at && Next(sv, old(View()), step, View())
      ensures Valid()
    {
      step := RegisterComponent(Component("", ""));
      if !ioc.Valid() { return BadRequest, step; }
      if ioc.kind.ByRange? && ioc.range.Some? && !sv.constraintParses(ioc.range.value.constraint) {
        return BadRequest, step;
      }
      store.UpsertIoC(ioc);
      submitted := submitted + {ioc};
      var pairs, refs := ForwardMatch(sv, store, ioc);
      var raised := OpenAndAnnounce(ioc, pairs, refs, now, at, true);
      step := Step.SubmitIoC(ioc, now, refs, raised, at);
      IoCStored(sv, old(View()), ioc, now, refs, raised, at, View());
      reply := Created;
    }

    /** `iocforward.Submit`; `bus` says whether a bus is attached. */
    method ForwardSubmit(ioc: IoC, now: int, at: int, bus: bool) returns (matched: seq<string>, ghost step: Step)
      requires Valid()
      modifies this, store
      ensures step.ForwardIoC? && step.ioc == ioc && step.bus == bus && step.refs == matched
      ensures step.now == now && step.at == at
      ensures Next(sv, old(View()), step, View()) && Valid()
    {
      store.UpsertIoC(ioc);
      submitted := submitted + {ioc};
      var pairs;
      pairs, matched := ScanForwardMatch(sv, store, ioc);
      var raised := OpenAndAnnounce(ioc, pairs, matched, now, at, bus);
      if !bus {
        silent := silent + (set i | i in raised :: i.id);
      }
      step := ForwardIoC(ioc, now, matched, raised, bus, at);
      IoCForwarded(sv, old(View()), ioc, now, matched, raised, bus, at, View());
    }

    method TransitionIncident(id: string, to: IncidentState, now: int) returns (reply: Reply, ghost step: Step)
      requires Valid()
      modifies this, store
      ensures step == MoveIncident(id, to, now) && Valid()
      ensures reply == if id !in old(store.incidents) then NotFound
                       else if CanTransitionTo(old(store.incidents)[id].state, to) then Done else Conflict
      ensures reply != Done ==> View() == old(View())
      ensures reply == Done ==> Next(sv, old(View()), step, View())
    {
      step := MoveIncident(id, to, now);
      if id !in store.incidents { return NotFound, step; }
      var inc := store.incidents[id];
      TransitionAdvances(inc, to, now);
      var r := Transition(inc, to, now);
      if r.RejectedTransition? { return Conflict, step; }
      if r.RejectedState? { return BadRequest, step; }
      store.UpsertIncident(r.incident);
      if inc.state != r.incident.state {
        Publish(IncidentTransitioned(r.incident.id, inc.state, r.incident.state, now));
      }
      StepKeepsShape(sv, old(View()), step, View());
      reply := Done;
    }

    /** `executedAt` is None when the request leaves it out. */
    method PostRemediation(id: string, kind: RemediationKind, executedAt: Option<int>, now: int)
      returns (reply: Reply, ghost step: Step)
      requires Valid()
      modifies this, store
      ensures reply == if id !in old(store.incidents) then NotFound
                       else if kind.UnknownRemediation? then BadRequest else Created
      ensures reply != Created ==> View() == old(View())
      ensures reply == Created ==>
        && step.AddRemediation? && step.id == id && step.remediation.kind == kind
        && step.remediation.executedAt == (if executedAt.Some? then executedAt.value else now)
        && Next(sv, old(View()), step, View())
      ensures Valid()
    {
      step := RegisterComponent(Component("", ""));
      if id !in store.incidents { return NotFound, step; }
      var at := if executedAt.Some? then executedAt.value else now;
      var rid := FreshId(set r | r in store.incidents[id].remediations :: r.id);
      var rem := Remediation(rid, id, kind, at);
      if kind.UnknownRemediation? { return BadRequest, step; }
      var found := store.AppendRemediation(id, rem);
      Publish(RemediationAdded(id, rem.id, rem.kind, now));
      step := Step.AddRemediation(id, rem, now);
      RemediationStored(sv, old(View()), id, rem, now, View());
      reply := Created;
    }

    /** The union of what the queried indicators contribute, ascending. */
    method BlastRadius(iocs: seq<IoC>) returns (reply: Reply, out: seq<string>)
      ensures reply == if iocs == [] || exists i :: i in iocs && !i.Valid() then BadRequest else Done
      ensures reply == BadRequest ==> out == []
      ensures reply == Done ==> Ascending(out)
      ensures reply == Done ==> forall r :: r in out <==> exists i :: i in iocs && r in BlastOf(sv, View(), i)
      ensures reply == Done && Valid() ==> forall r :: r in out <==> exists i :: i in iocs && InBlast(sv, View(), i, r)
    {
      if |iocs| == 0 { return BadRequest, []; }
      var affected: set<string> := {};
      for k := 0 to |iocs|
        invariant forall j :: 0 <= j < k ==> iocs[j].Valid()
        invariant forall r :: r in affected <==> exists j :: 0 <= j < k && r in BlastOf(sv, View(), iocs[j])
      {
        var ioc := iocs[k];
        if !ioc.Valid() {
          assert ioc in iocs;
          return BadRequest, [];
        }
        var refs;
        if ioc.id in store.iocs {
          refs := store.MatchedComponentRefsByIoC(ioc.id);
        } else {
          var pairs;
          pairs, refs := ForwardMatch(sv, store, ioc);
        }
        assert Elements(refs) == BlastOf(sv, View(), ioc);
        affected := affected + Elements(refs);
      }
      var raw := Enumerate(affected);
      AtMostIsTotalPreorder();
      out := Sort(raw, AtMost);
      PermutationDistinct(raw, out);
      assert forall r :: r in out <==> r in Elements(out);
      forall r ensures r in out <==> exists i :: i in iocs && r in BlastOf(sv, View(), i) {
        if r in affected {
          var j :| 0 <= j < |iocs| && r in BlastOf(sv, View(), iocs[j]);
          assert iocs[j] in iocs;
        }
        if i :| i in iocs && r in BlastOf(sv, View(), i) {
          var j :| 0 <= j < |iocs| && iocs[j] == i;
        }
      }
      if Valid() {
        forall i, r | i in iocs ensures r in BlastOf(sv, View(), i) <==> InBlast(sv, View(), i, r) {
          BlastIff(sv, View(), i, r);
        }
      }
      reply := Done;
    }
  }
}
