/** Consequences for whole runs: what each matching path answers, how incidents
    age, and what the published events amount to. */
module EngineTheorems {
  import opened Ordering
  import opened Domain
  import opened Matcher
  import opened Engine
  import opened EngineInvariants

  // ---------------------------------------------------------------------
  // Arrival order and the matching paths
  // ---------------------------------------------------------------------

  /** Whichever of the two arrived first, and whatever was stored under the
      indicator's id before, a stored indicator that matches a stored SBOM has
      an incident for the SBOM's component. */
  lemma ArrivalOrderDoesNotMatter(sv: Semver, steps: seq<Step>, states: seq<State>, k: nat, iocId: string,
      sbomId: string)
    requires Run(sv, steps, states) && k < |states|
    requires iocId in states[k].iocs && sbomId in states[k].sboms
    requires Matches(sv, states[k].iocs[iocId], states[k].sboms[sbomId]) && !Unindexed(states[k].iocs[iocId])
    ensures HasIncident(states[k].incidents, Pair(iocId, states[k].sboms[sbomId].componentRef))
    ensures var m := states[k].incidents;
      exists id :: id in m && m[id].iocId == iocId && states[k].sboms[sbomId].componentRef in m[id].snapshot
  {
    RunKeepsInv(sv, steps, states, k);
    var m := states[k].incidents;
    assert HasIncident(m, Pair(iocId, states[k].sboms[sbomId].componentRef));
    var id :| id in m && Concerns(m[id], Pair(iocId, states[k].sboms[sbomId].componentRef));
    assert m[id].iocId == iocId;
  }

  /** For an unindexed indicator the order does matter: the same matching SBOM
      gets an incident when it arrives second and none when it arrives first. */
  lemma UnindexedArrivalOrderMatters(sv: Semver, c: Component, sbom: SBOM, ioc: IoC, now: int, id: string)
    requires AcceptableIoC(sv, ioc) && Unindexed(ioc) && Matches(sv, ioc, sbom)
    requires WellFormed(sbom) && sbom.componentRef == c.ref
    ensures exists states: seq<State> ::
      && Run(sv, [RegisterComponent(c), SubmitSBOM(sbom, now, [], [], [], []), SubmitIoC(ioc, now, [], [], now)],
        states)
      && states[3].incidents == map[]
    ensures exists states: seq<State>, raised: seq<Incident> ::
      && Run(sv, [RegisterComponent(c), SubmitIoC(ioc, now, [], [], now),
                  SubmitSBOM(sbom, now, [Pair(ioc.id, c.ref)], raised, [ioc.id], [now])], states)
      && HasIncident(states[3].incidents, Pair(ioc.id, c.ref))
  {
    SbomFirst(sv, c, sbom, ioc, now);
    IocFirst(sv, c, sbom, ioc, now, id);
  }

  lemma SbomFirst(sv: Semver, c: Component, sbom: SBOM, ioc: IoC, now: int)
    requires AcceptableIoC(sv, ioc) && Unindexed(ioc)
    requires WellFormed(sbom) && sbom.componentRef == c.ref
    ensures exists states: seq<State> ::
      && Run(sv, [RegisterComponent(c), SubmitSBOM(sbom, now, [], [], [], []), SubmitIoC(ioc, now, [], [], now)],
        states)
      && states[3].incidents == map[]
  {
    var s1 := EMPTY.(components := map[c.ref := c]);
    var s2 := s1.(sboms := map[sbom.id := sbom], log := [SBOMIngested(sbom.id, c.ref, sbom.generatedAt)]);
    var s3 := s2.(iocs := map[ioc.id := ioc], submitted := {ioc});
    assert Next(sv, s1, SubmitSBOM(sbom, now, [], [], [], []), s2);
    UnindexedFindsNothing(sv, ioc, sbom);
    assert IndexedRefs(sv, s2.sboms, ioc) == {};
    assert Elements<string>([]) == {};
    assert Next(sv, s2, SubmitIoC(ioc, now, [], [], now), s3);
    RunOfThree(sv, RegisterComponent(c), SubmitSBOM(sbom, now, [], [], [], []), SubmitIoC(ioc, now, [], [], now), s1,
      s2, s3);
    assert [EMPTY, s1, s2, s3][3] == s3;
  }

  lemma RunOfThree(sv: Semver, a: Step, b: Step, c: Step, s1: State, s2: State, s3: State)
    requires Next(sv, EMPTY, a, s1) && Next(sv, s1, b, s2) && Next(sv, s2, c, s3)
    ensures Run(sv, [a, b, c], [EMPTY, s1, s2, s3])
  {
    var steps, states := [a, b, c], [EMPTY, s1, s2, s3];
    NextAt(sv, steps, states, 0, EMPTY, a, s1);
    NextAt(sv, steps, states, 1, s1, b, s2);
    NextAt(sv, steps, states, 2, s2, c, s3);
    forall k | 0 <= k < |steps| ensures Next(sv, states[k], steps[k], states[k + 1]) {
      assert k == 0 || k == 1 || k == 2;
    }
  }

  lemma NextAt(sv: Semver, steps: seq<Step>, states: seq<State>, k: nat, s: State, step: Step, s': State)
    requires k < |steps| && k + 1 < |states| && states[k] == s && steps[k] == step && states[k + 1] == s'
    requires Next(sv, s, step, s')
    ensures Next(sv, states[k], steps[k], states[k + 1])
  {
  }

  lemma IocFirst(sv: Semver, c: Component, sbom: SBOM, ioc: IoC, now: int, id: string)
    requires AcceptableIoC(sv, ioc) && Matches(sv, ioc, sbom)
    requires WellFormed(sbom) && sbom.componentRef == c.ref
    ensures exists states: seq<State>, raised: seq<Incident> ::
      && Run(sv, [RegisterComponent(c), SubmitIoC(ioc, now, [], [], now),
                  SubmitSBOM(sbom, now, [Pair(ioc.id, c.ref)], raised, [ioc.id], [now])], states)
      && HasIncident(states[3].incidents, Pair(ioc.id, c.ref))
  {
    var s1 := EMPTY.(components := map[c.ref := c]);
    var s2 := s1.(iocs := map[ioc.id := ioc], submitted := {ioc});
    IocAlone(sv, s1, ioc, now, s2);
    var raised, s3 := MatchingSbom(sv, s2, c, sbom, ioc, now, id);
    RunOfThree(sv, RegisterComponent(c), SubmitIoC(ioc, now, [], [], now),
               SubmitSBOM(sbom, now, [Pair(ioc.id, c.ref)], raised, [ioc.id], [now]), s1, s2, s3);
    assert [EMPTY, s1, s2, s3][3] == s3;
  }

  lemma IocAlone(sv: Semver, s: State, ioc: IoC, now: int, s': State)
    requires AcceptableIoC(sv, ioc) && s.sboms == map[] && s.incidents == map[]
    requires s' == s.(iocs := s.iocs[ioc.id := ioc], submitted := s.submitted + {ioc})
    ensures Next(sv, s, SubmitIoC(ioc, now, [], [], now), s')
  {
    assert IndexedRefs(sv, s.sboms, ioc) == {};
    assert Elements<string>([]) == {};
    assert s.log + OpenedEvents([]) + MatchedEvent(ioc, [], now) == s.log;
  }

  lemma OpensOne(m: Incidents, p: Pair, now: int, id: string)
    requires !IsOpen(m, p) && id !in m
    ensures Opens(m, [p], now, [NewIncident(id, p, now)])
    ensures AddAll(m, [NewIncident(id, p, now)]) == m[id := NewIncident(id, p, now)]
  {
    assert FreshPairs(m, [p]) == [p] by { assert [p][..0] == []; }
    assert [NewIncident(id, p, now)][..0] == [];
  }

  lemma MatchingSbom(sv: Semver, s: State, c: Component, sbom: SBOM, ioc: IoC, now: int, id: string)
    returns (raised: seq<Incident>, s': State)
    requires Matches(sv, ioc, sbom) && WellFormed(sbom) && sbom.componentRef == c.ref
    requires s.sboms == map[] && s.incidents == map[] && c.ref in s.components && s.iocs == map[ioc.id := ioc]
    ensures Next(sv, s, SubmitSBOM(sbom, now, [Pair(ioc.id, c.ref)], raised, [ioc.id], [now]), s')
    ensures HasIncident(s'.incidents, Pair(ioc.id, c.ref))
  {
    var p := Pair(ioc.id, c.ref);
    OpensOne(s.incidents, p, now, id);
    raised := [NewIncident(id, p, now)];
    s' := s.(sboms := s.sboms[sbom.id := sbom], incidents := AddAll(s.incidents, raised),
             log := s.log + [SBOMIngested(sbom.id, c.ref, sbom.generatedAt)]
                    + OpenedEvents(raised) + MatchedEvents([ioc.id], c.ref, [now]));
    assert RetroPairs(sv, s.iocs, sbom, [p]);
    assert Concerns(s'.incidents[id], p);
  }

  /** The key lookup and the scan over registered components list the same
      refs in the same order. */
  lemma IndexedListIsScanList(sv: Semver, s: State, ioc: IoC, indexed: seq<string>, scanned: seq<string>)
    requires WellShaped(s) && !Unindexed(ioc)
    requires Ascending(indexed) && Elements(indexed) == IndexedRefs(sv, s.sboms, ioc)
    requires Ascending(scanned) && Elements(scanned) == ScanRefs(sv, s.sboms, ioc) * s.components.Keys
    ensures indexed == scanned
  {
    IndexedRefsAgree(sv, s, ioc);
    assert ScanRefs(sv, s.sboms, ioc) <= s.components.Keys;
    AscendingUnique(indexed, scanned);
  }

  lemma IndexedRefsAgree(sv: Semver, s: State, ioc: IoC)
    requires WellShaped(s)
    ensures IndexedRefs(sv, s.sboms, ioc) == if Unindexed(ioc) then {} else ScanRefs(sv, s.sboms, ioc)
  {
    forall b | b in s.sboms
      ensures IndexedMatch(sv, ioc, s.sboms[b]) <==> !Unindexed(ioc) && Matches(sv, ioc, s.sboms[b])
    {
      IndexAgreesIff(sv, ioc, s.sboms[b]);
      if Unindexed(ioc) { UnindexedFindsNothing(sv, ioc, s.sboms[b]); }
    }
  }

  // ---------------------------------------------------------------------
  // Blast radius
  // ---------------------------------------------------------------------

  /** The cached answer: the components of all incidents of an indicator. */
  ghost function CachedRefs(m: Incidents, iocId: string): set<string> {
    set id, r | id in m && m[id].iocId == iocId && r in m[id].snapshot :: r
  }

  /** What one queried indicator contributes: cached when its id is stored,
      live otherwise. */
  ghost function BlastOf(sv: Semver, s: State, ioc: IoC): set<string> {
    if ioc.id in s.iocs then CachedRefs(s.incidents, ioc.id) else IndexedRefs(sv, s.sboms, ioc)
  }

  /** What one queried indicator contributes, on the stored records: for a stored
      id the components of its incidents, for any other the components of the
      SBOMs it matches, unless it is unindexed. */
  ghost predicate InBlast(sv: Semver, s: State, ioc: IoC, r: string) {
    if ioc.id in s.iocs then
      exists id :: id in s.incidents && s.incidents[id].iocId == ioc.id && r in s.incidents[id].snapshot
    else
      !Unindexed(ioc) && exists b :: b in s.sboms && s.sboms[b].componentRef == r && Matches(sv, ioc, s.sboms[b])
  }

  lemma BlastIff(sv: Semver, s: State, ioc: IoC, r: string)
    requires WellShaped(s)
    ensures r in BlastOf(sv, s, ioc) <==> InBlast(sv, s, ioc, r)
  {
    IndexedRefsAgree(sv, s, ioc);
  }

  /** In every state of every run the cached answer contains the live answer
      for the stored body. If the id was only ever stored with that body, the
      cached answer contains nothing but components with a matching SBOM, and
      equals the live answer unless the body is unindexed. */
  lemma CacheAgreesWithLive(sv: Semver, steps: seq<Step>, states: seq<State>, k: nat, iocId: string)
    requires Run(sv, steps, states) && k < |states| && iocId in states[k].iocs
    ensures var s := states[k];
      var body := s.iocs[iocId];
      && IndexedRefs(sv, s.sboms, body) <= CachedRefs(s.incidents, iocId)
      && ((forall ioc :: ioc in s.submitted && ioc.id == iocId ==> ioc == body) ==>
            && CachedRefs(s.incidents, iocId) <= ScanRefs(sv, s.sboms, body)
            && (!Unindexed(body) ==> CachedRefs(s.incidents, iocId) == IndexedRefs(sv, s.sboms, body)))
  {
    RunKeepsInv(sv, steps, states, k);
    var s := states[k];
    var body := s.iocs[iocId];
    IndexedRefsAgree(sv, s, body);
    LiveIsCached(sv, s, iocId);
    if forall ioc :: ioc in s.submitted && ioc.id == iocId ==> ioc == body { CachedIsLive(sv, s, iocId); }
  }

  lemma LiveIsCached(sv: Semver, s: State, iocId: string)
    requires Inv(sv, s) && iocId in s.iocs
    ensures IndexedRefs(sv, s.sboms, s.iocs[iocId]) <= CachedRefs(s.incidents, iocId)
  {
    IndexedRefsAgree(sv, s, s.iocs[iocId]);
    forall r | r in IndexedRefs(sv, s.sboms, s.iocs[iocId]) ensures r in CachedRefs(s.incidents, iocId) {
      var b :| b in s.sboms && Matches(sv, s.iocs[iocId], s.sboms[b]) && s.sboms[b].componentRef == r;
      assert HasIncident(s.incidents, Pair(iocId, r));
      var id :| id in s.incidents && Concerns(s.incidents[id], Pair(iocId, r));
    }
  }

  lemma ExplainedScans(sv: Semver, s: State, iocId: string, r: string)
    requires iocId in s.iocs && Explained(sv, s, iocId, r)
    requires forall ioc :: ioc in s.submitted && ioc.id == iocId ==> ioc == s.iocs[iocId]
    ensures r in ScanRefs(sv, s.sboms, s.iocs[iocId])
  {
    var ioc, b :| ioc in s.submitted && ioc.id == iocId && b in s.sboms && s.sboms[b].componentRef == r
                  && Matches(sv, ioc, s.sboms[b]);
    assert ioc == s.iocs[iocId];
  }

  lemma CachedIsLive(sv: Semver, s: State, iocId: string)
    requires Justified(sv, s) && iocId in s.iocs
    requires forall id :: id in s.incidents ==> |s.incidents[id].snapshot| == 1
    requires forall ioc :: ioc in s.submitted && ioc.id == iocId ==> ioc == s.iocs[iocId]
    ensures CachedRefs(s.incidents, iocId) <= ScanRefs(sv, s.sboms, s.iocs[iocId])
  {
    forall r | r in CachedRefs(s.incidents, iocId) ensures r in ScanRefs(sv, s.sboms, s.iocs[iocId]) {
      var id :| id in s.incidents && s.incidents[id].iocId == iocId && r in s.incidents[id].snapshot;
      IncidentExplained(sv, s, id, r);
      ExplainedScans(sv, s, iocId, r);
    }
  }

  lemma IncidentExplained(sv: Semver, s: State, id: string, r: string)
    requires Justified(sv, s) && id in s.incidents && |s.incidents[id].snapshot| == 1 && r in s.incidents[id].snapshot
    ensures Explained(sv, s, s.incidents[id].iocId, r)
  {
    assert s.incidents[id].snapshot[0] == r;
  }

  // ---------------------------------------------------------------------
  // How incidents age
  // ---------------------------------------------------------------------

  /** Between any two points of a run an incident keeps its indicator, opening
      time and snapshot, its log only grows at the end, its state only
      advances, and a terminal state never changes. */
  lemma {:induction false} IncidentsEvolve(sv: Semver, steps: seq<Step>, states: seq<State>, i: nat, j: nat, id: string)
    requires Run(sv, steps, states) && i <= j < |states|
    requires id in states[i].incidents
    ensures id in states[j].incidents && Evolves(states[i].incidents[id], states[j].incidents[id])
    ensures var a, b := states[i].incidents[id], states[j].incidents[id];
      && b.iocId == a.iocId && b.openedAt == a.openedAt && b.snapshot == a.snapshot && a.remediations <= b.remediations
      && (a.state == Closed || a.state == Dismissed ==> b.state == a.state)
    decreases j
  {
    IncidentIsKnown(sv, steps, states, i, id);
    if i < j {
      IncidentsEvolve(sv, steps, states, i, j - 1, id);
      IncidentEvolves(sv, steps, states, j, id);
      EvolvesTransitive(states[i].incidents[id], states[j - 1].incidents[id], states[j].incidents[id]);
    }
  }

  lemma IncidentIsKnown(sv: Semver, steps: seq<Step>, states: seq<State>, k: nat, id: string)
    requires Run(sv, steps, states) && k < |states| && id in states[k].incidents
    ensures !states[k].incidents[id].state.UnknownState?
  {
    RunKeepsInv(sv, steps, states, k);
  }

  lemma IncidentEvolves(sv: Semver, steps: seq<Step>, states: seq<State>, k: nat, id: string)
    requires Run(sv, steps, states) && 0 < k < |states| && id in states[k - 1].incidents
    ensures id in states[k].incidents && Evolves(states[k - 1].incidents[id], states[k].incidents[id])
  {
    RunKeepsInv(sv, steps, states, k - 1);
    assert Next(sv, states[k - 1], steps[k - 1], states[k - 1 + 1]);
    StepExtends(sv, states[k - 1], steps[k - 1], states[k]);
  }

  /** In every state of every run, two open incidents of one indicator on one
      component are the same incident. */
  lemma OneOpenIncidentPerPair(sv: Semver, steps: seq<Step>, states: seq<State>, k: nat, p: Pair, a: string, b: string)
    requires Run(sv, steps, states) && k < |states|
    requires a in states[k].incidents && b in states[k].incidents
    requires Concerns(states[k].incidents[a], p) && NonTerminal(states[k].incidents[a].state)
    requires Concerns(states[k].incidents[b], p) && NonTerminal(states[k].incidents[b].state)
    ensures a == b
  {
    RunKeepsInv(sv, steps, states, k);
    OneOpen(states[k], p, a, b);
  }

  lemma OneOpen(s: State, p: Pair, a: string, b: string)
    requires WellShaped(s) && UniqueOpen(s.incidents) && a in s.incidents && b in s.incidents
    requires Concerns(s.incidents[a], p) && NonTerminal(s.incidents[a].state)
    requires Concerns(s.incidents[b], p) && NonTerminal(s.incidents[b].state)
    ensures a == b
  {
    assert s.incidents[a].snapshot == [p.ref] == s.incidents[b].snapshot;
  }

  // ---------------------------------------------------------------------
  // The published events
  // ---------------------------------------------------------------------

  /** What an incident looks like to a consumer of the event stream. */
  datatype View = View(
    iocId: string,
    state: IncidentState,
    openedAt: int,
    lastTransitionedAt: int,
    snapshot: seq<string>,
    remediations: seq<(string, RemediationKind)>)

  function RemediationViews(rs: seq<Remediation>): (v: seq<(string, RemediationKind)>)
    ensures |v| == |rs| && forall i :: 0 <= i < |rs| ==> v[i] == (rs[i].id, rs[i].kind)
  {
    seq(|rs|, i requires 0 <= i < |rs| => (rs[i].id, rs[i].kind))
  }

  function ViewOf(i: Incident): View {
    View(i.iocId, i.state, i.openedAt, i.lastTransitionedAt, i.snapshot, RemediationViews(i.remediations))
  }

  function Apply(m: map<string, View>, e: Event): map<string, View> {
    match e
    case IncidentOpened(id, iocId, snapshot, at) => m[id := View(iocId, Pending, at, at, snapshot, [])]
    case IncidentTransitioned(id, _, to, at) =>
      if id in m then m[id := m[id].(state := to, lastTransitionedAt := at)] else m
    case RemediationAdded(id, rid, kind, _) =>
      if id in m then m[id := m[id].(remediations := m[id].remediations + [(rid, kind)])] else m
    case SBOMIngested(_, _, _) => m
    case IoCMatched(_, _, _) => m
  }

  /** Replays a log. */
  function Replay(log: seq<Event>): map<string, View> {
    if log == [] then map[] else Apply(Replay(log[..|log| - 1]), log[|log| - 1])
  }

  lemma ReplaySnoc(log: seq<Event>, e: Event)
    ensures Replay(log + [e]) == Apply(Replay(log), e)
  {
    assert (log + [e])[..|log|] == log;
  }

  predicate Inert(e: Event) {
    e.SBOMIngested? || e.IoCMatched?
  }

  lemma {:induction false} ReplayInert(log: seq<Event>, es: seq<Event>)
    requires forall e :: e in es ==> Inert(e)
    ensures Replay(log + es) == Replay(log)
  {
    if es == [] {
      assert log + es == log;
    } else {
      var n := |es| - 1;
      ReplayInert(log, es[..n]);
      assert log + es == (log + es[..n]) + [es[n]];
      ReplaySnoc(log + es[..n], es[n]);
      assert Inert(es[n]);
    }
  }

  /** The log replays to the incidents, except those opened without a bus. */
  ghost predicate Replays(m: Incidents, log: seq<Event>, silent: set<string>) {
    && silent <= m.Keys
    && Replay(log).Keys == m.Keys - silent
    && (forall id :: id in m && id !in silent ==> Replay(log)[id] == ViewOf(m[id]))
  }

  predicate Pristine(i: Incident) {
    i.state == Pending && i.lastTransitionedAt == i.openedAt && i.remediations == []
  }

  lemma ReplayOneOpened(m: Incidents, log: seq<Event>, silent: set<string>, i: Incident)
    requires Replays(m, log, silent) && i.id !in m && Pristine(i)
    ensures Replays(m[i.id := i], log + [OpenedEvent(i)], silent)
  {
    ReplaySnoc(log, OpenedEvent(i));
    assert RemediationViews([]) == [];
  }

  lemma {:induction false} ReplayOpened(m: Incidents, log: seq<Event>, silent: set<string>, raised: seq<Incident>)
    requires Replays(m, log, silent) && FreshIds(m, raised)
    requires forall i :: 0 <= i < |raised| ==> Pristine(raised[i])
    ensures Replays(AddAll(m, raised), log + OpenedEvents(raised), silent)
  {
    if raised == [] {
      assert log + OpenedEvents(raised) == log;
    } else {
      var n := |raised| - 1;
      var front := raised[..n];
      ReplayOpened(m, log, silent, front);
      NotAmong(m, front, raised[n].id);
      ReplayOneOpened(AddAll(m, front), log + OpenedEvents(front), silent, raised[n]);
      OpenedSnoc(log, raised);
    }
  }

  lemma OpenedSnoc(log: seq<Event>, raised: seq<Incident>)
    requires raised != []
    ensures var n := |raised| - 1;
      log + OpenedEvents(raised) == (log + OpenedEvents(raised[..n])) + [OpenedEvent(raised[n])]
  {
  }

  lemma NotAmong(m: Incidents, raised: seq<Incident>, id: string)
    requires FreshIds(m, raised) && id !in m && forall i :: 0 <= i < |raised| ==> raised[i].id != id
    ensures id !in AddAll(m, raised)
  {
    AddAllAdds(m, raised);
  }

  lemma ReplayOpens(m: Incidents, log: seq<Event>, silent: set<string>, pairs: seq<Pair>, now: int,
      raised: seq<Incident>)
    requires Replays(m, log, silent) && Opens(m, pairs, now, raised)
    ensures Replays(AddAll(m, raised), log + OpenedEvents(raised), silent)
  {
    ReplayOpened(m, log, silent, raised);
  }

  lemma ReplaySilent(m: Incidents, log: seq<Event>, silent: set<string>, raised: seq<Incident>)
    requires Replays(m, log, silent) && FreshIds(m, raised)
    ensures Replays(AddAll(m, raised), log, silent + (set i | i in raised :: i.id))
  {
    AddAllAdds(m, raised);
    var more := set i | i in raised :: i.id;
    forall id ensures id in AddAll(m, raised) <==> id in m || id in more {
      if id in more {
        var i :| i in raised && i.id == id;
        var k :| 0 <= k < |raised| && raised[k] == i;
      }
    }
    forall id | id in more ensures id !in m {
      var i :| i in raised && i.id == id;
      var k :| 0 <= k < |raised| && raised[k] == i;
    }
  }

  /** Opening incidents between events that concern no incident. */
  lemma ReplayMatching(
    m: Incidents, log: seq<Event>, silent: set<string>, pairs: seq<Pair>, now: int, raised: seq<Incident>,
    before: seq<Event>, after: seq<Event>)
    requires Replays(m, log, silent) && Opens(m, pairs, now, raised)
    requires forall e :: e in before + after ==> Inert(e)
    ensures Replays(AddAll(m, raised), log + before + OpenedEvents(raised) + after, silent)
  {
    assert forall e :: e in before ==> e in before + after;
    assert forall e :: e in after ==> e in before + after;
    ReplayInert(log, before);
    ReplayOpens(m, log + before, silent, pairs, now, raised);
    ReplayInert(log + before + OpenedEvents(raised), after);
  }

  lemma ReplayMove(m: Incidents, log: seq<Event>, silent: set<string>, id: string, i: Incident, e: Event)
    requires Replays(m, log, silent) && id in m
    requires e == IncidentTransitioned(id, m[id].state, i.state, i.lastTransitionedAt)
    requires i == m[id].(state := i.state, lastTransitionedAt := i.lastTransitionedAt)
    ensures Replays(m[id := i], log + [e], silent)
  {
    ReplaySnoc(log, e);
  }

  lemma ReplayRemediation(m: Incidents, log: seq<Event>, silent: set<string>, id: string, rem: Remediation, now: int)
    requires Replays(m, log, silent) && id in m
    ensures Replays(m[id := m[id].(remediations := m[id].remediations + [rem])],
                    log + [RemediationAdded(id, rem.id, rem.kind, now)], silent)
  {
    ReplaySnoc(log, RemediationAdded(id, rem.id, rem.kind, now));
    var rs := m[id].remediations;
    assert RemediationViews(rs + [rem]) == RemediationViews(rs) + [(rem.id, rem.kind)];
  }

  lemma StepReplays(sv: Semver, s: State, step: Step, s': State)
    requires WellShaped(s) && Replays(s.incidents, s.log, s.silent) && Next(sv, s, step, s')
    ensures Replays(s'.incidents, s'.log, s'.silent)
  {
    match step {
      case RegisterComponent(c) =>
      case SubmitSBOM(sbom, now, pairs, raised, matched, ats) =>
        var head := [SBOMIngested(sbom.id, sbom.componentRef, sbom.generatedAt)];
        ReplayMatching(s.incidents, s.log, s.silent, pairs, now, raised, head,
          MatchedEvents(matched, sbom.componentRef, ats));
      case SubmitIoC(ioc, now, refs, raised, at) =>
        assert s.log + [] == s.log;
        ReplayMatching(s.incidents, s.log, s.silent, PairsFor(ioc.id, refs), now, raised, [],
          MatchedEvent(ioc, refs, at));
      case ForwardIoC(ioc, now, refs, raised, bus, at) =>
        if bus {
          assert s.log + [] == s.log;
          ReplayMatching(s.incidents, s.log, s.silent, PairsFor(ioc.id, refs), now, raised, [],
            MatchedEvent(ioc, refs, at));
        } else {
          ReplaySilent(s.incidents, s.log, s.silent, raised);
        }
      case MoveIncident(id, to, now) =>
        StepMoves(sv, s, step, s');
      case AddRemediation(id, rem, now) =>
        ReplayRemediation(s.incidents, s.log, s.silent, id, rem, now);
    }
  }

  lemma StepMoves(sv: Semver, s: State, step: Step, s': State)
    requires step.MoveIncident? && Next(sv, s, step, s')
    requires WellShaped(s) && Replays(s.incidents, s.log, s.silent)
    ensures Replays(s'.incidents, s'.log, s'.silent)
  {
    var i := s.incidents[step.id];
    TransitionAdvances(i, step.to, step.now);
    var i' := Transition(i, step.to, step.now).incident;
    if i'.state != i.state {
      ReplayMove(s.incidents, s.log, s.silent, step.id, i', IncidentTransitioned(step.id, i.state, step.to, step.now));
    }
  }

  lemma {:induction false} RunReplays(sv: Semver, steps: seq<Step>, states: seq<State>, k: nat)
    requires Run(sv, steps, states) && k < |states|
    ensures Replays(states[k].incidents, states[k].log, states[k].silent)
  {
    if k == 0 {
    } else {
      RunReplays(sv, steps, states, k - 1);
      RunStepReplays(sv, steps, states, k - 1);
    }
  }

  lemma RunStepReplays(sv: Semver, steps: seq<Step>, states: seq<State>, k: nat)
    requires Run(sv, steps, states) && k < |steps|
    requires Replays(states[k].incidents, states[k].log, states[k].silent)
    ensures Replays(states[k + 1].incidents, states[k + 1].log, states[k + 1].silent)
  {
    RunKeepsInv(sv, steps, states, k);
    StepReplays(sv, states[k], steps[k], states[k + 1]);
  }

  /** The view agrees with the incident field by field, remediation by
      remediation. */
  ghost predicate Describes(v: View, i: Incident) {
    && v.iocId == i.iocId && v.state == i.state && v.snapshot == i.snapshot
    && v.openedAt == i.openedAt && v.lastTransitionedAt == i.lastTransitionedAt
    && |v.remediations| == |i.remediations|
    && forall k :: 0 <= k < |i.remediations| ==>
         v.remediations[k].0 == i.remediations[k].id && v.remediations[k].1 == i.remediations[k].kind
  }

  /** In every state of every run, replaying the published events rebuilds
      exactly the stored incidents if and only if none of them was opened
      while no bus was attached. */
  lemma EventsRebuildIncidentsIff(sv: Semver, steps: seq<Step>, states: seq<State>, k: nat)
    requires Run(sv, steps, states) && k < |states|
    ensures (Replay(states[k].log) == map id | id in states[k].incidents :: ViewOf(states[k].incidents[id]))
            <==> states[k].silent == {}
    ensures states[k].silent == {} ==> Replay(states[k].log).Keys == states[k].incidents.Keys
    ensures forall id :: id in states[k].incidents && states[k].silent == {} ==>
      && id in Replay(states[k].log)
      && Describes(Replay(states[k].log)[id], states[k].incidents[id])
  {
    RunReplays(sv, steps, states, k);
    var s := states[k];
    if s.silent != {} {
      var id :| id in s.silent;
      assert id in s.incidents && id !in Replay(s.log);
    }
  }

  // ---------------------------------------------------------------------
  // Transitions are few
  // ---------------------------------------------------------------------

  function Moves(log: seq<Event>, id: string): nat {
    if log == [] then 0
    else
      var e := log[|log| - 1];
      Moves(log[..|log| - 1], id) + (if e.IncidentTransitioned? && e.incidentId == id then 1 else 0)
  }

  lemma {:induction false} MovesAppend(log: seq<Event>, es: seq<Event>, id: string)
    ensures Moves(log + es, id) == Moves(log, id) + Moves(es, id)
  {
    if es == [] {
      assert log + es == log;
    } else {
      var n := |es| - 1;
      MovesAppend(log, es[..n], id);
      assert (log + es)[..|log| + n] == log + es[..n];
    }
  }

  lemma {:induction false} NoMoves(es: seq<Event>, id: string)
    requires forall e :: e in es ==> !e.IncidentTransitioned?
    ensures Moves(es, id) == 0
  {
    if es == [] {
    } else {
      NoMoves(es[..|es| - 1], id);
    }
  }

  ghost predicate MovesBounded(s: State) {
    forall id :: Moves(s.log, id) <= if id in s.incidents then Rank(s.incidents[id].state) else 0
  }

  lemma StepBoundsMoves(sv: Semver, s: State, step: Step, s': State)
    requires WellShaped(s) && MovesBounded(s) && Next(sv, s, step, s')
    ensures MovesBounded(s')
  {
    StepExtends(sv, s, step, s');
    forall id ensures Moves(s'.log, id) <= if id in s'.incidents then Rank(s'.incidents[id].state) else 0 {
      assert id in s.incidents ==> Evolves(s.incidents[id], s'.incidents[id]);
      if step.MoveIncident? {
        TransitionAdvances(s.incidents[step.id], step.to, step.now);
        var e := IncidentTransitioned(step.id, s.incidents[step.id].state, step.to, step.now);
        MovesAppend(s.log, [e], id);
        assert [e][..0] == [];
      } else {
        QuietStep(sv, s, step, s', id);
      }
    }
  }

  lemma QuietStep(sv: Semver, s: State, step: Step, s': State, id: string)
    requires Next(sv, s, step, s') && !step.MoveIncident?
    ensures Moves(s'.log, id) == Moves(s.log, id)
  {
    match step {
      case RegisterComponent(c) =>
      case SubmitSBOM(sbom, now, pairs, raised, matched, ats) =>
        var log := s.log + [SBOMIngested(sbom.id, sbom.componentRef, sbom.generatedAt)];
        QuietEvents(s.log, [SBOMIngested(sbom.id, sbom.componentRef, sbom.generatedAt)], id);
        QuietEvents(log, OpenedEvents(raised), id);
        QuietEvents(log + OpenedEvents(raised), MatchedEvents(matched, sbom.componentRef, ats), id);
      case SubmitIoC(ioc, now, refs, raised, at) =>
        QuietEvents(s.log, OpenedEvents(raised), id);
        QuietEvents(s.log + OpenedEvents(raised), MatchedEvent(ioc, refs, at), id);
      case ForwardIoC(ioc, now, refs, raised, bus, at) =>
        QuietEvents(s.log, OpenedEvents(raised), id);
        QuietEvents(s.log + OpenedEvents(raised), MatchedEvent(ioc, refs, at), id);
      case AddRemediation(_, rem, now) =>
        QuietEvents(s.log, [RemediationAdded(step.id, rem.id, rem.kind, now)], id);
    }
  }

  lemma QuietEvents(log: seq<Event>, es: seq<Event>, id: string)
    requires forall e :: e in es ==> !e.IncidentTransitioned?
    ensures Moves(log + es, id) == Moves(log, id)
  {
    MovesAppend(log, es, id);
    NoMoves(es, id);
  }

  /** The places of the log that tell a move of the incident. */
  ghost function MovePlaces(log: seq<Event>, id: string): set<nat> {
    set k: nat | k < |log| && log[k].IncidentTransitioned? && log[k].incidentId == id
  }

  lemma {:induction false} MovesCounts(log: seq<Event>, id: string)
    ensures Moves(log, id) == |MovePlaces(log, id)|
  {
    if log == [] {
      assert MovePlaces(log, id) == {};
    } else {
      var n := |log| - 1;
      MovesCounts(log[..n], id);
      var front := MovePlaces(log[..n], id);
      var told := log[n].IncidentTransitioned? && log[n].incidentId == id;
      assert MovePlaces(log, id) == if told then front + {n} else front;
    }
  }

  /** In every run, no incident is ever moved more than four times. */
  lemma FourMovePlaces(sv: Semver, steps: seq<Step>, states: seq<State>, k: nat, id: string)
    requires Run(sv, steps, states) && k < |states|
    ensures |MovePlaces(states[k].log, id)| <= 4
  {
    AtMostFourMoves(sv, steps, states, k, id);
    MovesCounts(states[k].log, id);
  }

  lemma {:induction false} AtMostFourMoves(sv: Semver, steps: seq<Step>, states: seq<State>, k: nat, id: string)
    requires Run(sv, steps, states) && k < |states|
    ensures Moves(states[k].log, id) <= 4
    ensures MovesBounded(states[k])
  {
    if k == 0 {
    } else {
      AtMostFourMoves(sv, steps, states, k - 1, id);
      RunStepBoundsMoves(sv, steps, states, k - 1);
    }
    assert MovesBounded(states[k]);
  }

  lemma RunStepBoundsMoves(sv: Semver, steps: seq<Step>, states: seq<State>, k: nat)
    requires Run(sv, steps, states) && k < |steps| && MovesBounded(states[k])
    ensures MovesBounded(states[k + 1])
  {
    RunKeepsInv(sv, steps, states, k);
    StepBoundsMoves(sv, states[k], steps[k], states[k + 1]);
  }
}
