/** The engine as a state machine: every HTTP handler, and the submission the
    anomaly orchestrator makes, is one atomic step over the stored maps and the
    log of published events. */
module Engine {
  import opened Ordering
  import opened Domain
  import opened Matcher

  type Incidents = map<string, Incident>

  /** One matched indicator and one affected component. */
  datatype Pair = Pair(iocId: string, ref: string)

  /** `submitted` and `silent` are history: every indicator ever stored, and
      the incidents raised while no bus was attached. */
  datatype State = State(
    components: map<string, Component>,
    sboms: map<string, SBOM>,
    iocs: map<string, IoC>,
    incidents: Incidents,
    log: seq<Event>,
    submitted: set<IoC>,
    silent: set<string>)

  // ---------------------------------------------------------------------
  // Opening incidents
  // ---------------------------------------------------------------------

  predicate Concerns(i: Incident, p: Pair) {
    i.iocId == p.iocId && p.ref in i.snapshot
  }

  ghost predicate HasIncident(m: Incidents, p: Pair) {
    exists id :: id in m && Concerns(m[id], p)
  }

  ghost predicate IsOpen(m: Incidents, p: Pair) {
    exists id :: id in m && Concerns(m[id], p) && NonTerminal(m[id].state)
  }

  /** The pairs without an open incident, without repetitions, in order. */
  ghost function FreshPairs(m: Incidents, pairs: seq<Pair>): (news: seq<Pair>)
    ensures Distinct(news)
    ensures forall p :: p in news <==> p in pairs && !IsOpen(m, p)
  {
    if pairs == [] then []
    else
      var n := |pairs| - 1;
      var front := FreshPairs(m, pairs[..n]);
      assert forall p :: p in pairs <==> p in pairs[..n] || p == pairs[n];
      if IsOpen(m, pairs[n]) || pairs[n] in front then front else front + [pairs[n]]
  }

  function NewIncident(id: string, p: Pair, now: int): Incident {
    Incident(id, p.iocId, Pending, now, now, [p.ref], [])
  }

  ghost predicate FreshIds(m: Incidents, raised: seq<Incident>) {
    && (forall i :: 0 <= i < |raised| ==> raised[i].id !in m)
    && (forall i, j :: 0 <= i < j < |raised| ==> raised[i].id != raised[j].id)
  }

  /** `raised` is what matching `pairs` against the stored incidents opens. */
  ghost predicate Opens(m: Incidents, pairs: seq<Pair>, now: int, raised: seq<Incident>) {
    && FreshIds(m, raised)
    && |raised| == |FreshPairs(m, pairs)|
    && (forall i :: 0 <= i < |raised| ==> raised[i] == NewIncident(raised[i].id, FreshPairs(m, pairs)[i], now))
  }

  function AddAll(m: Incidents, raised: seq<Incident>): Incidents {
    if raised == [] then m
    else
      var n := |raised| - 1;
      AddAll(m, raised[..n])[raised[n].id := raised[n]]
  }

  /** m' is m plus the incidents `raised`. */
  ghost predicate Added(m: Incidents, raised: seq<Incident>, m': Incidents) {
    && (forall id :: id in m ==> id in m' && m'[id] == m[id])
    && (forall i :: 0 <= i < |raised| ==> raised[i].id in m' && m'[raised[i].id] == raised[i])
    && (forall id :: id in m' ==> id in m || exists i :: 0 <= i < |raised| && raised[i].id == id)
  }

  lemma {:induction false} AddAllAdds(m: Incidents, raised: seq<Incident>)
    requires FreshIds(m, raised)
    ensures Added(m, raised, AddAll(m, raised))
  {
    if raised == [] {
    } else {
      var n := |raised| - 1;
      var front := raised[..n];
      AddAllAdds(m, front);
      var m' := AddAll(m, raised);
      forall i | 0 <= i < |raised| ensures raised[i].id in m' && m'[raised[i].id] == raised[i] {
        if i < n { assert front[i] == raised[i]; }
      }
      forall id | id in m' && id !in m ensures exists i :: 0 <= i < |raised| && raised[i].id == id {
        if id != raised[n].id {
          var i :| 0 <= i < n && front[i].id == id;
          assert raised[i].id == id;
        }
      }
    }
  }

  // ---------------------------------------------------------------------
  // Matching
  // ---------------------------------------------------------------------

  /** Components with an SBOM the key lookup finds. */
  ghost function IndexedRefs(sv: Semver, sboms: map<string, SBOM>, ioc: IoC): set<string> {
    set id | id in sboms && IndexedMatch(sv, ioc, sboms[id]) :: sboms[id].componentRef
  }

  /** Components with an SBOM the indicator matches. */
  ghost function ScanRefs(sv: Semver, sboms: map<string, SBOM>, ioc: IoC): set<string> {
    set id | id in sboms && Matches(sv, ioc, sboms[id]) :: sboms[id].componentRef
  }

  function PairsFor(iocId: string, refs: seq<string>): (r: seq<Pair>)
    ensures |r| == |refs| && forall i :: 0 <= i < |refs| ==> r[i] == Pair(iocId, refs[i])
  {
    seq(|refs|, i requires 0 <= i < |refs| => Pair(iocId, refs[i]))
  }

  /** `pairs` lists every stored indicator that matches a new SBOM, once. */
  ghost predicate RetroPairs(sv: Semver, iocs: map<string, IoC>, sbom: SBOM, pairs: seq<Pair>) {
    && Distinct(pairs)
    && forall p :: p in pairs <==> p.ref == sbom.componentRef && p.iocId in iocs && Matches(sv, iocs[p.iocId], sbom)
  }

  // ---------------------------------------------------------------------
  // Steps
  // ---------------------------------------------------------------------

  /** `now` is the clock reading incidents are opened with, `at` and `ats` the
      readings the match events are stamped with. */
  datatype Step =
    | RegisterComponent(component: Component)
    | SubmitSBOM(sbom: SBOM, now: int, pairs: seq<Pair>, raised: seq<Incident>, matched: seq<string>, ats: seq<int>)
    | SubmitIoC(ioc: IoC, now: int, refs: seq<string>, raised: seq<Incident>, at: int)
    | ForwardIoC(ioc: IoC, now: int, refs: seq<string>, raised: seq<Incident>, bus: bool, at: int)
    | MoveIncident(id: string, to: IncidentState, now: int)
    | AddRemediation(id: string, remediation: Remediation, now: int)

  function OpenedEvents(raised: seq<Incident>): (r: seq<Event>)
    ensures |r| == |raised| && forall i :: 0 <= i < |r| ==> r[i] == OpenedEvent(raised[i])
  {
    seq(|raised|, i requires 0 <= i < |raised| => OpenedEvent(raised[i]))
  }

  function MatchedEvents(iocIds: seq<string>, ref: string, ats: seq<int>): (r: seq<Event>)
    requires |ats| == |iocIds|
    ensures |r| == |iocIds| && forall i :: 0 <= i < |r| ==> r[i] == IoCMatched(iocIds[i], [ref], ats[i])
  {
    seq(|iocIds|, i requires 0 <= i < |iocIds| => IoCMatched(iocIds[i], [ref], ats[i]))
  }

  function MatchedEvent(ioc: IoC, refs: seq<string>, at: int): seq<Event> {
    if refs == [] then [] else [IoCMatched(ioc.id, refs, at)]
  }

  predicate AcceptableIoC(sv: Semver, ioc: IoC) {
    ioc.Valid() && (ioc.kind.ByRange? && ioc.range.Some? ==> sv.constraintParses(ioc.range.value.constraint))
  }

  ghost predicate Next(sv: Semver, s: State, step: Step, s': State) {
    match step
    case RegisterComponent(c) =>
      s' == s.(components := s.components[c.ref := c])
    case SubmitSBOM(sbom, now, pairs, raised, matched, ats) =>
      && WellFormed(sbom) && sbom.componentRef in s.components && sbom.id !in s.sboms
      && RetroPairs(sv, s.iocs, sbom, pairs)
      && Opens(s.incidents, pairs, now, raised)
      && Distinct(matched) && (forall id :: id in matched <==> Pair(id, sbom.componentRef) in pairs)
      && |ats| == |matched|
      && s' == s.(sboms := s.sboms[sbom.id := sbom],
                  incidents := AddAll(s.incidents, raised),
                  log := s.log + [SBOMIngested(sbom.id, sbom.componentRef, sbom.generatedAt)]
                         + OpenedEvents(raised) + MatchedEvents(matched, sbom.componentRef, ats))
    case SubmitIoC(ioc, now, refs, raised, at) =>
      && AcceptableIoC(sv, ioc)
      && Ascending(refs) && Elements(refs) == IndexedRefs(sv, s.sboms, ioc)
      && Opens(s.incidents, PairsFor(ioc.id, refs), now, raised)
      && s' == s.(iocs := s.iocs[ioc.id := ioc],
                  incidents := AddAll(s.incidents, raised),
                  log := s.log + OpenedEvents(raised) + MatchedEvent(ioc, refs, at),
                  submitted := s.submitted + {ioc})
    case ForwardIoC(ioc, now, refs, raised, bus, at) =>
      && Ascending(refs) && Elements(refs) == ScanRefs(sv, s.sboms, ioc) * s.components.Keys
      && Opens(s.incidents, PairsFor(ioc.id, refs), now, raised)
      && s' == s.(iocs := s.iocs[ioc.id := ioc],
                  incidents := AddAll(s.incidents, raised),
                  log := if bus then s.log + OpenedEvents(raised) + MatchedEvent(ioc, refs, at) else s.log,
                  submitted := s.submitted + {ioc},
                  silent := if bus then s.silent else s.silent + (set i | i in raised :: i.id))
    case MoveIncident(id, to, now) =>
      && id in s.incidents
      && var i := s.incidents[id];
         var r := Transition(i, to, now);
         && r.Moved?
         && s' == s.(incidents := s.incidents[id := r.incident],
                     log := if r.incident.state == i.state then s.log
                            else s.log + [IncidentTransitioned(id, i.state, to, now)])
    case AddRemediation(id, rem, now) =>
      && id in s.incidents && rem.incidentId == id && !rem.kind.UnknownRemediation?
      && var i := s.incidents[id];
         s' == s.(incidents := s.incidents[id := i.(remediations := i.remediations + [rem])],
                  log := s.log + [RemediationAdded(id, rem.id, rem.kind, now)])
  }

  const EMPTY: State := State(map[], map[], map[], map[], [], {}, {})

  /** states[k] is the state after k steps from the empty engine. */
  ghost predicate Run(sv: Semver, steps: seq<Step>, states: seq<State>) {
    && |states| == |steps| + 1
    && states[0] == EMPTY
    && (forall k {:trigger steps[k]} :: 0 <= k < |steps| ==> Next(sv, states[k], steps[k], states[k + 1]))
  }
}
