/** What a consumer of the event stream makes of the events it has handled,
    compared with the incidents the engine stores. */
module ConsumerView {
  import opened Domain
  import opened Matcher
  import opened Engine
  import opened EngineInvariants
  import opened EngineTheorems
  import opened Sse
  import opened EventStream
  import Bus

  // ---------------------------------------------------------------------
  // Joining late
  // ---------------------------------------------------------------------

  lemma ApplyAgrees(m: map<string, View>, m': map<string, View>, e: Event, id: string)
    requires id in m ==> id in m' && m'[id] == m[id]
    ensures id in Apply(m, e) ==> id in Apply(m', e) && Apply(m', e)[id] == Apply(m, e)[id]
  {
  }

  /** Events before an incident was opened add nothing to its view. */
  lemma {:induction false} LateReplayAgrees(a: seq<Event>, b: seq<Event>, id: string)
    ensures id in Replay(b) ==> id in Replay(a + b) && Replay(a + b)[id] == Replay(b)[id]
  {
    if b == [] {
    } else {
      var n := |b| - 1;
      LateReplayAgrees(a, b[..n], id);
      assert a + b == (a + b[..n]) + [b[n]];
      ReplaySnoc(a + b[..n], b[n]);
      ApplyAgrees(Replay(b[..n]), Replay(a + b[..n]), b[n], id);
    }
  }

  // ---------------------------------------------------------------------
  // Stopping in the middle of a step
  // ---------------------------------------------------------------------

  /** The event opens an incident of m' that m does not have. */
  ghost predicate Opening(m: Incidents, m': Incidents, e: Event) {
    && e.IncidentOpened? && e.incidentId !in m && e.incidentId in m'
    && ViewOf(m'[e.incidentId]) == View(e.iocId, Pending, e.at, e.at, e.snapshot, [])
  }

  lemma OpenedIsOpening(m: Incidents, pairs: seq<Pair>, now: int, raised: seq<Incident>, e: Event)
    requires Opens(m, pairs, now, raised) && e in OpenedEvents(raised)
    ensures Opening(m, AddAll(m, raised), e)
  {
    AddAllAdds(m, raised);
    var k :| 0 <= k < |raised| && OpenedEvents(raised)[k] == e;
    assert raised[k] == NewIncident(raised[k].id, FreshPairs(m, pairs)[k], now);
    assert RemediationViews([]) == [];
  }

  /** Harmless to every view but that of an incident just opened. */
  ghost predicate AllOpening(m: Incidents, m': Incidents, es: seq<Event>) {
    forall e :: e in es ==> Inert(e) || Opening(m, m', e)
  }

  lemma MatchingIsOpening(m: Incidents, pairs: seq<Pair>, now: int, raised: seq<Incident>, before: seq<Event>,
      after: seq<Event>)
    requires Opens(m, pairs, now, raised)
    requires (forall e :: e in before ==> Inert(e)) && (forall e :: e in after ==> Inert(e))
    ensures AllOpening(m, AddAll(m, raised), before + OpenedEvents(raised) + after)
  {
    forall e | e in OpenedEvents(raised) ensures Opening(m, AddAll(m, raised), e) {
      OpenedIsOpening(m, pairs, now, raised, e);
    }
  }

  /** What a step adds to the log: one event at most, or openings among events
      that concern no incident. */
  lemma NewEvents(sv: Semver, s: State, step: Step, s': State) returns (more: seq<Event>)
    requires Next(sv, s, step, s')
    ensures s'.log == s.log + more
    ensures |more| <= 1 || AllOpening(s.incidents, s'.incidents, more)
  {
    more := s'.log[|s.log|..];
    match step {
      case RegisterComponent(c) =>
      case SubmitSBOM(sbom, now, pairs, raised, matched, ats) =>
        var head := [SBOMIngested(sbom.id, sbom.componentRef, sbom.generatedAt)];
        var tail := MatchedEvents(matched, sbom.componentRef, ats);
        more := head + OpenedEvents(raised) + tail;
        ThreeParts(s.log, head, OpenedEvents(raised), tail);
        MatchingIsOpening(s.incidents, pairs, now, raised, head, tail);
      case SubmitIoC(ioc, now, refs, raised, at) =>
        more := IoCEvents(s, ioc, now, refs, raised, at);
      case ForwardIoC(ioc, now, refs, raised, bus, at) =>
        if bus { more := IoCEvents(s, ioc, now, refs, raised, at); }
      case MoveIncident(_, _, _) =>
      case AddRemediation(_, _, _) =>
    }
  }

  lemma IoCEvents(s: State, ioc: IoC, now: int, refs: seq<string>, raised: seq<Incident>, at: int)
    returns (more: seq<Event>)
    requires Opens(s.incidents, PairsFor(ioc.id, refs), now, raised)
    ensures s.log + OpenedEvents(raised) + MatchedEvent(ioc, refs, at) == s.log + more
    ensures AllOpening(s.incidents, AddAll(s.incidents, raised), more)
  {
    var tail := MatchedEvent(ioc, refs, at);
    more := [] + OpenedEvents(raised) + tail;
    ThreeParts(s.log, [], OpenedEvents(raised), tail);
    assert s.log + [] == s.log;
    MatchingIsOpening(s.incidents, PairsFor(ioc.id, refs), now, raised, [], tail);
  }

  lemma ThreeParts(log: seq<Event>, a: seq<Event>, b: seq<Event>, c: seq<Event>)
    ensures log + a + b + c == log + (a + b + c)
  {
  }

  /** Part of a matching step leaves every view as it was before the step or as
      it is after. */
  lemma {:induction false} PartReplays(m: Incidents, m': Incidents, log: seq<Event>, part: seq<Event>, id: string)
    requires AllOpening(m, m', part) && id in Replay(log + part)
    ensures || (id in Replay(log) && Replay(log + part)[id] == Replay(log)[id])
            || (id in m' && Replay(log + part)[id] == ViewOf(m'[id]))
  {
    if part == [] {
      assert log + part == log;
    } else {
      var n := |part| - 1;
      var e := part[n];
      assert log + part == (log + part[..n]) + [e];
      ReplaySnoc(log + part[..n], e);
      assert e in part;
      if !(e.IncidentOpened? && e.incidentId == id) {
        assert forall x :: x in part[..n] ==> x in part;
        PartReplays(m, m', log, part[..n], id);
      }
    }
  }

  // ---------------------------------------------------------------------
  // Every view a consumer holds was the engine's at some time
  // ---------------------------------------------------------------------

  /** Incident id looked like v in one of the first k + 1 states. */
  ghost predicate Seen(states: seq<State>, k: nat, id: string, v: View)
    requires k < |states|
  {
    exists j :: 0 <= j <= k && SeenAt(states[j], id, v)
  }

  ghost predicate SeenAt(s: State, id: string, v: View) {
    id in s.incidents && ViewOf(s.incidents[id]) == v
  }

  /** Folding any prefix of the published events gives each incident a view it
      had in some state of the run. */
  lemma {:induction false} PrefixIsSeen(sv: Semver, steps: seq<Step>, states: seq<State>, k: nat, es: seq<Event>,
      id: string)
    requires Run(sv, steps, states) && k < |states| && es <= states[k].log && id in Replay(es)
    ensures Seen(states, k, id, Replay(es)[id])
  {
    if k == 0 {
    } else {
      var more := StepEvents(sv, steps, states, k);
      var s := states[k - 1];
      if |es| <= |s.log| {
        assert es <= s.log by { assert s.log == states[k].log[..|s.log|]; }
        PrefixIsSeen(sv, steps, states, k - 1, es, id);
      } else {
        RunReplays(sv, steps, states, k - 1);
        RunReplays(sv, steps, states, k);
        BeyondIsSeen(s, states[k], more, es, id);
      }
    }
  }

  lemma StepEvents(sv: Semver, steps: seq<Step>, states: seq<State>, k: nat) returns (more: seq<Event>)
    requires Run(sv, steps, states) && 0 < k < |states|
    ensures states[k].log == states[k - 1].log + more
    ensures |more| <= 1 || AllOpening(states[k - 1].incidents, states[k].incidents, more)
  {
    assert Next(sv, states[k - 1], steps[k - 1], states[k - 1 + 1]);
    more := NewEvents(sv, states[k - 1], steps[k - 1], states[k]);
  }

  /** Part or all of what a step adds. */
  lemma BeyondIsSeen(s: State, s': State, more: seq<Event>, es: seq<Event>, id: string)
    requires Replays(s.incidents, s.log, s.silent) && Replays(s'.incidents, s'.log, s'.silent)
    requires s'.log == s.log + more && es <= s'.log && |es| > |s.log| && id in Replay(es)
    requires |more| <= 1 || AllOpening(s.incidents, s'.incidents, more)
    ensures SeenAt(s, id, Replay(es)[id]) || SeenAt(s', id, Replay(es)[id])
  {
    if |more| <= 1 {
      assert es == s'.log;
    } else {
      PartIsSeen(s, s', more, es, id);
    }
  }

  lemma PartIsSeen(s: State, s': State, more: seq<Event>, es: seq<Event>, id: string)
    requires Replays(s.incidents, s.log, s.silent) && AllOpening(s.incidents, s'.incidents, more)
    requires es <= s.log + more && |es| > |s.log| && id in Replay(es)
    ensures SeenAt(s, id, Replay(es)[id]) || SeenAt(s', id, Replay(es)[id])
  {
    var part := more[..|es| - |s.log|];
    assert es == s.log + part;
    assert forall e :: e in part ==> e in more;
    PartReplays(s.incidents, s'.incidents, s.log, part, id);
  }

  /** Folding the events from start to end gives incident id no view that it did
      not have in one of the first k + 1 states. */
  ghost predicate SliceSeen(states: seq<State>, k: nat, start: nat, end: nat, id: string)
    requires k < |states| && start <= end <= |states[k].log|
  {
    id in Replay(states[k].log[start..end]) ==> Seen(states, k, id, Replay(states[k].log[start..end])[id])
  }

  lemma SliceIsSeen(sv: Semver, steps: seq<Step>, states: seq<State>, k: nat, start: nat, end: nat, id: string)
    requires Run(sv, steps, states) && k < |states| && start <= end <= |states[k].log|
    ensures SliceSeen(states, k, start, end, id)
  {
    var log := states[k].log;
    var es := log[start..end];
    if id in Replay(es) {
      LateReplayAgrees(log[..start], es, id);
      assert log[..start] + es == log[..end];
      PrefixIsSeen(sv, steps, states, k, log[..end], id);
    }
  }

  /** The stream of subscription `sub` carries what it has received, with
      heartbeats, and is cut after `cut` characters. */
  ghost predicate Streams(s: Bus.State, sub: nat, json: Event -> string, items: seq<Item>, cut: nat) {
    && sub < s.nextId && sub in s.received && EventsOf(items) == Frames(json, s.received[sub])
    && (forall i :: i in items ==> Sendable(i)) && cut <= |StreamText(items)|
  }

  /** How many events the consumer of a cut stream has handled. */
  ghost function Handled(items: seq<Item>, cut: nat, broken: bool): nat
    requires cut <= |StreamText(items)|
  {
    |Read(StreamText(items)[..cut], broken).0|
  }

  lemma HandledWithin(cap: nat, steps: seq<Bus.Step>, states: seq<Bus.State>, n: nat, sub: nat,
                      json: Event -> string, items: seq<Item>, cut: nat, broken: bool)
    returns (start: nat, end: nat)
    requires Bus.Run(cap, steps, states) && n < |states| && Streams(states[n], sub, json, items, cut)
    ensures sub in states[n].from && start == states[n].from[sub]
    ensures end == start + Handled(items, cut, broken) && end <= |states[n].log|
  {
    ConsumerSeesPublishedPrefix(cap, steps, states, n, sub, json, items, cut, broken);
    start := states[n].from[sub];
    end := start + Handled(items, cut, broken);
  }

  /** From the engine's steps through the bus and a connection that may break
      anywhere: folding the events a consumer has handled since it subscribed
      gives each incident in the fold a view it had in the engine at some point
      of the run. */
  lemma ConsumerFoldsSeenViews(
    sv: Semver, steps: seq<Step>, states: seq<State>, k: nat,
    cap: nat, busSteps: seq<Bus.Step>, busStates: seq<Bus.State>, n: nat, sub: nat,
    json: Event -> string, items: seq<Item>, cut: nat, broken: bool, id: string)
    returns (start: nat, end: nat)
    requires Run(sv, steps, states) && k < |states|
    requires Bus.Run(cap, busSteps, busStates) && n < |busStates| && busStates[n].log == states[k].log
    requires Streams(busStates[n], sub, json, items, cut)
    ensures sub in busStates[n].from && start == busStates[n].from[sub]
    ensures end == start + Handled(items, cut, broken) && end <= |states[k].log|
    ensures SliceSeen(states, k, start, end, id)
  {
    start, end := HandledWithin(cap, busSteps, busStates, n, sub, json, items, cut, broken);
    SliceIsSeen(sv, steps, states, k, start, end, id);
  }
}
