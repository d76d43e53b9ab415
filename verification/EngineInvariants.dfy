/** What every run of the engine keeps. */
module EngineInvariants {
  import opened Ordering
  import opened Domain
  import opened Matcher
  import opened Engine

  // ---------------------------------------------------------------------
  // The invariants
  // ---------------------------------------------------------------------

  ghost predicate WellShaped(s: State) {
    && (forall id :: id in s.iocs ==> s.iocs[id].id == id && s.iocs[id] in s.submitted)
    && (forall id :: id in s.sboms ==> WellFormed(s.sboms[id]) && s.sboms[id].componentRef in s.components)
    && (forall r :: r in s.components ==> s.components[r].ref == r)
    && (forall id :: id in s.incidents ==>
          s.incidents[id].id == id && |s.incidents[id].snapshot| == 1 && !s.incidents[id].state.UnknownState?)
  }

  /** At most one non-terminal incident per (indicator, component). */
  ghost predicate UniqueOpen(m: Incidents) {
    forall a, b ::
      (a in m && b in m && NonTerminal(m[a].state) && NonTerminal(m[b].state)
       && m[a].iocId == m[b].iocId && m[a].snapshot == m[b].snapshot) ==> a == b
  }

  /** Every stored indicator that matches a stored SBOM has an incident for the
      SBOM's component, unless the indicator is unindexed. */
  ghost predicate Covered(sv: Semver, s: State) {
    forall i, b :: i in s.iocs && b in s.sboms && !Unindexed(s.iocs[i]) && Matches(sv, s.iocs[i], s.sboms[b]) ==>
      HasIncident(s.incidents, Pair(i, s.sboms[b].componentRef))
  }

  /** Some body ever stored under id matches some stored SBOM of component ref. */
  ghost predicate Explained(sv: Semver, s: State, id: string, ref: string) {
    exists ioc, b :: ioc in s.submitted && ioc.id == id && b in s.sboms && s.sboms[b].componentRef == ref
                     && Matches(sv, ioc, s.sboms[b])
  }

  ghost predicate Justified(sv: Semver, s: State) {
    forall id :: id in s.incidents && |s.incidents[id].snapshot| == 1 ==>
      Explained(sv, s, s.incidents[id].iocId, s.incidents[id].snapshot[0])
  }

  ghost predicate Inv(sv: Semver, s: State) {
    WellShaped(s) && UniqueOpen(s.incidents) && Covered(sv, s) && Justified(sv, s)
  }

  // ---------------------------------------------------------------------
  // How the incident map may change
  // ---------------------------------------------------------------------

  /** Incidents are only added and only evolve. */
  ghost predicate Extends(m: Incidents, m': Incidents) {
    forall id :: id in m ==> id in m' && Evolves(m[id], m'[id])
  }

  lemma HasIncidentPersists(m: Incidents, m': Incidents, p: Pair)
    requires Extends(m, m') && HasIncident(m, p)
    ensures HasIncident(m', p)
  {
    var id :| id in m && Concerns(m[id], p);
    assert Evolves(m[id], m'[id]);
  }

  lemma OpensExtends(m: Incidents, pairs: seq<Pair>, now: int, raised: seq<Incident>)
    requires Opens(m, pairs, now, raised)
    ensures Extends(m, AddAll(m, raised))
    ensures forall p :: p in pairs ==> HasIncident(AddAll(m, raised), p)
  {
    AddAllAdds(m, raised);
    var m' := AddAll(m, raised);
    forall p | p in pairs ensures HasIncident(m', p) {
      if IsOpen(m, p) {
        HasIncidentPersists(m, m', p);
      } else {
        var i :| 0 <= i < |raised| && FreshPairs(m, pairs)[i] == p;
        assert Concerns(m'[raised[i].id], p);
      }
    }
  }

  lemma OpensKeepsUnique(m: Incidents, pairs: seq<Pair>, now: int, raised: seq<Incident>)
    requires Opens(m, pairs, now, raised) && UniqueOpen(m)
    requires forall id :: id in m ==> |m[id].snapshot| == 1
    ensures UniqueOpen(AddAll(m, raised))
  {
    AddAllAdds(m, raised);
    var m' := AddAll(m, raised);
    forall a, b | a in m' && b in m' && NonTerminal(m'[a].state) && NonTerminal(m'[b].state)
                  && m'[a].iocId == m'[b].iocId && m'[a].snapshot == m'[b].snapshot
      ensures a == b
    {
      if a in m && b !in m { NewIsNotOpen(m, pairs, now, raised, a, b); }
      if b in m && a !in m { NewIsNotOpen(m, pairs, now, raised, b, a); }
      if a !in m && b !in m { NewAreDistinct(m, pairs, now, raised, a, b); }
    }
  }

  lemma NewAreDistinct(m: Incidents, pairs: seq<Pair>, now: int, raised: seq<Incident>, a: string, b: string)
    requires Opens(m, pairs, now, raised)
    requires a !in m && a in AddAll(m, raised) && b !in m && b in AddAll(m, raised)
    requires AddAll(m, raised)[a].iocId == AddAll(m, raised)[b].iocId
    requires AddAll(m, raised)[a].snapshot == AddAll(m, raised)[b].snapshot
    ensures a == b
  {
    AddAllAdds(m, raised);
    var i :| 0 <= i < |raised| && raised[i].id == a;
    var j :| 0 <= j < |raised| && raised[j].id == b;
    assert raised[i].snapshot[0] == raised[j].snapshot[0];
    assert FreshPairs(m, pairs)[i] == FreshPairs(m, pairs)[j];
  }

  lemma NewIsNotOpen(m: Incidents, pairs: seq<Pair>, now: int, raised: seq<Incident>, a: string, b: string)
    requires Opens(m, pairs, now, raised)
    requires a in m && NonTerminal(m[a].state) && |m[a].snapshot| == 1
    requires b !in m && b in AddAll(m, raised)
    ensures !(m[a].iocId == AddAll(m, raised)[b].iocId && m[a].snapshot == AddAll(m, raised)[b].snapshot)
  {
    AddAllAdds(m, raised);
    var j :| 0 <= j < |raised| && raised[j].id == b;
    var p := FreshPairs(m, pairs)[j];
    assert p in FreshPairs(m, pairs) && !IsOpen(m, p);
    assert !Concerns(m[a], p);
  }

  lemma OpensShape(m: Incidents, pairs: seq<Pair>, now: int, raised: seq<Incident>, id: string)
    requires Opens(m, pairs, now, raised) && id in AddAll(m, raised) && id !in m
    ensures var i := AddAll(m, raised)[id];
      i.id == id && |i.snapshot| == 1 && i.state == Pending && Pair(i.iocId, i.snapshot[0]) in pairs
  {
    AddAllAdds(m, raised);
    var j :| 0 <= j < |raised| && raised[j].id == id;
    assert FreshPairs(m, pairs)[j] in FreshPairs(m, pairs);
  }

  lemma ReplaceKeepsUnique(m: Incidents, id: string, i: Incident)
    requires UniqueOpen(m) && id in m && Evolves(m[id], i)
    ensures UniqueOpen(m[id := i]) && Extends(m, m[id := i])
  {
  }

  /** Every step only adds incidents and lets incidents evolve. */
  lemma StepExtends(sv: Semver, s: State, step: Step, s': State)
    requires WellShaped(s) && Next(sv, s, step, s')
    ensures Extends(s.incidents, s'.incidents)
  {
    match step
    case RegisterComponent(c) =>
    case SubmitSBOM(sbom, now, pairs, raised, matched, ats) => OpensExtends(s.incidents, pairs, now, raised);
    case SubmitIoC(ioc, now, refs, raised, at) => OpensExtends(s.incidents, PairsFor(ioc.id, refs), now, raised);
    case ForwardIoC(ioc, now, refs, raised, bus, at) => OpensExtends(s.incidents, PairsFor(ioc.id, refs), now, raised);
    case MoveIncident(id, to, now) => TransitionAdvances(s.incidents[id], to, now);
    case AddRemediation(id, rem, now) =>
  }

  // ---------------------------------------------------------------------
  // Preservation, one invariant at a time
  // ---------------------------------------------------------------------

  lemma StepKeepsShape(sv: Semver, s: State, step: Step, s': State)
    requires WellShaped(s) && Next(sv, s, step, s')
    ensures WellShaped(s')
  {
    forall id | id in s'.incidents
      ensures s'.incidents[id].id == id && |s'.incidents[id].snapshot| == 1 && !s'.incidents[id].state.UnknownState?
    {
      StepExtends(sv, s, step, s');
      if id in s.incidents {
        assert Evolves(s.incidents[id], s'.incidents[id]);
      } else {
        match step
        case SubmitSBOM(sbom, now, pairs, raised, matched, ats) => OpensShape(s.incidents, pairs, now, raised, id);
        case SubmitIoC(ioc, now, refs, raised, at) => OpensShape(s.incidents, PairsFor(ioc.id, refs), now, raised, id);
        case ForwardIoC(ioc, now, refs, raised, bus, at) =>
          OpensShape(s.incidents, PairsFor(ioc.id, refs), now, raised, id);
        case _ =>
      }
    }
  }

  lemma StepKeepsUnique(sv: Semver, s: State, step: Step, s': State)
    requires WellShaped(s) && UniqueOpen(s.incidents) && Next(sv, s, step, s')
    ensures UniqueOpen(s'.incidents)
  {
    match step
    case RegisterComponent(c) =>
    case SubmitSBOM(sbom, now, pairs, raised, matched, ats) => OpensKeepsUnique(s.incidents, pairs, now, raised);
    case SubmitIoC(ioc, now, refs, raised, at) => OpensKeepsUnique(s.incidents, PairsFor(ioc.id, refs), now, raised);
    case ForwardIoC(ioc, now, refs, raised, bus, at) =>
      OpensKeepsUnique(s.incidents, PairsFor(ioc.id, refs), now, raised);
    case MoveIncident(id, to, now) =>
      TransitionAdvances(s.incidents[id], to, now);
      ReplaceKeepsUnique(s.incidents, id, s'.incidents[id]);
    case AddRemediation(id, rem, now) =>
      ReplaceKeepsUnique(s.incidents, id, s'.incidents[id]);
  }

  /** The pair of a match the step has just made possible is among its pairs. */
  lemma StepKeepsCovered(sv: Semver, s: State, step: Step, s': State)
    requires WellShaped(s) && Covered(sv, s) && Next(sv, s, step, s')
    ensures Covered(sv, s')
  {
    StepExtends(sv, s, step, s');
    forall i, b | i in s'.iocs && b in s'.sboms && !Unindexed(s'.iocs[i]) && Matches(sv, s'.iocs[i], s'.sboms[b])
      ensures HasIncident(s'.incidents, Pair(i, s'.sboms[b].componentRef))
    {
      var p := Pair(i, s'.sboms[b].componentRef);
      if i in s.iocs && s.iocs[i] == s'.iocs[i] && b in s.sboms && s.sboms[b] == s'.sboms[b] {
        HasIncidentPersists(s.incidents, s'.incidents, p);
      } else {
        NewMatchIsPaired(sv, s, step, s', i, b);
      }
    }
  }

  lemma NewMatchIsPaired(sv: Semver, s: State, step: Step, s': State, i: string, b: string)
    requires WellShaped(s) && Next(sv, s, step, s')
    requires i in s'.iocs && b in s'.sboms && !Unindexed(s'.iocs[i]) && Matches(sv, s'.iocs[i], s'.sboms[b])
    requires !(i in s.iocs && s.iocs[i] == s'.iocs[i] && b in s.sboms && s.sboms[b] == s'.sboms[b])
    ensures HasIncident(s'.incidents, Pair(i, s'.sboms[b].componentRef))
  {
    var ref := s'.sboms[b].componentRef;
    match step {
      case SubmitSBOM(sbom, now, pairs, raised, matched, ats) =>
        assert Pair(i, ref) in pairs;
        OpensExtends(s.incidents, pairs, now, raised);
      case SubmitIoC(ioc, now, refs, raised, at) =>
        IndexedIsComplete(sv, ioc, s.sboms[b]);
        assert ref in IndexedRefs(sv, s.sboms, ioc);
        PairListed(ioc.id, refs, ref);
        OpensExtends(s.incidents, PairsFor(ioc.id, refs), now, raised);
      case ForwardIoC(ioc, now, refs, raised, bus, at) =>
        assert ref in ScanRefs(sv, s.sboms, ioc) * s.components.Keys;
        PairListed(ioc.id, refs, ref);
        OpensExtends(s.incidents, PairsFor(ioc.id, refs), now, raised);
      case _ =>
    }
  }

  lemma PairListed(iocId: string, refs: seq<string>, ref: string)
    requires ref in Elements(refs)
    ensures Pair(iocId, ref) in PairsFor(iocId, refs)
  {
    var k :| 0 <= k < |refs| && refs[k] == ref;
    assert PairsFor(iocId, refs)[k] == Pair(iocId, ref);
  }

  lemma ExplainedPersists(sv: Semver, s: State, step: Step, s': State, id: string, ref: string)
    requires Next(sv, s, step, s') && Explained(sv, s, id, ref)
    ensures Explained(sv, s', id, ref)
  {
    var ioc, b :| ioc in s.submitted && ioc.id == id && b in s.sboms && s.sboms[b].componentRef == ref
                  && Matches(sv, ioc, s.sboms[b]);
    assert ioc in s'.submitted && b in s'.sboms && s'.sboms[b] == s.sboms[b];
  }

  lemma StepKeepsJustified(sv: Semver, s: State, step: Step, s': State)
    requires WellShaped(s) && Justified(sv, s) && Next(sv, s, step, s')
    ensures Justified(sv, s')
  {
    StepExtends(sv, s, step, s');
    forall id | id in s'.incidents && |s'.incidents[id].snapshot| == 1
      ensures Explained(sv, s', s'.incidents[id].iocId, s'.incidents[id].snapshot[0])
    {
      if id in s.incidents {
        assert Evolves(s.incidents[id], s'.incidents[id]);
        ExplainedPersists(sv, s, step, s', s.incidents[id].iocId, s.incidents[id].snapshot[0]);
      } else {
        NewIncidentExplained(sv, s, step, s', id);
      }
    }
  }

  lemma NewIncidentExplained(sv: Semver, s: State, step: Step, s': State, id: string)
    requires WellShaped(s) && Next(sv, s, step, s')
    requires id in s'.incidents && id !in s.incidents && |s'.incidents[id].snapshot| == 1
    ensures Explained(sv, s', s'.incidents[id].iocId, s'.incidents[id].snapshot[0])
  {
    var inc := s'.incidents[id];
    match step {
      case SubmitSBOM(sbom, now, pairs, raised, matched, ats) =>
        OpensShape(s.incidents, pairs, now, raised, id);
        assert s.iocs[inc.iocId] in s'.submitted && sbom.id in s'.sboms
          && Matches(sv, s.iocs[inc.iocId], s'.sboms[sbom.id]);
      case SubmitIoC(ioc, now, refs, raised, at) =>
        OpensShape(s.incidents, PairsFor(ioc.id, refs), now, raised, id);
        assert inc.snapshot[0] in Elements(refs);
        var b :| b in s.sboms && IndexedMatch(sv, ioc, s.sboms[b]) && s.sboms[b].componentRef == inc.snapshot[0];
        IndexedIsSound(sv, ioc, s.sboms[b]);
        assert ioc in s'.submitted && b in s'.sboms;
      case ForwardIoC(ioc, now, refs, raised, bus, at) =>
        OpensShape(s.incidents, PairsFor(ioc.id, refs), now, raised, id);
        assert inc.snapshot[0] in Elements(refs);
        var b :| b in s.sboms && Matches(sv, ioc, s.sboms[b]) && s.sboms[b].componentRef == inc.snapshot[0];
        assert ioc in s'.submitted && b in s'.sboms;
      case _ =>
    }
  }

  lemma StepKeepsInv(sv: Semver, s: State, step: Step, s': State)
    requires Inv(sv, s) && Next(sv, s, step, s')
    ensures Inv(sv, s')
  {
    StepKeepsShape(sv, s, step, s');
    StepKeepsUnique(sv, s, step, s');
    StepKeepsCovered(sv, s, step, s');
    StepKeepsJustified(sv, s, step, s');
  }

  /** Every state of every run satisfies the invariants. */
  lemma {:induction false} RunKeepsInv(sv: Semver, steps: seq<Step>, states: seq<State>, k: nat)
    requires Run(sv, steps, states) && k < |states|
    ensures Inv(sv, states[k])
  {
    if k == 0 {
    } else {
      RunKeepsInv(sv, steps, states, k - 1);
      assert Next(sv, states[k - 1], steps[k - 1], states[k - 1 + 1]);
      StepKeepsInv(sv, states[k - 1], steps[k - 1], states[k]);
    }
  }
}
