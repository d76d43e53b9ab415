/** What each step of the engine does to the stored records and the log, spelled
    out on their fields. */
module EngineMeaning {
  import opened Ordering
  import opened Domain
  import opened Matcher
  import opened Engine
  import opened EngineInvariants
  import opened EngineTheorems

  /** m' is m with one pending incident, opened now, for each wanted pair that
      had no incident other than closed and dismissed ones. */
  ghost predicate OpenedExactly(m: Incidents, m': Incidents, wanted: set<Pair>, now: int) {
    && (forall id :: id in m ==> id in m' && m'[id] == m[id])
    && (forall p :: p in wanted ==> SomeLive(m', p.iocId, p.ref))
    && (forall id :: id in m' && id !in m ==> NewlyOpened(m, m'[id], id, wanted, now))
    && (forall a, b :: (a in m' && b in m' && a !in m && b !in m && SamePair(m'[a], m'[b])) ==> a == b)
  }

  predicate Live(i: Incident, iocId: string, ref: string) {
    i.iocId == iocId && ref in i.snapshot && i.state != Closed && i.state != Dismissed
  }

  ghost predicate SomeLive(m: Incidents, iocId: string, ref: string) {
    exists id :: id in m && Live(m[id], iocId, ref)
  }

  ghost predicate NewlyOpened(m: Incidents, i: Incident, id: string, wanted: set<Pair>, now: int) {
    exists p :: p in wanted && i == Incident(id, p.iocId, Pending, now, now, [p.ref], [])
      && !SomeLive(m, p.iocId, p.ref)
  }

  predicate SamePair(a: Incident, b: Incident) {
    a.iocId == b.iocId && a.snapshot == b.snapshot
  }

  lemma OpensMeans(m: Incidents, pairs: seq<Pair>, now: int, raised: seq<Incident>)
    requires Opens(m, pairs, now, raised)
    ensures OpenedExactly(m, AddAll(m, raised), Elements(pairs), now)
  {
    var m' := AddAll(m, raised);
    forall id | id in m ensures id in m' && m'[id] == m[id] { AddAllAdds(m, raised); }
    forall p | p in Elements(pairs) ensures SomeLive(m', p.iocId, p.ref) { PairIsLive(m, pairs, now, raised, p); }
    forall id | id in m' && id !in m ensures NewlyOpened(m, m'[id], id, Elements(pairs), now) {
      NewIsWanted(m, pairs, now, raised, id);
    }
    forall a, b | a in m' && b in m' && a !in m && b !in m && SamePair(m'[a], m'[b]) ensures a == b {
      NewAreDistinct(m, pairs, now, raised, a, b);
    }
  }

  lemma PairIsLive(m: Incidents, pairs: seq<Pair>, now: int, raised: seq<Incident>, p: Pair)
    requires Opens(m, pairs, now, raised) && p in pairs
    ensures SomeLive(AddAll(m, raised), p.iocId, p.ref)
  {
    AddAllAdds(m, raised);
    var m' := AddAll(m, raised);
    if IsOpen(m, p) {
      var id :| id in m && Concerns(m[id], p) && NonTerminal(m[id].state);
      assert Live(m'[id], p.iocId, p.ref);
    } else {
      var i :| 0 <= i < |raised| && FreshPairs(m, pairs)[i] == p;
      assert Live(m'[raised[i].id], p.iocId, p.ref);
    }
  }

  lemma NewIsWanted(m: Incidents, pairs: seq<Pair>, now: int, raised: seq<Incident>, id: string)
    requires Opens(m, pairs, now, raised) && id in AddAll(m, raised) && id !in m
    ensures NewlyOpened(m, AddAll(m, raised)[id], id, Elements(pairs), now)
  {
    AddAllAdds(m, raised);
    var j :| 0 <= j < |raised| && raised[j].id == id;
    var p := FreshPairs(m, pairs)[j];
    assert p in FreshPairs(m, pairs) && !IsOpen(m, p);
    NotLive(m, p);
    assert p in Elements(pairs);
  }

  lemma NotLive(m: Incidents, p: Pair)
    requires !IsOpen(m, p)
    ensures !SomeLive(m, p.iocId, p.ref)
  {
    forall x | x in m ensures !Live(m[x], p.iocId, p.ref) {
      assert !(Concerns(m[x], p) && NonTerminal(m[x].state));
    }
  }

  /** An SBOM is stored, every stored indicator that matches it gets an incident
      for its component, and the log tells the ingestion and each match. */
  lemma SubmitSBOMMeans(sv: Semver, s: State, step: Step, s': State)
    requires step.SubmitSBOM? && Next(sv, s, step, s')
    ensures var b := step.sbom;
      b.id !in s.sboms && s'.sboms == s.sboms[b.id := b] && s'.iocs == s.iocs && s'.components == s.components
    ensures OpenedExactly(s.incidents, s'.incidents, MatchedBy(sv, s.iocs, step.sbom), step.now)
    ensures |s'.log| > |s.log| && s'.log[..|s.log|] == s.log
    ensures s'.log[|s.log|] == SBOMIngested(step.sbom.id, step.sbom.componentRef, step.sbom.generatedAt)
    ensures forall id :: id in s.iocs ==>
      (Matches(sv, s.iocs[id], step.sbom) <==> Told(s'.log, |s.log|, id, [step.sbom.componentRef]))
  {
    OpensMeans(s.incidents, step.pairs, step.now, step.raised);
    RetroIsMatched(sv, s.iocs, step.sbom, step.pairs);
    SBOMLog(s.log, step, s'.log);
    forall id | id in s.iocs
      ensures Matches(sv, s.iocs[id], step.sbom) <==> Told(s'.log, |s.log|, id, [step.sbom.componentRef])
    {
      assert Matches(sv, s.iocs[id], step.sbom) <==> Pair(id, step.sbom.componentRef) in step.pairs;
    }
  }

  /** The stored indicators that match an SBOM, with its component. */
  ghost function MatchedBy(sv: Semver, iocs: map<string, IoC>, b: SBOM): set<Pair> {
    set id | id in iocs && Matches(sv, iocs[id], b) :: Pair(id, b.componentRef)
  }

  lemma RetroIsMatched(sv: Semver, iocs: map<string, IoC>, b: SBOM, pairs: seq<Pair>)
    requires RetroPairs(sv, iocs, b, pairs)
    ensures Elements(pairs) == MatchedBy(sv, iocs, b)
  {
    forall p | p in pairs ensures p in MatchedBy(sv, iocs, b) { assert p == Pair(p.iocId, b.componentRef); }
  }

  lemma SBOMLog(log: seq<Event>, step: Step, log': seq<Event>)
    requires step.SubmitSBOM? && |step.ats| == |step.matched|
    requires var b := step.sbom;
      log' == log + [SBOMIngested(b.id, b.componentRef, b.generatedAt)] + OpenedEvents(step.raised)
              + MatchedEvents(step.matched, b.componentRef, step.ats)
    ensures |log'| > |log| && log'[..|log|] == log
    ensures log'[|log|] == SBOMIngested(step.sbom.id, step.sbom.componentRef, step.sbom.generatedAt)
    ensures forall id :: id in step.matched <==> Told(log', |log|, id, [step.sbom.componentRef])
  {
    var b := step.sbom;
    var head, raises := [SBOMIngested(b.id, b.componentRef, b.generatedAt)], OpenedEvents(step.raised);
    var tail := MatchedEvents(step.matched, b.componentRef, step.ats);
    FourParts(log, head, raises, tail);
    forall id ensures id in step.matched <==> Told(log', |log|, id, [b.componentRef]) {
      ToldIff(log, head + raises, step.matched, b.componentRef, step.ats, id);
    }
  }

  /** From place n on, the log tells that the indicator matched the components. */
  ghost predicate Told(log: seq<Event>, n: nat, iocId: string, refs: seq<string>) {
    exists k :: n <= k < |log| && Tells(log[k], iocId, refs)
  }

  predicate Tells(e: Event, iocId: string, refs: seq<string>) {
    e.IoCMatched? && e.iocId == iocId && e.components == refs
  }

  lemma FourParts(log: seq<Event>, a: seq<Event>, b: seq<Event>, c: seq<Event>)
    ensures log + a + b + c == log + (a + b) + c
  {
  }

  lemma ToldIff(log: seq<Event>, quiet: seq<Event>, ids: seq<string>, ref: string, ats: seq<int>, id: string)
    requires |ats| == |ids| && forall e :: e in quiet ==> !e.IoCMatched?
    ensures id in ids <==> Told(log + quiet + MatchedEvents(ids, ref, ats), |log|, id, [ref])
  {
    var told := MatchedEvents(ids, ref, ats);
    var all, n := log + quiet + told, |log| + |quiet|;
    forall k | |log| <= k < n ensures !all[k].IoCMatched? { assert all[k] == quiet[k - |log|] && all[k] in quiet; }
    forall k | n <= k < |all| ensures all[k] == told[k - n] && Tells(all[k], ids[k - n], [ref]) { }
    if id in ids {
      var i :| 0 <= i < |ids| && ids[i] == id;
      assert Tells(all[n + i], id, [ref]);
    }
    if k :| |log| <= k < |all| && Tells(all[k], id, [ref]) {
      assert k >= n;
      assert ids[k - n] == id;
    }
  }

  /** An indicator is stored, every component it finds gets an incident, and the
      last event tells the components if there are any. */
  lemma SubmitIoCMeans(sv: Semver, s: State, step: Step, s': State)
    requires step.SubmitIoC? && Next(sv, s, step, s') && WellShaped(s)
    ensures var ioc := step.ioc;
      && s'.iocs == s.iocs[ioc.id := ioc] && s'.sboms == s.sboms && s'.components == s.components
      && (forall r :: r in step.refs <==>
            !Unindexed(ioc) && exists b :: b in s.sboms && s.sboms[b].componentRef == r && Matches(sv, ioc, s.sboms[b]))
      && OpenedExactly(s.incidents, s'.incidents, set r | r in step.refs :: Pair(ioc.id, r), step.now)
      && (if step.refs == [] then s'.log == s.log
          else |s'.log| > |s.log| && s'.log[|s'.log| - 1] == IoCMatched(ioc.id, step.refs, step.at))
  {
    var ioc, refs := step.ioc, step.refs;
    OpensMeans(s.incidents, PairsFor(ioc.id, refs), step.now, step.raised);
    PairSet(ioc.id, refs);
    IndexedRefsAgree(sv, s, ioc);
    assert forall r :: r in refs <==> r in Elements(refs);
    NothingToOpen(s.incidents, ioc.id, refs, step.now, step.raised);
  }

  lemma PairSet(iocId: string, refs: seq<string>)
    ensures Elements(PairsFor(iocId, refs)) == set r | r in refs :: Pair(iocId, r)
  {
    var pairs := PairsFor(iocId, refs);
    forall p | p in pairs ensures p in set r | r in refs :: Pair(iocId, r) {
      var i :| 0 <= i < |pairs| && pairs[i] == p;
      assert refs[i] in refs;
    }
    forall r | r in refs ensures Pair(iocId, r) in pairs {
      var i :| 0 <= i < |refs| && refs[i] == r;
      assert pairs[i] == Pair(iocId, r);
    }
  }

  lemma NothingToOpen(m: Incidents, iocId: string, refs: seq<string>, now: int, raised: seq<Incident>)
    requires Opens(m, PairsFor(iocId, refs), now, raised)
    ensures refs == [] ==> raised == []
  {
    if raised != [] {
      var p := FreshPairs(m, PairsFor(iocId, refs))[0];
      assert p in FreshPairs(m, PairsFor(iocId, refs)) && p in PairsFor(iocId, refs);
    }
  }

  /** The same for the scanning path, which finds unindexed indicators too and
      publishes only with a bus. */
  lemma ForwardIoCMeans(sv: Semver, s: State, step: Step, s': State)
    requires step.ForwardIoC? && Next(sv, s, step, s') && WellShaped(s)
    ensures var ioc := step.ioc;
      && s'.iocs == s.iocs[ioc.id := ioc] && s'.sboms == s.sboms && s'.components == s.components
      && (forall r :: r in step.refs <==>
            exists b :: b in s.sboms && s.sboms[b].componentRef == r && Matches(sv, ioc, s.sboms[b]))
      && OpenedExactly(s.incidents, s'.incidents, set r | r in step.refs :: Pair(ioc.id, r), step.now)
      && (if step.refs == [] || !step.bus then s'.log == s.log
          else |s'.log| > |s.log| && s'.log[|s'.log| - 1] == IoCMatched(ioc.id, step.refs, step.at))
  {
    ForwardFinds(sv, s, step, s');
    ForwardOpens(sv, s, step, s');
  }

  lemma ForwardFinds(sv: Semver, s: State, step: Step, s': State)
    requires step.ForwardIoC? && Next(sv, s, step, s') && WellShaped(s)
    ensures forall r :: r in step.refs <==>
      exists b :: b in s.sboms && s.sboms[b].componentRef == r && Matches(sv, step.ioc, s.sboms[b])
  {
    ScanIsRegistered(sv, s, step.ioc);
    assert forall r :: r in step.refs <==> r in Elements(step.refs);
  }

  lemma ForwardOpens(sv: Semver, s: State, step: Step, s': State)
    requires step.ForwardIoC? && Next(sv, s, step, s')
    ensures var ioc := step.ioc;
      && OpenedExactly(s.incidents, s'.incidents, set r | r in step.refs :: Pair(ioc.id, r), step.now)
      && (if step.refs == [] || !step.bus then s'.log == s.log
          else |s'.log| > |s.log| && s'.log[|s'.log| - 1] == IoCMatched(ioc.id, step.refs, step.at))
  {
    var ioc, refs := step.ioc, step.refs;
    OpensMeans(s.incidents, PairsFor(ioc.id, refs), step.now, step.raised);
    PairSet(ioc.id, refs);
    NothingToOpen(s.incidents, ioc.id, refs, step.now, step.raised);
  }

  lemma ScanIsRegistered(sv: Semver, s: State, ioc: IoC)
    requires WellShaped(s)
    ensures ScanRefs(sv, s.sboms, ioc) <= s.components.Keys
    ensures forall r :: r in ScanRefs(sv, s.sboms, ioc) <==>
      exists b :: b in s.sboms && s.sboms[b].componentRef == r && Matches(sv, ioc, s.sboms[b])
  {
  }

  /** A move changes one incident's state and stamps it, and is told by one
      event; moving to the same state changes and tells nothing. */
  lemma MoveIncidentMeans(sv: Semver, s: State, step: Step, s': State)
    requires step.MoveIncident? && Next(sv, s, step, s') && WellShaped(s)
    ensures step.id in s.incidents
    ensures var i := s.incidents[step.id];
      if step.to == i.state then s' == s
      else s' == s.(incidents := s.incidents[step.id := i.(state := step.to, lastTransitionedAt := step.now)],
                    log := s.log + [IncidentTransitioned(step.id, i.state, step.to, step.now)])
  {
    TransitionAdvances(s.incidents[step.id], step.to, step.now);
  }

  /** A remediation goes to the end of one incident's log, and is told. */
  lemma AddRemediationMeans(sv: Semver, s: State, step: Step, s': State)
    requires step.AddRemediation? && Next(sv, s, step, s')
    ensures step.id in s.incidents && step.id in s'.incidents
    ensures var rem, i, i' := step.remediation, s.incidents[step.id], s'.incidents[step.id];
      && s'.incidents == s.incidents[step.id := i'] && i' == i.(remediations := i'.remediations)
      && |i'.remediations| == |i.remediations| + 1 && i.remediations < i'.remediations
      && i'.remediations[|i.remediations|] == rem
      && s' == s.(incidents := s'.incidents, log := s.log + [RemediationAdded(step.id, rem.id, rem.kind, step.now)])
  {
  }

  /** Which indicators the engine accepts: one body, of the kind's own shape, and
      for a range a constraint that parses. */
  lemma AcceptableIff(sv: Semver, ioc: IoC)
    ensures AcceptableIoC(sv, ioc) <==>
      match ioc.kind
      case ByVersion => ioc.exact.Some? && ioc.range == None && ioc.publisher == None && ioc.anomalyRef == None
      case ByRange =>
        && ioc.range.Some? && ioc.exact == None && ioc.publisher == None && ioc.anomalyRef == None
        && sv.constraintParses(ioc.range.value.constraint)
      case ByAnomaly => ioc.exact == None && ioc.range == None && (ioc.publisher.Some? <==> ioc.anomalyRef.None?)
      case OtherKind(_) => false
  {
  }
}
