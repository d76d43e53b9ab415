/** The entities of the engine and the incident life cycle. Times are integers;
    fields no modelled decision reads are left out. */
module Domain {
  import opened Ordering

  datatype Component = Component(ref: string, owner: string)

  datatype PackageVersion = PackageVersion(ecosystem: string, name: string, version: string)

  datatype SBOM = SBOM(
    id: string,
    componentRef: string,
    ecosystem: string,
    generatedAt: int,
    packages: seq<PackageVersion>)

  datatype IoCKind = ByVersion | ByRange | ByAnomaly | OtherKind(text: string)

  datatype ExactVersion = ExactVersion(name: string, version: string)

  datatype VersionRange = VersionRange(name: string, constraint: string)

  /** An indicator of compromise. `publisher` is the maintainer-keyed anomaly
      body, `anomalyRef` the package ref of the package-keyed one. */
  datatype IoC = IoC(
    id: string,
    kind: IoCKind,
    ecosystem: string,
    publishedAt: int,
    exact: Option<ExactVersion>,
    range: Option<VersionRange>,
    publisher: Option<string>,
    anomalyRef: Option<string>)
  {
    function BodyCount(): nat {
      (if exact.Some? then 1 else 0) + (if range.Some? then 1 else 0) +
      (if publisher.Some? then 1 else 0) + (if anomalyRef.Some? then 1 else 0)
    }

    /** Exactly one body is set and it fits the kind. */
    predicate Valid() {
      && BodyCount() == 1
      && match kind
         case ByVersion => exact.Some?
         case ByRange => range.Some?
         case ByAnomaly => publisher.Some? || anomalyRef.Some?
         case OtherKind(_) => false
    }
  }

  datatype IncidentState =
    | Pending
    | Triaged
    | Acknowledged
    | Remediating
    | Closed
    | Dismissed
    | UnknownState(text: string)

  datatype RemediationKind = PinVersion | RotateSecret | OpenPR | Notify | Dismiss | UnknownRemediation(text: string)

  datatype Remediation = Remediation(id: string, incidentId: string, kind: RemediationKind, executedAt: int)

  datatype Incident = Incident(
    id: string,
    iocId: string,
    state: IncidentState,
    openedAt: int,
    lastTransitionedAt: int,
    snapshot: seq<string>,
    remediations: seq<Remediation>)

  datatype Event =
    | IncidentOpened(incidentId: string, iocId: string, snapshot: seq<string>, at: int)
    | IncidentTransitioned(incidentId: string, from: IncidentState, to: IncidentState, at: int)
    | RemediationAdded(incidentId: string, remediationId: string, kind: RemediationKind, at: int)
    | SBOMIngested(sbomId: string, componentRef: string, at: int)
    | IoCMatched(iocId: string, components: seq<string>, at: int)

  predicate NonTerminal(s: IncidentState) {
    s != Closed && s != Dismissed
  }

  function AllowedTransitions(): map<IncidentState, seq<IncidentState>> {
    map[
      Pending := [Triaged, Dismissed],
      Triaged := [Acknowledged, Dismissed],
      Acknowledged := [Remediating, Dismissed],
      Remediating := [Closed],
      Closed := [],
      Dismissed := []
    ]
  }

  predicate CanTransitionTo(s: IncidentState, next: IncidentState) {
    s == next || (s in AllowedTransitions() && next in AllowedTransitions()[s])
  }

  datatype TransitionResult = Moved(incident: Incident) | RejectedState | RejectedTransition

  function Transition(i: Incident, next: IncidentState, now: int): TransitionResult {
    if i.state !in AllowedTransitions() then RejectedState
    else if !CanTransitionTo(i.state, next) then RejectedTransition
    else if i.state == next then Moved(i)
    else Moved(i.(state := next, lastTransitionedAt := now))
  }

  /** How far along its life cycle an incident is. */
  function Rank(s: IncidentState): nat {
    match s
    case Pending => 0
    case Triaged => 1
    case Acknowledged => 2
    case Remediating => 3
    case _ => 4
  }

  /** What every later version of an incident shares with an earlier one. */
  ghost predicate Evolves(a: Incident, b: Incident) {
    && b.id == a.id && b.iocId == a.iocId && b.openedAt == a.openedAt && b.snapshot == a.snapshot
    && a.remediations <= b.remediations
    && Rank(a.state) <= Rank(b.state)
    && (!NonTerminal(a.state) ==> b.state == a.state && b.lastTransitionedAt == a.lastTransitionedAt)
    && (a.state == b.state ==> a.lastTransitionedAt == b.lastTransitionedAt)
    && (!a.state.UnknownState? ==> !b.state.UnknownState?)
  }

  lemma EvolvesTransitive(a: Incident, b: Incident, c: Incident)
    requires Evolves(a, b) && Evolves(b, c)
    requires !a.state.UnknownState?
    ensures Evolves(a, c)
  {
    if a.state == c.state && NonTerminal(a.state) { assert Rank(a.state) == Rank(b.state) && a.state == b.state; }
  }

  /** A transition is a self-loop that changes nothing or a strict advance; it
      is refused from terminal states, and from Remediating to Dismissed. */
  lemma TransitionAdvances(i: Incident, next: IncidentState, now: int)
    requires !i.state.UnknownState?
    ensures Transition(i, next, now) != RejectedState
    ensures Transition(i, next, now).Moved? <==>
      next == i.state ||
      (NonTerminal(i.state) && !next.UnknownState? &&
       if next == Dismissed then i.state != Remediating else Rank(next) == Rank(i.state) + 1)
    ensures Transition(i, next, now).Moved? ==>
      var j := Transition(i, next, now).incident;
      Evolves(i, j) && j.state == next
        && (next != i.state ==> Rank(i.state) < Rank(next) && j.lastTransitionedAt == now) &&
      (next == i.state ==> j == i)
  {
    assert i.state in AllowedTransitions();
  }

  /** The life cycle: pending, triaged, acknowledged, remediating, closed, one
      after the other, and dismissed from the first three. */
  lemma LifeCycle(s: IncidentState, next: IncidentState)
    ensures CanTransitionTo(s, next) <==>
      || s == next
      || (s == Pending && next == Triaged)
      || (s == Triaged && next == Acknowledged)
      || (s == Acknowledged && next == Remediating)
      || (s == Remediating && next == Closed)
      || (next == Dismissed && (s == Pending || s == Triaged || s == Acknowledged))
  {
    assert s in AllowedTransitions() <==> !s.UnknownState?;
  }

  function OpenedEvent(i: Incident): Event {
    IncidentOpened(i.id, i.iocId, i.snapshot, i.openedAt)
  }
}
