/** From a publish to a consumer's handler: the bus, the stream writer and the
    stream reader put together. JSON encoding is the parameter `json`. */
module EventStream {
  import opened Domain
  import opened Sse
  import Bus

  function EventType(e: Event): string {
    match e
    case IncidentOpened(_, _, _, _) => "incident.opened"
    case IncidentTransitioned(_, _, _, _) => "incident.transitioned"
    case RemediationAdded(_, _, _, _) => "remediation.added"
    case SBOMIngested(_, _, _) => "sbom.ingested"
    case IoCMatched(_, _, _) => "ioc.matched"
  }

  function AggregateId(e: Event): string {
    match e
    case IncidentOpened(id, _, _, _) => id
    case IncidentTransitioned(id, _, _, _) => id
    case RemediationAdded(id, _, _, _) => id
    case SBOMIngested(id, _, _) => id
    case IoCMatched(id, _, _) => id
  }

  function FrameOf(json: Event -> string, e: Event): Frame {
    Frame(AggregateId(e), EventType(e), json(e))
  }

  function Frames(json: Event -> string, es: seq<Event>): (r: seq<Frame>)
    ensures |r| == |es| && forall i :: 0 <= i < |es| ==> r[i] == FrameOf(json, es[i])
  {
    seq(|es|, i requires 0 <= i < |es| => FrameOf(json, es[i]))
  }

  /** The text every event type adds to the stream. */
  lemma EventIsWritten(items: seq<Item>, json: Event -> string, e: Event)
    ensures StreamText(items + [EventItem(FrameOf(json, e))]) == StreamText(items) + ItemText(EventItem(
      match e
      case IncidentOpened(incident, _, _, _) => Frame(incident, "incident.opened", json(e))
      case IncidentTransitioned(incident, _, _, _) => Frame(incident, "incident.transitioned", json(e))
      case RemediationAdded(incident, _, _, _) => Frame(incident, "remediation.added", json(e))
      case SBOMIngested(sbom, _, _) => Frame(sbom, "sbom.ingested", json(e))
      case IoCMatched(ioc, _, _) => Frame(ioc, "ioc.matched", json(e))))
  {
    StreamTextSnoc(items, EventItem(FrameOf(json, e)));
  }

  /** Whatever steps the bus takes and wherever the connection breaks, a
      consumer handles a prefix of what was published since it subscribed. */
  lemma ConsumerSeesPublishedPrefix(cap: nat, steps: seq<Bus.Step>, states: seq<Bus.State>, k: nat, id: nat,
                                    json: Event -> string, items: seq<Item>, cut: nat, broken: bool)
    requires Bus.Run(cap, steps, states) && k < |states| && id < states[k].nextId
    requires id in states[k].received && EventsOf(items) == Frames(json, states[k].received[id])
    requires (forall i :: i in items ==> Sendable(i)) && cut <= |StreamText(items)|
    ensures id in states[k].from && states[k].from[id] <= |states[k].log|
    ensures Read(StreamText(items)[..cut], broken).0 <= Frames(json, states[k].log[states[k].from[id]..])
  {
    var s := states[k];
    Bus.SubscriberSeesSlice(cap, steps, states, k, id);
    CutStreamYieldsPrefix(items, cut, broken);
    var slice := s.log[s.from[id]..Bus.Served(s, id)];
    assert s.received[id] <= slice <= s.log[s.from[id]..];
    assert Frames(json, s.received[id]) <= Frames(json, s.log[s.from[id]..]);
  }
}
