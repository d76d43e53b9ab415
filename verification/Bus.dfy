/** The event bus: a fan-out to bounded channels that drops slow consumers.

    The mutex serialises Subscribe, cancel and Publish, but consumers receive
    without it, so a Publish is a sequence of deliveries that receives may
    interleave with. Every such interleaving is a run of the machine below. */
module Bus {
  import opened Ordering
  import opened Domain

  datatype Channel = Channel(buffer: seq<Event>, closed: bool)

  /** Who holds the mutex between steps: nobody, or a Publish of `event` that
      has still to visit `pending`. */
  datatype Phase = Idle | Delivering(event: Event, pending: set<nat>)

  /** `log`, `from`, `until` and `received` are history: all events published,
      where in the log each subscription starts and (once gone) stops, and
      what its consumer has taken. `panicked` records a send on or a close of
      a closed channel. */
  datatype State = State(
    nextId: nat,
    subs: set<nat>,
    channels: map<nat, Channel>,
    cancelled: set<nat>,
    phase: Phase,
    log: seq<Event>,
    from: map<nat, nat>,
    until: map<nat, nat>,
    received: map<nat, seq<Event>>,
    panicked: bool)

  datatype Step =
    | Subscribe
    | BeginPublish(event: Event)
    | Deliver(id: nat)
    | EndPublish
    | Cancel(id: nat)
    | Receive(id: nat)

  const EMPTY: State := State(0, {}, map[], {}, Idle, [], map[], map[], map[], false)

  /** delete(b.subs, id); close(ch), with the log position it happens at. */
  function Drop(s: State, id: nat, at: nat): State
    requires id in s.channels
  {
    s.(subs := s.subs - {id},
       channels := s.channels[id := s.channels[id].(closed := true)],
       until := s.until[id := at],
       panicked := s.panicked || s.channels[id].closed)
  }

  function Send(s: State, id: nat, e: Event): State
    requires id in s.channels
  {
    s.(channels := s.channels[id := s.channels[id].(buffer := s.channels[id].buffer + [e])],
       panicked := s.panicked || s.channels[id].closed)
  }

  ghost predicate Next(cap: nat, s: State, step: Step, s': State) {
    match step
    case Subscribe =>
      s.phase == Idle &&
      s' == s.(nextId := s.nextId + 1,
               subs := s.subs + {s.nextId},
               channels := s.channels[s.nextId := Channel([], false)],
               from := s.from[s.nextId := |s.log|],
               received := s.received[s.nextId := []])
    case BeginPublish(e) =>
      s.phase == Idle && s' == s.(phase := Delivering(e, s.subs), log := s.log + [e])
    case Deliver(id) =>
      && s.phase.Delivering? && id in s.phase.pending && id in s.channels && |s.log| > 0
      && var t := s.(phase := Delivering(s.phase.event, s.phase.pending - {id}));
         s' == if |s.channels[id].buffer| < cap then Send(t, id, s.phase.event) else Drop(t, id, |s.log| - 1)
    case EndPublish =>
      s.phase.Delivering? && s.phase.pending == {} && s' == s.(phase := Idle)
    case Cancel(id) =>
      && s.phase == Idle && id < s.nextId
      && var t := s.(cancelled := s.cancelled + {id});
         s' == if id !in s.cancelled && id in s.subs && id in s.channels then Drop(t, id, |s.log|) else t
    case Receive(id) =>
      && id in s.channels && id in s.received && s.channels[id].buffer != []
      && var c := s.channels[id];
         s' == s.(channels := s.channels[id := c.(buffer := c.buffer[1..])],
                  received := s.received[id := s.received[id] + [c.buffer[0]]])
  }

  // ---------------------------------------------------------------------
  // The invariant
  // ---------------------------------------------------------------------

  /** How far into the log subscription id has been served. */
  ghost function Served(s: State, id: nat): int {
    if id in s.subs then |s.log| - (if s.phase.Delivering? && id in s.phase.pending then 1 else 0)
    else if id in s.until then s.until[id] else 0
  }

  ghost predicate ChannelOk(cap: nat, s: State, id: nat) {
    && id in s.channels && id in s.from && id in s.received
    && (id in s.until <==> id !in s.subs)
    && (s.channels[id].closed <==> id !in s.subs)
    && |s.channels[id].buffer| <= cap
    && s.from[id] <= Served(s, id) <= |s.log|
    && s.received[id] + s.channels[id].buffer == s.log[s.from[id]..Served(s, id)]
  }

  ghost predicate Inv(cap: nat, s: State) {
    && !s.panicked
    && (forall id: nat :: id in s.channels <==> id < s.nextId)
    && (forall id :: id in s.subs || id in s.until || id in s.cancelled ==> id < s.nextId)
    && s.subs !! s.cancelled
    && (forall id: nat :: id < s.nextId ==> ChannelOk(cap, s, id))
    && (s.phase.Delivering? ==> s.phase.pending <= s.subs && |s.log| > 0 && s.log[|s.log| - 1] == s.phase.event)
  }

  lemma StepKeepsInv(cap: nat, s: State, step: Step, s': State)
    requires Inv(cap, s) && Next(cap, s, step, s')
    ensures Inv(cap, s')
  {
    assert (step.Deliver? || step.Cancel?) && step.id in s.channels ==> ChannelOk(cap, s, step.id);
    forall id: nat | id < s'.nextId ensures ChannelOk(cap, s', id) {
      if id < s.nextId {
        StepKeepsChannel(cap, s, step, s', id);
      } else {
        assert s'.log[|s.log|..|s.log|] == [];
      }
    }
  }

  lemma StepKeepsChannel(cap: nat, s: State, step: Step, s': State, id: nat)
    requires Inv(cap, s) && Next(cap, s, step, s') && id < s.nextId
    ensures ChannelOk(cap, s', id)
  {
    assert ChannelOk(cap, s, id);
    match step {
      case Subscribe => UntouchedChannel(cap, s, s', id);
      case BeginPublish(e) => UntouchedChannel(cap, s, s', id);
      case EndPublish => UntouchedChannel(cap, s, s', id);
      case Deliver(d) =>
        if d == id { DeliverKeepsChannel(cap, s, s', id); } else { UntouchedChannel(cap, s, s', id); }
      case Cancel(c) =>
        if c == id { CancelKeepsChannel(cap, s, s', id); } else { UntouchedChannel(cap, s, s', id); }
      case Receive(r) =>
        if r == id { ReceiveKeepsChannel(cap, s, s', id); } else { UntouchedChannel(cap, s, s', id); }
    }
  }

  /** A step that concerns other subscriptions. */
  lemma UntouchedChannel(cap: nat, s: State, s': State, id: nat)
    requires ChannelOk(cap, s, id) && s.log <= s'.log && Served(s', id) == Served(s, id)
    requires id in s'.channels && s'.channels[id] == s.channels[id]
    requires id in s'.from && s'.from[id] == s.from[id] && id in s'.received && s'.received[id] == s.received[id]
    requires (id in s'.subs <==> id in s.subs) && (id in s'.until <==> id in s.until)
    ensures ChannelOk(cap, s', id)
  {
    assert s'.log[s.from[id]..Served(s, id)] == s.log[s.from[id]..Served(s, id)];
  }

  lemma CancelKeepsChannel(cap: nat, s: State, s': State, id: nat)
    requires ChannelOk(cap, s, id) && Next(cap, s, Step.Cancel(id), s')
    ensures ChannelOk(cap, s', id)
  {
  }

  lemma DeliverKeepsChannel(cap: nat, s: State, s': State, id: nat)
    requires ChannelOk(cap, s, id) && Next(cap, s, Deliver(id), s')
    requires id in s.subs && s.log[|s.log| - 1] == s.phase.event
    ensures ChannelOk(cap, s', id)
  {
    var n := |s.log| - 1;
    assert s.from[id] <= n ==> s.log[s.from[id]..n + 1] == s.log[s.from[id]..n] + [s.log[n]];
    var have := s.received[id] + s.channels[id].buffer;
    assert s.received[id] + (s.channels[id].buffer + [s.phase.event]) == have + [s.phase.event];
  }

  lemma ReceiveKeepsChannel(cap: nat, s: State, s': State, id: nat)
    requires ChannelOk(cap, s, id) && Next(cap, s, Receive(id), s')
    ensures ChannelOk(cap, s', id)
  {
    assert s'.received[id] + s'.channels[id].buffer == s.received[id] + s.channels[id].buffer;
  }

  ghost predicate Run(cap: nat, steps: seq<Step>, states: seq<State>) {
    && |states| == |steps| + 1
    && states[0] == EMPTY
    && (forall k {:trigger steps[k]} :: 0 <= k < |steps| ==> Next(cap, states[k], steps[k], states[k + 1]))
  }

  lemma {:induction false} RunKeepsInv(cap: nat, steps: seq<Step>, states: seq<State>, k: nat)
    requires Run(cap, steps, states) && k < |states|
    ensures Inv(cap, states[k])
  {
    if k == 0 {
      assert Inv(cap, EMPTY);
    } else {
      RunKeepsInv(cap, steps, states, k - 1);
      assert Next(cap, states[k - 1], steps[k - 1], states[k - 1 + 1]);
      StepKeepsInv(cap, states[k - 1], steps[k - 1], states[k]);
    }
  }

  // ---------------------------------------------------------------------
  // What subscribers see
  // ---------------------------------------------------------------------

  /** In every interleaving: what a subscriber took plus what waits in its
      channel is the published log from its subscription on, without gaps or
      repetitions, up to the end while it is subscribed and the bus is idle;
      the channel never exceeds its capacity, and nothing is ever closed twice
      or sent to after it was closed. */
  lemma SubscriberSeesSlice(cap: nat, steps: seq<Step>, states: seq<State>, k: nat, id: nat)
    requires Run(cap, steps, states) && k < |states| && id < states[k].nextId
    ensures var s := states[k];
      && !s.panicked
      && id in s.channels && id in s.received && id in s.from
      && |s.channels[id].buffer| <= cap
      && (s.channels[id].closed <==> id !in s.subs)
      && s.from[id] <= Served(s, id) <= |s.log|
      && s.received[id] + s.channels[id].buffer == s.log[s.from[id]..Served(s, id)]
      && (id in s.subs && s.phase == Idle ==> Served(s, id) == |s.log|)
  {
    RunKeepsInv(cap, steps, states, k);
    assert ChannelOk(cap, states[k], id);
  }

  /** A subscription's start never moves, what its consumer took only grows at
      the end, and once it is gone it stays gone and is served nothing more. */
  lemma {:induction false} SubscriptionsAge(cap: nat, steps: seq<Step>, states: seq<State>, i: nat, j: nat, id: nat)
    requires Run(cap, steps, states) && i <= j < |states| && id < states[i].nextId
    ensures id < states[j].nextId && id in states[i].from && id in states[j].from && id in states[i].received
      && id in states[j].received
    ensures states[i].from[id] == states[j].from[id] && states[i].received[id] <= states[j].received[id]
    ensures states[i].log <= states[j].log
    ensures id !in states[i].subs ==> id !in states[j].subs && Served(states[j], id) == Served(states[i], id)
    decreases j
  {
    SubscriptionKnown(cap, steps, states, i, id);
    if i < j {
      SubscriptionsAge(cap, steps, states, i, j - 1, id);
      SubscriptionAges(cap, steps, states, j, id);
    }
  }

  lemma SubscriptionKnown(cap: nat, steps: seq<Step>, states: seq<State>, k: nat, id: nat)
    requires Run(cap, steps, states) && k < |states| && id < states[k].nextId
    ensures id in states[k].from && id in states[k].received && (id in states[k].until <==> id !in states[k].subs)
  {
    RunKeepsInv(cap, steps, states, k);
    assert ChannelOk(cap, states[k], id);
  }

  lemma SubscriptionAges(cap: nat, steps: seq<Step>, states: seq<State>, k: nat, id: nat)
    requires Run(cap, steps, states) && 0 < k < |states| && id < states[k - 1].nextId
    ensures var s, s' := states[k - 1], states[k];
      && id < s'.nextId && id in s.from && id in s'.from && id in s.received && id in s'.received
      && s'.from[id] == s.from[id] && s.received[id] <= s'.received[id] && s.log <= s'.log
      && (id !in s.subs ==> id !in s'.subs && Served(s', id) == Served(s, id))
  {
    RunKeepsInv(cap, steps, states, k - 1);
    assert ChannelOk(cap, states[k - 1], id);
    assert Next(cap, states[k - 1], steps[k - 1], states[k - 1 + 1]);
  }

  /** Steps i to j of a run are one Publish of e, whatever receives come in
      between. */
  ghost predicate IsPublish(steps: seq<Step>, i: nat, j: nat, e: Event) {
    && i < j < |steps| && steps[i] == BeginPublish(e) && steps[j] == EndPublish
    && (forall k {:trigger steps[k]} :: i < k < j ==> steps[k] != EndPublish)
  }

  /** A Publish visits every subscriber once and drops it if and only if it
      finds its channel full then; otherwise the subscriber is still there when
      the Publish ends. */
  lemma PublishDropsIffFull(cap: nat, steps: seq<Step>, states: seq<State>, i: nat, j: nat, e: Event, id: nat)
    returns (visit: nat)
    requires Run(cap, steps, states) && IsPublish(steps, i, j, e) && id in states[i].subs
    ensures i < visit < j && steps[visit] == Deliver(id) && id in states[visit].channels
    ensures forall k :: i < k < j && steps[k] == Deliver(id) ==> k == visit
    ensures id !in states[j + 1].subs <==> |states[visit].channels[id].buffer| == cap
  {
    visit := Visited(cap, steps, states, i, j, e, id, j);
    assert Next(cap, states[j], steps[j], states[j + 1]);
  }

  /** The Publish has still to visit subscriber id. */
  ghost predicate Waits(s: State, e: Event, id: nat) {
    s.phase.Delivering? && s.phase.event == e && id in s.phase.pending && id in s.subs
  }

  ghost predicate VisitedAt(cap: nat, steps: seq<Step>, states: seq<State>, i: nat, m: nat, e: Event, id: nat,
      visit: nat)
    requires m < |states| && m <= |steps| < |states|
  {
    && i < visit < m && steps[visit] == Deliver(id) && id in states[visit].channels
    && (forall k {:trigger steps[k]} :: i < k < m && steps[k] == Deliver(id) ==> k == visit)
    && (id !in states[m].subs <==> |states[visit].channels[id].buffer| == cap)
    && states[m].phase.Delivering? && states[m].phase.event == e && id !in states[m].phase.pending
  }

  ghost predicate NotYet(steps: seq<Step>, states: seq<State>, i: nat, m: nat, e: Event, id: nat)
    requires m < |states| && m <= |steps|
  {
    Waits(states[m], e, id) && forall k {:trigger steps[k]} :: i < k < m ==> steps[k] != Deliver(id)
  }

  lemma {:induction false} Visited(
    cap: nat, steps: seq<Step>, states: seq<State>, i: nat, j: nat, e: Event, id: nat, m: nat) returns (visit: nat)
    requires Run(cap, steps, states) && IsPublish(steps, i, j, e) && id in states[i].subs && i < m <= j
    ensures NotYet(steps, states, i, m, e, id) || VisitedAt(cap, steps, states, i, m, e, id, visit)
    ensures m == j ==> VisitedAt(cap, steps, states, i, m, e, id, visit)
    decreases m
  {
    if m == i + 1 {
      visit := 0;
      assert Next(cap, states[i], steps[i], states[i + 1]);
    } else {
      visit := Visited(cap, steps, states, i, j, e, id, m - 1);
      visit := VisitStep(cap, steps, states, i, j, e, id, m, visit);
    }
    if m == j { assert Next(cap, states[j], steps[j], states[j + 1]); }
  }

  lemma VisitStep(cap: nat, steps: seq<Step>, states: seq<State>, i: nat, j: nat, e: Event, id: nat, m: nat,
      visit0: nat)
    returns (visit: nat)
    requires Run(cap, steps, states) && IsPublish(steps, i, j, e) && i + 1 < m <= j
    requires NotYet(steps, states, i, m - 1, e, id) || VisitedAt(cap, steps, states, i, m - 1, e, id, visit0)
    ensures NotYet(steps, states, i, m, e, id) || VisitedAt(cap, steps, states, i, m, e, id, visit)
  {
    visit := visit0;
    RunKeepsInv(cap, steps, states, m - 1);
    assert Next(cap, states[m - 1], steps[m - 1], states[m - 1 + 1]);
    if steps[m - 1] == Deliver(id) {
      visit := m - 1;
      DroppedIffFull(cap, states[m - 1], id, states[m]);
    }
  }

  /** A delivery drops a subscriber exactly when it finds its channel full. */
  lemma DroppedIffFull(cap: nat, s: State, id: nat, s': State)
    requires Inv(cap, s) && Next(cap, s, Deliver(id), s')
    ensures id in s.subs && (id !in s'.subs <==> |s.channels[id].buffer| == cap)
    ensures forall other :: other in s.subs && other != id ==>
      other in s'.subs && s'.channels[other] == s.channels[other]
  {
    assert ChannelOk(cap, s, id);
  }

  // ---------------------------------------------------------------------
  // The code
  // ---------------------------------------------------------------------

  /** Consecutive states of the machine, from the first to the last. */
  ghost predicate Path(cap: nat, trace: seq<State>, s: State, s': State) {
    && trace != [] && trace[0] == s && trace[|trace| - 1] == s'
    && (forall k :: 0 <= k < |trace| - 1 ==> Linked(cap, trace[k], trace[k + 1]))
  }

  ghost predicate Linked(cap: nat, a: State, b: State) {
    exists step :: Next(cap, a, step, b)
  }

  lemma PathSnoc(cap: nat, trace: seq<State>, s: State, t: State, step: Step, t': State)
    requires Path(cap, trace, s, t) && Next(cap, t, step, t')
    ensures Path(cap, trace + [t'], s, t')
  {
    assert Linked(cap, t, t');
  }

  /** What a delivery makes of a channel. */
  function Offered(cap: nat, c: Channel, e: Event): Channel {
    if |c.buffer| < cap then Channel(c.buffer + [e], false) else Channel(c.buffer, true)
  }

  /** Where a Publish stands that has still to visit `rest`. */
  ghost predicate Visiting(cap: nat, e: Event, rest: set<nat>, subs0: set<nat>, channels0: map<nat, Channel>,
      subs: set<nat>, channels: map<nat, Channel>) {
    && rest <= subs0 <= channels0.Keys && channels.Keys == channels0.Keys
    && (forall id :: id in subs <==> id in subs0 && (id in rest || |channels0[id].buffer| < cap))
    && (forall id :: id in channels ==>
          channels[id] == if id in subs0 - rest then Offered(cap, channels0[id], e) else channels0[id])
  }

  lemma VisitingStep(cap: nat, e: Event, rest: set<nat>, subs0: set<nat>, channels0: map<nat, Channel>,
      subs: set<nat>, channels: map<nat, Channel>, id: nat)
    requires Visiting(cap, e, rest, subs0, channels0, subs, channels) && id in rest
    ensures id in channels
    ensures Visiting(cap, e, rest - {id}, subs0, channels0,
      if |channels[id].buffer| < cap then subs else subs - {id}, channels[id := Offered(cap, channels[id], e)])
  {
  }

  lemma ClosedIffGone(cap: nat, s: State)
    requires Inv(cap, s)
    ensures s.subs <= s.channels.Keys
    ensures forall id :: id in s.channels ==> (s.channels[id].closed <==> id !in s.subs)
  {
    forall id | id in s.channels ensures s.channels[id].closed <==> id !in s.subs { assert ChannelOk(cap, s, id); }
  }

  lemma AllVisited(cap: nat, e: Event, subs0: set<nat>, channels0: map<nat, Channel>, subs: set<nat>,
      channels: map<nat, Channel>)
    requires Visiting(cap, e, {}, subs0, channels0, subs, channels)
    requires forall id :: id in channels0 ==> (channels0[id].closed <==> id !in subs0)
    ensures forall id :: id in subs <==> id in subs0 && |channels0[id].buffer| < cap
    ensures forall id :: id in subs ==> channels[id] == Channel(channels0[id].buffer + [e], false)
    ensures forall id :: id in channels && id !in subs ==> channels[id] == Channel(channels0[id].buffer, true)
  {
  }

  class Bus {
    const bufferSize: nat
    var nextId: nat
    var subs: set<nat>
    var channels: map<nat, Channel>
    var cancelled: set<nat>
    ghost var phase: Phase
    ghost var log: seq<Event>
    ghost var from: map<nat, nat>
    ghost var until: map<nat, nat>
    ghost var received: map<nat, seq<Event>>

    constructor (size: int)
      ensures bufferSize == (if size < 1 then 256 else size) && View() == EMPTY
    {
      bufferSize := if size < 1 then 256 else size;
      nextId, subs, channels, cancelled := 0, {}, map[], {};
      phase, log, from, until, received := Idle, [], map[], map[], map[];
    }

    ghost function View(): State
      reads this
    {
      State(nextId, subs, channels, cancelled, phase, log, from, until, received, false)
    }

    ghost predicate Valid()
      reads this
    {
      Inv(bufferSize, View())
    }

    method Subscribe() returns (id: nat)
      requires Valid() && phase == Idle
      modifies this
      ensures id == old(nextId) && Next(bufferSize, old(View()), Step.Subscribe, View()) && Valid()
      ensures id !in old(subs) && subs == old(subs) + {id} && channels == old(channels)[id := Channel([], false)]
    {
      id := nextId;
      nextId := nextId + 1;
      channels := channels[id := Channel([], false)];
      subs := subs + {id};
      from, received := from[id := |log|], received[id := []];
      StepKeepsInv(bufferSize, old(View()), Step.Subscribe, View());
    }

    /** The cancel closure of subscription id: afterwards it is gone and its
        channel closed, however often it is called. */
    method Cancel(id: nat)
      requires Valid() && phase == Idle && id < nextId
      modifies this
      ensures Next(bufferSize, old(View()), Step.Cancel(id), View()) && Valid()
      ensures subs == old(subs) - {id} && id in old(channels)
      ensures channels == old(channels)[id := Channel(old(channels)[id].buffer, true)]
    {
      assert ChannelOk(bufferSize, View(), id);
      if id !in cancelled && id in subs {
        subs := subs - {id};
        channels := channels[id := channels[id].(closed := true)];
        until := until[id := |log|];
      }
      cancelled := cancelled + {id};
      StepKeepsInv(bufferSize, old(View()), Step.Cancel(id), View());
    }

    /** A consumer takes the oldest waiting event; None when it would block or
        finds the channel closed and drained. */
    method Receive(id: nat) returns (e: Option<Event>)
      requires Valid() && id < nextId
      modifies this
      ensures Valid()
      ensures e.None? ==> View() == old(View()) && id in channels && channels[id].buffer == []
      ensures e.Some? ==>
        && Next(bufferSize, old(View()), Step.Receive(id), View())
        && id in received && received[id] == old(received)[id] + [e.value]
    {
      assert ChannelOk(bufferSize, View(), id);
      var c := channels[id];
      if c.buffer == [] { return None; }
      e := Some(c.buffer[0]);
      channels := channels[id := c.(buffer := c.buffer[1..])];
      received := received[id := received[id] + [c.buffer[0]]];
      StepKeepsInv(bufferSize, old(View()), Step.Receive(id), View());
    }

    method DeliverOne(id: nat, e: Event, ghost rest: set<nat>)
      requires Valid() && phase == Delivering(e, rest) && id in rest
      modifies this
      ensures Valid() && phase == Delivering(e, rest - {id}) && log == old(log)
      ensures Next(bufferSize, old(View()), Deliver(id), View())
      ensures id in old(channels) && channels == old(channels)[id := Offered(bufferSize, old(channels)[id], e)]
      ensures subs == if |old(channels)[id].buffer| < bufferSize then old(subs) else old(subs) - {id}
    {
      assert ChannelOk(bufferSize, View(), id);
      phase := Delivering(e, rest - {id});
      if |channels[id].buffer| < bufferSize {
        channels := channels[id := channels[id].(buffer := channels[id].buffer + [e])];
      } else {
        subs := subs - {id};
        channels := channels[id := channels[id].(closed := true)];
        until := until[id := |log| - 1];
      }
      StepKeepsInv(bufferSize, old(View()), Deliver(id), View());
    }

    /** Without receives in between, a Publish is a path of the machine that
        appends e to the log and ends idle. Every subscriber with room gets e
        last; every other one is gone and its channel closed. */
    method Publish(e: Event) returns (ghost trace: seq<State>)
      requires Valid() && phase == Idle
      modifies this
      ensures Valid() && phase == Idle && log == old(log) + [e]
      ensures Path(bufferSize, trace, old(View()), View())
      ensures channels.Keys == old(channels).Keys && old(subs) <= channels.Keys
      ensures forall id :: id in subs <==> id in old(subs) && |old(channels)[id].buffer| < bufferSize
      ensures forall id :: id in subs ==> channels[id] == Channel(old(channels)[id].buffer + [e], false)
      ensures forall id :: id in channels && id !in subs ==> channels[id] == Channel(old(channels)[id].buffer, true)
    {
      trace := [View()];
      ClosedIffGone(bufferSize, View());
      phase, log := Delivering(e, subs), log + [e];
      StepKeepsInv(bufferSize, old(View()), BeginPublish(e), View());
      PathSnoc(bufferSize, trace, old(View()), old(View()), BeginPublish(e), View());
      trace := DeliverAll(e, old(View()), trace + [View()]);
      ghost var last := View();
      phase := Idle;
      StepKeepsInv(bufferSize, last, EndPublish, View());
      PathSnoc(bufferSize, trace, old(View()), last, EndPublish, View());
      trace := trace + [View()];
      AllVisited(bufferSize, e, old(subs), old(channels), subs, channels);
    }

    method DeliverAll(e: Event, ghost start: State, ghost trace0: seq<State>) returns (ghost trace: seq<State>)
      requires Valid() && phase == Delivering(e, subs) && Path(bufferSize, trace0, start, View())
      requires subs <= channels.Keys
      modifies this
      ensures Valid() && phase == Delivering(e, {}) && log == old(log)
      ensures Path(bufferSize, trace, start, View())
      ensures Visiting(bufferSize, e, {}, old(subs), old(channels), subs, channels)
    {
      trace := trace0;
      var rest := subs;
      while rest != {}
        invariant Valid() && phase == Delivering(e, rest) && log == old(log)
        invariant Path(bufferSize, trace, start, View())
        invariant Visiting(bufferSize, e, rest, old(subs), old(channels), subs, channels)
        decreases |rest|
      {
        ghost var before := View();
        var id :| id in rest;
        VisitingStep(bufferSize, e, rest, old(subs), old(channels), subs, channels, id);
        DeliverOne(id, e, rest);
        rest := rest - {id};
        PathSnoc(bufferSize, trace, start, before, Deliver(id), View());
        trace := trace + [View()];
      }
    }
  }
}
