/** `CatalogSync.runOnce`: pushing the catalog to the engine behind a memo of
    content hashes. SHA-256 is the parameter `hash`; what the network does with
    a push in one tick is the parameter `net`. */
module CatalogSync {
  import opened Ordering
  import opened DependencyGraph
  import opened CatalogSort
  import opened Text

  datatype EngineComponent = EngineComponent(
    ref: string,
    kind: string,
    namespace: string,
    name: string,
    owner: string,
    system: string,
    lifecycle: string,
    tags: seq<string>,
    annotations: seq<(string, string)>)

  /** A 2xx answer, any other answer, or no answer at all. In the last case the
      engine may or may not have applied the upsert. */
  datatype PushOutcome = Accepted | Refused | NoAnswer(applied: bool)

  datatype Stats = Stats(pushed: nat, skipped: nat, failed: nat, cycles: nat)

  /** The memo of the sync and the components of the engine it writes to. */
  datatype World = World(memo: map<string, string>, engine: map<string, EngineComponent>)

  type Hash = EngineComponent -> string
  type Network = string -> PushOutcome

  function ToEngineComponent(e: Entity): Option<EngineComponent> {
    if e.kind != "Component" || e.name == "" then None
    else
      Some(EngineComponent("kind:" + e.kind + "/" + NamespaceOf(e) + "/" + e.name, e.kind, NamespaceOf(e), e.name,
                           e.owner, e.system, e.lifecycle, e.tags, e.annotations))
  }

  predicate Memoised(hash: Hash, w: World, c: EngineComponent) {
    c.ref in w.memo && w.memo[c.ref] == hash(c)
  }

  /** The effect of one loop iteration on memo, engine and counters. */
  function SyncOne(hash: Hash, net: Network, w: World, s: Stats, e: Entity): (World, Stats) {
    match ToEngineComponent(e)
    case None => (w, s.(failed := s.failed + 1))
    case Some(c) =>
      if Memoised(hash, w, c) then (w, s.(skipped := s.skipped + 1))
      else
        match net(c.ref)
        case Accepted =>
          (World(w.memo[c.ref := hash(c)], w.engine[c.ref := c]), s.(pushed := s.pushed + 1))
        case Refused => (w.(memo := w.memo - {c.ref}), s.(failed := s.failed + 1))
        case NoAnswer(applied) =>
          (if applied then w.(engine := w.engine[c.ref := c]) else w, s.(failed := s.failed + 1))
  }

  function SyncAll(hash: Hash, net: Network, w: World, s: Stats, order: seq<Entity>): (World, Stats) {
    if order == [] then (w, s)
    else
      var n := |order| - 1;
      var (w', s') := SyncAll(hash, net, w, s, order[..n]);
      SyncOne(hash, net, w', s', order[n])
  }

  /** One tick over a catalog listing, in the order the sort prescribes. */
  ghost predicate Tick(hash: Hash, net: Network, es: seq<Entity>, w: World, w': World, s: Stats) {
    exists order :: TickInOrder(hash, net, es, order, w, w', s)
  }

  ghost predicate TickInOrder(hash: Hash, net: Network, es: seq<Entity>, order: seq<Entity>, w: World, w': World,
      s: Stats) {
    && KahnOrder(GraphOf(es), RefList(order))
    && (forall e :: e in order ==> RefOf(e) in Refs(es) && e == Lookup(es, RefOf(e)))
    && |es| >= |order|
    && (w', s) == SyncAll(hash, net, w, Stats(0, 0, 0, |es| - |order|), order)
  }

  class Sync {
    var memo: map<string, string>
    /** The remote store. Only the sync writes to it here. */
    var engine: map<string, EngineComponent>

    constructor (engine0: map<string, EngineComponent>)
      ensures memo == map[] && engine == engine0
    {
      memo := map[];
      engine := engine0;
    }

    function View(): World
      reads this
    {
      World(memo, engine)
    }

    /** `items` is what the catalog client returned, None when none is configured. */
    method RunOnce(hash: Hash, net: Network, items: Option<seq<Entity>>) returns (stats: Stats)
      modifies this
      ensures items.None? ==> View() == old(View()) && stats == Stats(0, 0, 0, 0)
      ensures items.Some? ==> Tick(hash, net, items.value, old(View()), View(), stats)
    {
      stats := Stats(0, 0, 0, 0);
      if items.None? { return; }
      var es := items.value;
      var order, cycles := PushOrder(es);
      stats := PushAll(hash, net, order, Stats(0, 0, 0, cycles));
      assert TickInOrder(hash, net, es, order, old(View()), View(), stats);
    }

    method PushAll(hash: Hash, net: Network, order: seq<Entity>, stats0: Stats) returns (stats: Stats)
      modifies this
      ensures (View(), stats) == SyncAll(hash, net, old(View()), stats0, order)
    {
      stats := stats0;
      for i := 0 to |order|
        invariant (View(), stats) == SyncAll(hash, net, old(View()), stats0, order[..i])
      {
        assert order[..i + 1][..i] == order[..i];
        var component := ToEngineComponent(order[i]);
        if component.None? {
          stats := stats.(failed := stats.failed + 1);
          continue;
        }
        var c := component.value;
        if c.ref in memo && memo[c.ref] == hash(c) {
          stats := stats.(skipped := stats.skipped + 1);
          continue;
        }
        var ok := PushOne(net, c);
        if ok {
          memo := memo[c.ref := hash(c)];
          stats := stats.(pushed := stats.pushed + 1);
        } else {
          stats := stats.(failed := stats.failed + 1);
        }
      }
      assert order[..|order|] == order;
    }

    /** POST one component; a refusal also drops its memo entry. */
    method PushOne(net: Network, c: EngineComponent) returns (ok: bool)
      modifies this
      ensures ok <==> net(c.ref).Accepted?
      ensures engine == if net(c.ref).Accepted? || net(c.ref) == NoAnswer(true)
                        then old(engine)[c.ref := c] else old(engine)
      ensures memo == if net(c.ref).Refused? then old(memo) - {c.ref} else old(memo)
    {
      var answer := net(c.ref);
      if answer.Accepted? || answer == NoAnswer(true) {
        engine := engine[c.ref := c];
      }
      if answer.Refused? {
        memo := memo - {c.ref};
      }
      ok := answer.Accepted?;
    }
  }

  method PushOrder(es: seq<Entity>) returns (order: seq<Entity>, cycles: nat)
    ensures KahnOrder(GraphOf(es), RefList(order))
    ensures forall e :: e in order ==> RefOf(e) in Refs(es) && e == Lookup(es, RefOf(e))
    ensures cycles == |es| - |order|
  {
    var leftover;
    order, cycles, leftover := TopoSortComponents(es);
    CyclesIsDifference(es, order, leftover, cycles);
  }

  lemma CyclesIsDifference(es: seq<Entity>, order: seq<Entity>, leftover: set<string>, cycles: nat)
    requires KahnOrder(GraphOf(es), RefList(order))
    requires forall v :: v in Refs(es) ==> (v in RefList(order) <==> !ReachesCycle(GraphOf(es), v))
    requires forall v :: v in leftover <==> v in Refs(es) && ReachesCycle(GraphOf(es), v)
    requires cycles == |leftover| + (|es| - |Refs(es)|)
    ensures cycles == |es| - |order|
  {
    var out := RefList(order);
    DistinctCount(out);
    assert forall v :: v in Elements(out) ==> v in Refs(es);
    assert leftover == Refs(es) - Elements(out);
  }

  // ---------------------------------------------------------------------
  // Counters
  // ---------------------------------------------------------------------

  lemma {:induction false} CountersAddUp(hash: Hash, net: Network, w: World, s: Stats, order: seq<Entity>)
    ensures var s' := SyncAll(hash, net, w, s, order).1;
      && s'.pushed + s'.skipped + s'.failed == s.pushed + s.skipped + s.failed + |order|
      && s'.failed >= s.failed && s'.cycles == s.cycles
  {
    if order == [] {
    } else {
      CountersAddUp(hash, net, w, s, order[..|order| - 1]);
    }
  }

  // ---------------------------------------------------------------------
  // The memo describes the engine
  // ---------------------------------------------------------------------

  ghost predicate Sound(hash: Hash, w: World) {
    forall r :: r in w.memo ==> r in w.engine && w.engine[r].ref == r && w.memo[r] == hash(w.engine[r])
  }

  /** A push lost after the engine applied it, for a component the memo knows
      under another hash. */
  ghost predicate LosesTrack(hash: Hash, net: Network, w: World, e: Entity) {
    var c := ToEngineComponent(e);
    c.Some? && !Memoised(hash, w, c.value) && net(c.value.ref) == NoAnswer(true) && c.value.ref in w.memo
  }

  /** One iteration keeps the memo sound exactly when it does not lose track. */
  lemma SoundAfterOneIff(hash: Hash, net: Network, w: World, s: Stats, e: Entity)
    requires Sound(hash, w)
    ensures Sound(hash, SyncOne(hash, net, w, s, e).0) <==> !LosesTrack(hash, net, w, e)
  {
    if LosesTrack(hash, net, w, e) {
      var c := ToEngineComponent(e).value;
      var w' := SyncOne(hash, net, w, s, e).0;
      assert c.ref in w'.memo && w'.engine[c.ref] == c;
    }
  }

  /** What losing track leads to: the engine holds the new content, the catalog
      goes back to the old one, and the sync skips it. */
  lemma RevertIsMissed(hash: Hash, net: Network, net': Network, w: World, s: Stats, old_: Entity, new_: Entity)
    requires ToEngineComponent(old_).Some? && ToEngineComponent(new_).Some?
    requires Memoised(hash, w, ToEngineComponent(old_).value) && LosesTrack(hash, net, w, new_)
    requires ToEngineComponent(old_).value.ref == ToEngineComponent(new_).value.ref
    ensures var (w', s') := SyncOne(hash, net, w, s, new_);
      SyncOne(hash, net', w', s', old_) == (w', s'.(skipped := s'.skipped + 1)) &&
      w'.engine[ToEngineComponent(old_).value.ref] == ToEngineComponent(new_).value != ToEngineComponent(old_).value
  {
    var c, c' := ToEngineComponent(old_).value, ToEngineComponent(new_).value;
    assert hash(c) != hash(c');
  }

  ghost predicate NeverLosesWrites(net: Network) {
    forall r :: net(r) != NoAnswer(true)
  }

  lemma {:induction false} SoundAfterAll(hash: Hash, net: Network, w: World, s: Stats, order: seq<Entity>)
    requires Sound(hash, w) && NeverLosesWrites(net)
    ensures Sound(hash, SyncAll(hash, net, w, s, order).0)
  {
    if order == [] {
    } else {
      var n := |order| - 1;
      SoundAfterAll(hash, net, w, s, order[..n]);
      var (w', s') := SyncAll(hash, net, w, s, order[..n]);
      SoundAfterOneIff(hash, net, w', s', order[n]);
    }
  }

  datatype TickInput = TickInput(catalog: seq<Entity>, net: Network)

  /** ws[k] is the world after k ticks of a sync that starts with no memo. */
  ghost predicate Run(hash: Hash, inputs: seq<TickInput>, ws: seq<World>, stats: seq<Stats>) {
    && |ws| == |inputs| + 1 && |stats| == |inputs|
    && ws[0].memo == map[]
    && (forall k {:trigger inputs[k]} :: 0 <= k < |inputs| ==>
      Tick(hash, inputs[k].net, inputs[k].catalog, ws[k], ws[k + 1], stats[k]))
  }

  /** In every run in which failed pushes leave the engine alone, every memo
      entry is the hash of what the engine holds, after every tick. */
  lemma {:induction false} MemoAlwaysSound(hash: Hash, inputs: seq<TickInput>, ws: seq<World>, stats: seq<Stats>,
      k: nat)
    requires Run(hash, inputs, ws, stats) && k <= |inputs|
    requires forall i :: 0 <= i < |inputs| ==> NeverLosesWrites(inputs[i].net)
    ensures Sound(hash, ws[k])
  {
    if k == 0 {
    } else {
      MemoAlwaysSound(hash, inputs, ws, stats, k - 1);
      var i := inputs[k - 1];
      assert Tick(hash, i.net, i.catalog, ws[k - 1], ws[k - 1 + 1], stats[k - 1]);
      TickKeepsSound(hash, i.net, i.catalog, ws[k - 1], ws[k], stats[k - 1]);
    }
  }

  lemma TickKeepsSound(hash: Hash, net: Network, es: seq<Entity>, w: World, w': World, s: Stats)
    requires Tick(hash, net, es, w, w', s) && Sound(hash, w) && NeverLosesWrites(net)
    ensures Sound(hash, w')
  {
    var order :| TickInOrder(hash, net, es, order, w, w', s);
    SoundAfterAll(hash, net, w, Stats(0, 0, 0, |es| - |order|), order);
  }

  // ---------------------------------------------------------------------
  // A failure-free tick leaves nothing to push
  // ---------------------------------------------------------------------

  lemma EngineRefIdentifies(e: Entity, f: Entity)
    requires ToEngineComponent(e).Some? && ToEngineComponent(f).Some?
    requires ToEngineComponent(e).value.ref == ToEngineComponent(f).value.ref
    ensures RefOf(e) == RefOf(f)
  {
    EngineRefParts(e);
    EngineRefParts(f);
    var head := "kind:Component/";
    SameTail(head, NamespaceOf(e) + "/" + e.name, NamespaceOf(f) + "/" + f.name);
  }

  lemma EngineRefParts(e: Entity)
    requires ToEngineComponent(e).Some?
    ensures ToEngineComponent(e).value.ref == "kind:Component/" + (NamespaceOf(e) + "/" + e.name)
    ensures RefOf(e) == ToLower("Component") + ":" + (NamespaceOf(e) + "/" + e.name)
  {
    assert "kind:" + "Component" + "/" == "kind:Component/";
  }

  lemma SameTail(head: string, a: string, b: string)
    requires head + a == head + b
    ensures a == b
  {
    assert a == (head + a)[|head|..] && b == (head + b)[|head|..];
  }

  /** What one iteration does: a component that is not in the memo under its
      current hash is pushed; its memo entry is renewed when the engine accepts
      and dropped when it refuses; nothing else is touched. */
  lemma IterationMeans(hash: Hash, net: Network, w: World, s: Stats, e: Entity)
    ensures var (w', s') := SyncOne(hash, net, w, s, e);
      if e.kind != "Component" || e.name == "" then w' == w && s' == s.(failed := s.failed + 1)
      else
        var ns := if e.namespace.Some? then e.namespace.value else "default";
        var ref := "kind:Component/" + (ns + "/" + e.name);
        var c := EngineComponent(ref, "Component", ns, e.name, e.owner, e.system, e.lifecycle, e.tags, e.annotations);
        if ref in w.memo && w.memo[ref] == hash(c) then w' == w && s' == s.(skipped := s.skipped + 1)
        else if net(ref) == Accepted then
          w'.memo == w.memo[ref := hash(c)] && w'.engine == w.engine[ref := c] && s' == s.(pushed := s.pushed + 1)
        else
          && s' == s.(failed := s.failed + 1)
          && w'.memo == (if net(ref) == Refused then w.memo - {ref} else w.memo)
          && w'.engine == (if net(ref) == NoAnswer(true) then w.engine[ref := c] else w.engine)
  {
    if e.kind == "Component" && e.name != "" { EngineRefParts(e); }
  }

  /** Every component of the list is in the memo under its current hash. */
  ghost predicate Settled(hash: Hash, w: World, order: seq<Entity>) {
    forall i :: 0 <= i < |order| ==>
      ToEngineComponent(order[i]).Some? && Memoised(hash, w, ToEngineComponent(order[i]).value)
  }

  lemma {:induction false} NoFailureSettles(hash: Hash, net: Network, w: World, s: Stats, order: seq<Entity>)
    requires Distinct(RefList(order))
    requires SyncAll(hash, net, w, s, order).1.failed == s.failed
    ensures Settled(hash, SyncAll(hash, net, w, s, order).0, order)
  {
    if order == [] {
    } else {
      var n := |order| - 1;
      var front := order[..n];
      var (w', s') := SyncAll(hash, net, w, s, front);
      CountersAddUp(hash, net, w, s, front);
      assert Distinct(RefList(front)) by {
        assert forall i :: 0 <= i < n ==> RefList(front)[i] == RefList(order)[i];
      }
      assert SyncAll(hash, net, w, s, order) == SyncOne(hash, net, w', s', order[n]);
      FailuresOnlyGrow(hash, net, w', s', order[n]);
      NoFailureSettles(hash, net, w, s, front);
      OneMoreSettles(hash, net, w', s', order);
    }
  }

  lemma FailuresOnlyGrow(hash: Hash, net: Network, w: World, s: Stats, e: Entity)
    ensures SyncOne(hash, net, w, s, e).1.failed >= s.failed
  {
  }

  lemma OneMoreSettles(hash: Hash, net: Network, w: World, s: Stats, order: seq<Entity>)
    requires order != [] && Distinct(RefList(order)) && Settled(hash, w, order[..|order| - 1])
    requires SyncOne(hash, net, w, s, order[|order| - 1]).1.failed == s.failed
    ensures Settled(hash, SyncOne(hash, net, w, s, order[|order| - 1]).0, order)
  {
    var n := |order| - 1;
    var front, w' := order[..n], SyncOne(hash, net, w, s, order[n]).0;
    forall i | 0 <= i < n
      ensures ToEngineComponent(order[i]).Some? && Memoised(hash, w', ToEngineComponent(order[i]).value)
    {
      assert front[i] == order[i];
      OtherEngineRef(order, i, n);
    }
  }

  lemma OtherEngineRef(order: seq<Entity>, i: nat, j: nat)
    requires i < j < |order| && Distinct(RefList(order))
    requires ToEngineComponent(order[i]).Some? && ToEngineComponent(order[j]).Some?
    ensures ToEngineComponent(order[i]).value.ref != ToEngineComponent(order[j]).value.ref
  {
    assert RefList(order)[i] != RefList(order)[j];
    if ToEngineComponent(order[i]).value.ref == ToEngineComponent(order[j]).value.ref {
      EngineRefIdentifies(order[i], order[j]);
    }
  }

  lemma {:induction false} SettledIsSkipped(hash: Hash, net: Network, w: World, s: Stats, order: seq<Entity>)
    requires Settled(hash, w, order)
    ensures SyncAll(hash, net, w, s, order) == (w, s.(skipped := s.skipped + |order|))
  {
    if order == [] {
    } else {
      SettledIsSkipped(hash, net, w, s, order[..|order| - 1]);
    }
  }

  /** Two listings with the same entities in which refs mean the same. */
  ghost predicate SameCatalog(es: seq<Entity>, es': seq<Entity>) {
    Elements(es) == Elements(es') && Refs(es) == Refs(es') && forall r :: r in Refs(es) ==>
      Lookup(es, r) == Lookup(es', r)
  }

  lemma PermutedCatalogIsSame(es: seq<Entity>, es': seq<Entity>)
    requires Elements(es) == Elements(es') && Distinct(RefList(es))
    ensures SameCatalog(es, es')
  {
    RefsGrow(es, es');
    RefsGrow(es', es);
    forall r | r in Refs(es) ensures Lookup(es, r) == Lookup(es', r) {
      var e := Lookup(es', r);
      assert e in Elements(es') && e in Elements(es);
      OnlyCarrier(es, e);
    }
  }

  lemma OnlyCarrier(es: seq<Entity>, e: Entity)
    requires e in es && Distinct(RefList(es))
    ensures RefOf(e) in Refs(es) && Lookup(es, RefOf(e)) == e
  {
    var i :| 0 <= i < |es| && es[i] == e;
    assert RefList(es)[i] == RefOf(e);
    var f := Lookup(es, RefOf(e));
    var j :| 0 <= j < |es| && es[j] == f;
    assert RefList(es)[j] == RefOf(e);
  }

  /** After a tick without failures, a tick over the same catalog pushes
      nothing and changes nothing, whatever the network does. */
  lemma SecondTickIsQuiet(hash: Hash, net: Network, net': Network, es: seq<Entity>, es': seq<Entity>,
                          w0: World, w1: World, w2: World, s: Stats, s': Stats)
    requires Tick(hash, net, es, w0, w1, s) && s.failed == 0
    requires Tick(hash, net', es', w1, w2, s') && SameCatalog(es, es')
    ensures w2 == w1 && s'.pushed == s'.failed == 0 && s'.skipped == s.pushed + s.skipped
  {
    var order :| TickInOrder(hash, net, es, order, w0, w1, s);
    var order' :| TickInOrder(hash, net', es', order', w1, w2, s');
    OrderIgnoresListing(es, es', RefList(order), RefList(order'));
    assert |order| == |RefList(order)| == |order'|;
    forall i | 0 <= i < |order| ensures order[i] == order'[i] {
      assert RefList(order)[i] == RefList(order')[i];
      assert order[i] in order && order'[i] in order';
    }
    assert order == order';
    var s0 := Stats(0, 0, 0, |es| - |order|);
    NoFailureSettles(hash, net, w0, s0, order);
    CountersAddUp(hash, net, w0, s0, order);
    SettledIsSkipped(hash, net', w1, Stats(0, 0, 0, |es'| - |order'|), order');
  }

  /** A push that loses track counts as failed. */
  lemma {:induction false} SoundWithoutFailure(hash: Hash, net: Network, w: World, s: Stats, order: seq<Entity>)
    requires Sound(hash, w) && SyncAll(hash, net, w, s, order).1.failed == s.failed
    ensures Sound(hash, SyncAll(hash, net, w, s, order).0)
  {
    if order == [] {
    } else {
      var n := |order| - 1;
      var (w', s') := SyncAll(hash, net, w, s, order[..n]);
      CountersAddUp(hash, net, w, s, order[..n]);
      FailuresOnlyGrow(hash, net, w', s', order[n]);
      SoundWithoutFailure(hash, net, w, s, order[..n]);
      SoundAfterOneIff(hash, net, w', s', order[n]);
    }
  }

  /** If no hash of the catalog collides with that of something else the engine
      holds, a failure-free tick from a sound memo leaves in the engine exactly
      the component of every emitted entity. */
  lemma EngineMirrorsCatalog(hash: Hash, net: Network, es: seq<Entity>, w0: World, w1: World, s: Stats, e: Entity)
    requires forall r, x ::
      r in w1.engine && x in es && ToEngineComponent(x).Some? && hash(w1.engine[r]) == hash(ToEngineComponent(x).value)
      ==> w1.engine[r] == ToEngineComponent(x).value
    requires Sound(hash, w0)
    requires Tick(hash, net, es, w0, w1, s) && s.failed == 0
    requires RefOf(e) in Refs(es) && e == Lookup(es, RefOf(e)) && !ReachesCycle(GraphOf(es), RefOf(e))
    ensures e.kind == "Component" && e.name != ""
    ensures var ns := if e.namespace.Some? then e.namespace.value else "default";
      var ref := "kind:Component/" + (ns + "/" + e.name);
      ref in w1.engine && w1.engine[ref]
        == EngineComponent(ref, "Component", ns, e.name, e.owner, e.system, e.lifecycle, e.tags, e.annotations)
  {
    var order :| TickInOrder(hash, net, es, order, w0, w1, s);
    var s0 := Stats(0, 0, 0, |es| - |order|);
    EmittedIffNoCycle(GraphOf(es), RefList(order));
    var i :| 0 <= i < |order| && RefList(order)[i] == RefOf(e);
    assert order[i] in order && order[i] == e;
    SoundWithoutFailure(hash, net, w0, s0, order);
    NoFailureSettles(hash, net, w0, s0, order);
    assert Memoised(hash, w1, ToEngineComponent(order[i]).value);
    EngineRefParts(e);
  }
}
