/** What one pass of the catalog sync does to each component, what a later tick
    leaves alone, and what the engine holds when a dependent arrives. */
module CatalogPasses {
  import opened Ordering
  import opened DependencyGraph
  import opened CatalogSort
  import opened CatalogSync
  import opened Text

  // ---------------------------------------------------------------------
  // A pass over distinct refs treats every component by itself
  // ---------------------------------------------------------------------

  /** Memo and engine agree about ref r. */
  ghost predicate AgreeAt(w: World, w': World, r: string) {
    && (r in w.memo <==> r in w'.memo) && (r in w.memo ==> w.memo[r] == w'.memo[r])
    && (r in w.engine <==> r in w'.engine) && (r in w.engine ==> w.engine[r] == w'.engine[r])
  }

  ghost predicate IsRefOf(e: Entity, r: string) {
    ToEngineComponent(e).Some? && ToEngineComponent(e).value.ref == r
  }

  lemma {:induction false} OthersUntouched(hash: Hash, net: Network, w: World, s: Stats, order: seq<Entity>, r: string)
    requires forall i :: 0 <= i < |order| ==> !IsRefOf(order[i], r)
    ensures AgreeAt(w, SyncAll(hash, net, w, s, order).0, r)
  {
    if order == [] {
    } else {
      var n := |order| - 1;
      OthersUntouched(hash, net, w, s, order[..n], r);
      var (w', s') := SyncAll(hash, net, w, s, order[..n]);
      OneUntouched(hash, net, w', s', order[n], r);
    }
  }

  lemma OneUntouched(hash: Hash, net: Network, w: World, s: Stats, e: Entity, r: string)
    requires !IsRefOf(e, r)
    ensures AgreeAt(w, SyncOne(hash, net, w, s, e).0, r)
  {
  }

  /** The world after the first n iterations. */
  ghost function After(hash: Hash, net: Network, w: World, s: Stats, order: seq<Entity>, n: nat): World
    requires n <= |order|
  {
    SyncAll(hash, net, w, s, order[..n]).0
  }

  lemma PassSnoc(hash: Hash, net: Network, w: World, s: Stats, order: seq<Entity>, n: nat)
    requires n < |order|
    ensures var (w', s') := SyncAll(hash, net, w, s, order[..n]);
      SyncAll(hash, net, w, s, order[..n + 1]) == SyncOne(hash, net, w', s', order[n])
  {
    assert order[..n + 1][..n] == order[..n];
  }

  lemma {:induction false} AgreeBetween(
    hash: Hash, net: Network, w: World, s: Stats, order: seq<Entity>, n: nat, m: nat, r: string)
    requires n <= m <= |order| && forall i :: n <= i < m ==> !IsRefOf(order[i], r)
    ensures AgreeAt(After(hash, net, w, s, order, n), After(hash, net, w, s, order, m), r)
    decreases m
  {
    if m == n {
    } else {
      var k := m - 1;
      assert m == k + 1;
      AgreeBetween(hash, net, w, s, order, n, k, r);
      var (w', s') := SyncAll(hash, net, w, s, order[..k]);
      PassSnoc(hash, net, w, s, order, k);
      OneUntouched(hash, net, w', s', order[k], r);
    }
  }

  /** Until its turn comes, a component finds its memo entry as the pass did. */
  lemma TurnIsFresh(hash: Hash, net: Network, w: World, s: Stats, order: seq<Entity>, n: nat)
    requires n < |order| && Distinct(RefList(order)) && ToEngineComponent(order[n]).Some?
    ensures AgreeAt(w, SyncAll(hash, net, w, s, order[..n]).0, ToEngineComponent(order[n]).value.ref)
  {
    var r := ToEngineComponent(order[n]).value.ref;
    forall i | 0 <= i < n ensures !IsRefOf(order[..n][i], r) {
      if ToEngineComponent(order[i]).Some? { OtherEngineRef(order, i, n); }
    }
    OthersUntouched(hash, net, w, s, order[..n], r);
  }

  // ---------------------------------------------------------------------
  // When a tick keeps the memo sound
  // ---------------------------------------------------------------------

  ghost predicate SoundAt(hash: Hash, w: World, r: string) {
    r in w.memo ==> r in w.engine && w.engine[r].ref == r && w.memo[r] == hash(w.engine[r])
  }

  lemma SoundAtTurn(hash: Hash, net: Network, w: World, w': World, s: Stats, e: Entity)
    requires ToEngineComponent(e).Some? && AgreeAt(w, w', ToEngineComponent(e).value.ref)
    requires SoundAt(hash, w, ToEngineComponent(e).value.ref)
    ensures SoundAt(hash, SyncOne(hash, net, w', s, e).0, ToEngineComponent(e).value.ref) <==>
      !LosesTrack(hash, net, w, e)
  {
  }

  lemma SoundAtEnd(hash: Hash, net: Network, w: World, s: Stats, order: seq<Entity>, j: nat)
    requires j < |order| && Distinct(RefList(order)) && Sound(hash, w) && ToEngineComponent(order[j]).Some?
    ensures SoundAt(hash, SyncAll(hash, net, w, s, order).0, ToEngineComponent(order[j]).value.ref) <==>
      !LosesTrack(hash, net, w, order[j])
  {
    var r := ToEngineComponent(order[j]).value.ref;
    var (w', s') := SyncAll(hash, net, w, s, order[..j]);
    TurnIsFresh(hash, net, w, s, order, j);
    PassSnoc(hash, net, w, s, order, j);
    SoundAtTurn(hash, net, w, w', s', order[j]);
    LaterAreOthers(order, j);
    AgreeBetween(hash, net, w, s, order, j + 1, |order|, r);
    assert order[..|order|] == order;
  }

  lemma LaterAreOthers(order: seq<Entity>, j: nat)
    requires j < |order| && Distinct(RefList(order)) && ToEngineComponent(order[j]).Some?
    ensures forall i :: j < i < |order| ==> !IsRefOf(order[i], ToEngineComponent(order[j]).value.ref)
  {
    forall i | j < i < |order| ensures !IsRefOf(order[i], ToEngineComponent(order[j]).value.ref) {
      if ToEngineComponent(order[i]).Some? { OtherEngineRef(order, j, i); }
    }
  }

  /** A whole tick keeps the memo sound exactly when no emitted entity loses
      track, seen from the world before the tick. */
  lemma SoundAfterTickIff(hash: Hash, net: Network, es: seq<Entity>, order: seq<Entity>, w: World, w': World, s: Stats)
    requires TickInOrder(hash, net, es, order, w, w', s) && Sound(hash, w)
    ensures Sound(hash, w') <==> forall i :: 0 <= i < |order| ==> !LosesTrack(hash, net, w, order[i])
  {
    var s0 := Stats(0, 0, 0, |es| - |order|);
    forall j | 0 <= j < |order| && ToEngineComponent(order[j]).Some?
      ensures SoundAt(hash, w', ToEngineComponent(order[j]).value.ref) <==> !LosesTrack(hash, net, w, order[j])
    {
      SoundAtEnd(hash, net, w, s0, order, j);
    }
    forall r | forall i :: 0 <= i < |order| ==> !IsRefOf(order[i], r) ensures SoundAt(hash, w', r) {
      OthersUntouched(hash, net, w, s0, order, r);
    }
    SoundIsPointwise(hash, w');
    if forall i :: 0 <= i < |order| ==> !LosesTrack(hash, net, w, order[i]) {
      forall r ensures SoundAt(hash, w', r) {
        if i :| 0 <= i < |order| && IsRefOf(order[i], r) { assert !LosesTrack(hash, net, w, order[i]); }
      }
    }
  }

  lemma SoundIsPointwise(hash: Hash, w: World)
    ensures Sound(hash, w) <==> forall r :: SoundAt(hash, w, r)
  {
    if forall r :: SoundAt(hash, w, r) {
      forall r | r in w.memo ensures r in w.engine && w.engine[r].ref == r && w.memo[r] == hash(w.engine[r]) {
        assert SoundAt(hash, w, r);
      }
    }
  }

  // ---------------------------------------------------------------------
  // What a later tick skips
  // ---------------------------------------------------------------------

  /** The component has the content the previous tick hashed. */
  predicate SameContent(hash: Hash, before: Entity, now: Entity) {
    && ToEngineComponent(before).Some? && ToEngineComponent(now).Some?
    && hash(ToEngineComponent(before).value) == hash(ToEngineComponent(now).value)
  }

  /** Of the first n places, the refs whose content hash is unchanged. */
  ghost function Kept(hash: Hash, order: seq<Entity>, order': seq<Entity>, n: nat): set<string>
    requires n <= |order| == |order'|
  {
    set i | 0 <= i < n && SameContent(hash, order[i], order'[i]) :: RefOf(order'[i])
  }

  lemma SameRefSameEngineRef(e: Entity, f: Entity)
    requires ToEngineComponent(e).Some? && ToEngineComponent(f).Some? && RefOf(e) == RefOf(f)
    ensures ToEngineComponent(e).value.ref == ToEngineComponent(f).value.ref
  {
    EngineRefParts(e);
    EngineRefParts(f);
    SameTail(ToLower("Component") + ":", NamespaceOf(e) + "/" + e.name, NamespaceOf(f) + "/" + f.name);
  }

  /** One place of a pass over a settled memo: skipped exactly if unchanged. */
  lemma SkippedIffSame(hash: Hash, net: Network, w: World, s: Stats, order: seq<Entity>, order': seq<Entity>, n: nat)
    requires n < |order| == |order'| && RefList(order) == RefList(order') && Distinct(RefList(order'))
    requires Settled(hash, w, order)
    ensures Skipped(hash, net, w, s, order', n + 1) ==
            Skipped(hash, net, w, s, order', n) + (if SameContent(hash, order[n], order'[n]) then 1 else 0)
  {
    PassSnoc(hash, net, w, s, order', n);
    SkippedAtIffSame(hash, net, w, s, order, order', n);
  }

  ghost function Skipped(hash: Hash, net: Network, w: World, s: Stats, order: seq<Entity>, n: nat): nat
    requires n <= |order|
  {
    SyncAll(hash, net, w, s, order[..n]).1.skipped
  }

  lemma {:induction false} SkipsKept(
    hash: Hash, net: Network, w: World, s: Stats, order: seq<Entity>, order': seq<Entity>, n: nat)
    requires n <= |order| == |order'| && RefList(order) == RefList(order') && Distinct(RefList(order'))
    requires Settled(hash, w, order)
    ensures Skipped(hash, net, w, s, order', n) == s.skipped + |Kept(hash, order, order', n)|
  {
    if n == 0 {
      assert Kept(hash, order, order', 0) == {};
    } else {
      var m := n - 1;
      SkipsKept(hash, net, w, s, order, order', m);
      SkippedIffSame(hash, net, w, s, order, order', m);
      KeptNext(hash, order, order', m);
      assert n == m + 1;
    }
  }

  lemma KeptNext(hash: Hash, order: seq<Entity>, order': seq<Entity>, n: nat)
    requires n < |order| == |order'| && Distinct(RefList(order'))
    ensures |Kept(hash, order, order', n + 1)| ==
            |Kept(hash, order, order', n)| + (if SameContent(hash, order[n], order'[n]) then 1 else 0)
  {
    var r := RefOf(order'[n]);
    assert r !in Kept(hash, order, order', n) by {
      assert forall i :: 0 <= i < n ==> RefList(order')[i] != RefList(order')[n];
    }
    assert Kept(hash, order, order', n + 1) ==
           Kept(hash, order, order', n) + (if SameContent(hash, order[n], order'[n]) then {r} else {});
  }

  /** The emitted refs whose content hash is the same in both catalogs. */
  ghost function Unchanged(hash: Hash, es: seq<Entity>, es': seq<Entity>): set<string>
    requires Refs(es) == Refs(es')
  {
    set r | r in Refs(es) && !ReachesCycle(GraphOf(es), r) && SameContent(hash, Lookup(es, r), Lookup(es', r))
  }

  /** After a tick without failures, a tick over a catalog with the same graph
      skips exactly the emitted components whose content hash is unchanged and
      tries all others. */
  lemma LaterTickSkipsUnchanged(hash: Hash, net: Network, net': Network, es: seq<Entity>, es': seq<Entity>,
                                w0: World, w1: World, w2: World, s: Stats, s': Stats)
    requires Tick(hash, net, es, w0, w1, s) && s.failed == 0
    requires Tick(hash, net', es', w1, w2, s') && GraphOf(es) == GraphOf(es')
    ensures Refs(es) == Refs(es') && s'.skipped == |Unchanged(hash, es, es')|
    ensures s'.pushed + s'.failed == s.pushed + s.skipped - |Unchanged(hash, es, es')|
    ensures forall order', n :: TickInOrder(hash, net', es', order', w1, w2, s') && 0 <= n < |order'| ==>
      (SkippedAt(hash, net', w1, Stats(0, 0, 0, |es'| - |order'|), order', n) <==>
        RefOf(order'[n]) in Unchanged(hash, es, es'))
  {
    assert GraphOf(es).Keys == GraphOf(es').Keys;
    var order :| TickInOrder(hash, net, es, order, w0, w1, s);
    var order' :| TickInOrder(hash, net', es', order', w1, w2, s');
    LaterPassCounts(hash, net, net', es, es', order, order', w0, w1, w2, s, s');
    forall o, n | TickInOrder(hash, net', es', o, w1, w2, s') && 0 <= n < |o|
      ensures SkippedAt(hash, net', w1, Stats(0, 0, 0, |es'| - |o|), o, n) <==> RefOf(o[n]) in Unchanged(hash, es, es')
    {
      LaterPassPlace(hash, net, net', es, es', order, o, w0, w1, w2, s, s', n);
    }
  }

  lemma LaterPassCounts(hash: Hash, net: Network, net': Network, es: seq<Entity>, es': seq<Entity>,
                        order: seq<Entity>, order': seq<Entity>, w0: World, w1: World, w2: World, s: Stats, s': Stats)
    requires TickInOrder(hash, net, es, order, w0, w1, s) && s.failed == 0
    requires TickInOrder(hash, net', es', order', w1, w2, s') && GraphOf(es) == GraphOf(es') && Refs(es) == Refs(es')
    ensures s'.skipped == |Unchanged(hash, es, es')|
    ensures s'.pushed + s'.failed == s.pushed + s.skipped - |Unchanged(hash, es, es')|
  {
    KahnOrderUnique(GraphOf(es), RefList(order), RefList(order'));
    assert |order| == |RefList(order)| == |order'|;
    var s0, s1 := Stats(0, 0, 0, |es| - |order|), Stats(0, 0, 0, |es'| - |order'|);
    NoFailureSettles(hash, net, w0, s0, order);
    CountersAddUp(hash, net, w0, s0, order);
    CountersAddUp(hash, net', w1, s1, order');
    SkipsKept(hash, net', w1, s1, order, order', |order'|);
    assert order'[..|order'|] == order';
    KeptIsUnchanged(hash, es, es', order, order');
  }

  lemma LaterPassPlace(hash: Hash, net: Network, net': Network, es: seq<Entity>, es': seq<Entity>, order: seq<Entity>,
                       order': seq<Entity>, w0: World, w1: World, w2: World, s: Stats, s': Stats, n: nat)
    requires TickInOrder(hash, net, es, order, w0, w1, s) && s.failed == 0
    requires TickInOrder(hash, net', es', order', w1, w2, s') && GraphOf(es) == GraphOf(es') && Refs(es) == Refs(es')
    requires n < |order'|
    ensures SkippedAt(hash, net', w1, Stats(0, 0, 0, |es'| - |order'|), order', n) <==>
      RefOf(order'[n]) in Unchanged(hash, es, es')
  {
    KahnOrderUnique(GraphOf(es), RefList(order), RefList(order'));
    assert |order| == |RefList(order)| == |order'|;
    NoFailureSettles(hash, net, w0, Stats(0, 0, 0, |es| - |order|), order);
    SkippedIffUnchanged(hash, net', es, es', w1, Stats(0, 0, 0, |es'| - |order'|), order, order', n);
  }

  /** The n-th entity finds its current hash in the memo when its turn comes. */
  ghost predicate SkippedAt(hash: Hash, net: Network, w: World, s: Stats, order: seq<Entity>, n: nat)
    requires n < |order|
  {
    && ToEngineComponent(order[n]).Some?
    && Memoised(hash, After(hash, net, w, s, order, n), ToEngineComponent(order[n]).value)
  }

  lemma SkippedIffUnchanged(hash: Hash, net: Network, es: seq<Entity>, es': seq<Entity>, w: World, s: Stats,
                            order: seq<Entity>, order': seq<Entity>, n: nat)
    requires Refs(es) == Refs(es') && n < |order| == |order'| && RefList(order) == RefList(order')
    requires KahnOrder(GraphOf(es), RefList(order)) && Settled(hash, w, order)
    requires forall e :: e in order ==> RefOf(e) in Refs(es) && e == Lookup(es, RefOf(e))
    requires forall e :: e in order' ==> RefOf(e) in Refs(es') && e == Lookup(es', RefOf(e))
    ensures SkippedAt(hash, net, w, s, order', n) <==> RefOf(order'[n]) in Unchanged(hash, es, es')
  {
    var r := RefOf(order'[n]);
    EmittedIffNoCycle(GraphOf(es), RefList(order));
    assert RefList(order)[n] == RefList(order')[n] && RefList(order)[n] in RefList(order);
    assert order[n] in order && order'[n] in order';
    assert r in Unchanged(hash, es, es') <==> SameContent(hash, order[n], order'[n]);
    SkippedAtIffSame(hash, net, w, s, order, order', n);
  }

  lemma SkippedAtIffSame(hash: Hash, net: Network, w: World, s: Stats, order: seq<Entity>, order': seq<Entity>, n: nat)
    requires n < |order| == |order'| && RefList(order) == RefList(order') && Distinct(RefList(order'))
    requires Settled(hash, w, order)
    ensures SkippedAt(hash, net, w, s, order', n) <==> SameContent(hash, order[n], order'[n])
  {
    if ToEngineComponent(order'[n]).Some? {
      assert RefList(order)[n] == RefList(order')[n];
      SameRefSameEngineRef(order[n], order'[n]);
      TurnIsFresh(hash, net, w, s, order', n);
    }
  }

  lemma KeptIsUnchanged(hash: Hash, es: seq<Entity>, es': seq<Entity>, order: seq<Entity>, order': seq<Entity>)
    requires Refs(es) == Refs(es') && |order| == |order'| && RefList(order) == RefList(order')
    requires KahnOrder(GraphOf(es), RefList(order))
    requires forall e :: e in order ==> RefOf(e) in Refs(es) && e == Lookup(es, RefOf(e))
    requires forall e :: e in order' ==> RefOf(e) in Refs(es') && e == Lookup(es', RefOf(e))
    ensures Kept(hash, order, order', |order|) == Unchanged(hash, es, es')
  {
    EmittedIffNoCycle(GraphOf(es), RefList(order));
    forall i | 0 <= i < |order|
      ensures order[i] == Lookup(es, RefOf(order[i])) && order'[i] == Lookup(es', RefOf(order[i]))
    {
      assert order[i] in order && order'[i] in order' && RefList(order)[i] == RefList(order')[i];
    }
    forall r | r in Unchanged(hash, es, es') ensures r in Kept(hash, order, order', |order|) {
      assert r in RefList(order);
      var i :| 0 <= i < |order| && RefList(order)[i] == r;
    }
    forall r | r in Kept(hash, order, order', |order|) ensures r in Unchanged(hash, es, es') {
      var i :| 0 <= i < |order| && SameContent(hash, order[i], order'[i]) && RefOf(order'[i]) == r;
      assert RefList(order)[i] == RefList(order')[i] && RefList(order)[i] in RefList(order);
    }
  }

  /** `contentHash` is a digest of a serialisation that writes the annotations in
      the order they come in. If the serialisation loses nothing and the digest
      of the two texts does not collide, listing the annotations in any other
      order is a push: nothing sorts them first. */
  lemma ReorderedAnnotationsArePushedIff(
    hash: Hash, digest: string -> string, json: EngineComponent -> string, net: Network, w: World, s: Stats,
    e: Entity, reordered: seq<(string, string)>)
    requires forall c :: hash(c) == digest(json(c))
    requires forall a, b :: json(a) == json(b) ==> a == b
    requires multiset(reordered) == multiset(e.annotations)
    requires ToEngineComponent(e).Some? && Memoised(hash, w, ToEngineComponent(e).value)
    requires var c, c' := ToEngineComponent(e).value, ToEngineComponent(e).value.(annotations := reordered);
      digest(json(c)) == digest(json(c')) ==> json(c) == json(c')
    ensures var e' := e.(annotations := reordered);
      && ToEngineComponent(e').Some?
      && (SyncOne(hash, net, w, s, e').1.skipped == s.skipped <==> reordered != e.annotations)
  {
    var c := ToEngineComponent(e).value;
    var e' := e.(annotations := reordered);
    var c' := ToEngineComponent(e').value;
    assert c' == c.(annotations := reordered) && (c == c' <==> reordered == e.annotations);
  }

  // ---------------------------------------------------------------------
  // Dependencies before dependents
  // ---------------------------------------------------------------------

  ghost predicate InEngine(w: World, e: Entity) {
    ToEngineComponent(e).Some? && ToEngineComponent(e).value.ref in w.engine
  }

  predicate Applied(o: PushOutcome) {
    o.Accepted? || o == NoAnswer(true)
  }

  /** The component is there before the tick, or the tick gets it there. */
  ghost predicate Lands(hash: Hash, net: Network, w: World, e: Entity) {
    InEngine(w, e) ||
    (ToEngineComponent(e).Some? && !Memoised(hash, w, ToEngineComponent(e).value)
      && Applied(net(ToEngineComponent(e).value.ref)))
  }

  /** After any n iterations an entity that had its turn is in the engine
      exactly if it lands. */
  lemma {:induction false} InEngineIffLands(hash: Hash, net: Network, w: World, s: Stats, order: seq<Entity>, n: nat,
      j: nat)
    requires j < n <= |order| && Distinct(RefList(order))
    ensures InEngine(After(hash, net, w, s, order, n), order[j]) <==> Lands(hash, net, w, order[j])
    decreases n
  {
    var m := n - 1;
    assert n == m + 1;
    if j == m {
      LandsInTurn(hash, net, w, s, order, j);
    } else {
      InEngineIffLands(hash, net, w, s, order, m, j);
      LaterTurns(hash, net, w, s, order, m, j);
    }
  }

  lemma LandsInTurn(hash: Hash, net: Network, w: World, s: Stats, order: seq<Entity>, j: nat)
    requires j < |order| && Distinct(RefList(order))
    ensures InEngine(After(hash, net, w, s, order, j + 1), order[j]) <==> Lands(hash, net, w, order[j])
  {
    if ToEngineComponent(order[j]).Some? {
      var (w', s') := SyncAll(hash, net, w, s, order[..j]);
      PassSnoc(hash, net, w, s, order, j);
      TurnIsFresh(hash, net, w, s, order, j);
      InEngineAfterTurn(hash, net, w, w', s', order[j]);
    }
  }

  lemma LaterTurns(hash: Hash, net: Network, w: World, s: Stats, order: seq<Entity>, m: nat, j: nat)
    requires j < m < |order| && Distinct(RefList(order))
    ensures InEngine(After(hash, net, w, s, order, m + 1), order[j]) <==>
      InEngine(After(hash, net, w, s, order, m), order[j])
  {
    if ToEngineComponent(order[j]).Some? {
      var (w', s') := SyncAll(hash, net, w, s, order[..m]);
      PassSnoc(hash, net, w, s, order, m);
      if ToEngineComponent(order[m]).Some? { OtherEngineRef(order, j, m); }
      OneUntouched(hash, net, w', s', order[m], ToEngineComponent(order[j]).value.ref);
    }
  }

  lemma InEngineAfterTurn(hash: Hash, net: Network, w: World, w': World, s: Stats, e: Entity)
    requires ToEngineComponent(e).Some? && AgreeAt(w, w', ToEngineComponent(e).value.ref)
    ensures InEngine(SyncOne(hash, net, w', s, e).0, e) <==> Lands(hash, net, w, e)
  {
  }

  /** All in-catalog dependencies of an entity are in the engine. */
  ghost predicate DependenciesInEngine(es: seq<Entity>, w: World, e: Entity)
    requires RefOf(e) in Refs(es)
  {
    forall d :: d in GraphOf(es)[RefOf(e)] ==> InEngine(w, Lookup(es, d))
  }

  /** At every point of a tick from an entity's turn on, its in-catalog
      dependencies are in the engine if and only if each of them was there
      before the tick or gets pushed: the order never lets a dependent go
      first, and nothing holds it back when a dependency fails. */
  lemma DependenciesLandFirst(hash: Hash, net: Network, es: seq<Entity>, order: seq<Entity>, w: World, s: Stats,
      i: nat, n: nat)
    requires KahnOrder(GraphOf(es), RefList(order))
    requires forall e :: e in order ==> RefOf(e) in Refs(es) && e == Lookup(es, RefOf(e))
    requires i < |order| && i <= n <= |order|
    ensures RefOf(order[i]) in Refs(es)
    ensures DependenciesInEngine(es, After(hash, net, w, s, order, n), order[i]) <==>
            forall d :: d in GraphOf(es)[RefOf(order[i])] ==> Lands(hash, net, w, Lookup(es, d))
  {
    assert order[i] in order;
    forall d | d in GraphOf(es)[RefOf(order[i])]
      ensures InEngine(After(hash, net, w, s, order, n), Lookup(es, d)) <==> Lands(hash, net, w, Lookup(es, d))
    {
      var j := EarlierInOrder(es, order, i, d);
      InEngineIffLands(hash, net, w, s, order, n, j);
    }
  }

  lemma EarlierInOrder(es: seq<Entity>, order: seq<Entity>, i: nat, d: string) returns (j: nat)
    requires ValidOrder(GraphOf(es), RefList(order)) && i < |order|
    requires forall e :: e in order ==> RefOf(e) in Refs(es) && e == Lookup(es, RefOf(e))
    requires RefOf(order[i]) in Refs(es) && d in GraphOf(es)[RefOf(order[i])]
    ensures j < i && d in Refs(es) && order[j] == Lookup(es, d)
  {
    var refs := RefList(order);
    assert refs[i] == RefOf(order[i]) && d in Elements(refs[..i]);
    j :| 0 <= j < i && refs[..i][j] == d;
    assert order[j] in order && RefOf(order[j]) == d;
  }

  /** With a sound memo and no failing push, every emitted component finds all
      its in-catalog dependencies in the engine when its turn comes. */
  lemma EngineSeesNoDanglingDependency(hash: Hash, net: Network, es: seq<Entity>, order: seq<Entity>, w0: World,
      w1: World, s: Stats, i: nat)
    requires TickInOrder(hash, net, es, order, w0, w1, s) && s.failed == 0 && Sound(hash, w0) && i < |order|
    ensures RefOf(order[i]) in Refs(es)
    ensures DependenciesInEngine(es, After(hash, net, w0, Stats(0, 0, 0, |es| - |order|), order, i), order[i])
  {
    var s0 := Stats(0, 0, 0, |es| - |order|);
    DependenciesLandFirst(hash, net, es, order, w0, s0, i, i);
    forall d | d in GraphOf(es)[RefOf(order[i])] ensures Lands(hash, net, w0, Lookup(es, d)) {
      var j := EarlierInOrder(es, order, i, d);
      NoFailureLands(hash, net, w0, s0, order, j);
    }
  }

  lemma NoFailureLands(hash: Hash, net: Network, w: World, s: Stats, order: seq<Entity>, j: nat)
    requires j < |order| && Distinct(RefList(order)) && Sound(hash, w)
    requires SyncAll(hash, net, w, s, order).1.failed == s.failed
    ensures Lands(hash, net, w, order[j])
  {
    var (w', s') := SyncAll(hash, net, w, s, order[..j]);
    CountersAddUp(hash, net, w, s, order[..j]);
    FailuresOnlyGrowFrom(hash, net, w, s, order, j + 1);
    PassSnoc(hash, net, w, s, order, j);
    if ToEngineComponent(order[j]).Some? { TurnIsFresh(hash, net, w, s, order, j); }
    OneLands(hash, net, w, w', s', order[j]);
  }

  lemma OneLands(hash: Hash, net: Network, w: World, w': World, s: Stats, e: Entity)
    requires SyncOne(hash, net, w', s, e).1.failed <= s.failed && Sound(hash, w)
    requires ToEngineComponent(e).Some? ==> AgreeAt(w, w', ToEngineComponent(e).value.ref)
    ensures Lands(hash, net, w, e)
  {
  }

  lemma {:induction false} FailuresOnlyGrowFrom(hash: Hash, net: Network, w: World, s: Stats, order: seq<Entity>,
      n: nat)
    requires n <= |order|
    ensures SyncAll(hash, net, w, s, order[..n]).1.failed <= SyncAll(hash, net, w, s, order).1.failed
    decreases |order|
  {
    if n == |order| {
      assert order[..n] == order;
    } else {
      var m := |order| - 1;
      FailuresOnlyGrowFrom(hash, net, w, s, order[..m], n);
      assert order[..m][..n] == order[..n];
      var (w', s') := SyncAll(hash, net, w, s, order[..m]);
      FailuresOnlyGrow(hash, net, w', s', order[m]);
    }
  }
}
