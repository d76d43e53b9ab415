/** `topoSortComponents`: the push order of a Backstage catalog. */
module CatalogSort {
  import opened Ordering
  import opened DependencyGraph
  import opened Text

  datatype Relation = Relation(kind: string, targetRef: string)

  /** The slice of a catalog entity the sync reads. An absent owner, system,
      lifecycle, tag list or annotation object and an empty one are treated
      alike by the source, so both are the empty value here. Annotations are
      the object's entries in the order JavaScript enumerates them. */
  datatype Entity = Entity(
    kind: string,
    namespace: Option<string>,
    name: string,
    owner: string,
    system: string,
    lifecycle: string,
    tags: seq<string>,
    annotations: seq<(string, string)>,
    dependsOn: seq<string>,
    relations: seq<Relation>)

  function NamespaceOf(e: Entity): string {
    match e.namespace case None => "default" case Some(n) => n
  }

  function RefOf(e: Entity): string {
    ToLower(e.kind) + ":" + NamespaceOf(e) + "/" + e.name
  }

  function NormaliseDep(target: string): string {
    if ':' in target then ToLower(target) else "component:default/" + ToLower(target)
  }

  /** The targets of `spec.dependsOn` and of the dependsOn relations. */
  function DependenciesOf(e: Entity): set<string> {
    (set t | t in e.dependsOn :: NormaliseDep(t)) +
    (set r | r in e.relations && r.kind == "dependsOn" :: NormaliseDep(r.targetRef))
  }

  function RefList(es: seq<Entity>): (r: seq<string>)
    ensures |r| == |es| && forall i :: 0 <= i < |es| ==> r[i] == RefOf(es[i])
  {
    seq(|es|, i requires 0 <= i < |es| => RefOf(es[i]))
  }

  function Refs(es: seq<Entity>): set<string> {
    Elements(RefList(es))
  }

  /** One of the first n entities carries ref v and depends on d. */
  ghost predicate Edge(es: seq<Entity>, n: nat, v: string, d: string)
    requires n <= |es|
  {
    exists i :: 0 <= i < n && RefOf(es[i]) == v && d in DependenciesOf(es[i])
  }

  /** Refs with the dependencies that name a ref of the same catalog. */
  ghost function GraphOf(es: seq<Entity>): (g: Graph)
    ensures g.Keys == Refs(es) && Closed(g)
    ensures forall v, d :: v in g ==> (d in g[v] <==> d in g && Edge(es, |es|, v, d))
  {
    map v | v in Refs(es) :: set d | d in Refs(es) && Edge(es, |es|, v, d)
  }

  /** Where ref r occurs last among the first n refs. */
  function LastIndex(refs: seq<string>, n: nat, r: string): (k: nat)
    requires n <= |refs| && r in Elements(refs[..n])
    ensures k < n && refs[k] == r && forall j :: k < j < n ==> refs[j] != r
  {
    ElementsPrefix(refs, n - 1);
    if refs[n - 1] == r then n - 1 else LastIndex(refs, n - 1, r)
  }

  /** The entity a ref stands for: the last one carrying it. */
  function Lookup(es: seq<Entity>, r: string): (e: Entity)
    requires r in Refs(es)
    ensures e in es && RefOf(e) == r
  {
    assert RefList(es)[..|es|] == RefList(es);
    es[LastIndex(RefList(es), |es|, r)]
  }

  method CollectDependencies(e: Entity) returns (out: set<string>)
    ensures out == DependenciesOf(e)
  {
    out := {};
    for i := 0 to |e.dependsOn|
      invariant out == set t | t in e.dependsOn[..i] :: NormaliseDep(t)
    {
      assert forall t :: t in e.dependsOn[..i + 1] <==> t in e.dependsOn[..i] || t == e.dependsOn[i];
      out := out + {NormaliseDep(e.dependsOn[i])};
    }
    assert e.dependsOn[..|e.dependsOn|] == e.dependsOn;
    var direct := out;
    for i := 0 to |e.relations|
      invariant out == direct + (set r | r in e.relations[..i] && r.kind == "dependsOn" :: NormaliseDep(r.targetRef))
    {
      assert forall r :: r in e.relations[..i + 1] <==> r in e.relations[..i] || r == e.relations[i];
      if e.relations[i].kind == "dependsOn" {
        out := out + {NormaliseDep(e.relations[i].targetRef)};
      }
    }
    assert e.relations[..|e.relations|] == e.relations;
  }

  method IndexByRef(es: seq<Entity>) returns (byRef: map<string, Entity>)
    ensures byRef.Keys == Refs(es)
    ensures forall r :: r in byRef ==> byRef[r] == Lookup(es, r)
  {
    byRef := map[];
    ghost var refs := RefList(es);
    for i := 0 to |es|
      invariant byRef.Keys == Elements(refs[..i])
      invariant forall r :: r in byRef ==> byRef[r] == es[LastIndex(refs, i, r)]
    {
      ElementsPrefix(refs, i);
      byRef := byRef[RefOf(es[i]) := es[i]];
    }
    assert refs[..|es|] == refs;
  }

  ghost predicate Arc(g: Graph, v: string, d: string) {
    v in g && d in g[v]
  }

  /** `reverse` lists, for every ref, the refs that depend on it. */
  ghost predicate Transposed(g: Graph, reverse: Graph) {
    reverse.Keys == g.Keys && forall v, d :: Arc(g, v, d) <==> Arc(reverse, d, v)
  }

  /** The edges of the first n entities. */
  ghost predicate EdgesOfFirst(es: seq<Entity>, n: nat, g: Graph)
    requires n <= |es|
  {
    g.Keys == Refs(es) && forall v, d :: Arc(g, v, d) <==> v in g && d in g && Edge(es, n, v, d)
  }

  /** `g` and `reverse` are g0 and reverse0 with edges from v to ds added. */
  ghost predicate EdgesAdded(g0: Graph, reverse0: Graph, v: string, ds: set<string>, g: Graph, reverse: Graph)
    requires v in g0 && g0.Keys == reverse0.Keys
  {
    && g.Keys == reverse.Keys == g0.Keys
    && (forall u :: u in g0 && u != v ==> g[u] == g0[u])
    && (forall d :: d in g[v] <==> d in g0[v] || (d in ds && d in g0))
    && (forall d :: d in g0 && d !in ds ==> reverse[d] == reverse0[d])
    && (forall d :: d in g0 && d in ds ==> reverse[d] == reverse0[d] + {v})
  }

  lemma TransposedAdd(g0: Graph, reverse0: Graph, v: string, ds: set<string>, g: Graph, reverse: Graph)
    requires Transposed(g0, reverse0) && v in g0 && EdgesAdded(g0, reverse0, v, ds, g, reverse)
    ensures Transposed(g, reverse)
  {
    forall u, d ensures Arc(g, u, d) <==> Arc(reverse, d, u) {
      assert Arc(g0, u, d) <==> Arc(reverse0, d, u);
    }
  }

  lemma EdgeSplit(es: seq<Entity>, n: nat, v: string, d: string)
    requires n < |es|
    ensures Edge(es, n + 1, v, d) <==> Edge(es, n, v, d) || (v == RefOf(es[n]) && d in DependenciesOf(es[n]))
  {
    if Edge(es, n + 1, v, d) {
      var i :| 0 <= i < n + 1 && RefOf(es[i]) == v && d in DependenciesOf(es[i]);
    }
  }

  lemma EdgesOfNext(es: seq<Entity>, n: nat, g0: Graph, reverse0: Graph, g: Graph, reverse: Graph)
    requires n < |es| && RefOf(es[n]) in g0 && g0.Keys == reverse0.Keys
    requires EdgesOfFirst(es, n, g0)
    requires EdgesAdded(g0, reverse0, RefOf(es[n]), DependenciesOf(es[n]), g, reverse)
    ensures EdgesOfFirst(es, n + 1, g)
  {
    forall v, d ensures Arc(g, v, d) <==> v in g && d in g && Edge(es, n + 1, v, d) {
      EdgeSplit(es, n, v, d);
      assert Arc(g0, v, d) <==> v in g0 && d in g0 && Edge(es, n, v, d);
      assert Arc(g, v, d) <==> Arc(g0, v, d) || (v == RefOf(es[n]) && d in DependenciesOf(es[n]) && d in g0);
    }
  }

  method BuildEdges(es: seq<Entity>, byRef: map<string, Entity>) returns (deps: Graph, reverse: Graph)
    requires byRef.Keys == Refs(es)
    ensures deps == GraphOf(es)
    ensures Transposed(deps, reverse)
  {
    deps, reverse := EmptyEdges(es);
    for i := 0 to |es|
      invariant Transposed(deps, reverse) && EdgesOfFirst(es, i, deps)
    {
      var self := RefOf(es[i]);
      assert self == RefList(es)[i];
      var targets := CollectDependencies(es[i]);
      ghost var deps0, reverse0 := deps, reverse;
      deps, reverse := AddEdges(self, targets, byRef, deps, reverse);
      TransposedAdd(deps0, reverse0, self, targets, deps, reverse);
      EdgesOfNext(es, i, deps0, reverse0, deps, reverse);
    }
    EdgesOfAll(es, deps);
  }

  lemma EdgesOfAll(es: seq<Entity>, g: Graph)
    requires EdgesOfFirst(es, |es|, g)
    ensures g == GraphOf(es)
  {
    forall v | v in g ensures g[v] == GraphOf(es)[v] {
      assert forall d :: Arc(g, v, d) <==> Arc(GraphOf(es), v, d);
      assert forall d :: d in g[v] <==> Arc(g, v, d);
    }
  }

  method EmptyEdges(es: seq<Entity>) returns (deps: Graph, reverse: Graph)
    ensures deps.Keys == reverse.Keys == Refs(es)
    ensures forall v :: v in deps ==> deps[v] == {} && reverse[v] == {}
  {
    deps, reverse := map[], map[];
    ghost var refs := RefList(es);
    for i := 0 to |es|
      invariant deps.Keys == reverse.Keys == Elements(refs[..i])
      invariant forall v :: v in deps ==> deps[v] == {} && reverse[v] == {}
    {
      ElementsPrefix(refs, i);
      deps, reverse := deps[RefOf(es[i]) := {}], reverse[RefOf(es[i]) := {}];
    }
    assert refs[..|es|] == refs;
  }

  method AddEdges(self: string, targets: set<string>, byRef: map<string, Entity>, deps0: Graph, reverse0: Graph)
    returns (deps: Graph, reverse: Graph)
    requires self in deps0 && byRef.Keys == deps0.Keys == reverse0.Keys
    ensures EdgesAdded(deps0, reverse0, self, targets, deps, reverse)
  {
    deps, reverse := deps0, reverse0;
    var rest := targets;
    while rest != {}
      invariant rest <= targets
      invariant EdgesAdded(deps0, reverse0, self, targets - rest, deps, reverse)
      decreases |rest|
    {
      var dep :| dep in rest;
      rest := rest - {dep};
      if dep in byRef {
        deps := deps[self := deps[self] + {dep}];
        reverse := reverse[dep := reverse[dep] + {self}];
      }
    }
    assert targets - {} == targets;
  }

  // ---------------------------------------------------------------------
  // The sort
  // ---------------------------------------------------------------------

  method PushSorted(ready: seq<string>, x: string) returns (r: seq<string>)
    requires Ascending(ready) && x !in ready
    ensures Ascending(r)
    ensures forall v :: v in r <==> v in ready || v == x
  {
    AtMostIsTotalPreorder();
    AscendingDistinct(ready);
    r := Sort(ready + [x], AtMost);
    PermutationDistinct(ready + [x], r);
    assert forall v :: v in r <==> v in Elements(r);
    assert forall v :: v in ready + [x] <==> v in Elements(ready + [x]);
  }

  method InitialReady(deps: Graph) returns (ready: seq<string>)
    ensures Ascending(ready)
    ensures forall v :: v in ready <==> v in deps && deps[v] == {}
  {
    var raw: seq<string> := [];
    var rest := deps.Keys;
    while rest != {}
      invariant rest <= deps.Keys
      invariant Distinct(raw)
      invariant forall v :: v in raw <==> v in deps && v !in rest && deps[v] == {}
      decreases |rest|
    {
      var ref :| ref in rest;
      rest := rest - {ref};
      if deps[ref] == {} {
        raw := raw + [ref];
      }
    }
    AtMostIsTotalPreorder();
    ready := Sort(raw, AtMost);
    PermutationDistinct(raw, ready);
    assert forall v :: v in ready <==> v in Elements(ready);
    assert forall v :: v in raw <==> v in Elements(raw);
  }

  /** What the loop knows once the refs `out` have been emitted. */
  ghost predicate Progress(g: Graph, out: seq<string>, deps: Graph, ready: seq<string>) {
    && ValidOrder(g, out) && Greedy(g, out)
    && deps.Keys == g.Keys
    && (forall v :: v in g ==> deps[v] == g[v] - Elements(out))
    && Ascending(ready)
    && (forall v :: v in ready <==> Ready(g, Elements(out), v))
  }

  /** The inner loop: strike `ref` from its dependents, queueing those that
      wait for nothing else. */
  method ReleaseDependents(ref: string, dependents: set<string>, deps0: Graph, ready0: seq<string>)
    returns (deps: Graph, ready: seq<string>)
    requires dependents <= deps0.Keys && forall v :: v in deps0 ==> (v in dependents <==> ref in deps0[v])
    requires Ascending(ready0) && forall v :: v in ready0 ==> v !in dependents
    ensures deps.Keys == deps0.Keys && forall v :: v in deps0 ==> deps[v] == deps0[v] - {ref}
    ensures Ascending(ready) && forall v :: v in ready <==> v in ready0 || (v in dependents && deps[v] == {})
  {
    deps, ready := deps0, ready0;
    var rest := dependents;
    while rest != {}
      invariant rest <= dependents && deps.Keys == deps0.Keys
      invariant forall v :: v in rest ==> deps[v] == deps0[v]
      invariant forall v :: v in deps0 && v !in rest ==> deps[v] == deps0[v] - {ref}
      invariant Ascending(ready)
      invariant forall v :: v in ready <==> v in ready0 || (v in dependents && v !in rest && deps[v] == {})
      decreases |rest|
    {
      var dependent :| dependent in rest;
      rest := rest - {dependent};
      deps := deps[dependent := deps[dependent] - {ref}];
      if deps[dependent] == {} {
        ready := PushSorted(ready, dependent);
      }
    }
  }

  method EmitAll(byRef: map<string, Entity>, g: Graph, reverse: Graph) returns (order: seq<Entity>, deps: Graph)
    requires byRef.Keys == g.Keys && forall r :: r in byRef ==> RefOf(byRef[r]) == r
    requires Transposed(g, reverse)
    ensures Progress(g, RefList(order), deps, [])
    ensures FromIndex(byRef, order)
  {
    deps := g;
    var ready := InitialReady(deps);
    NothingEmitted(g, ready);
    order := [];
    ghost var out: seq<string> := [];
    while ready != []
      invariant out == RefList(order)
      invariant Progress(g, out, deps, ready)
      invariant FromIndex(byRef, order)
      decreases |g.Keys| - |out|
    {
      var ref := ready[0];
      deps, ready := EmitOne(g, out, reverse, deps, ready);
      FromIndexSnoc(byRef, order, ref);
      order, out := order + [byRef[ref]], out + [ref];
    }
  }

  /** Every emitted entity is the one its ref stands for. */
  ghost predicate FromIndex(byRef: map<string, Entity>, order: seq<Entity>) {
    forall e :: e in order ==> RefOf(e) in byRef && e == byRef[RefOf(e)]
  }

  lemma FromIndexSnoc(byRef: map<string, Entity>, order: seq<Entity>, ref: string)
    requires FromIndex(byRef, order) && ref in byRef && RefOf(byRef[ref]) == ref
    ensures FromIndex(byRef, order + [byRef[ref]])
    ensures RefList(order + [byRef[ref]]) == RefList(order) + [ref]
  {
  }

  lemma NothingEmitted(g: Graph, ready: seq<string>)
    requires Ascending(ready) && forall v :: v in ready <==> v in g && g[v] == {}
    ensures Progress(g, [], g, ready)
  {
    assert Elements<string>([]) == {};
  }

  method EmitOne(ghost g: Graph, ghost out: seq<string>, reverse: Graph, deps0: Graph, ready0: seq<string>)
    returns (deps: Graph, ready: seq<string>)
    requires Progress(g, out, deps0, ready0) && ready0 != [] && Transposed(g, reverse)
    ensures Progress(g, out + [ready0[0]], deps, ready)
    ensures ready0[0] in g && |out| < |g.Keys|
  {
    EmitLeast(g, out, deps0, ready0);
    DependentsOf(g, out, reverse, deps0, ready0);
    deps, ready := ReleaseDependents(ready0[0], reverse[ready0[0]], deps0, ready0[1..]);
    AfterEmit(g, out, deps0, ready0, deps, ready);
  }

  lemma DependentsOf(g: Graph, out: seq<string>, reverse: Graph, deps: Graph, ready: seq<string>)
    requires Progress(g, out, deps, ready) && ready != [] && Transposed(g, reverse)
    requires ready[0] in g && ready[0] !in out
    ensures reverse[ready[0]] <= deps.Keys
    ensures forall v :: v in deps ==> (v in reverse[ready[0]] <==> ready[0] in deps[v])
    ensures Ascending(ready[1..])
    ensures forall v :: v in ready[1..] ==> v !in reverse[ready[0]]
  {
    var ref := ready[0];
    forall v ensures v in reverse[ref] <==> v in deps && ref in deps[v] {
      assert Arc(g, v, ref) <==> Arc(reverse, ref, v);
    }
    forall v | v in ready[1..] ensures v !in reverse[ref] {
      assert v in ready;
      assert Ready(g, Elements(out), v);
    }
  }

  lemma AfterEmit(g: Graph, out: seq<string>, deps0: Graph, ready0: seq<string>, deps: Graph, ready: seq<string>)
    requires Progress(g, out, deps0, ready0) && ready0 != []
    requires ready0[0] in g && ready0[0] !in out
    requires deps.Keys == g.Keys && forall v :: v in g ==> deps[v] == deps0[v] - {ready0[0]}
    requires Ascending(ready)
    requires forall v :: v in ready <==> v in ready0[1..] || (v in g && ready0[0] in deps0[v] && deps[v] == {})
    ensures Progress(g, out + [ready0[0]], deps, ready)
  {
    var ref := ready0[0];
    EmitLeast(g, out, deps0, ready0);
    TailOfReady(ready0);
    ElementsSnoc(out, ref);
    forall v ensures v in ready <==> Ready(g, Elements(out + [ref]), v) {
      assert v in ready0 <==> Ready(g, Elements(out), v);
      if v in g { assert deps[v] == {} <==> g[v] <= Elements(out + [ref]); }
    }
  }

  /** Emits every component from which no dependency cycle is reachable, each
      after its dependencies, in the lexicographically least such order.
      `leftover` is what the warning names. */
  method TopoSortComponents(es: seq<Entity>) returns (order: seq<Entity>, cycles: nat, leftover: set<string>)
    ensures KahnOrder(GraphOf(es), RefList(order))
    ensures forall e :: e in order ==> RefOf(e) in Refs(es) && e == Lookup(es, RefOf(e))
    ensures forall v :: v in Refs(es) ==> (v in RefList(order) <==> !ReachesCycle(GraphOf(es), v))
    ensures forall o :: ValidOrder(GraphOf(es), o) && Elements(o) == Elements(RefList(order)) ==>
      o == RefList(order) || Precedes(RefList(order), o)
    ensures forall v :: v in leftover <==> v in Refs(es) && ReachesCycle(GraphOf(es), v)
    ensures cycles == |leftover| + (|es| - |Refs(es)|)
  {
    var byRef := IndexByRef(es);
    var deps, reverse := BuildEdges(es, byRef);
    ghost var g := deps;
    order, deps := EmitAll(byRef, deps, reverse);
    leftover := set v | v in deps && deps[v] != {};
    Finished(g, RefList(order), deps, leftover);
    ElementsCount(RefList(es));
    cycles := |es| - |order|;
  }

  lemma EmitLeast(g: Graph, out: seq<string>, deps: Graph, ready: seq<string>)
    requires Progress(g, out, deps, ready) && ready != []
    ensures Ready(g, Elements(out), ready[0])
    ensures ValidOrder(g, out + [ready[0]]) && Greedy(g, out + [ready[0]])
    ensures |out| < |g.Keys|
    ensures forall v :: v in Elements(out) ==> v in g && ready[0] !in g[v]
  {
    forall v | v in Elements(out) ensures v in g && ready[0] !in g[v] {
      var i :| 0 <= i < |out| && out[i] == v;
      assert g[v] <= Elements(out[..i]) <= Elements(out);
      assert ready[0] in ready;
    }
    var ref := ready[0];
    var out' := out + [ref];
    assert ref in ready;
    DistinctCount(out');
    SubsetCount(Elements(out'), g.Keys);
    forall i | 0 <= i < |out'| ensures out'[i] in g && g[out'[i]] <= Elements(out'[..i]) {
      assert out'[..i] == out[..i];
      if i == |out| { assert out[..i] == out; }
    }
    forall i, v | 0 <= i < |out'| && Ready(g, Elements(out'[..i]), v) ensures AtMost(out'[i], v) {
      assert out'[..i] == out[..i];
      if i == |out| { assert out[..i] == out; }
    }
  }

  lemma TailOfReady(ready: seq<string>)
    requires Ascending(ready) && ready != []
    ensures Ascending(ready[1..])
    ensures forall v :: v in ready[1..] <==> v in ready && v != ready[0]
  {
    AscendingDistinct(ready);
  }

  /** Once nothing is ready, the facts about the emitted refs and the rest. */
  lemma Finished(g: Graph, out: seq<string>, deps: Graph, leftover: set<string>)
    requires Closed(g) && Progress(g, out, deps, [])
    requires leftover == set v | v in deps && deps[v] != {}
    ensures KahnOrder(g, out)
    ensures forall v :: v in g ==> (v in out <==> !ReachesCycle(g, v))
    ensures forall o :: ValidOrder(g, o) && Elements(o) == Elements(out) ==> o == out || Precedes(out, o)
    ensures forall v :: v in leftover <==> v in g && ReachesCycle(g, v)
    ensures |leftover| == |g.Keys| - |out|
  {
    assert Complete(g, out) by {
      forall v ensures !Ready(g, Elements(out), v) { assert v !in []; }
    }
    EmittedIffNoCycle(g, out);
    forall o | ValidOrder(g, o) && Elements(o) == Elements(out) ensures o == out || Precedes(out, o) {
      LexicographicallyLeast(g, out, o);
    }
    forall v | v in g ensures v in leftover <==> v !in out { LeftoverIff(g, out, deps, v); }
    DistinctCount(out);
    assert leftover == g.Keys - Elements(out);
  }

  lemma LeftoverIff(g: Graph, out: seq<string>, deps: Graph, v: string)
    requires Progress(g, out, deps, []) && Complete(g, out) && v in g
    ensures deps[v] != {} <==> v !in out
  {
    assert !Ready(g, Elements(out), v);
    if v in out {
      var i :| 0 <= i < |out| && out[i] == v;
      assert g[v] <= Elements(out[..i]) <= Elements(out);
    } else {
      var w :| w in g[v] && w !in Elements(out);
      assert w in deps[v];
    }
  }

  // ---------------------------------------------------------------------
  // Consequences
  // ---------------------------------------------------------------------

  /** The push order depends on which entities the catalog holds, not on the
      order it lists them in. */
  lemma OrderIgnoresListing(es: seq<Entity>, es': seq<Entity>, o: seq<string>, o': seq<string>)
    requires Elements(es) == Elements(es')
    requires KahnOrder(GraphOf(es), o) && KahnOrder(GraphOf(es'), o')
    ensures GraphOf(es) == GraphOf(es') && o == o'
  {
    GraphGrows(es, es');
    GraphGrows(es', es);
    assert forall v :: v in GraphOf(es) ==> GraphOf(es)[v] == GraphOf(es')[v];
    KahnOrderUnique(GraphOf(es), o, o');
  }

  lemma RefsGrow(es: seq<Entity>, es': seq<Entity>)
    requires Elements(es) <= Elements(es')
    ensures Refs(es) <= Refs(es')
  {
    forall r | r in Refs(es) ensures r in Refs(es') {
      var i :| 0 <= i < |es| && RefList(es)[i] == r;
      assert es[i] in Elements(es);
      var j :| 0 <= j < |es'| && es'[j] == es[i];
      assert RefList(es')[j] == r;
    }
  }

  lemma GraphGrows(es: seq<Entity>, es': seq<Entity>)
    requires Elements(es) <= Elements(es')
    ensures Refs(es) <= Refs(es')
    ensures forall v :: v in Refs(es) ==> GraphOf(es)[v] <= GraphOf(es')[v]
  {
    forall i | 0 <= i < |es| ensures exists j :: 0 <= j < |es'| && es'[j] == es[i] {
      assert es[i] in Elements(es');
    }
    RefsGrow(es, es');
    forall v, d | Edge(es, |es|, v, d) ensures Edge(es', |es'|, v, d) {
      var i :| 0 <= i < |es| && RefOf(es[i]) == v && d in DependenciesOf(es[i]);
      var j :| 0 <= j < |es'| && es'[j] == es[i];
    }
  }

  /** The reported count is zero exactly when refs are distinct and no
      component reaches a cycle: a duplicated ref is counted as cyclic. */
  lemma CyclesZeroIff(es: seq<Entity>, leftover: set<string>, cycles: int)
    requires forall v :: v in leftover <==> v in Refs(es) && ReachesCycle(GraphOf(es), v)
    requires cycles == |leftover| + (|es| - |Refs(es)|)
    ensures cycles == 0 <==> Distinct(RefList(es)) && forall v :: v in Refs(es) ==> !ReachesCycle(GraphOf(es), v)
  {
    ElementsCount(RefList(es));
    if Distinct(RefList(es)) { DistinctCount(RefList(es)); }
    if leftover == {} {
      forall v | v in Refs(es) ensures !ReachesCycle(GraphOf(es), v) { assert v !in leftover; }
    } else {
      var v :| v in leftover;
    }
  }

  /** Targets are lower-cased but refs keep the case of namespace and name, so
      some target names an entity exactly when its ref has no upper-case
      letter; any other entity is nobody's dependency in the graph. */
  lemma OwnRefResolvesIff(e: Entity, es: seq<Entity>)
    requires e in es
    ensures (exists t :: NormaliseDep(t) == RefOf(e)) <==> ToLower(RefOf(e)) == RefOf(e)
    ensures ToLower(RefOf(e)) != RefOf(e) ==> forall v :: v in GraphOf(es) ==> RefOf(e) !in GraphOf(es)[v]
  {
    assert RefOf(e)[|ToLower(e.kind)|] == ':';
    NamedIffLower(RefOf(e));
    forall v | v in GraphOf(es) && RefOf(e) in GraphOf(es)[v] ensures exists t :: NormaliseDep(t) == RefOf(e) {
      assert Edge(es, |es|, v, RefOf(e));
      var i :| 0 <= i < |es| && RefOf(es[i]) == v && RefOf(e) in DependenciesOf(es[i]);
      DependencyIsNamed(es[i], RefOf(e));
    }
  }

  lemma NamedIffLower(r: string)
    requires ':' in r
    ensures (exists t :: NormaliseDep(t) == r) <==> ToLower(r) == r
  {
    if t :| NormaliseDep(t) == r {
      NormalisedIsLower(t);
    } else {
      assert NormaliseDep(r) != r;
    }
  }

  lemma DependencyIsNamed(e: Entity, d: string)
    requires d in DependenciesOf(e)
    ensures exists t :: NormaliseDep(t) == d
  {
  }

  lemma NormalisedIsLower(t: string)
    ensures ToLower(NormaliseDep(t)) == NormaliseDep(t)
  {
    var prefix := "component:default/";
    assert forall i :: 0 <= i < |prefix| ==> LowerChar(prefix[i]) == prefix[i];
  }
}
