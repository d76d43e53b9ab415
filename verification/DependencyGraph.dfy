/** What Kahn's algorithm with a sorted ready list computes, stated without
    reference to any algorithm: which nodes it can emit, and in which order. */
module DependencyGraph {
  import opened Ordering

  /** Each node with the nodes it depends on. */
  type Graph = map<string, set<string>>

  ghost predicate Closed(g: Graph) {
    forall v :: v in g ==> g[v] <= g.Keys
  }

  /** A non-empty path that follows dependencies. */
  ghost predicate Walk(g: Graph, p: seq<string>) {
    && p != []
    && (forall i :: 0 <= i < |p| ==> p[i] in g)
    && (forall i :: 0 <= i < |p| - 1 ==> p[i + 1] in g[p[i]])
  }

  ghost predicate EndsInCycle(p: seq<string>) {
    p != [] && p[|p| - 1] in p[..|p| - 1]
  }

  ghost predicate ReachesCycle(g: Graph, v: string) {
    exists p :: Walk(g, p) && p[0] == v && EndsInCycle(p)
  }

  /** v may be emitted next: it is not out yet and all it depends on is. */
  ghost predicate Ready(g: Graph, done: set<string>, v: string) {
    v in g && v !in done && g[v] <= done
  }

  /** Every node once, each after everything it depends on. */
  ghost predicate ValidOrder(g: Graph, o: seq<string>) {
    && Distinct(o)
    && (forall i :: 0 <= i < |o| ==> o[i] in g && g[o[i]] <= Elements(o[..i]))
  }

  /** Nothing smaller could have been emitted at any position. */
  ghost predicate Greedy(g: Graph, o: seq<string>) {
    forall i, v :: 0 <= i < |o| && Ready(g, Elements(o[..i]), v) ==> AtMost(o[i], v)
  }

  ghost predicate Complete(g: Graph, o: seq<string>) {
    forall v :: !Ready(g, Elements(o), v)
  }

  ghost predicate KahnOrder(g: Graph, o: seq<string>) {
    ValidOrder(g, o) && Greedy(g, o) && Complete(g, o)
  }

  /** a comes before b lexicographically, element by element. */
  ghost predicate Precedes(a: seq<string>, b: seq<string>) {
    exists i :: 0 <= i < |a| && i < |b| && a[..i] == b[..i] && Less(a[i], b[i])
  }

  // ---------------------------------------------------------------------
  // A node is emitted exactly when no cycle is reachable from it
  // ---------------------------------------------------------------------

  lemma WalkSuffix(g: Graph, p: seq<string>, i: nat)
    requires Walk(g, p) && i < |p|
    ensures Walk(g, p[i..])
  {
    var q := p[i..];
    forall x | 0 <= x < |q| - 1 ensures q[x + 1] in g[q[x]] {
      assert q[x] == p[i + x] && p[i + x + 1] in g[p[i + x]];
    }
  }

  lemma {:induction false} WalkStaysBefore(g: Graph, o: seq<string>, k: nat, p: seq<string>, j: nat)
    requires ValidOrder(g, o) && k < |o|
    requires Walk(g, p) && p[0] == o[k] && 1 <= j < |p|
    ensures p[j] in Elements(o[..k])
    decreases |p|
  {
    assert p[1] in g[p[0]];
    var k' :| 0 <= k' < k && o[k'] == p[1];
    if j > 1 {
      var q := p[1..];
      WalkSuffix(g, p, 1);
      WalkStaysBefore(g, o, k', q, j - 1);
      assert q[j - 1] == p[j];
    }
  }

  lemma EmittedReachesNoCycle(g: Graph, o: seq<string>, v: string)
    requires ValidOrder(g, o) && v in o
    ensures !ReachesCycle(g, v)
  {
    forall p | Walk(g, p) && p[0] == v ensures !EndsInCycle(p) {
      var n := |p| - 1;
      forall i | 0 <= i < n ensures p[i] != p[n] {
        var a :| 0 <= a < |o| && o[a] == v;
        if i > 0 { WalkStaysBefore(g, o, a, p, i); }
        var k :| 0 <= k < |o| && o[k] == p[i];
        var q := p[i..];
        WalkSuffix(g, p, i);
        WalkStaysBefore(g, o, k, q, n - i);
      }
    }
  }

  lemma {:induction false} EndlessWalk(g: Graph, o: seq<string>, v: string, n: nat) returns (p: seq<string>)
    requires Closed(g) && Complete(g, o)
    requires v in g && v !in o
    ensures Walk(g, p) && p[0] == v && |p| == n + 1
    decreases n
  {
    if n == 0 {
      p := [v];
    } else {
      assert !Ready(g, Elements(o), v);
      var w :| w in g[v] && w !in Elements(o);
      var q := EndlessWalk(g, o, w, n - 1);
      p := [v] + q;
      assert forall i :: 0 <= i < |p| - 1 ==> p[i + 1] == q[i] && (i > 0 ==> p[i] == q[i - 1]);
    }
  }

  lemma LeftOutReachesCycle(g: Graph, o: seq<string>, v: string)
    requires Closed(g) && Complete(g, o)
    requires v in g && v !in o
    ensures ReachesCycle(g, v)
  {
    var p := EndlessWalk(g, o, v, |g.Keys|);
    if Distinct(p) {
      DistinctCount(p);
      SubsetCount(Elements(p), g.Keys);
      assert false;
    }
    var i, j :| 0 <= i < j < |p| && p[i] == p[j];
    var q := p[..j + 1];
    assert q[j] == q[i] && q[i] in q[..j];
    assert Walk(g, q) && EndsInCycle(q);
  }

  lemma EmittedIffNoCycle(g: Graph, o: seq<string>)
    requires Closed(g) && ValidOrder(g, o) && Complete(g, o)
    ensures forall v :: v in g ==> (v in o <==> !ReachesCycle(g, v))
  {
    forall v | v in g ensures v in o <==> !ReachesCycle(g, v) {
      if v in o { EmittedReachesNoCycle(g, o, v); } else { LeftOutReachesCycle(g, o, v); }
    }
  }

  // ---------------------------------------------------------------------
  // The order is the lexicographically least one, hence unique
  // ---------------------------------------------------------------------

  lemma LexicographicallyLeast(g: Graph, o: seq<string>, other: seq<string>)
    requires ValidOrder(g, o) && Greedy(g, o)
    requires ValidOrder(g, other) && Elements(other) == Elements(o)
    ensures other == o || Precedes(o, other)
  {
    DistinctCount(o);
    DistinctCount(other);
    if other != o {
      var i := FirstDifference(o, other);
      assert Ready(g, Elements(o[..i]), other[i]);
      assert AtMost(o[i], other[i]);
    }
  }

  lemma {:induction false} FirstDifference(a: seq<string>, b: seq<string>) returns (i: nat)
    requires |a| == |b| && a != b
    ensures i < |a| && a[..i] == b[..i] && a[i] != b[i]
  {
    i := 0;
    while a[i] == b[i]
      invariant i < |a| && a[..i] == b[..i]
      decreases |a| - i
    {
      assert a[..i + 1] == b[..i + 1];
      i := i + 1;
    }
  }

  lemma KahnOrderUnique(g: Graph, a: seq<string>, b: seq<string>)
    requires Closed(g) && KahnOrder(g, a) && KahnOrder(g, b)
    ensures a == b
  {
    EmittedIffNoCycle(g, a);
    EmittedIffNoCycle(g, b);
    assert Elements(a) == Elements(b);
    if a != b {
      LexicographicallyLeast(g, a, b);
      LexicographicallyLeast(g, b, a);
      PrecedesAsymmetric(a, b);
    }
  }

  lemma PrecedesAsymmetric(a: seq<string>, b: seq<string>)
    requires Precedes(a, b)
    ensures !Precedes(b, a)
  {
    var i :| 0 <= i < |a| && i < |b| && a[..i] == b[..i] && Less(a[i], b[i]);
    forall j | 0 <= j < |b| && j < |a| && b[..j] == a[..j] ensures !Less(b[j], a[j]) {
      if j < i {
        assert a[..i][j] == b[..i][j];
        LessIrreflexive(a[j]);
      } else if j == i {
        if Less(b[i], a[i]) { LessTransitive(a[i], b[i], a[i]); LessIrreflexive(a[i]); }
      } else {
        assert a[..j][i] == b[..j][i];
        LessIrreflexive(a[i]);
      }
    }
  }
}
