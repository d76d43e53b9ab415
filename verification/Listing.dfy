/** Filtered incident listing, in memory (filter, sort, truncate) and over
    Postgres (sorted rows, filter through caches, stop at the limit). */
module Listing {
  import opened Ordering
  import opened Text
  import opened Domain
  import opened Engine

  /** Empty or None means: do not filter on this dimension. */
  datatype Filter = Filter(
    states: seq<IncidentState>,
    ecosystems: seq<string>,
    from: Option<int>,
    to: Option<int>,
    search: string,
    owner: string,
    limit: int)

  type IoCs = map<string, IoC>
  type Components = map<string, Component>

  const NO_LIMIT_SENTINEL: nat := 0x8000_0000

  // ---------------------------------------------------------------------
  // The filters
  // ---------------------------------------------------------------------

  predicate MatchesIndexed(i: Incident, f: Filter) {
    && (f.states == [] || i.state in f.states)
    && (f.from.None? || i.openedAt >= f.from.value)
    && (f.to.None? || i.openedAt <= f.to.value)
  }

  predicate EcosystemListed(ioc: IoC, f: Filter) {
    exists e :: e in f.ecosystems && e != "" && ioc.ecosystem == e
  }

  predicate MatchesEcosystem(i: Incident, f: Filter, iocs: IoCs) {
    f.ecosystems == [] || (i.iocId in iocs && EcosystemListed(iocs[i.iocId], f))
  }

  predicate MatchesSearch(i: Incident, f: Filter) {
    var q := ToLower(f.search);
    || f.search == ""
    || Contains(ToLower(i.id), q)
    || Contains(ToLower(i.iocId), q)
    || exists r :: r in i.snapshot && Contains(ToLower(r), q)
  }

  predicate MatchesOwner(i: Incident, f: Filter, cs: Components) {
    f.owner == "" || exists r :: r in i.snapshot && r in cs && cs[r].owner == f.owner
  }

  predicate Satisfies(i: Incident, f: Filter, iocs: IoCs, cs: Components) {
    MatchesIndexed(i, f) && MatchesEcosystem(i, f, iocs) && MatchesSearch(i, f) && MatchesOwner(i, f, cs)
  }

  /** The text holds the searched words, whatever their case. */
  ghost predicate Mentions(text: string, words: string) {
    exists a, b :: ToLower(text) == a + ToLower(words) + b
  }

  lemma ContainsIff(text: string, words: string)
    ensures Contains(ToLower(text), ToLower(words)) <==> Mentions(text, words)
  {
    var s, q := ToLower(text), ToLower(words);
    if Contains(s, q) {
      var i :| 0 <= i <= |s| - |q| && HasPrefix(s[i..], q);
      Around(s, q, i);
    }
    if Mentions(text, words) {
      var a, b :| s == a + q + b;
      ContainsMiddle(a, q, b);
    }
  }

  lemma Around(s: string, q: string, i: nat)
    requires i <= |s| - |q| && HasPrefix(s[i..], q)
    ensures s == s[..i] + q + s[i + |q|..]
  {
    assert s[i..][..|q|] == s[i..i + |q|];
  }

  lemma ContainsMiddle(a: string, q: string, b: string)
    ensures Contains(a + q + b, q)
  {
    var s := a + q + b;
    assert s[|a|..] == q + b;
    assert HasPrefix(s[|a|..], q);
  }

  /** What a listed incident satisfies, dimension by dimension. */
  lemma SatisfiesMeans(i: Incident, f: Filter, iocs: IoCs, cs: Components)
    ensures Satisfies(i, f, iocs, cs) <==>
      && (f.states == [] || i.state in f.states)
      && (f.from.Some? ==> f.from.value <= i.openedAt)
      && (f.to.Some? ==> i.openedAt <= f.to.value)
      && (f.ecosystems == [] ||
          (i.iocId in iocs && iocs[i.iocId].ecosystem != "" && iocs[i.iocId].ecosystem in f.ecosystems))
      && (f.search == "" || Mentions(i.id, f.search) || Mentions(i.iocId, f.search)
          || exists r :: r in i.snapshot && Mentions(r, f.search))
      && (f.owner == "" || exists r :: r in i.snapshot && r in cs && cs[r].owner == f.owner)
  {
    forall text ensures Contains(ToLower(text), ToLower(f.search)) <==> Mentions(text, f.search) {
      ContainsIff(text, f.search);
    }
  }

  // ---------------------------------------------------------------------
  // What a listing must be
  // ---------------------------------------------------------------------

  predicate NewestFirst(a: Incident, b: Incident) { a.openedAt >= b.openedAt }

  ghost function Matching(all: set<Incident>, f: Filter, iocs: IoCs, cs: Components): set<Incident> {
    set i | i in all && Satisfies(i, f, iocs, cs)
  }

  /** The `limit` newest elements of `wanted`, newest first. */
  ghost predicate NewestOf(wanted: set<Incident>, limit: nat, out: seq<Incident>) {
    && Distinct(out) && Elements(out) <= wanted
    && SortedBy(NewestFirst, out)
    && |out| == (if limit < |wanted| then limit else |wanted|)
    && (forall i, r :: i in wanted && i !in out && r in out ==> i.openedAt <= r.openedAt)
  }

  /** A listing holds nothing twice, is newest first, leaves out nothing while
      there is room, and never anything newer than what it lists. */
  lemma ListingMeans(all: set<Incident>, f: Filter, iocs: IoCs, cs: Components, limit: nat, out: seq<Incident>)
    requires NewestOf(Matching(all, f, iocs, cs), limit, out)
    ensures |out| <= limit
    ensures forall a, b :: 0 <= a < b < |out| ==> out[a] != out[b] && out[a].openedAt >= out[b].openedAt
    ensures forall a :: 0 <= a < |out| ==> out[a] in all && Satisfies(out[a], f, iocs, cs)
    ensures forall i :: i in all && Satisfies(i, f, iocs, cs) && i !in out ==>
      |out| == limit && forall a :: 0 <= a < |out| ==> i.openedAt <= out[a].openedAt
  {
    var wanted := Matching(all, f, iocs, cs);
    assert forall a, b :: 0 <= a < b < |out| ==> NewestFirst(out[a], out[b]);
    assert forall a :: 0 <= a < |out| ==> out[a] in Elements(out);
    if |out| == |wanted| { AllListed(wanted, out); }
    forall i | i in all && Satisfies(i, f, iocs, cs) && i !in out
      ensures |out| == limit && forall a :: 0 <= a < |out| ==> i.openedAt <= out[a].openedAt
    {
      assert i in wanted && i !in Elements(out);
      assert forall a :: 0 <= a < |out| ==> out[a] in out;
    }
  }

  /** The stored incidents. */
  ghost function Stored(m: Incidents): set<Incident> {
    set id | id in m :: m[id]
  }

  /** The stored incidents as the SQL query returns them: without their
      remediations. */
  function Stripped(i: Incident): Incident {
    i.(remediations := [])
  }

  ghost function StoredRows(m: Incidents): set<Incident> {
    set id | id in m :: Stripped(m[id])
  }

  // ---------------------------------------------------------------------
  // In memory
  // ---------------------------------------------------------------------

  method ListIncidentsFiltered(m: Incidents, iocs: IoCs, cs: Components, f: Filter) returns (out: seq<Incident>)
    requires forall id :: id in m ==> m[id].id == id
    ensures var wanted := Matching(Stored(m), f, iocs, cs);
      NewestOf(wanted, if f.limit > 0 then f.limit else |wanted|, out)
  {
    var raw := Select(m, iocs, cs, f);
    ghost var wanted := Matching(Stored(m), f, iocs, cs);
    NewestFirstIsOrder();
    out := Sort(raw, NewestFirst);
    PermutationDistinct(raw, out);
    DistinctCount(out);
    assert forall i :: i in out <==> i in Elements(out);
    if f.limit > 0 && |out| > f.limit {
      Truncated(wanted, out, f.limit);
      out := out[..f.limit];
    }
  }

  lemma NewestFirstIsOrder()
    ensures TotalPreorder(NewestFirst)
  {
  }

  lemma Truncated(wanted: set<Incident>, out: seq<Incident>, limit: nat)
    requires Distinct(out) && Elements(out) == wanted && SortedBy(NewestFirst, out) && limit < |out| == |wanted|
    ensures NewestOf(wanted, limit, out[..limit])
  {
    forall i, r | i in wanted && i !in out[..limit] && r in out[..limit] ensures i.openedAt <= r.openedAt {
      var a :| 0 <= a < |out| && out[a] == i;
      var b :| 0 <= b < limit && out[b] == r;
      assert forall x :: 0 <= x < limit ==> out[x] in out[..limit];
      assert NewestFirst(out[b], out[a]);
    }
  }

  /** The two filtering passes. */
  method Select(m: Incidents, iocs: IoCs, cs: Components, f: Filter) returns (out: seq<Incident>)
    requires forall id :: id in m ==> m[id].id == id
    ensures Distinct(out) && Elements(out) == Matching(Stored(m), f, iocs, cs)
  {
    var ks := Enumerate(m.Keys);
    assert forall k :: k in ks <==> k in Elements(ks);
    var candidates: seq<Incident> := [];
    for i := 0 to |ks|
      invariant Distinct(candidates)
      invariant forall x :: x in candidates <==> MatchesIndexed(x, f) && exists j :: 0 <= j < i && x == m[ks[j]]
    {
      if !MatchesIndexed(m[ks[i]], f) { continue; }
      candidates := candidates + [m[ks[i]]];
    }
    out := [];
    for i := 0 to |candidates|
      invariant Distinct(out)
      invariant forall x :: x in out <==> Satisfies(x, f, iocs, cs) && exists j :: 0 <= j < i && candidates[j] == x
    {
      var inc := candidates[i];
      assert inc in candidates && inc !in out;
      if !MatchesEcosystem(inc, f, iocs) { continue; }
      if !MatchesSearch(inc, f) { continue; }
      if !MatchesOwner(inc, f, cs) { continue; }
      out := out + [inc];
    }
    SelectedAll(m, iocs, cs, f, ks, candidates, out);
  }

  lemma SelectedAll(m: Incidents, iocs: IoCs, cs: Components, f: Filter, ks: seq<string>, candidates: seq<Incident>,
      out: seq<Incident>)
    requires forall k :: k in ks <==> k in m
    requires forall x :: x in candidates <==> MatchesIndexed(x, f) && exists j :: 0 <= j < |ks| && x == m[ks[j]]
    requires forall x :: x in out <==>
      Satisfies(x, f, iocs, cs) && exists j :: 0 <= j < |candidates| && candidates[j] == x
    ensures Elements(out) == Matching(Stored(m), f, iocs, cs)
  {
    forall x ensures x in out <==> x in Matching(Stored(m), f, iocs, cs) {
      assert x in candidates <==> exists j :: 0 <= j < |candidates| && candidates[j] == x;
      if x in Stored(m) {
        var id :| id in m && m[id] == x;
        var j :| 0 <= j < |ks| && ks[j] == id;
      }
    }
  }

  // ---------------------------------------------------------------------
  // Over Postgres
  // ---------------------------------------------------------------------

  ghost predicate IoCCacheOk(cache: map<string, Option<IoC>>, iocs: IoCs) {
    forall k :: k in cache ==> cache[k] == if k in iocs then Some(iocs[k]) else None
  }

  ghost predicate ComponentCacheOk(cache: map<string, Option<Component>>, cs: Components) {
    forall k :: k in cache ==> cache[k] == if k in cs then Some(cs[k]) else None
  }

  method CachedEcosystem(i: Incident, f: Filter, iocs: IoCs, cache0: map<string, Option<IoC>>)
    returns (ok: bool, cache: map<string, Option<IoC>>)
    requires IoCCacheOk(cache0, iocs)
    ensures ok == MatchesEcosystem(i, f, iocs) && IoCCacheOk(cache, iocs)
  {
    cache := cache0;
    if |f.ecosystems| == 0 { return true, cache; }
    if i.iocId !in cache {
      cache := cache[i.iocId := if i.iocId in iocs then Some(iocs[i.iocId]) else None];
    }
    var ioc := cache[i.iocId];
    ok := ioc.Some? && EcosystemListed(ioc.value, f);
  }

  method CachedOwner(i: Incident, f: Filter, cs: Components, cache0: map<string, Option<Component>>)
    returns (ok: bool, cache: map<string, Option<Component>>)
    requires ComponentCacheOk(cache0, cs)
    ensures ok == MatchesOwner(i, f, cs) && ComponentCacheOk(cache, cs)
  {
    cache := cache0;
    if f.owner == "" { return true, cache; }
    for k := 0 to |i.snapshot|
      invariant ComponentCacheOk(cache, cs)
      invariant forall j :: 0 <= j < k ==> !(i.snapshot[j] in cs && cs[i.snapshot[j]].owner == f.owner)
    {
      var ref := i.snapshot[k];
      if ref !in cache {
        cache := cache[ref := if ref in cs then Some(cs[ref]) else None];
      }
      var c := cache[ref];
      if c.None? { continue; }
      if c.value.owner == f.owner { return true, cache; }
    }
    ok := false;
  }

  /** `rows` is the answer of the SQL query: the stored rows its WHERE clause
      accepts, newest first. */
  method ListIncidentsPostgres(ghost m: Incidents, rows: seq<Incident>, iocs: IoCs, cs: Components, f: Filter)
    returns (out: seq<Incident>)
    requires Distinct(rows) && SortedBy(NewestFirst, rows)
    requires forall i :: i in rows <==> i in StoredRows(m) && MatchesIndexed(i, f)
    ensures NewestOf(Matching(StoredRows(m), f, iocs, cs), if f.limit > 0 then f.limit else NO_LIMIT_SENTINEL, out)
  {
    var limit := if f.limit <= 0 then NO_LIMIT_SENTINEL else f.limit;
    out := [];
    var iocCache: map<string, Option<IoC>> := map[];
    var componentCache: map<string, Option<Component>> := map[];
    ghost var n := |rows|;
    for k := 0 to |rows|
      invariant n == |rows| && |out| < limit
      invariant IoCCacheOk(iocCache, iocs) && ComponentCacheOk(componentCache, cs)
      invariant Scanned(rows, k, f, iocs, cs, out)
    {
      var inc := rows[k];
      assert inc in rows;
      var okEcosystem, okOwner;
      okEcosystem, iocCache := CachedEcosystem(inc, f, iocs, iocCache);
      if !okEcosystem { continue; }
      if !MatchesSearch(inc, f) { continue; }
      okOwner, componentCache := CachedOwner(inc, f, cs, componentCache);
      if !okOwner { continue; }
      ScannedSnoc(rows, k, f, iocs, cs, out);
      out := out + [inc];
      if |out| >= limit {
        n := k + 1;
        break;
      }
    }
    ScannedIsNewest(m, rows, n, f, iocs, cs, out, limit);
  }

  /** `out` is what satisfies the filter among the first n rows. */
  ghost predicate Scanned(rows: seq<Incident>, n: nat, f: Filter, iocs: IoCs, cs: Components, out: seq<Incident>)
    requires n <= |rows|
  {
    && Distinct(out) && SortedBy(NewestFirst, out)
    && forall x :: x in out <==> Satisfies(x, f, iocs, cs) && exists j :: 0 <= j < n && rows[j] == x
  }

  lemma ScannedSnoc(rows: seq<Incident>, k: nat, f: Filter, iocs: IoCs, cs: Components, out: seq<Incident>)
    requires k < |rows| && Distinct(rows) && SortedBy(NewestFirst, rows)
    requires Scanned(rows, k, f, iocs, cs, out) && Satisfies(rows[k], f, iocs, cs)
    ensures Scanned(rows, k + 1, f, iocs, cs, out + [rows[k]])
  {
    forall x | x in out ensures NewestFirst(x, rows[k]) {
      var j :| 0 <= j < k && rows[j] == x;
    }
    var more := out + [rows[k]];
    forall i, j | 0 <= i < j < |more| ensures NewestFirst(more[i], more[j]) {
      assert more[i] == out[i] && out[i] in out;
    }
  }

  lemma ScannedIsNewest(m: Incidents, rows: seq<Incident>, n: nat, f: Filter, iocs: IoCs, cs: Components,
      out: seq<Incident>, limit: nat)
    requires n <= |rows| && Distinct(rows) && SortedBy(NewestFirst, rows)
    requires forall i :: i in rows <==> i in StoredRows(m) && MatchesIndexed(i, f)
    requires Scanned(rows, n, f, iocs, cs, out)
    requires |out| <= limit && (|out| == limit || n == |rows|)
    ensures NewestOf(Matching(StoredRows(m), f, iocs, cs), limit, out)
  {
    var wanted := Matching(StoredRows(m), f, iocs, cs);
    forall x | x in out ensures x in wanted {
      var j :| 0 <= j < n && rows[j] == x;
      assert rows[j] in rows;
    }
    forall x | x in wanted && x !in out ensures exists j :: n <= j < |rows| && rows[j] == x {
      assert x in rows;
      var j :| 0 <= j < |rows| && rows[j] == x;
    }
    DistinctCount(out);
    SubsetCount(Elements(out), wanted);
    if n == |rows| { assert Elements(out) == wanted; }
    forall i, r | i in wanted && i !in out && r in out ensures i.openedAt <= r.openedAt {
      var a :| n <= a < |rows| && rows[a] == i;
      var b :| 0 <= b < n && rows[b] == r;
      assert NewestFirst(rows[b], rows[a]);
    }
  }

  // ---------------------------------------------------------------------
  // The two backends
  // ---------------------------------------------------------------------

  /** Without a limit the memory listing has one incident for each Postgres
      row, and the same rows, exactly when no more than 2^31 incidents match. */
  lemma BackendsAgreeIff(m: Incidents, iocs: IoCs, cs: Components, f: Filter, mem: seq<Incident>, pg: seq<Incident>)
    requires forall id :: id in m ==> m[id].id == id
    requires NewestOf(Matching(Stored(m), f, iocs, cs), |Matching(Stored(m), f, iocs, cs)|, mem)
    requires NewestOf(Matching(StoredRows(m), f, iocs, cs), NO_LIMIT_SENTINEL, pg)
    ensures (set i | i in mem :: Stripped(i)) == Elements(pg) <==> |mem| <= NO_LIMIT_SENTINEL
    ensures |mem| <= NO_LIMIT_SENTINEL ==> |mem| == |pg|
  {
    var a, b := Matching(Stored(m), f, iocs, cs), Matching(StoredRows(m), f, iocs, cs);
    StrippingIsBijective(m, f, iocs, cs);
    AllListed(a, mem);
    DistinctCount(pg);
    assert (set i | i in mem :: Stripped(i)) == (set i | i in a :: Stripped(i));
    if |a| <= NO_LIMIT_SENTINEL { AllListed(b, pg); }
  }

  /** When the limit binds neither backend, they list the same incidents. */
  lemma BackendsAgreeUnderLimit(m: Incidents, iocs: IoCs, cs: Components, f: Filter, mem: seq<Incident>,
      pg: seq<Incident>)
    requires forall id :: id in m ==> m[id].id == id
    requires f.limit > 0 && |Matching(Stored(m), f, iocs, cs)| <= f.limit
    requires NewestOf(Matching(Stored(m), f, iocs, cs), f.limit, mem)
    requires NewestOf(Matching(StoredRows(m), f, iocs, cs), f.limit, pg)
    ensures (set i | i in mem :: Stripped(i)) == Elements(pg) && |mem| == |pg|
  {
    StrippingIsBijective(m, f, iocs, cs);
    AllListed(Matching(Stored(m), f, iocs, cs), mem);
    AllListed(Matching(StoredRows(m), f, iocs, cs), pg);
  }

  lemma AllListed(wanted: set<Incident>, out: seq<Incident>)
    requires Distinct(out) && Elements(out) <= wanted && |out| == |wanted|
    ensures Elements(out) == wanted
  {
    DistinctCount(out);
    assert |wanted - Elements(out)| == 0;
  }

  lemma StrippingIsBijective(m: Incidents, f: Filter, iocs: IoCs, cs: Components)
    requires forall id :: id in m ==> m[id].id == id
    ensures (set i | i in Matching(Stored(m), f, iocs, cs) :: Stripped(i)) == Matching(StoredRows(m), f, iocs, cs)
    ensures |Matching(Stored(m), f, iocs, cs)| == |Matching(StoredRows(m), f, iocs, cs)|
  {
    var a, b := Matching(Stored(m), f, iocs, cs), Matching(StoredRows(m), f, iocs, cs);
    forall i ensures Satisfies(Stripped(i), f, iocs, cs) <==> Satisfies(i, f, iocs, cs) { }
    forall r | r in b ensures r in set i | i in a :: Stripped(i) {
      var id :| id in m && Stripped(m[id]) == r;
      assert m[id] in a;
    }
    InjectiveImage(a, b);
  }

  lemma {:induction false} InjectiveImage(a: set<Incident>, b: set<Incident>)
    requires forall x, y :: x in a && y in a && Stripped(x) == Stripped(y) ==> x == y
    requires b == set i | i in a :: Stripped(i)
    ensures |a| == |b|
    decreases a
  {
    if a != {} {
      var x :| x in a;
      var a', b' := a - {x}, b - {Stripped(x)};
      forall r | r in b' ensures r in set i | i in a' :: Stripped(i) {
        var i :| i in a && Stripped(i) == r;
        assert i in a';
      }
      InjectiveImage(a', b');
    }
  }
}
