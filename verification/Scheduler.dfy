/** The publisher refresh scheduler: every tick re-ingests the stalest packages,
    at most a batch of them. */
module Scheduler {
  import opened Ordering
  import opened Text

  /** Per package ref, the times of its snapshots in the order they were saved. */
  type History = map<string, seq<int>>

  function Latest(ts: seq<int>): (t: int)
    requires ts != []
    ensures t in ts && forall x :: x in ts ==> x <= t
  {
    var n := |ts| - 1;
    if n == 0 then ts[0]
    else
      assert forall x :: x in ts <==> x in ts[..n] || x == ts[n];
      var t := Latest(ts[..n]);
      if ts[n] > t then ts[n] else t
  }

  predicate Tracked(h: History, r: string) {
    r in h && h[r] != []
  }

  /** The time of a package's newest snapshot. */
  function LastSeen(h: History, r: string): int {
    if Tracked(h, r) then Latest(h[r]) else 0
  }

  predicate Stale(h: History, cutoff: int, r: string) {
    Tracked(h, r) && LastSeen(h, r) < cutoff
  }

  /** `batch` is the stalest packages, at most `limit` of them, stalest first. */
  ghost predicate StalestFirst(h: History, cutoff: int, limit: nat, batch: seq<string>) {
    && Distinct(batch) && (forall r :: r in batch ==> Stale(h, cutoff, r))
    && (forall i, j :: 0 <= i < j < |batch| ==> LastSeen(h, batch[i]) <= LastSeen(h, batch[j]))
    && |batch| <= limit
    && (forall q :: Stale(h, cutoff, q) && q !in batch ==>
          |batch| == limit && forall r :: r in batch ==> LastSeen(h, r) <= LastSeen(h, q))
  }

  datatype Candidate = Candidate(ref: string, latest: int)

  predicate StalerFirst(a: Candidate, b: Candidate) { a.latest <= b.latest }

  /** What becomes of a package: a saved snapshot with the time storage stamps on
      it, one of the ingestor's errors, or a snapshot storage does not save. */
  datatype Fetch = Snapshot(at: int) | NotFound | RateLimited | ServerFailure | Unexpected | NotSaved

  datatype Counts = Counts(refreshed: nat, missing: nat, throttled: nat, failed: nat)

  /** The environment of one tick: the clock and what ingesting a ref yields. */
  datatype Input = Input(now: int, ingest: string -> Fetch)

  /** Some ingestor handles the ref and fetches a snapshot. */
  predicate Refreshes(prefixes: set<string>, input: Input, r: string) {
    Handled(prefixes, r) && input.ingest(r).Snapshot?
  }

  /** The history after refreshing a batch. */
  ghost predicate Refreshed(prefixes: set<string>, input: Input, h: History, batch: seq<string>, h': History) {
    && h'.Keys == h.Keys
    && (forall r :: r in h ==>
          h'[r] == if r in batch && Refreshes(prefixes, input, r) then h[r] + [input.ingest(r).at] else h[r])
  }

  ghost predicate Tick(prefixes: set<string>, interval: nat, limit: nat, input: Input, h: History, h': History) {
    exists batch :: StalestFirst(h, input.now - interval, limit, batch) && Refreshed(prefixes, input, h, batch, h')
  }

  type Positive = n: nat | n > 0 witness 1

  /** `NewScheduler`: None for a configuration it refuses. */
  method NewScheduler(prefixes: set<string>, interval: int, batchSize: int, history: History)
    returns (s: Option<Scheduler>)
    ensures s.None? <==> prefixes == {} || exists p :: p in prefixes && !HasSuffix(p, ":")
    ensures s.Some? ==>
      && fresh(s.value) && s.value.prefixes == prefixes && s.value.history == history
      && s.value.interval == (if interval <= 0 then 3600 else interval)
      && s.value.batchSize == (if batchSize <= 0 then 50 else batchSize)
  {
    if |prefixes| == 0 { return None; }
    var rest := prefixes;
    while rest != {}
      invariant rest <= prefixes && forall p :: p in prefixes && p !in rest ==> HasSuffix(p, ":")
      decreases |rest|
    {
      var p :| p in rest;
      if !HasSuffix(p, ":") { return None; }
      rest := rest - {p};
    }
    var scheduler := new Scheduler(prefixes, interval, batchSize, history);
    s := Some(scheduler);
  }

  class Scheduler {
    const prefixes: set<string>
    const interval: Positive
    const batchSize: Positive
    var history: History

    /** Interval and batch size default to an hour and 50. */
    constructor (prefixes: set<string>, interval: int, batchSize: int, history: History)
      ensures this.prefixes == prefixes && this.history == history
      ensures this.interval == (if interval <= 0 then 3600 else interval)
      ensures this.batchSize == (if batchSize <= 0 then 50 else batchSize)
    {
      this.prefixes := prefixes;
      this.interval := if interval <= 0 then 3600 else interval;
      this.batchSize := if batchSize <= 0 then 50 else batchSize;
      this.history := history;
    }

    /** No limit if `limit` is not positive. */
    method ListPackagesNeedingRefresh(olderThan: int, limit: int) returns (out: seq<string>)
      ensures StalestFirst(history, olderThan, if limit > 0 then limit else |history.Keys|, out)
    {
      var cands := Candidates(olderThan);
      var sorted := Sort(cands, StalerFirst);
      PermutationDistinct(cands, sorted);
      assert forall c :: c in sorted <==> c in Elements(sorted);
      assert forall c :: c in cands <==> c in Elements(cands);
      CandidateCount(history, olderThan, sorted);
      out := [];
      for i := 0 to |sorted|
        invariant |out| == i && (limit > 0 ==> i < limit) && forall j :: 0 <= j < i ==> out[j] == sorted[j].ref
      {
        out := out + [sorted[i].ref];
        if limit > 0 && |out| >= limit { break; }
      }
      FirstOfSorted(history, olderThan, if limit > 0 then limit else |history.Keys|, sorted, out);
    }

    method Candidates(olderThan: int) returns (cands: seq<Candidate>)
      ensures Distinct(cands)
      ensures forall c :: c in cands <==> Stale(history, olderThan, c.ref) && c.latest == LastSeen(history, c.ref)
    {
      var ks := Enumerate(history.Keys);
      assert forall k :: k in ks <==> k in Elements(ks);
      cands := [];
      for i := 0 to |ks|
        invariant Distinct(cands)
        invariant forall c :: c in cands <==>
          && Stale(history, olderThan, c.ref) && c.latest == LastSeen(history, c.ref)
          && exists j :: 0 <= j < i && ks[j] == c.ref
      {
        var hist := history[ks[i]];
        if |hist| == 0 { continue; }
        var latest := NewestOf(hist);
        if latest < olderThan {
          cands := cands + [Candidate(ks[i], latest)];
        }
      }
      forall c: Candidate | Stale(history, olderThan, c.ref)
        && c.latest == LastSeen(history, c.ref) ensures c in cands {
        var j :| 0 <= j < |ks| && ks[j] == c.ref;
      }
    }

    method NewestOf(hist: seq<int>) returns (latest: int)
      requires hist != []
      ensures latest == Latest(hist)
    {
      latest := hist[0];
      for i := 1 to |hist|
        invariant latest == Latest(hist[..i])
      {
        assert hist[..i + 1][..i] == hist[..i];
        if hist[i] > latest { latest := hist[i]; }
      }
      assert hist[..|hist|] == hist;
    }

    /** Some registered prefix of the ref, if there is one. */
    method Dispatch(ref: string) returns (prefix: Option<string>)
      ensures prefix.Some? ==> prefix.value in prefixes && HasPrefix(ref, prefix.value)
      ensures prefix.None? ==> forall p :: p in prefixes ==> !HasPrefix(ref, p)
    {
      var rest := prefixes;
      while rest != {}
        invariant rest <= prefixes && forall p :: p in prefixes && p !in rest ==> !HasPrefix(ref, p)
        decreases |rest|
      {
        var p :| p in rest;
        if HasPrefix(ref, p) { return Some(p); }
        rest := rest - {p};
      }
      prefix := None;
    }

    /** Every listed package is counted once, under its own outcome. */
    method RunTick(input: Input) returns (counts: Counts)
      modifies this
      ensures exists batch ::
        && StalestFirst(old(history), input.now - interval, batchSize, batch)
        && Refreshed(prefixes, input, old(history), batch, history)
        && counts == Tally(prefixes, input, batch)
    {
      var refs := ListPackagesNeedingRefresh(input.now - interval, batchSize);
      counts := RefreshAll(input, refs);
    }

    method RefreshAll(input: Input, refs: seq<string>) returns (c: Counts)
      requires Distinct(refs) && forall r :: r in refs ==> r in history
      modifies this
      ensures Refreshed(prefixes, input, old(history), refs, history)
      ensures c == Tally(prefixes, input, refs)
    {
      c := Counts(0, 0, 0, 0);
      for i := 0 to |refs|
        invariant Refreshed(prefixes, input, old(history), refs[..i], history)
        invariant c == Tally(prefixes, input, refs[..i])
      {
        ghost var before := history;
        assert refs[..i + 1][..i] == refs[..i] && refs[i] in refs;
        c := RefreshOne(input, refs[i], c);
        RefreshedStep(prefixes, input, old(history), refs, i, before, history);
      }
      assert refs[..|refs|] == refs;
    }

    /** One turn of the loop. */
    method RefreshOne(input: Input, ref: string, c0: Counts) returns (c: Counts)
      requires ref in history
      modifies this
      ensures history == if Refreshes(prefixes, input, ref)
                         then old(history)[ref := old(history)[ref] + [input.ingest(ref).at]] else old(history)
      ensures c == CountOne(c0, Handled(prefixes, ref), input.ingest(ref))
    {
      c := c0;
      var prefix := Dispatch(ref);
      if prefix.None? {
        c := c.(failed := c.failed + 1);
        return;
      }
      match input.ingest(ref) {
        case Snapshot(at) =>
          history := history[ref := history[ref] + [at]];
          c := c.(refreshed := c.refreshed + 1);
        case NotFound => c := c.(missing := c.missing + 1);
        case RateLimited => c := c.(throttled := c.throttled + 1);
        case _ => c := c.(failed := c.failed + 1);
      }
    }
  }

  /** Some ingestor is registered for the ref. */
  predicate Handled(prefixes: set<string>, r: string) {
    exists p :: p in prefixes && HasPrefix(r, p)
  }

  function CountOne(c: Counts, handled: bool, fetch: Fetch): Counts {
    if !handled then c.(failed := c.failed + 1)
    else
      match fetch
      case Snapshot(_) => c.(refreshed := c.refreshed + 1)
      case NotFound => c.(missing := c.missing + 1)
      case RateLimited => c.(throttled := c.throttled + 1)
      case ServerFailure => c.(failed := c.failed + 1)
      case Unexpected => c.(failed := c.failed + 1)
      case NotSaved => c.(failed := c.failed + 1)
  }

  function Tally(prefixes: set<string>, input: Input, refs: seq<string>): Counts {
    if refs == [] then Counts(0, 0, 0, 0)
    else
      var n := |refs| - 1;
      CountOne(Tally(prefixes, input, refs[..n]), Handled(prefixes, refs[n]), input.ingest(refs[n]))
  }

  /** Some ingestor takes the package and ends so. */
  predicate Ends(prefixes: set<string>, input: Input, fetch: Fetch, r: string) {
    Handled(prefixes, r) && input.ingest(r) == fetch
  }

  /** The listed packages that some ingestor takes and whose ingestion ends so. */
  ghost function Ending(prefixes: set<string>, input: Input, refs: seq<string>, fetch: Fetch): set<string> {
    set r | r in refs && Ends(prefixes, input, fetch, r)
  }

  /** The four counts add up to the batch; the first three are the numbers of
      packages that are refreshed, missing upstream and rate-limited. */
  lemma {:induction false} TallyAddsUp(prefixes: set<string>, input: Input, refs: seq<string>)
    requires Distinct(refs)
    ensures var c := Tally(prefixes, input, refs);
      && c.refreshed + c.missing + c.throttled + c.failed == |refs|
      && c.refreshed == |RefreshedOf(prefixes, input, refs)|
      && c.missing == |Ending(prefixes, input, refs, NotFound)|
      && c.throttled == |Ending(prefixes, input, refs, RateLimited)|
  {
    if refs == [] {
      assert RefreshedOf(prefixes, input, refs) == {};
      assert Ending(prefixes, input, refs, NotFound) == {};
      assert Ending(prefixes, input, refs, RateLimited) == {};
    } else {
      var n := |refs| - 1;
      TallyAddsUp(prefixes, input, refs[..n]);
      RefreshedLast(prefixes, input, refs);
      EndingLast(prefixes, input, refs, NotFound);
      EndingLast(prefixes, input, refs, RateLimited);
    }
  }

  lemma EndingLast(prefixes: set<string>, input: Input, refs: seq<string>, fetch: Fetch)
    requires Distinct(refs) && refs != []
    ensures var n := |refs| - 1;
      |Ending(prefixes, input, refs, fetch)| ==
        |Ending(prefixes, input, refs[..n], fetch)| + (if Ends(prefixes, input, fetch, refs[n]) then 1 else 0)
  {
    var n := |refs| - 1;
    var last := refs[n];
    assert last !in refs[..n];
    var a, b := Ending(prefixes, input, refs, fetch), Ending(prefixes, input, refs[..n], fetch);
    forall r ensures r in a <==> r in b || (r == last && Ends(prefixes, input, fetch, last)) {
      assert r in refs <==> r in refs[..n] || r == last;
    }
    assert a == b + (if Ends(prefixes, input, fetch, last) then {last} else {});
  }

  /** An ingestor takes the refs that start with its key. */
  lemma HandledIff(prefixes: set<string>, r: string)
    ensures Handled(prefixes, r) <==> exists p :: p in prefixes && p <= r
  {
    forall p ensures HasPrefix(r, p) <==> p <= r { PrefixIff(r, p); }
  }

  lemma PrefixIff(r: string, p: string)
    ensures HasPrefix(r, p) <==> p <= r
  {
  }

  ghost function RefreshedOf(prefixes: set<string>, input: Input, refs: seq<string>): set<string> {
    set r | r in refs && Refreshes(prefixes, input, r)
  }

  lemma RefreshedLast(prefixes: set<string>, input: Input, refs: seq<string>)
    requires Distinct(refs) && refs != []
    ensures var n := |refs| - 1;
      |RefreshedOf(prefixes, input, refs)| ==
        |RefreshedOf(prefixes, input, refs[..n])| + (if Refreshes(prefixes, input, refs[n]) then 1 else 0)
  {
    var n := |refs| - 1;
    var last := refs[n];
    assert last !in refs[..n];
    assert forall r :: r in refs <==> r in refs[..n] || r == last;
    assert RefreshedOf(prefixes, input, refs) ==
           RefreshedOf(prefixes, input, refs[..n]) + (if Refreshes(prefixes, input, last) then {last} else {});
  }

  /** The package has snapshots, all of them taken before the cutoff. */
  ghost predicate Overdue(h: History, cutoff: int, r: string) {
    r in h && h[r] != [] && forall t :: t in h[r] ==> t < cutoff
  }

  /** No snapshot of the first package is later than all of the second. */
  ghost predicate NoLater(h: History, q: string, r: string) {
    q in h && r in h && forall t :: t in h[q] ==> exists u :: u in h[r] && t <= u
  }

  /** The batch in snapshot times: overdue packages only, each with no snapshot
      later than every snapshot of a package after it or left out, and all
      overdue packages while there is room. */
  lemma BatchMeans(h: History, cutoff: int, limit: nat, batch: seq<string>)
    requires StalestFirst(h, cutoff, limit, batch)
    ensures |batch| <= limit && Distinct(batch)
    ensures forall i :: 0 <= i < |batch| ==> Overdue(h, cutoff, batch[i])
    ensures forall i, j :: 0 <= i < j < |batch| ==> NoLater(h, batch[i], batch[j])
    ensures forall q, i :: Overdue(h, cutoff, q) && q !in batch && 0 <= i < |batch| ==> NoLater(h, batch[i], q)
    ensures |batch| < limit ==> forall q :: Overdue(h, cutoff, q) ==> q in batch
  {
    forall r ensures Stale(h, cutoff, r) <==> Overdue(h, cutoff, r) { StaleIff(h, cutoff, r); }
    assert forall i :: 0 <= i < |batch| ==> batch[i] in batch;
    forall i, j | 0 <= i < j < |batch| ensures NoLater(h, batch[i], batch[j]) {
      LastSeenOrders(h, batch[i], batch[j]);
    }
    forall q, i | Overdue(h, cutoff, q) && q !in batch && 0 <= i < |batch| ensures NoLater(h, batch[i], q) {
      LastSeenOrders(h, batch[i], q);
    }
  }

  lemma LastSeenOrders(h: History, q: string, r: string)
    requires Tracked(h, q) && Tracked(h, r) && LastSeen(h, q) <= LastSeen(h, r)
    ensures NoLater(h, q, r)
  {
    assert LastSeen(h, r) in h[r];
  }

  lemma StaleIff(h: History, cutoff: int, r: string)
    ensures Stale(h, cutoff, r) <==> Overdue(h, cutoff, r)
  {
    if r in h && h[r] != [] { assert LastSeen(h, r) in h[r]; }
  }

  /** What refreshing a batch does to the history: a listed package that an
      ingestor takes and fetches gains that snapshot, nothing else changes. */
  lemma RefreshedMeans(prefixes: set<string>, input: Input, h: History, batch: seq<string>, h': History)
    requires Refreshed(prefixes, input, h, batch, h')
    ensures h'.Keys == h.Keys
    ensures forall r :: r in h && r in batch && (exists p :: p in prefixes && p <= r) && input.ingest(r).Snapshot? ==>
      h'[r] == h[r] + [input.ingest(r).at]
    ensures forall r :: r in h && h'[r] != h[r] ==>
      r in batch && (exists p :: p in prefixes && p <= r) && input.ingest(r).Snapshot?
  {
    forall r ensures Handled(prefixes, r) <==> exists p :: p in prefixes && p <= r { HandledIff(prefixes, r); }
  }

  lemma CandidateCount(h: History, cutoff: int, cands: seq<Candidate>)
    requires Distinct(cands)
    requires forall c :: c in cands <==> Stale(h, cutoff, c.ref) && c.latest == LastSeen(h, c.ref)
    ensures |cands| <= |h.Keys|
  {
    var refs := seq(|cands|, i requires 0 <= i < |cands| => cands[i].ref);
    forall i, j | 0 <= i < j < |refs| ensures refs[i] != refs[j] {
      assert cands[i] in cands && cands[j] in cands && cands[i] != cands[j];
    }
    forall r | r in refs ensures r in h.Keys {
      var i :| 0 <= i < |refs| && refs[i] == r;
      assert cands[i] in cands;
    }
    DistinctCount(refs);
    SubsetCount(Elements(refs), h.Keys);
  }

  lemma RefreshedStep(prefixes: set<string>, input: Input, h0: History, refs: seq<string>, i: nat, h: History,
      h': History)
    requires i < |refs| && Distinct(refs) && refs[i] in h0 && Refreshed(prefixes, input, h0, refs[..i], h)
    requires h' == if Refreshes(prefixes, input, refs[i]) then h[refs[i] := h[refs[i]] + [input.ingest(refs[i]).at]]
      else h
    ensures Refreshed(prefixes, input, h0, refs[..i + 1], h')
  {
    NotBefore(refs, i);
    RefreshedMore(prefixes, input, h0, refs[..i], refs[i], h, h');
  }

  lemma NotBefore(refs: seq<string>, i: nat)
    requires Distinct(refs) && i < |refs|
    ensures refs[i] !in refs[..i] && refs[..i + 1] == refs[..i] + [refs[i]]
  {
  }

  lemma RefreshedMore(prefixes: set<string>, input: Input, h0: History, batch: seq<string>, x: string, h: History,
      h': History)
    requires x in h0 && x !in batch && Refreshed(prefixes, input, h0, batch, h)
    requires h' == if Refreshes(prefixes, input, x) then h[x := h[x] + [input.ingest(x).at]] else h
    ensures Refreshed(prefixes, input, h0, batch + [x], h')
  {
  }

  lemma FirstOfSorted(h: History, cutoff: int, limit: nat, sorted: seq<Candidate>, out: seq<string>)
    requires Distinct(sorted) && SortedBy(StalerFirst, sorted)
    requires forall c :: c in sorted <==> Stale(h, cutoff, c.ref) && c.latest == LastSeen(h, c.ref)
    requires |out| <= |sorted| && |out| <= limit && (|out| == limit || |out| == |sorted|)
    requires forall j :: 0 <= j < |out| ==> out[j] == sorted[j].ref
    ensures StalestFirst(h, cutoff, limit, out)
  {
    assert forall j :: 0 <= j < |sorted| ==> sorted[j] in sorted;
    forall i, j | 0 <= i < j < |out| ensures out[i] != out[j] && LastSeen(h, out[i]) <= LastSeen(h, out[j]) {
      assert StalerFirst(sorted[i], sorted[j]) && sorted[i] != sorted[j];
    }
    forall q | Stale(h, cutoff, q) && q !in out
      ensures |out| == limit && forall r :: r in out ==> LastSeen(h, r) <= LastSeen(h, q)
    {
      var c := Candidate(q, LastSeen(h, q));
      assert c in sorted;
      var a :| 0 <= a < |sorted| && sorted[a] == c;
      assert a >= |out|;
      forall r | r in out ensures LastSeen(h, r) <= LastSeen(h, q) {
        var b :| 0 <= b < |out| && out[b] == r;
        assert StalerFirst(sorted[b], sorted[a]);
      }
    }
  }

  // ---------------------------------------------------------------------
  // No starvation, and starvation
  // ---------------------------------------------------------------------

  /** The packages at least as stale as p. */
  ghost function Ahead(h: History, p: string): set<string> {
    set q | q in h && Tracked(h, q) && LastSeen(h, q) <= LastSeen(h, p)
  }

  ghost predicate Run(prefixes: set<string>, interval: nat, limit: nat, inputs: seq<Input>, hs: seq<History>) {
    && |hs| == |inputs| + 1
    && (forall k {:trigger inputs[k]} :: 0 <= k < |inputs| ==>
      Tick(prefixes, interval, limit, inputs[k], hs[k], hs[k + 1]))
  }

  /** The clock rises from tick to tick and stamps are not older than their tick. */
  ghost predicate ClockRises(inputs: seq<Input>) {
    && (forall i, j :: 0 <= i < j < |inputs| ==> inputs[i].now <= inputs[j].now)
    && (forall k, r :: 0 <= k < |inputs| && inputs[k].ingest(r).Snapshot? ==> inputs[k].ingest(r).at >= inputs[k].now)
  }

  ghost predicate NeverFails(prefixes: set<string>, inputs: seq<Input>, r: string) {
    forall k :: 0 <= k < |inputs| ==> Refreshes(prefixes, inputs[k], r)
  }

  ghost predicate AlwaysFails(prefixes: set<string>, inputs: seq<Input>, r: string) {
    forall k :: 0 <= k < |inputs| ==> !Refreshes(prefixes, inputs[k], r)
  }

  lemma LatestSnoc(ts: seq<int>, t: int)
    requires ts != []
    ensures Latest(ts + [t]) == if t > Latest(ts) then t else Latest(ts)
  {
    assert (ts + [t])[..|ts|] == ts;
  }

  /** A tick that passes over a stale package p moves a full batch of packages
      at least as stale as p, less the failing ones, behind it; none overtakes. */
  lemma TickAdvances(prefixes: set<string>, interval: nat, limit: nat, input: Input, h: History, h': History,
                     p: string, failing: set<string>)
    requires Tick(prefixes, interval, limit, input, h, h') && interval > 0
    requires Stale(h, input.now - interval, p) && Refreshes(prefixes, input, p)
    requires forall r :: input.ingest(r).Snapshot? ==> input.ingest(r).at >= input.now
    requires forall q :: q in Ahead(h, p) - failing ==> Refreshes(prefixes, input, q)
    requires |failing| <= limit
    ensures p in h' && (h'[p] == h[p] || |h'[p]| == |h[p]| + 1)
    ensures h'[p] == h[p] ==>
      Ahead(h', p) <= Ahead(h, p) && |Ahead(h', p) - failing| <= |Ahead(h, p) - failing| - (limit - |failing|)
  {
    var batch :| StalestFirst(h, input.now - interval, limit, batch) && Refreshed(prefixes, input, h, batch, h');
    BatchAdvances(prefixes, interval, limit, input, h, h', batch, p, failing);
  }

  lemma BatchAdvances(prefixes: set<string>, interval: nat, limit: nat, input: Input, h: History, h': History,
                      batch: seq<string>, p: string, failing: set<string>)
    requires StalestFirst(h, input.now - interval, limit, batch) && Refreshed(prefixes, input, h, batch, h')
      && interval > 0
    requires Stale(h, input.now - interval, p) && Refreshes(prefixes, input, p)
    requires forall r :: input.ingest(r).Snapshot? ==> input.ingest(r).at >= input.now
    requires forall q :: q in Ahead(h, p) - failing ==> Refreshes(prefixes, input, q)
    ensures p in h' && (h'[p] == h[p] || |h'[p]| == |h[p]| + 1)
    ensures h'[p] == h[p] ==>
      Ahead(h', p) <= Ahead(h, p) && |Ahead(h', p) - failing| <= |Ahead(h, p) - failing| - (limit - |failing|)
  {
    if p !in batch {
      FullBatchAhead(h, input.now - interval, limit, batch, p);
      BatchPasses(prefixes, input, h, h', batch, p, failing);
    }
  }

  lemma FullBatchAhead(h: History, cutoff: int, limit: nat, batch: seq<string>, p: string)
    requires StalestFirst(h, cutoff, limit, batch) && Stale(h, cutoff, p) && p !in batch
    ensures |batch| == limit && forall r :: r in batch ==> r in Ahead(h, p)
  {
  }

  lemma BatchPasses(prefixes: set<string>, input: Input, h: History, h': History, batch: seq<string>,
                    p: string, failing: set<string>)
    requires Refreshed(prefixes, input, h, batch, h') && Distinct(batch) && p !in batch
    requires Tracked(h, p) && LastSeen(h, p) < input.now
    requires forall r :: r in batch ==> r in Ahead(h, p)
    requires forall r :: input.ingest(r).Snapshot? ==> input.ingest(r).at >= input.now
    requires forall q :: q in Ahead(h, p) - failing ==> Refreshes(prefixes, input, q)
    ensures Ahead(h', p) <= Ahead(h, p)
    ensures |Ahead(h', p) - failing| <= |Ahead(h, p) - failing| - (|batch| - |failing|)
  {
    var moved := Elements(batch) - failing;
    forall q | q in Ahead(h', p) ensures q in Ahead(h, p) && q !in moved {
      NotOvertaking(prefixes, input, h, h', batch, p, failing, q);
    }
    MovedCount(Ahead(h, p), Ahead(h', p), batch, failing);
  }

  lemma MovedCount(ahead: set<string>, ahead': set<string>, batch: seq<string>, failing: set<string>)
    requires Distinct(batch) && forall r :: r in batch ==> r in ahead
    requires forall q :: q in ahead' ==> q in ahead && q !in Elements(batch) - failing
    ensures |ahead' - failing| <= |ahead - failing| - (|batch| - |failing|)
  {
    var moved := Elements(batch) - failing;
    DistinctCount(batch);
    DifferenceCount(Elements(batch), failing);
    assert moved <= ahead - failing;
    SubsetCount(ahead' - failing, (ahead - failing) - moved);
  }

  lemma NotOvertaking(prefixes: set<string>, input: Input, h: History, h': History, batch: seq<string>,
                      p: string, failing: set<string>, q: string)
    requires Refreshed(prefixes, input, h, batch, h') && p !in batch
    requires Tracked(h, p) && LastSeen(h, p) < input.now
    requires forall r :: input.ingest(r).Snapshot? ==> input.ingest(r).at >= input.now
    requires forall r :: r in batch && r !in failing ==> Refreshes(prefixes, input, r) && Tracked(h, r)
    requires q in Ahead(h', p)
    ensures q in Ahead(h, p) && !(q in batch && q !in failing)
  {
    if q in batch && Refreshes(prefixes, input, q) && h[q] != [] { LatestSnoc(h[q], input.ingest(q).at); }
  }

  lemma DifferenceCount<T>(a: set<T>, b: set<T>)
    ensures |a - b| >= |a| - |b|
  {
    SubsetCount(a * b, b);
    assert a == (a - b) + (a * b);
  }

  /** While p waits, the healthy packages ahead of it shrink by what each tick
      can still refresh. */
  lemma QueueShrinks(prefixes: set<string>, interval: nat, limit: nat, inputs: seq<Input>, hs: seq<History>,
                     p: string, failing: set<string>, k: nat)
    requires Run(prefixes, interval, limit, inputs, hs) && interval > 0 && k <= |inputs|
    requires Tracked(hs[0], p) && Fair(prefixes, interval, inputs, hs[0], p, failing) && |failing| <= limit
    ensures Waiting(hs[0], hs[k], p, failing, Times(k, limit - |failing|))
  {
    WaitingStart(hs[0], p, failing);
    for i := 0 to k
      invariant Waiting(hs[0], hs[i], p, failing, Times(i, limit - |failing|))
    {
      QueueStep(prefixes, interval, limit, inputs, hs, p, failing, i + 1);
    }
  }

  lemma WaitingStart(h: History, p: string, failing: set<string>)
    requires Tracked(h, p)
    ensures Waiting(h, h, p, failing, 0)
  {
  }

  lemma QueueStep(prefixes: set<string>, interval: nat, limit: nat, inputs: seq<Input>, hs: seq<History>,
                  p: string, failing: set<string>, k: nat)
    requires Run(prefixes, interval, limit, inputs, hs) && interval > 0 && 0 < k <= |inputs|
    requires Fair(prefixes, interval, inputs, hs[0], p, failing) && |failing| <= limit
    requires Waiting(hs[0], hs[k - 1], p, failing, Times(k - 1, limit - |failing|))
    ensures Waiting(hs[0], hs[k], p, failing, Times(k, limit - |failing|))
  {
    assert Healthy(prefixes, interval, inputs[k - 1], hs[0], p, failing);
    TickAt(prefixes, interval, limit, inputs, hs, k);
    WaitingStep(prefixes, interval, limit, inputs[k - 1], hs[0], hs[k - 1], hs[k], p, failing,
      Times(k - 1, limit - |failing|));
  }

  lemma TickAt(prefixes: set<string>, interval: nat, limit: nat, inputs: seq<Input>, hs: seq<History>, k: nat)
    requires Run(prefixes, interval, limit, inputs, hs) && 0 < k <= |inputs|
    ensures Tick(prefixes, interval, limit, inputs[k - 1], hs[k - 1], hs[k])
  {
    assert Tick(prefixes, interval, limit, inputs[k - 1], hs[k - 1], hs[k - 1 + 1]);
  }

  ghost function Times(k: nat, n: int): int {
    if k == 0 then 0 else Times(k - 1, n) + n
  }

  lemma {:induction false} TimesIsProduct(k: nat, n: int)
    ensures Times(k, n) == k * n
  {
    if k == 0 {
    } else {
      TimesIsProduct(k - 1, n);
    }
  }

  /** One tick's input under which p and the packages ahead of it that are not
      among `failing` are refreshed when their turn comes. */
  ghost predicate Healthy(prefixes: set<string>, interval: nat, input: Input, h: History, p: string,
      failing: set<string>) {
    && Stale(h, input.now - interval, p) && Refreshes(prefixes, input, p)
    && (forall r :: input.ingest(r).Snapshot? ==> input.ingest(r).at >= input.now)
    && (forall q :: q in Ahead(h, p) - failing ==> Refreshes(prefixes, input, q))
  }

  ghost predicate Fair(prefixes: set<string>, interval: nat, inputs: seq<Input>, h: History, p: string,
      failing: set<string>) {
    forall k {:trigger inputs[k]} :: 0 <= k < |inputs| ==> Healthy(prefixes, interval, inputs[k], h, p, failing)
  }

  lemma HealthyAt(prefixes: set<string>, interval: nat, inputs: seq<Input>, h: History, p: string,
      failing: set<string>, k: nat)
    requires ClockRises(inputs) && k < |inputs|
    requires Stale(h, inputs[0].now - interval, p) && NeverFails(prefixes, inputs, p)
    requires forall q :: q in Ahead(h, p) - failing ==> NeverFails(prefixes, inputs, q)
    ensures Healthy(prefixes, interval, inputs[k], h, p, failing)
  {
    assert inputs[0].now <= inputs[k].now;
    assert Refreshes(prefixes, inputs[k], p);
    forall q | q in Ahead(h, p) - failing ensures Refreshes(prefixes, inputs[k], q) {
      assert NeverFails(prefixes, inputs, q);
    }
  }

  /** p is still tracked, and while it has no new snapshot the healthy packages
      ahead of it are at least `gone` fewer. */
  ghost predicate Waiting(h0: History, h: History, p: string, failing: set<string>, gone: int) {
    && Tracked(h0, p) && Tracked(h, p) && |h[p]| >= |h0[p]|
    && (|h[p]| == |h0[p]| ==>
          && h[p] == h0[p] && Ahead(h, p) <= Ahead(h0, p)
          && |Ahead(h, p) - failing| <= |Ahead(h0, p) - failing| - gone)
  }

  lemma WaitingStep(prefixes: set<string>, interval: nat, limit: nat, input: Input, h0: History, h: History,
      h': History,
                    p: string, failing: set<string>, gone: int)
    requires Waiting(h0, h, p, failing, gone) && Tick(prefixes, interval, limit, input, h, h') && interval > 0
    requires Healthy(prefixes, interval, input, h0, p, failing)
    requires |failing| <= limit
    ensures Waiting(h0, h', p, failing, gone + (limit - |failing|))
  {
    TickKeepsHistory(prefixes, interval, limit, input, h, h', p);
    if |h[p]| == |h0[p]| {
      TickAdvances(prefixes, interval, limit, input, h, h', p, failing);
    }
  }

  lemma TickKeepsHistory(prefixes: set<string>, interval: nat, limit: nat, input: Input, h: History, h': History,
      p: string)
    requires Tick(prefixes, interval, limit, input, h, h') && Tracked(h, p)
    ensures Tracked(h', p) && h[p] <= h'[p]
  {
    var batch :| StalestFirst(h, input.now - interval, limit, batch) && Refreshed(prefixes, input, h, batch, h');
  }

  /** No starvation: if fewer than a batch of the packages at least as stale as
      p keep failing, p is refreshed as soon as the remaining places of the
      ticks add up to the other packages at least as stale as p, itself
      included. Without failures that is ceil(m / batch) ticks. */
  lemma NoStarvation(prefixes: set<string>, interval: nat, limit: nat, inputs: seq<Input>, hs: seq<History>,
                     p: string, failing: set<string>)
    requires Run(prefixes, interval, limit, inputs, hs) && ClockRises(inputs) && interval > 0
    requires inputs != [] && Stale(hs[0], inputs[0].now - interval, p) && NeverFails(prefixes, inputs, p)
    requires forall q :: q in Ahead(hs[0], p) - failing ==> NeverFails(prefixes, inputs, q)
    requires p !in failing && |failing| < limit
    requires |inputs| * (limit - |failing|) >= |Ahead(hs[0], p) - failing|
    ensures p in hs[|inputs|] && |hs[|inputs|][p]| > |hs[0][p]|
  {
    var n := |inputs|;
    forall k | 0 <= k < n ensures Healthy(prefixes, interval, inputs[k], hs[0], p, failing) {
      HealthyAt(prefixes, interval, inputs, hs[0], p, failing, k);
    }
    QueueShrinks(prefixes, interval, limit, inputs, hs, p, failing, n);
    TimesIsProduct(n, limit - |failing|);
    SelfAhead(hs[n], p, failing);
  }

  lemma SelfAhead(h: History, p: string, failing: set<string>)
    requires Tracked(h, p) && p !in failing
    ensures |Ahead(h, p) - failing| >= 1
  {
    assert p in Ahead(h, p) - failing;
  }

  /** Starvation: a batch of strictly staler packages that keep failing (no
      ingestor, not found upstream) is retried on every tick, and p never. */
  lemma {:induction false} Starvation(prefixes: set<string>, interval: nat, limit: nat, inputs: seq<Input>,
      hs: seq<History>,
                                      p: string, failing: set<string>, k: nat)
    requires Run(prefixes, interval, limit, inputs, hs) && k <= |inputs|
    requires Tracked(hs[0], p) && |failing| >= limit
    requires forall q :: q in failing ==> q in hs[0] && Tracked(hs[0], q) && LastSeen(hs[0], q) < LastSeen(hs[0], p)
    requires forall q :: q in failing ==> AlwaysFails(prefixes, inputs, q)
    ensures p in hs[k] && hs[k][p] == hs[0][p]
    ensures forall q :: q in failing ==> q in hs[k] && hs[k][q] == hs[0][q]
  {
    if k == 0 {
    } else {
      Starvation(prefixes, interval, limit, inputs, hs, p, failing, k - 1);
      assert Tick(prefixes, interval, limit, inputs[k - 1], hs[k - 1], hs[k - 1 + 1]);
      assert forall q :: q in failing ==> !Refreshes(prefixes, inputs[k - 1], q);
      assert forall q :: q in failing ==> LastSeen(hs[k - 1], q) == LastSeen(hs[0], q);
      StarvedTick(prefixes, interval, limit, inputs[k - 1], hs[k - 1], hs[k], p, failing);
    }
  }

  lemma StarvedTick(prefixes: set<string>, interval: nat, limit: nat, input: Input, h: History, h': History,
                    p: string, failing: set<string>)
    requires Tick(prefixes, interval, limit, input, h, h')
    requires Tracked(h, p) && |failing| >= limit
    requires forall q :: q in failing ==> q in h && Tracked(h, q) && LastSeen(h, q) < LastSeen(h, p)
    requires forall q :: q in failing ==> !Refreshes(prefixes, input, q)
    ensures p in h' && h'[p] == h[p]
    ensures forall q :: q in failing ==> q in h' && h'[q] == h[q]
  {
    var batch :| StalestFirst(h, input.now - interval, limit, batch) && Refreshed(prefixes, input, h, batch, h');
    StarvedBatch(prefixes, interval, limit, input, h, h', batch, p, failing);
  }

  lemma StarvedBatch(prefixes: set<string>, interval: nat, limit: nat, input: Input, h: History, h': History,
                     batch: seq<string>, p: string, failing: set<string>)
    requires StalestFirst(h, input.now - interval, limit, batch) && Refreshed(prefixes, input, h, batch, h')
    requires Tracked(h, p) && |failing| >= limit
    requires forall q :: q in failing ==> q in h && Tracked(h, q) && LastSeen(h, q) < LastSeen(h, p)
    requires forall q :: q in failing ==> !Refreshes(prefixes, input, q)
    ensures p in h' && h'[p] == h[p]
    ensures forall q :: q in failing ==> q in h' && h'[q] == h[q]
  {
    BatchIsFailing(h, input.now - interval, limit, batch, p, failing);
    NotRefreshed(prefixes, input, h, h', batch, p);
    forall q | q in failing ensures q in h' && h'[q] == h[q] { NotRefreshed(prefixes, input, h, h', batch, q); }
  }

  lemma NotRefreshed(prefixes: set<string>, input: Input, h: History, h': History, batch: seq<string>, r: string)
    requires Refreshed(prefixes, input, h, batch, h') && r in h
    requires r !in batch || !Refreshes(prefixes, input, r)
    ensures r in h' && h'[r] == h[r]
  {
  }

  lemma BatchIsFailing(h: History, cutoff: int, limit: nat, batch: seq<string>, p: string, failing: set<string>)
    requires StalestFirst(h, cutoff, limit, batch) && |failing| >= limit
    requires forall q :: q in failing ==> Tracked(h, q) && LastSeen(h, q) < LastSeen(h, p)
    ensures p !in batch
  {
    if p in batch {
      forall q | q in failing ensures q in batch { assert Stale(h, cutoff, q); }
      TooMany(batch, failing, p);
    }
  }

  lemma TooMany(batch: seq<string>, failing: set<string>, p: string)
    requires Distinct(batch) && p in batch && p !in failing && forall q :: q in failing ==> q in batch
    ensures |batch| > |failing|
  {
    DistinctCount(batch);
    SubsetCount(failing + {p}, Elements(batch));
  }

  // ---------------------------------------------------------------------
  // Exactly when a package is refreshed
  // ---------------------------------------------------------------------

  /** The packages staler than p that fail on every tick. */
  ghost function AlwaysFailing(prefixes: set<string>, inputs: seq<Input>, h: History, p: string): set<string> {
    set q | q in Ahead(h, p) && q != p && AlwaysFails(prefixes, inputs, q)
  }

  /** If nothing ties with p and every package ahead of it fails always or
      never, then p is refreshed in a long enough run if and only if fewer than
      a batch of the packages ahead of it always fail. */
  lemma RefreshedIff(prefixes: set<string>, interval: nat, limit: nat, inputs: seq<Input>, hs: seq<History>, p: string)
    requires Run(prefixes, interval, limit, inputs, hs) && ClockRises(inputs) && interval > 0
    requires |inputs| >= |Ahead(hs[0], p)| && inputs != []
    requires Stale(hs[0], inputs[0].now - interval, p) && NeverFails(prefixes, inputs, p)
    requires forall q :: q in Ahead(hs[0], p) && q != p ==>
      && LastSeen(hs[0], q) < LastSeen(hs[0], p)
      && (AlwaysFails(prefixes, inputs, q) || NeverFails(prefixes, inputs, q))
    ensures p in hs[0] && p in hs[|inputs|]
    ensures |hs[|inputs|][p]| > |hs[0][p]| <==> |AlwaysFailing(prefixes, inputs, hs[0], p)| < limit
  {
    var failing, ahead := AlwaysFailing(prefixes, inputs, hs[0], p), Ahead(hs[0], p);
    if |failing| < limit {
      forall q | q in ahead - failing ensures NeverFails(prefixes, inputs, q) { }
      SubsetCount(ahead - failing, ahead);
      AtLeast(|inputs|, limit - |failing|);
      NoStarvation(prefixes, interval, limit, inputs, hs, p, failing);
    } else {
      Starvation(prefixes, interval, limit, inputs, hs, p, failing, |inputs|);
    }
  }

  lemma AtLeast(n: nat, k: int)
    requires k >= 1
    ensures n * k >= n
  {
  }
}
