/** What the version-jump detector reports, in terms of the version numbers of a
    package's history. */
module VersionNumbers {
  import opened Ordering
  import opened Int64
  import opened VersionJump

  /** Numbers no real version reaches; below them nothing wraps. */
  predicate Small(v: Version) {
    v.major < TWO62 && v.minor < TWO62
  }

  ghost predicate AllSmall(vs: seq<Version>) {
    forall i :: 0 <= i < |vs| ==> Small(vs[i])
  }

  /** From a to b is a step of size d: in minors below 1.0, in majors from 1.0
      on, and 1 for leaving 0.x whatever the major that follows. */
  predicate Steps(a: Version, b: Version, d: int) {
    || (a.major == 0 && b.major == 0 && b.minor == a.minor + d)
    || (a.major == 0 && b.major > 0 && d == 1)
    || (a.major > 0 && b.major == a.major + d)
  }

  lemma StepIff(a: Version, b: Version, d: int)
    requires Small(a) && Small(b)
    ensures Steps(a, b, d) <==> d == BreakingDelta(a, b)
  {
  }

  /** The step from place i to the next one has size d. */
  predicate StepAt(vs: seq<Version>, i: nat, d: int)
    requires i + 1 < |vs|
  {
    Steps(vs[i], vs[i + 1], d)
  }

  lemma JumpIsStep(vs: seq<Version>, i: nat)
    requires AllSmall(vs) && i + 1 < |vs|
    ensures forall d :: StepAt(vs, i, d) <==> d == Jumps(vs)[i]
  {
    forall d ensures StepAt(vs, i, d) <==> d == Jumps(vs)[i] { StepIff(vs[i], vs[i + 1], d); }
  }

  /** The newest step has size d, is at least 2, and is more than twice every
      step before it. */
  ghost predicate StandsOut(vs: seq<Version>, d: int)
    requires |vs| >= 2
  {
    && StepAt(vs, |vs| - 2, d) && d >= 2
    && forall i: nat, e :: i + 2 < |vs| && StepAt(vs, i, e) ==> d > 2 * e
  }

  /** There is an alarm exactly when the newest step stands out; it names the two
      newest versions, the size of the step, how many steps came before it, and
      the largest of them, or zero. */
  lemma AlarmMeans(vs: seq<Version>)
    requires AllSmall(vs)
    ensures AlarmOf(vs).Some? <==> |vs| >= 2 && exists d :: StandsOut(vs, d)
    ensures AlarmOf(vs).Some? ==>
      var alarm := AlarmOf(vs).value;
      && |vs| >= 2 && alarm.previous == vs[|vs| - 2] && alarm.current == vs[|vs| - 1]
      && StandsOut(vs, alarm.delta) && alarm.historicalCount == |vs| - 2
      && (forall i: nat, e :: i + 2 < |vs| && StepAt(vs, i, e) ==> e <= alarm.historicalMax)
      && (alarm.historicalMax == 0 || exists i: nat :: i + 2 < |vs| && StepAt(vs, i, alarm.historicalMax))
  {
    if |vs| >= 2 {
      var js, n := Jumps(vs), |vs| - 2;
      HistoryMax(vs);
      JumpIsStep(vs, n);
      NoWrap(vs);
      assert AlarmOf(vs).Some? <==> js[n] >= 2 && js[n] > 2 * MaxOf(js[..n]);
      StandsOutIff(vs, js[n]);
      if d :| StandsOut(vs, d) { assert d == js[n]; }
    }
  }

  /** The maximum over the steps before the newest one. */
  lemma HistoryMax(vs: seq<Version>)
    requires AllSmall(vs) && |vs| >= 2
    ensures var m := MaxOf(Jumps(vs)[..|vs| - 2]);
      && (forall i: nat, e :: i + 2 < |vs| && StepAt(vs, i, e) ==> e <= m)
      && (m == 0 || exists i: nat :: i + 2 < |vs| && StepAt(vs, i, m))
  {
    var js, n := Jumps(vs), |vs| - 2;
    var m := MaxOf(js[..n]);
    forall i: nat, e | i + 2 < |vs| && StepAt(vs, i, e) ensures e <= m {
      JumpIsStep(vs, i);
      assert js[..n][i] == e && e in js[..n];
    }
    if m != 0 {
      var i :| 0 <= i < n && js[..n][i] == m;
      JumpIsStep(vs, i);
      assert StepAt(vs, i, m);
    }
  }

  lemma NoWrap(vs: seq<Version>)
    requires AllSmall(vs) && |vs| >= 2
    ensures Wrap(2 * MaxOf(Jumps(vs)[..|vs| - 2])) == 2 * MaxOf(Jumps(vs)[..|vs| - 2])
  {
    HistoryMax(vs);
    var m := MaxOf(Jumps(vs)[..|vs| - 2]);
    if m != 0 {
      var i: nat :| i + 2 < |vs| && StepAt(vs, i, m);
      assert Small(vs[i]) && Small(vs[i + 1]);
    }
  }

  lemma StandsOutIff(vs: seq<Version>, d: int)
    requires AllSmall(vs) && |vs| >= 2 && StepAt(vs, |vs| - 2, d)
    ensures StandsOut(vs, d) <==> d >= 2 && d > 2 * MaxOf(Jumps(vs)[..|vs| - 2])
  {
    HistoryMax(vs);
    var m := MaxOf(Jumps(vs)[..|vs| - 2]);
    if m != 0 {
      var i: nat :| i + 2 < |vs| && StepAt(vs, i, m);
    }
  }

  // ---------------------------------------------------------------------
  // Confidence
  // ---------------------------------------------------------------------

  /** The places before the newest step where the step has size zero. */
  ghost function Standstills(vs: seq<Version>): set<nat> {
    set i: nat | i + 2 < |vs| && StepAt(vs, i, 0)
  }

  /** High confidence takes a step of 5 or more after at least five standstills,
      medium two earlier steps, and anything else is low. */
  lemma ConfidenceMeans(vs: seq<Version>)
    requires AllSmall(vs) && AlarmOf(vs).Some?
    ensures var alarm := AlarmOf(vs).value;
      && (alarm.confidence == High <==> alarm.delta >= 5 && |Standstills(vs)| >= 5)
      && (alarm.confidence == Low <==> |vs| < 4)
  {
    var js, n := Jumps(vs), |vs| - 2;
    ZerosCount(js[..n]);
    forall i: nat | i < n ensures StepAt(vs, i, 0) <==> js[..n][i] == 0 { JumpIsStep(vs, i); }
    assert Standstills(vs) == ZeroPlaces(js[..n]);
    AlarmMeans(vs);
    if |vs| < 4 { FewPlaces(js[..n]); }
  }

  ghost function ZeroPlaces(xs: seq<int>): set<nat> {
    set i: nat | i < |xs| && xs[i] == 0
  }

  lemma {:induction false} ZerosCount(xs: seq<int>)
    ensures Zeros(xs) == |ZeroPlaces(xs)|
  {
    if xs == [] {
      assert ZeroPlaces(xs) == {};
    } else {
      var n := |xs| - 1;
      ZerosCount(xs[..n]);
      assert ZeroPlaces(xs) == if xs[n] == 0 then ZeroPlaces(xs[..n]) + {n} else ZeroPlaces(xs[..n]);
    }
  }

  lemma {:induction false} FewPlaces(xs: seq<int>)
    ensures Zeros(xs) <= |xs|
  {
    if xs == [] {
    } else {
      FewPlaces(xs[..|xs| - 1]);
    }
  }

  // ---------------------------------------------------------------------
  // Two versions
  // ---------------------------------------------------------------------

  /** Below 1.0 the first jump alarms when the minor moves by two or more. */
  lemma MinorJumpAlarms(p: Version, c: Version)
    requires Small(p) && Small(c) && p.major == 0 && c.major == 0
    ensures AlarmOf([p, c]).Some? <==> c.minor >= p.minor + 2
    ensures AlarmOf([p, c]).Some? ==> AlarmOf([p, c]).value.delta == c.minor - p.minor
  {
    TwoMeans(p, c, c.minor - p.minor);
  }

  /** From 1.0 on it alarms when the major does. */
  lemma MajorJumpAlarms(p: Version, c: Version)
    requires Small(p) && Small(c) && p.major >= 1
    ensures AlarmOf([p, c]).Some? <==> c.major >= p.major + 2
    ensures AlarmOf([p, c]).Some? ==> AlarmOf([p, c]).value.delta == c.major - p.major
  {
    TwoMeans(p, c, c.major - p.major);
  }

  lemma TwoMeans(p: Version, c: Version, d: int)
    requires Small(p) && Small(c) && Steps(p, c, d)
    ensures AlarmOf([p, c]).Some? <==> d >= 2
    ensures AlarmOf([p, c]).Some? ==> AlarmOf([p, c]).value.delta == d
  {
    var vs := [p, c];
    AlarmMeans(vs);
    assert StepAt(vs, 0, d);
    JumpIsStep(vs, 0);
    if d >= 2 { assert StandsOut(vs, d); }
  }

  /** Leaving 0.x never alarms, whatever came before and whatever major it is. */
  lemma GoingStableIsQuiet(vs: seq<Version>)
    requires AllSmall(vs) && |vs| >= 2 && vs[|vs| - 2].major == 0 && vs[|vs| - 1].major >= 1
    ensures AlarmOf(vs).None?
  {
    AlarmMeans(vs);
    JumpIsStep(vs, |vs| - 2);
    assert StepAt(vs, |vs| - 2, 1);
  }

  // ---------------------------------------------------------------------
  // Which snapshots take part
  // ---------------------------------------------------------------------

  /** A snapshot without a version, with one that does not parse, or with a
      pre-release takes no part. */
  lemma OthersAreIgnored(parse: Parse, newer: seq<string>, raw: string, older: seq<string>)
    requires raw == "" || parse(raw) == None || parse(raw).value.prerelease != ""
    ensures Extract(parse, newer + [raw] + older) == Extract(parse, newer + older)
  {
    SkipsUnusable(parse, newer, raw, older);
  }

  /** Of two neighbouring snapshots of one release the older one takes part. */
  lemma RepetitionIsIgnored(parse: Parse, newer: seq<string>, a: string, b: string, older: seq<string>)
    requires a != "" && b != "" && parse(a).Some? && parse(b).Some?
    requires var v, w := parse(a).value, parse(b).value;
      v.major == w.major && v.minor == w.minor && v.patch == w.patch && v.prerelease == w.prerelease == ""
    ensures Extract(parse, newer + [a] + ([b] + older)) == Extract(parse, newer + ([b] + older))
  {
    var rest := [b] + older;
    assert rest[1..] == older && ([a] + rest)[1..] == rest;
    assert newer + [a] + rest == newer + ([a] + rest);
    ExtractSplit(parse, newer, [a] + rest, rest);
  }

  /** Releases of which no two neighbours are the same take part as they are,
      oldest first. */
  lemma {:induction false} ReleasesInOrder(parse: Parse, history: seq<string>, releases: seq<Version>)
    requires |releases| == |history|
    requires forall i :: 0 <= i < |history| ==>
      history[i] != "" && parse(history[i]) == Some(releases[i]) && releases[i].prerelease == ""
    requires forall i :: 0 <= i < |releases| - 1 ==>
      releases[i].major != releases[i + 1].major || releases[i].minor != releases[i + 1].minor
      || releases[i].patch != releases[i + 1].patch
    ensures var vs := Extract(parse, history);
      |vs| == |releases| && forall i :: 0 <= i < |vs| ==> vs[i] == releases[|vs| - 1 - i]
  {
    if history == [] {
    } else {
      ReleasesInOrder(parse, history[1..], releases[1..]);
      var older := Extract(parse, history[1..]);
      assert Usable(parse, history[0]) == Some(releases[0]);
      assert older != [] ==> older[|older| - 1] == releases[1];
    }
  }
}
