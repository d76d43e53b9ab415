/** The version-jump detector: a release whose breaking delta stands out from
    the package's history. Semver parsing is the parameter `parse`. */
module VersionJump {
  import opened Ordering
  import opened Int64

  /** `original` is the spelling that was parsed, build metadata included. */
  datatype Version = Version(major: nat, minor: nat, patch: nat, prerelease: string, original: string)

  /** The comparison of the duplicate test: everything but the spelling. */
  predicate SameVersion(a: Version, b: Version) {
    a == b.(original := a.original)
  }

  type Parse = string -> Option<Version>

  datatype Confidence = Low | Medium | High

  datatype Alarm = Alarm(
    previous: Version,
    current: Version,
    delta: int,
    historicalMax: int,
    historicalCount: nat,
    confidence: Confidence)

  // ---------------------------------------------------------------------
  // Versions
  // ---------------------------------------------------------------------

  /** The version of a snapshot, if it takes part in the comparison. */
  function Usable(parse: Parse, raw: string): Option<Version> {
    if raw == "" then None
    else
      match parse(raw)
      case None => None
      case Some(v) => if v.prerelease != "" then None else Some(v)
  }

  function Push(vs: seq<Version>, v: Version): seq<Version> {
    if EndsIn(vs, v) then vs else vs + [v]
  }

  predicate EndsIn(vs: seq<Version>, v: Version) {
    vs != [] && SameVersion(vs[|vs| - 1], v)
  }

  /** The usable versions of a newest-first history, oldest first, without
      consecutive repetitions. */
  function Extract(parse: Parse, history: seq<string>): seq<Version> {
    if history == [] then []
    else
      var older := Extract(parse, history[1..]);
      match Usable(parse, history[0])
      case None => older
      case Some(v) => Push(older, v)
  }

  method ExtractVersionsOldestFirst(parse: Parse, history: seq<string>) returns (out: seq<Version>)
    ensures out == Extract(parse, history)
  {
    out := [];
    for i := |history| downto 0
      invariant out == Extract(parse, history[i..])
    {
      assert history[i..][1..] == history[i + 1..];
      assert history[i..][0] == history[i];
      var raw := history[i];
      if raw == "" { continue; }
      var v := parse(raw);
      if v.None? { continue; }
      if v.value.prerelease != "" { continue; }
      if |out| > 0 && SameVersion(out[|out| - 1], v.value) { continue; }
      out := out + [v.value];
    }
    assert history[0..] == history;
  }

  // ---------------------------------------------------------------------
  // Jumps
  // ---------------------------------------------------------------------

  /** In int64, as the code computes it. */
  function BreakingDelta(prev: Version, curr: Version): int {
    var p, c := Wrap(prev.major), Wrap(curr.major);
    if p == 0 && c == 0 then Wrap(Wrap(curr.minor) - Wrap(prev.minor))
    else if p == 0 && c >= 1 then 1
    else Wrap(c - p)
  }

  function Jumps(vs: seq<Version>): (js: seq<int>)
    ensures |js| == if vs == [] then 0 else |vs| - 1
    ensures forall i {:trigger js[i]} :: 0 <= i < |js| ==> js[i] == BreakingDelta(vs[i], vs[i + 1])
  {
    if vs == [] then [] else seq(|vs| - 1, i requires 0 <= i < |vs| - 1 => BreakingDelta(vs[i], vs[i + 1]))
  }

  function MaxOf(xs: seq<int>): (m: nat)
    ensures forall x :: x in xs ==> x <= m
    ensures m == 0 || m in xs
  {
    if xs == [] then 0
    else
      var n := |xs| - 1;
      var m := MaxOf(xs[..n]);
      assert forall x :: x in xs <==> x in xs[..n] || x == xs[n];
      if xs[n] > m then xs[n] else m
  }

  function Zeros(xs: seq<int>): nat {
    if xs == [] then 0 else Zeros(xs[..|xs| - 1]) + (if xs[|xs| - 1] == 0 then 1 else 0)
  }

  method MaxOrZero(xs: seq<int>) returns (m: int)
    ensures m == MaxOf(xs)
  {
    m := 0;
    for i := 0 to |xs|
      invariant m == MaxOf(xs[..i])
    {
      assert xs[..i + 1][..i] == xs[..i];
      if xs[i] > m { m := xs[i]; }
    }
    assert xs[..|xs|] == xs;
  }

  /** Doubling the maximum wraps in int64. */
  predicate IsUnusual(latest: int, historical: seq<int>) {
    latest >= 2 && latest > Wrap(2 * MaxOf(historical))
  }

  function Grade(latest: int, zeros: nat, count: nat): Confidence {
    if zeros >= 5 && latest >= 5 then High
    else if count >= 2 && latest >= 2 then Medium
    else Low
  }

  method Classify(latest: int, historical: seq<int>) returns (c: Confidence)
    ensures c == Grade(latest, Zeros(historical), |historical|)
  {
    var patchOrMinor := 0;
    for i := 0 to |historical|
      invariant patchOrMinor == Zeros(historical[..i])
    {
      assert historical[..i + 1][..i] == historical[..i];
      if historical[i] == 0 { patchOrMinor := patchOrMinor + 1; }
    }
    assert historical[..|historical|] == historical;
    c := Grade(latest, patchOrMinor, |historical|);
  }

  /** The verdict on the latest jump. */
  function Judge(previous: Version, current: Version, latest: int, historical: seq<int>): Option<Alarm> {
    if latest <= 0 || !IsUnusual(latest, historical) then None
    else
      Some(Alarm(previous, current, latest, MaxOf(historical), |historical|,
                 Grade(latest, Zeros(historical), |historical|)))
  }

  /** The alarm a sequence of versions raises. */
  function AlarmOf(vs: seq<Version>): Option<Alarm> {
    if |vs| < 2 then None
    else
      var js := Jumps(vs);
      Judge(vs[|vs| - 2], vs[|vs| - 1], js[|js| - 1], js[..|js| - 1])
  }

  method ComputeJumps(vs: seq<Version>) returns (js: seq<int>)
    requires |vs| >= 2
    ensures js == Jumps(vs)
  {
    js := [];
    for i := 1 to |vs|
      invariant |js| == i - 1 && forall j :: 0 <= j < i - 1 ==> js[j] == BreakingDelta(vs[j], vs[j + 1])
    {
      js := js + [BreakingDelta(vs[i - 1], vs[i])];
    }
  }

  method Detect(parse: Parse, history: seq<string>) returns (alarm: Option<Alarm>)
    ensures alarm == AlarmOf(Extract(parse, history))
  {
    var versions := ExtractVersionsOldestFirst(parse, history);
    if |versions| < 2 { return None; }
    var jumps := ComputeJumps(versions);
    var latest := jumps[|jumps| - 1];
    if latest <= 0 { return None; }
    var historical := jumps[..|jumps| - 1];
    var max := MaxOrZero(historical);
    if latest < 2 || latest <= Wrap(2 * max) { return None; }
    var conf := Classify(latest, historical);
    alarm := Some(Alarm(versions[|versions| - 2], versions[|versions| - 1], latest, max, |historical|, conf));
  }

  // ---------------------------------------------------------------------
  // Spelling does not matter to the verdict
  // ---------------------------------------------------------------------

  ghost predicate SameVersions(a: seq<Version>, b: seq<Version>) {
    |a| == |b| && forall i :: 0 <= i < |a| ==> SameVersion(a[i], b[i])
  }

  /** The same verdict, spelled differently perhaps. */
  predicate Alike(a: Option<Alarm>, b: Option<Alarm>) {
    && (a.Some? <==> b.Some?)
    && (a.Some? ==>
          && SameVersion(a.value.previous, b.value.previous) && SameVersion(a.value.current, b.value.current)
          && a.value == b.value.(previous := a.value.previous, current := a.value.current))
  }

  lemma SameJumps(a: seq<Version>, b: seq<Version>)
    requires SameVersions(a, b)
    ensures Jumps(a) == Jumps(b)
  {
    var ja, jb := Jumps(a), Jumps(b);
    forall i | 0 <= i < |ja| ensures ja[i] == jb[i] { SameDelta(a[i], a[i + 1], b[i], b[i + 1]); }
  }

  lemma SameDelta(p: Version, c: Version, p': Version, c': Version)
    requires SameVersion(p, p') && SameVersion(c, c')
    ensures BreakingDelta(p, c) == BreakingDelta(p', c')
  {
    assert p.major == p'.major && p.minor == p'.minor && c.major == c'.major && c.minor == c'.minor;
  }

  /** Alarms about the same versions are alike, and equal exactly when the two
      reported versions are spelled the same. */
  lemma AlarmsAlike(a: seq<Version>, b: seq<Version>)
    requires SameVersions(a, b)
    ensures Alike(AlarmOf(a), AlarmOf(b))
    ensures AlarmOf(a) == AlarmOf(b) <==>
      AlarmOf(a).None? || (|a| >= 2 && a[|a| - 2] == b[|a| - 2] && a[|a| - 1] == b[|a| - 1])
  {
    SameJumps(a, b);
    if |a| >= 2 {
      var js, n := Jumps(a), |a|;
      assert SameVersion(a[n - 2], b[n - 2]) && SameVersion(a[n - 1], b[n - 1]);
      AlarmIsJudged(a, a[n - 2], a[n - 1], js[n - 2], js[..n - 2]);
      AlarmIsJudged(b, b[n - 2], b[n - 1], js[n - 2], js[..n - 2]);
    }
  }

  // ---------------------------------------------------------------------
  // Noise does not matter
  // ---------------------------------------------------------------------

  /** The oldest usable version of a history: the next newer one to whatever is
      put at its old end. */
  function OldestUsable(parse: Parse, history: seq<string>): Option<Version> {
    if history == [] then None
    else
      var n := |history| - 1;
      match Usable(parse, history[n])
      case Some(v) => Some(v)
      case None => OldestUsable(parse, history[..n])
  }

  /** A snapshot put between `newer` and `older` that adds nothing: unusable, or
      a repetition of the version on either side of it. */
  ghost predicate Redundant(parse: Parse, newer: seq<string>, raw: string, older: seq<string>) {
    var v := Usable(parse, raw);
    var next := OldestUsable(parse, newer);
    || v.None?
    || EndsIn(Extract(parse, older), v.value)
    || (next.Some? && SameVersion(next.value, v.value))
  }

  /** A repetition that is not one of the version before it is kept in place of
      the next newer snapshot; it shows if it is spelled differently and among
      the two versions an alarm reports. */
  ghost predicate Respells(parse: Parse, newer: seq<string>, raw: string, older: seq<string>) {
    var v := Usable(parse, raw);
    && v.Some? && !EndsIn(Extract(parse, older), v.value) && OldestUsable(parse, newer) != v
    && |Extract(parse, newer + older)| <= |Extract(parse, older)| + 2
  }

  lemma {:induction false} ExtractSplit(parse: Parse, newer: seq<string>, older: seq<string>, older': seq<string>)
    requires Extract(parse, older) == Extract(parse, older')
    ensures Extract(parse, newer + older) == Extract(parse, newer + older')
  {
    if newer == [] {
      assert newer + older == older && newer + older' == older';
    } else {
      ExtractSplit(parse, newer[1..], older, older');
      assert (newer + older)[1..] == newer[1..] + older && (newer + older')[1..] == newer[1..] + older';
    }
  }

  /** Inserting a redundant snapshot anywhere changes neither whether the
      detector fires nor the versions, the delta, the maximum, the count or the
      confidence it reports. The spelling of a reported version changes exactly
      when the snapshot respells it. */
  lemma NoiseIsHarmless(parse: Parse, newer: seq<string>, raw: string, older: seq<string>)
    requires Redundant(parse, newer, raw, older)
    ensures var a, b := AlarmOf(Extract(parse, newer + older)), AlarmOf(Extract(parse, newer + [raw] + older));
      Alike(a, b) && (a == b <==> a.None? || !Respells(parse, newer, raw, older))
  {
    var v := Usable(parse, raw);
    var before := Extract(parse, older);
    if v.None? || EndsIn(before, v.value) {
      assert ([raw] + older)[1..] == older;
      assert newer + [raw] + older == newer + ([raw] + older);
      ExtractSplit(parse, newer, [raw] + older, older);
      AlarmsAlike(Extract(parse, newer + older), Extract(parse, newer + older));
    } else {
      var y := OldestUsable(parse, newer).value;
      var rest := TakesOver(parse, newer, raw, older);
      RespelledAlarm(before, y, v.value, rest);
    }
  }

  lemma RespelledAlarm(before: seq<Version>, y: Version, v: Version, rest: seq<Version>)
    requires SameVersion(y, v)
    ensures var a, b := before + [y] + rest, before + [v] + rest;
      Alike(AlarmOf(a), AlarmOf(b)) && (AlarmOf(a) == AlarmOf(b) <==> AlarmOf(a).None? || y == v || |rest| >= 2)
  {
    var a, b, k := before + [y] + rest, before + [v] + rest, |before|;
    assert forall i :: 0 <= i < |a| ==> a[i] == b[i] || (i == k && a[i] == y && b[i] == v);
    assert a[k] == y && b[k] == v;
    AlarmsAlike(a, b);
  }

  /** In a repetition of the next newer version the inserted snapshot is the
      one that is kept. */
  lemma {:induction false} TakesOver(parse: Parse, newer: seq<string>, raw: string, older: seq<string>)
    returns (rest: seq<Version>)
    requires Usable(parse, raw).Some? && !EndsIn(Extract(parse, older), Usable(parse, raw).value)
    requires OldestUsable(parse, newer).Some?
    requires SameVersion(OldestUsable(parse, newer).value, Usable(parse, raw).value)
    ensures Extract(parse, newer + older) == Extract(parse, older) + [OldestUsable(parse, newer).value] + rest
    ensures Extract(parse, newer + [raw] + older) == Extract(parse, older) + [Usable(parse, raw).value] + rest
    decreases |newer|
  {
    var n := |newer| - 1;
    var front, last := newer[..n], newer[n];
    assert newer == front + [last] && newer + [raw] + older == newer + ([raw] + older);
    if Usable(parse, last).None? {
      rest := TakesOver(parse, front, raw, older);
      SkipsUnusable(parse, front, last, [raw] + older);
      SkipsUnusable(parse, front, last, older);
      assert front + [raw] + older == front + ([raw] + older);
    } else {
      var once, twice := [last] + older, [last] + ([raw] + older);
      assert newer + older == front + once && newer + ([raw] + older) == front + twice;
      OnceAndTwice(parse, last, raw, older);
      rest := OnTop(parse, front, once, twice);
    }
  }

  lemma OnceAndTwice(parse: Parse, last: string, raw: string, older: seq<string>)
    requires Usable(parse, raw).Some? && Usable(parse, last).Some?
    requires SameVersion(Usable(parse, last).value, Usable(parse, raw).value)
    requires !EndsIn(Extract(parse, older), Usable(parse, raw).value)
    ensures Extract(parse, [last] + older) == Extract(parse, older) + [Usable(parse, last).value]
    ensures Extract(parse, [last] + ([raw] + older)) == Extract(parse, older) + [Usable(parse, raw).value]
  {
    var once, twice := [last] + older, [last] + ([raw] + older);
    assert once[1..] == older && twice[1..] == [raw] + older && ([raw] + older)[1..] == older;
  }

  /** Histories that end in the same version grow by the same versions. */
  lemma {:induction false} OnTop(parse: Parse, newer: seq<string>, older: seq<string>, older': seq<string>)
    returns (rest: seq<Version>)
    requires var a, b := Extract(parse, older), Extract(parse, older');
      a != [] && b != [] && SameVersion(a[|a| - 1], b[|b| - 1])
    ensures Extract(parse, newer + older) == Extract(parse, older) + rest
    ensures Extract(parse, newer + older') == Extract(parse, older') + rest
  {
    var a, b := Extract(parse, older), Extract(parse, older');
    if newer == [] {
      rest := [];
      assert newer + older == older && newer + older' == older' && a + [] == a && b + [] == b;
    } else {
      rest := OnTop(parse, newer[1..], older, older');
      assert (newer + older)[1..] == newer[1..] + older && (newer + older')[1..] == newer[1..] + older';
      match Usable(parse, newer[0]) {
        case None =>
        case Some(v) => rest := PushOnTop(a, b, rest, v);
      }
    }
  }

  lemma PushOnTop(a: seq<Version>, b: seq<Version>, rest: seq<Version>, v: Version) returns (rest': seq<Version>)
    requires a != [] && b != [] && SameVersion(a[|a| - 1], b[|b| - 1])
    ensures Push(a + rest, v) == a + rest' && Push(b + rest, v) == b + rest'
  {
    assert (a + rest)[|a + rest| - 1] == (if rest == [] then a[|a| - 1] else rest[|rest| - 1]);
    assert (b + rest)[|b + rest| - 1] == (if rest == [] then b[|b| - 1] else rest[|rest| - 1]);
    rest' := if EndsIn(a + rest, v) then rest else rest + [v];
    assert a + rest + [v] == a + (rest + [v]) && b + rest + [v] == b + (rest + [v]);
  }

  /** It happens: a second spelling of the older version shows in the alarm. */
  lemma RepetitionCanRespell(parse: Parse)
    requires parse("4.0.0") == Some(Version(4, 0, 0, "", "4.0.0"))
    requires parse("1.0.0") == Some(Version(1, 0, 0, "", "1.0.0"))
    requires parse("v1.0.0") == Some(Version(1, 0, 0, "", "v1.0.0"))
    ensures AlarmOf(Extract(parse, ["4.0.0", "1.0.0"])).Some?
    ensures AlarmOf(Extract(parse, ["4.0.0", "1.0.0", "v1.0.0"])) != AlarmOf(Extract(parse, ["4.0.0", "1.0.0"]))
  {
    var newer := ["4.0.0", "1.0.0"];
    TwoVersions(parse, "4.0.0", "1.0.0");
    FirstJumpAlarms(Extract(parse, newer));
    assert newer[..1] + ["1.0.0"] == newer;
    assert newer + [] == newer && newer + ["v1.0.0"] + [] == ["4.0.0", "1.0.0", "v1.0.0"];
    NoiseIsHarmless(parse, newer, "v1.0.0", []);
  }

  lemma TwoVersions(parse: Parse, newer: string, older: string)
    requires Usable(parse, newer).Some? && Usable(parse, older).Some?
    requires !SameVersion(Usable(parse, older).value, Usable(parse, newer).value)
    ensures Extract(parse, [newer, older]) == [Usable(parse, older).value, Usable(parse, newer).value]
  {
    assert [newer, older][1..] == [older] && [older][1..] == [];
    assert Extract(parse, []) == [];
    assert Extract(parse, [older]) == [Usable(parse, older).value];
    assert SameVersion(Usable(parse, older).value, Usable(parse, newer).value) == EndsIn([Usable(parse, older).value],
      Usable(parse, newer).value);
  }

  /** With no history a first jump of 2 or more alarms. */
  lemma FirstJumpAlarms(vs: seq<Version>)
    requires |vs| == 2 && BreakingDelta(vs[0], vs[1]) >= 2
    ensures AlarmOf(vs).Some?
  {
    assert Jumps(vs)[..0] == [];
  }

  lemma SkipsUnusable(parse: Parse, front: seq<string>, y: string, older: seq<string>)
    requires Usable(parse, y).None?
    ensures Extract(parse, front + [y] + older) == Extract(parse, front + older)
  {
    assert ([y] + older)[1..] == older;
    assert front + [y] + older == front + ([y] + older);
    ExtractSplit(parse, front, [y] + older, older);
  }

  // ---------------------------------------------------------------------
  // Older history can only calm the detector down
  // ---------------------------------------------------------------------

  /** Older snapshots only put versions in front, and may respell the oldest
      version. */
  lemma {:induction false} OlderGoesInFront(parse: Parse, history: seq<string>, older: seq<string>)
    returns (front: seq<Version>, vs: seq<Version>)
    ensures Extract(parse, history + older) == front + vs && Respelt(vs, Extract(parse, history))
  {
    if history == [] {
      front, vs := Extract(parse, older), [];
      assert history + older == older && front + [] == front;
    } else {
      front, vs := OlderGoesInFront(parse, history[1..], older);
      assert (history + older)[1..] == history[1..] + older;
      match Usable(parse, history[0]) {
        case None =>
        case Some(v) => front, vs := PushBehind(front, vs, Extract(parse, history[1..]), v);
      }
    }
  }

  /** Equal but for the spelling of the first version. */
  ghost predicate Respelt(a: seq<Version>, b: seq<Version>) {
    |a| == |b| && (a != [] ==> SameVersion(a[0], b[0]) && a[1..] == b[1..])
  }

  lemma RespeltIsSame(a: seq<Version>, b: seq<Version>)
    requires Respelt(a, b)
    ensures SameVersions(a, b) && forall i :: 0 < i < |a| ==> a[i] == b[i]
  {
    forall i | 0 < i < |a| ensures a[i] == b[i] { assert a[i] == a[1..][i - 1] && b[i] == b[1..][i - 1]; }
  }

  lemma PushBehind(front: seq<Version>, vs: seq<Version>, alone: seq<Version>, v: Version)
    returns (front': seq<Version>, vs': seq<Version>)
    requires Respelt(vs, alone)
    ensures Push(front + vs, v) == front' + vs' && Respelt(vs', Push(alone, v))
  {
    front', vs' := front, Push(vs, v);
    if vs == [] {
      assert front + vs == front;
      if EndsIn(front, v) {
        front', vs' := front[..|front| - 1], [front[|front| - 1]];
        assert front' + vs' == front;
      }
    } else {
      RespeltIsSame(vs, alone);
      assert (front + vs)[|front + vs| - 1] == vs[|vs| - 1];
      assert front + vs + [v] == front + (vs + [v]);
    }
  }

  lemma {:induction false} ZerosAppend(a: seq<int>, b: seq<int>)
    ensures Zeros(a + b) == Zeros(a) + Zeros(b)
  {
    if b == [] {
      assert a + b == a;
    } else {
      ZerosAppend(a, b[..|b| - 1]);
      assert (a + b)[..|a + b| - 1] == a + b[..|b| - 1];
    }
  }

  function Level(c: Confidence): nat {
    match c case Low => 0 case Medium => 1 case High => 2
  }

  /** Where b alarms, a alarms too, about the same jump, and not more surely. */
  predicate NoSurer(a: Option<Alarm>, b: Option<Alarm>) {
    b.Some? ==>
      && a.Some? && a.value.delta == b.value.delta && SameVersion(a.value.previous, b.value.previous)
      && SameVersion(a.value.current, b.value.current) && Level(a.value.confidence) <= Level(b.value.confidence)
  }

  /** Older snapshots never raise an alarm that was not there, never change an
      alarm's versions or delta, and never lower its confidence, except that a
      history of fewer than two versions may get its first jump, and that a
      jump of 2^62 or more may wrap where a smaller maximum kept the detector
      quiet. */
  lemma OlderHistoryOnlyCalmsIff(parse: Parse, history: seq<string>, older: seq<string>)
    ensures |Extract(parse, history + older)| >= |Extract(parse, history)|
    ensures var vs, longer := Extract(parse, history), Extract(parse, history + older);
      NoSurer(AlarmOf(vs), AlarmOf(longer)) <==>
      if |vs| >= 2 then !WrapsAwake(vs, longer) else !WakesFirst(Extract(parse, older), vs)
  {
    var front, vs' := OlderGoesInFront(parse, history, older);
    var vs := Extract(parse, history);
    if |vs| >= 2 {
      RespeltOnlyCalms(front, vs', vs);
    } else {
      ShortHistory(parse, history, older);
      WokenIff(Extract(parse, older), vs, front + vs');
    }
  }

  lemma RespeltOnlyCalms(front: seq<Version>, vs': seq<Version>, vs: seq<Version>)
    requires |vs| >= 2 && Respelt(vs', vs)
    ensures NoSurer(AlarmOf(vs), AlarmOf(front + vs')) <==> !WrapsAwake(vs, front + vs')
  {
    RespeltIsSame(vs', vs);
    FrontOnlyCalms(front, vs');
    AlarmsAlike(vs', vs);
    AlikeNoSurer(AlarmOf(vs'), AlarmOf(vs), AlarmOf(front + vs'));
    SameWrapsAwake(vs', vs, front + vs');
  }

  lemma AlikeNoSurer(a: Option<Alarm>, a': Option<Alarm>, b: Option<Alarm>)
    requires Alike(a, a')
    ensures NoSurer(a, b) <==> NoSurer(a', b)
  {
  }

  lemma SameWrapsAwake(vs: seq<Version>, vs': seq<Version>, longer: seq<Version>)
    requires SameVersions(vs, vs') && |vs| >= 2 && |longer| >= 2
    ensures WrapsAwake(vs, longer) <==> WrapsAwake(vs', longer)
  {
    SameJumps(vs, vs');
    assert Jumps(vs)[..|vs| - 2] == Jumps(vs')[..|vs'| - 2] && Jumps(vs)[|vs| - 2] == Jumps(vs')[|vs'| - 2];
  }

  /** What fewer than two versions become on top of an older history that is
      itself judged, or that the one version makes a jump from. */
  predicate WakesFirst(older: seq<Version>, vs: seq<Version>)
    requires |vs| < 2
  {
    if vs == [] || EndsIn(older, vs[0]) then EndsUnusually(older)
    else older != [] && IsUnusual(BreakingDelta(older[|older| - 1], vs[0]), Jumps(older))
  }

  ghost function OnOlder(older: seq<Version>, vs: seq<Version>): seq<Version>
    requires |vs| < 2
  {
    if vs == [] then older else Push(older, vs[0])
  }

  /** A history of one version at most only adds that version. */
  lemma {:induction false} ShortHistory(parse: Parse, history: seq<string>, older: seq<string>)
    requires |Extract(parse, history)| < 2
    ensures SameVersions(Extract(parse, history + older), OnOlder(Extract(parse, older), Extract(parse, history)))
  {
    var o := Extract(parse, older);
    if history == [] {
      assert history + older == older;
    } else {
      var tail := history[1..];
      assert (history + older)[1..] == tail + older;
      ShortTail(parse, history);
      ShortHistory(parse, tail, older);
      match Usable(parse, history[0]) {
        case None =>
        case Some(v) => PushShort(Extract(parse, tail + older), o, Extract(parse, tail), v);
      }
    }
  }

  lemma ShortTail(parse: Parse, history: seq<string>)
    requires history != [] && |Extract(parse, history)| < 2
    ensures |Extract(parse, history[1..])| < 2
  {
  }

  lemma PushShort(longer: seq<Version>, older: seq<Version>, vs: seq<Version>, v: Version)
    requires |vs| < 2 && |Push(vs, v)| < 2 && SameVersions(longer, OnOlder(older, vs))
    ensures SameVersions(Push(longer, v), OnOlder(older, Push(vs, v)))
  {
    var base := OnOlder(older, vs);
    assert longer != [] ==> SameVersion(longer[|longer| - 1], base[|base| - 1]);
  }

  lemma WokenIff(older: seq<Version>, vs: seq<Version>, longer: seq<Version>)
    requires |vs| < 2 && SameVersions(longer, OnOlder(older, vs))
    ensures AlarmOf(longer).Some? <==> WakesFirst(older, vs)
  {
    var base := OnOlder(older, vs);
    AlarmsAlike(longer, base);
    AlarmIffUnusual(base);
    if vs != [] && !EndsIn(older, vs[0]) && older != [] { OneMoreJump(older, vs[0]); }
  }

  lemma OneMoreJump(vs: seq<Version>, v: Version)
    requires vs != []
    ensures Jumps(vs + [v]) == Jumps(vs) + [BreakingDelta(vs[|vs| - 1], v)]
  {
  }

  /** Once there are two versions the newest keeps its spelling, and with three
      the one before it as well. */
  lemma OlderHistoryKeepsSpelling(parse: Parse, history: seq<string>, older: seq<string>)
    requires AlarmOf(Extract(parse, history)).Some? && AlarmOf(Extract(parse, history + older)).Some?
    ensures var a, b := AlarmOf(Extract(parse, history)).value, AlarmOf(Extract(parse, history + older)).value;
      a.current == b.current && (|Extract(parse, history)| >= 3 ==> a.previous == b.previous)
  {
    var front, vs' := OlderGoesInFront(parse, history, older);
    RespeltIsSame(vs', Extract(parse, history));
    var n, all := |vs'|, front + vs';
    assert all[|all| - 2] == vs'[n - 2] && all[|all| - 1] == vs'[n - 1];
  }

  /** The newest jump meets the detector's test. */
  predicate EndsUnusually(vs: seq<Version>) {
    |vs| >= 2 && IsUnusual(Jumps(vs)[|vs| - 2], Jumps(vs)[..|vs| - 2])
  }

  lemma AlarmIffUnusual(vs: seq<Version>)
    ensures AlarmOf(vs).Some? <==> EndsUnusually(vs)
  {
  }

  /** The latest jump is explained by the jumps before it, but the longer
      history holds one whose double wraps. */
  predicate WrapsAwake(vs: seq<Version>, longer: seq<Version>)
    requires |vs| >= 2 && |longer| >= 2
  {
    var js, js' := Jumps(vs), Jumps(longer);
    Unexplained(js[|vs| - 2], js[..|vs| - 2], js'[..|longer| - 2])
  }

  predicate Unexplained(latest: int, historical: seq<int>, longer: seq<int>) {
    2 <= latest <= 2 * MaxOf(historical) < TWO63 && MaxOf(longer) >= TWO62
  }

  /** Without jumps of 2^62 only short histories are an exception. */
  lemma OlderHistoryOnlyCalms(parse: Parse, history: seq<string>, older: seq<string>)
    requires forall j :: j in Jumps(Extract(parse, history + older)) ==> j < TWO62
    ensures NoSurer(AlarmOf(Extract(parse, history)), AlarmOf(Extract(parse, history + older))) <==>
            |Extract(parse, history)| >= 2 || !WakesFirst(Extract(parse, older), Extract(parse, history))
  {
    OlderHistoryOnlyCalmsIff(parse, history, older);
    SmallNeverWraps(Extract(parse, history), Extract(parse, history + older));
  }

  lemma SmallNeverWraps(vs: seq<Version>, longer: seq<Version>)
    requires |longer| >= |vs| && forall j :: j in Jumps(longer) ==> j < TWO62
    ensures |vs| >= 2 ==> !WrapsAwake(vs, longer)
  {
    if |longer| >= 2 { MaxOfPrefix(Jumps(longer), |longer| - 2); }
  }

  lemma MaxOfPrefix(xs: seq<int>, n: nat)
    requires n <= |xs|
    ensures MaxOf(xs[..n]) == 0 || MaxOf(xs[..n]) in xs
  {
  }

  /** The exception happens: 1, 2, 4 is quiet; preceded by 1, 2^62 + 1 it alarms. */
  lemma OlderHistoryCanAlarm(vs: seq<Version>, front: seq<Version>)
    requires vs == [Version(1, 0, 0, "", "1.0.0"), Version(2, 0, 0, "", "2.0.0"), Version(4, 0, 0, "", "4.0.0")]
    requires front == [Version(1, 0, 0, "", "1.0.0"), Version(TWO62 + 1, 0, 0, "", "4611686018427387905.0.0")]
    ensures AlarmOf(vs).None? && AlarmOf(front + vs).Some?
  {
    var js, js' := Jumps(vs), Jumps(front + vs);
    assert js == [1, 2];
    assert js' == [TWO62, -TWO62, 1, 2];
    assert js[..1] == [1] && js'[..3] == [TWO62, -TWO62, 1];
    assert MaxOf([1]) == 1 by { assert [1][0] in [1]; }
    assert MaxOf(js'[..3]) == TWO62 by { assert js'[..3][0] in js'[..3]; }
  }

  lemma FrontOnlyCalms(front: seq<Version>, vs: seq<Version>)
    requires |vs| >= 2
    ensures NoSurer(AlarmOf(vs), AlarmOf(front + vs)) <==> !WrapsAwake(vs, front + vs)
  {
    var js, pre := Jumps(vs), Jumps(front + vs)[..|front|];
    var historical := js[..|js| - 1];
    FrontJumps(front, vs);
    JumpsAreInt64(front + vs);
    BelowPrefix(TWO63, pre + historical, Jumps(front + vs));
    SameJumpOnlyCalms(vs, front + vs, js[|js| - 1], pre, historical);
  }

  lemma SameJumpOnlyCalms(vs: seq<Version>, longer: seq<Version>, latest: int, more: seq<int>, historical: seq<int>)
    requires |vs| >= 2 && |longer| >= 2
    requires longer[|longer| - 2] == vs[|vs| - 2] && longer[|longer| - 1] == vs[|vs| - 1]
    requires Jumps(vs)[|vs| - 2] == latest == Jumps(longer)[|longer| - 2]
    requires Jumps(vs)[..|vs| - 2] == historical && Jumps(longer)[..|longer| - 2] == more + historical
    requires AllBelow(TWO63, more + historical)
    ensures NoSurer(AlarmOf(vs), AlarmOf(longer)) <==> !WrapsAwake(vs, longer)
  {
    var previous, current := vs[|vs| - 2], vs[|vs| - 1];
    AlarmIsJudged(vs, previous, current, latest, historical);
    AlarmIsJudged(longer, previous, current, latest, more + historical);
    MoreHistoryOnlyCalms(previous, current, latest, more, historical);
  }

  lemma JumpsAreInt64(vs: seq<Version>)
    ensures AllBelow(TWO63, Jumps(vs))
  {
  }

  ghost predicate AllBelow(bound: int, xs: seq<int>) {
    forall x :: x in xs ==> x < bound
  }

  lemma BelowPrefix(bound: int, xs: seq<int>, ys: seq<int>)
    requires xs <= ys && AllBelow(bound, ys)
    ensures AllBelow(bound, xs)
  {
    forall x | x in xs ensures x < bound {
      var i :| 0 <= i < |xs| && xs[i] == x;
      assert ys[i] in ys;
    }
  }

  lemma AlarmIsJudged(vs: seq<Version>, previous: Version, current: Version, latest: int, historical: seq<int>)
    requires |vs| >= 2 && previous == vs[|vs| - 2] && current == vs[|vs| - 1]
    requires latest == Jumps(vs)[|vs| - 2] && historical == Jumps(vs)[..|vs| - 2]
    ensures AlarmOf(vs) == Judge(previous, current, latest, historical)
  {
  }

  /** The later versions judge the same jump, against a longer history. */
  lemma FrontJumps(front: seq<Version>, vs: seq<Version>)
    requires |vs| >= 2
    ensures var js, all := Jumps(vs), front + vs;
      var js' := Jumps(all);
      && |js'| == |front| + |js| && js'[|js'| - 1] == js[|js| - 1]
      && js'[..|js'| - 1] == js'[..|front|] + js[..|js| - 1]
      && all[|all| - 2] == vs[|vs| - 2] && all[|all| - 1] == vs[|vs| - 1]
      && js'[..|front|] + js[..|js| - 1] <= js'
  {
    JumpsAppend(front, vs);
    WithoutLast(Jumps(front + vs)[..|front|], Jumps(vs));
  }

  lemma WithoutLast(a: seq<int>, b: seq<int>)
    requires b != []
    ensures (a + b)[..|a + b| - 1] == a + b[..|b| - 1]
    ensures a + b[..|b| - 1] <= a + b
  {
  }

  lemma JumpsAppend(front: seq<Version>, vs: seq<Version>)
    requires vs != []
    ensures Jumps(front + vs) == Jumps(front + vs)[..|front|] + Jumps(vs)
  {
    var all := front + vs;
    forall i | 0 <= i < |vs| - 1 ensures Jumps(all)[|front| + i] == Jumps(vs)[i] {
      assert all[|front| + i] == vs[i] && all[|front| + i + 1] == vs[i + 1];
    }
  }

  lemma MoreHistoryOnlyCalms(previous: Version, current: Version, latest: int, more: seq<int>, historical: seq<int>)
    requires AllBelow(TWO63, more + historical)
    ensures NoSurer(Judge(previous, current, latest, historical), Judge(previous, current, latest, more + historical))
            <==> !Unexplained(latest, historical, more + historical)
  {
    ZerosAppend(more, historical);
    MaxGrows(more, historical);
    DoubledMax(historical);
    DoubledMax(more + historical);
  }

  lemma DoubledMax(xs: seq<int>)
    requires MaxOf(xs) < TWO63
    ensures Wrap(2 * MaxOf(xs)) == if MaxOf(xs) < TWO62 then 2 * MaxOf(xs) else 2 * MaxOf(xs) - TWO64
  {
  }

  lemma MaxGrows(a: seq<int>, b: seq<int>)
    ensures MaxOf(b) <= MaxOf(a + b)
  {
    assert forall x :: x in b ==> x in a + b;
  }

  /** The test is "at least 2 and more than twice the historical maximum"
      exactly when the maximum is below 2^62 or the delta is below 2: from 2^62
      on the doubling wraps and every delta of 2 or more is reported. */
  lemma UnusualMeansDoublingIff(latest: int, historical: seq<int>)
    requires latest < TWO63 && forall j :: j in historical ==> j < TWO63
    ensures (IsUnusual(latest, historical) <==> latest >= 2 && latest > 2 * MaxOf(historical))
            <==> MaxOf(historical) < TWO62 || latest < 2
  {
    var m := MaxOf(historical);
    if m >= TWO62 {
      assert Wrap(2 * m) == 2 * m - TWO64;
    }
  }
}
