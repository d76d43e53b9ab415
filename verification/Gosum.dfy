/** Go modules lockfiles, parsed by the Go engine and by its Rust twin. Text is
    ASCII; every length the Go scanner limits is modelled. */
module Gosum {
  import opened Ordering
  import opened Text
  import opened Scanner

  // ---------------------------------------------------------------------
  // Whitespace
  // ---------------------------------------------------------------------

  predicate IsSpace(c: char) {
    c == ' ' || '\t' <= c <= '\r'
  }

  function TrimLeft(s: string): string {
    if s != "" && IsSpace(s[0]) then TrimLeft(s[1..]) else s
  }

  function TrimRight(s: string): string {
    if s != "" && IsSpace(s[|s| - 1]) then TrimRight(s[..|s| - 1]) else s
  }

  /** `strings.TrimSpace` and `str::trim`. */
  function Trim(s: string): string {
    TrimLeft(TrimRight(s))
  }

  /** The length of the first run of non-blanks. */
  function WordEnd(s: string): (n: nat)
    ensures n <= |s| && (s != "" && !IsSpace(s[0]) ==> n > 0)
  {
    if s == "" || IsSpace(s[0]) then 0 else 1 + WordEnd(s[1..])
  }

  /** `strings.Fields` and `split_whitespace`: the maximal runs of non-blanks. */
  function Fields(s: string): (r: seq<string>)
    ensures forall f :: f in r ==> f != ""
    decreases |s|
  {
    if s == "" then []
    else if IsSpace(s[0]) then Fields(s[1..])
    else [s[..WordEnd(s)]] + Fields(s[WordEnd(s)..])
  }

  lemma TrimIgnoresCR(l: string)
    ensures Trim(DropCR(l)) == Trim(l)
  {
  }

  /** The first place where p occurs in s, or -1. */
  function IndexOf(s: string, p: string): (i: int)
    ensures -1 <= i <= |s|
    ensures i >= 0 ==> HasPrefix(s[i..], p)
  {
    if HasPrefix(s, p) then assert s[0..] == s; 0
    else if s == "" then -1
    else
      var i := IndexOf(s[1..], p);
      if i < 0 then -1 else assert s[i + 1..] == s[1..][i..]; i + 1
  }

  // ---------------------------------------------------------------------
  // Lines
  // ---------------------------------------------------------------------

  /** `str::lines`: like the scanner, but without a limit, and a carriage
      return at the very end of the text is kept. */
  function RustLines(s: string): seq<string>
    decreases |s|
  {
    if s == "" then []
    else
      var i := LineEnd(s);
      [if i < |s| then DropCR(s[..i]) else s] + RustLines(AfterLine(s))
  }

  /** Lines that differ at most in a trailing carriage return. */
  ghost predicate SameLine(a: string, b: string) {
    a == b || a == DropCR(b)
  }

  ghost predicate SameLines(a: seq<string>, b: seq<string>) {
    |a| == |b| && forall i :: 0 <= i < |a| ==> SameLine(a[i], b[i])
  }

  lemma {:induction false} ScannersAgree(s: string)
    requires !Scan(s).1
    ensures SameLines(Scan(s).0, RustLines(s))
    decreases |s|
  {
    if s == "" {
    } else {
      ScannersAgree(AfterLine(s));
      assert LineEnd(s) == |s| ==> s[..|s|] == s;
    }
  }

  // ---------------------------------------------------------------------
  // go.sum entries
  // ---------------------------------------------------------------------

  datatype Key = Key(moduleName: string, version: string)

  datatype Entry = Entry(key: Key, hash: string, primary: bool)

  datatype SumLine = Skip | Bad | Good(entry: Entry)

  /** What one line contributes to `parseGosum`. */
  function GoSumLine(raw: string): SumLine {
    var line := Trim(raw);
    if line == "" then Skip
    else
      var parts := Fields(line);
      if |parts| != 3 then Bad
      else
        var rawVersion, hash := parts[1], parts[2];
        if !HasPrefix(hash, "h1:") then Bad
        else Good(Entry(Key(parts[0], TrimSuffix(rawVersion, "/go.mod")), hash, !HasSuffix(rawVersion, "/go.mod")))
  }

  /** What one line contributes to `parse_gosum`. */
  function RustSumLine(raw: string): SumLine {
    var line := Trim(raw);
    if line == "" then Skip
    else
      var parts := Fields(line);
      if |parts| != 3 || StripPrefix(parts[2], "h1:").None? then Bad
      else
        match StripSuffix(parts[1], "/go.mod")
        case Some(stripped) => Good(Entry(Key(parts[0], stripped), parts[2], false))
        case None => Good(Entry(Key(parts[0], parts[1]), parts[2], true))
  }

  /** The entries of some lines; None if a line is malformed. */
  function EntriesOf(read: string -> SumLine, lines: seq<string>): Option<seq<Entry>> {
    if lines == [] then Some([])
    else
      var n := |lines| - 1;
      match EntriesOf(read, lines[..n])
      case None => None
      case Some(es) =>
        match read(lines[n])
        case Skip => Some(es)
        case Bad => None
        case Good(e) => Some(es + [e])
  }

  lemma EntriesSnoc(read: string -> SumLine, lines: seq<string>, l: string)
    ensures EntriesOf(read, lines + [l]) ==
      if EntriesOf(read, lines).None? || read(l).Bad? then None
      else if read(l).Skip? then EntriesOf(read, lines)
      else Some(EntriesOf(read, lines).value + [read(l).entry])
  {
    assert (lines + [l])[..|lines|] == lines;
  }

  lemma {:induction false} BadPrefix(read: string -> SumLine, lines: seq<string>, more: seq<string>)
    requires EntriesOf(read, lines).None?
    ensures EntriesOf(read, lines + more).None?
  {
    if more == [] {
      assert lines + more == lines;
    } else {
      var n := |more| - 1;
      BadPrefix(read, lines, more[..n]);
      assert lines + more == (lines + more[..n]) + [more[n]];
      EntriesSnoc(read, lines + more[..n], more[n]);
    }
  }

  lemma {:induction false} EntriesAgree(a: seq<string>, b: seq<string>)
    requires SameLines(a, b)
    ensures EntriesOf(GoSumLine, a) == EntriesOf(RustSumLine, b)
  {
    if a == [] {
    } else {
      var n := |a| - 1;
      EntriesAgree(a[..n], b[..n]);
      SumLinesAgree(a[n], b[n]);
    }
  }

  /** Both sides read lines that differ in a final carriage return alike. */
  lemma SumLinesAgree(a: string, b: string)
    requires SameLine(a, b)
    ensures GoSumLine(a) == RustSumLine(b)
  {
    TrimIgnoresCR(b);
    assert Trim(a) == Trim(b);
  }

  /** `parseGosum`: also refuses a line the scanner cannot hold. */
  method GoParseGosum(content: string) returns (out: Option<seq<Entry>>)
    ensures out == if Scan(content).1 then None else EntriesOf(GoSumLine, Scan(content).0)
  {
    var es: seq<Entry> := [];
    var rest := content;
    ghost var lines: seq<string> := [];
    HalfwayStart(content);
    while rest != ""
      invariant Halfway(content, lines, rest)
      invariant EntriesOf(GoSumLine, lines) == Some(es)
      decreases |rest|
    {
      var line, rest', tooLong := NextLine(rest);
      if tooLong { return None; }
      HalfwayStep(content, lines, rest, line, rest');
      EntriesSnoc(GoSumLine, lines, line);
      lines, rest := lines + [line], rest';
      match GoSumLine(line) {
        case Skip =>
        case Bad =>
          BadPrefix(GoSumLine, lines, Scan(rest).0);
          return None;
        case Good(e) => es := es + [e];
      }
    }
    HalfwayEnd(content, lines);
    out := Some(es);
  }

  lemma BadBeginning(read: string -> SumLine, lines: seq<string>, i: nat)
    requires i <= |lines| && EntriesOf(read, lines[..i]).None?
    ensures EntriesOf(read, lines).None?
  {
    BadPrefix(read, lines[..i], lines[i..]);
    assert lines == lines[..i] + lines[i..];
  }

  method RustParseGosum(content: string) returns (out: Option<seq<Entry>>)
    ensures out == EntriesOf(RustSumLine, RustLines(content))
  {
    var lines := RustLines(content);
    var es: seq<Entry> := [];
    for i := 0 to |lines|
      invariant EntriesOf(RustSumLine, lines[..i]) == Some(es)
    {
      EntriesSnoc(RustSumLine, lines[..i], lines[i]);
      assert lines[..i + 1] == lines[..i] + [lines[i]];
      match RustSumLine(lines[i]) {
        case Skip =>
        case Bad =>
          BadBeginning(RustSumLine, lines, i + 1);
          return None;
        case Good(e) => es := es + [e];
      }
    }
    assert lines[..|lines|] == lines;
    out := Some(es);
  }

  // ---------------------------------------------------------------------
  // go.mod replace directives
  // ---------------------------------------------------------------------

  /** The right-hand side of a directive: a local path drops the module. */
  datatype Target = Local | Remote(path: string, version: string)

  /** Go encodes a local target as an empty version. */
  datatype GoTarget = GoTarget(path: string, version: string)

  datatype RustTarget = RustTarget(path: string, version: Option<string>)

  function GoMeaning(t: GoTarget): Target {
    if t.version == "" then Local else Remote(t.path, t.version)
  }

  function RustMeaning(t: RustTarget): Target {
    match t.version case None => Local case Some(v) => Remote(t.path, v)
  }

  /** Go's `strings.SplitN(s, sep, 2)`. */
  function SplitN2(s: string, sep: string): seq<string> {
    var i := IndexOf(s, sep);
    if i < 0 then [s] else [s[..i], s[i + |sep|..]]
  }

  /** Rust's `split_once`. */
  function SplitOnce(s: string, sep: string): Option<(string, string)> {
    var i := IndexOf(s, sep);
    if i < 0 then None else Some((s[..i], s[i + |sep|..]))
  }

  function GoDirective(line: string): Option<(string, GoTarget)> {
    var parts := SplitN2(line, "=>");
    if |parts| != 2 then None
    else
      var lhs, rhs := Fields(parts[0]), Fields(parts[1]);
      if |lhs| == 0 || |rhs| == 0 then None
      else
        var isLocal := HasPrefix(rhs[0], ".") || HasPrefix(rhs[0], "/") || |rhs| == 1;
        Some((lhs[0], GoTarget(rhs[0], if !isLocal && |rhs| >= 2 then rhs[1] else "")))
  }

  function RustDirective(line: string): Option<(string, RustTarget)> {
    match SplitOnce(line, "=>")
    case None => None
    case Some((lhs, rhs)) =>
      var l, r := Fields(lhs), Fields(rhs);
      if l == [] || r == [] then None
      else
        var isLocal := StartsWith(r[0], '.') || StartsWith(r[0], '/') || |r| == 1;
        Some((l[0], RustTarget(r[0], if isLocal then None else if |r| >= 2 then Some(r[1]) else None)))
  }

  predicate StartsWith(s: string, c: char) {
    s != "" && s[0] == c
  }

  lemma DirectivesAgree(line: string)
    ensures GoDirective(line).Some? <==> RustDirective(line).Some?
    ensures GoDirective(line).Some? ==>
      && GoDirective(line).value.0 == RustDirective(line).value.0
      && GoMeaning(GoDirective(line).value.1) == RustMeaning(RustDirective(line).value.1)
  {
    match SplitOnce(line, "=>") {
      case None =>
      case Some((lhs, rhs)) =>
        var r := Fields(rhs);
        if r != [] {
          assert r[0] in r && (|r| >= 2 ==> r[1] in r);
          assert HasPrefix(r[0], ".") <==> StartsWith(r[0], '.');
          assert HasPrefix(r[0], "/") <==> StartsWith(r[0], '/');
        }
    }
  }

  function GoStripComment(s: string): string {
    var i := IndexOf(s, "//");
    if i >= 0 then s[..i] else s
  }

  function RustStripComment(s: string): string {
    match Find(s, "//") case Some(i) => s[..i] case None => s
  }

  /** Rust's `find`. */
  function Find(s: string, p: string): (r: Option<nat>)
    ensures r.Some? ==> r.value <= |s|
  {
    var i := IndexOf(s, p);
    if i < 0 then None else Some(i)
  }

  /** Inside a replace block or not, and the directives so far. */
  datatype Replaces<T> = Replaces(inBlock: bool, targets: map<string, T>)

  function Note<T>(s: Replaces<T>, d: Option<(string, T)>): Replaces<T> {
    match d case None => s case Some((src, t)) => s.(targets := s.targets[src := t])
  }

  /** What one line of go.mod does in `parseGomodReplaces`. */
  function GoModLine(s: Replaces<GoTarget>, raw: string): Replaces<GoTarget> {
    var line := Trim(GoStripComment(raw));
    if line == "" then s
    else if s.inBlock then
      if line == ")" then s.(inBlock := false) else Note(s, GoDirective(line))
    else if line == "replace (" then s.(inBlock := true)
    else if HasPrefix(line, "replace ") then Note(s, GoDirective(Trim(line[|"replace "|..])))
    else s
  }

  /** What one line of go.mod does in `parse_gomod_replaces`. */
  function RustModLine(s: Replaces<RustTarget>, raw: string): Replaces<RustTarget> {
    var line := Trim(RustStripComment(raw));
    if line == "" then s
    else if s.inBlock && line == ")" then s.(inBlock := false)
    else if s.inBlock then Note(s, RustDirective(line))
    else if line == "replace (" then s.(inBlock := true)
    else
      match StripPrefix(line, "replace ")
      case Some(rest) => Note(s, RustDirective(Trim(rest)))
      case None => s
  }

  function ReplacesOf<T>(step: (Replaces<T>, string) -> Replaces<T>, lines: seq<string>): Replaces<T> {
    if lines == [] then Replaces(false, map[])
    else
      var n := |lines| - 1;
      step(ReplacesOf(step, lines[..n]), lines[n])
  }

  lemma ReplacesSnoc<T>(step: (Replaces<T>, string) -> Replaces<T>, lines: seq<string>, l: string)
    ensures ReplacesOf(step, lines + [l]) == step(ReplacesOf(step, lines), l)
  {
    assert (lines + [l])[..|lines|] == lines;
  }

  lemma ReplacesNext<T>(step: (Replaces<T>, string) -> Replaces<T>, lines: seq<string>, i: nat)
    requires i < |lines|
    ensures ReplacesOf(step, lines[..i + 1]) == step(ReplacesOf(step, lines[..i]), lines[i])
  {
    assert lines[..i + 1] == lines[..i] + [lines[i]];
    ReplacesSnoc(step, lines[..i], lines[i]);
  }

  /** `parseGomodReplaces`. */
  method GoParseGomod(content: string) returns (out: Option<map<string, GoTarget>>)
    ensures out == if Scan(content).1 then None else Some(ReplacesOf(GoModLine, Scan(content).0).targets)
  {
    var s: Replaces<GoTarget> := Replaces(false, map[]);
    if |content| == 0 { return Some(s.targets); }
    var rest := content;
    ghost var lines: seq<string> := [];
    HalfwayStart(content);
    while rest != ""
      invariant Halfway(content, lines, rest)
      invariant s == ReplacesOf(GoModLine, lines)
      decreases |rest|
    {
      var line, rest', tooLong := NextLine(rest);
      if tooLong { return None; }
      HalfwayStep(content, lines, rest, line, rest');
      ReplacesSnoc(GoModLine, lines, line);
      s := GoModLine(s, line);
      lines, rest := lines + [line], rest';
    }
    HalfwayEnd(content, lines);
    out := Some(s.targets);
  }

  method RustParseGomod(content: string) returns (out: map<string, RustTarget>)
    ensures out == ReplacesOf(RustModLine, RustLines(content)).targets
  {
    if |content| == 0 { return map[]; }
    var lines := RustLines(content);
    var s: Replaces<RustTarget> := Replaces(false, map[]);
    for i := 0 to |lines|
      invariant s == ReplacesOf(RustModLine, lines[..i])
    {
      ReplacesNext(RustModLine, lines, i);
      s := RustModLine(s, lines[i]);
    }
    assert lines[..|lines|] == lines;
    out := s.targets;
  }

  /** The two maps say the same about every module. */
  ghost predicate SameTargets(g: map<string, GoTarget>, r: map<string, RustTarget>) {
    g.Keys == r.Keys && forall m :: m in g ==> GoMeaning(g[m]) == RustMeaning(r[m])
  }

  /** Both sides strip lines that differ in a final carriage return alike. */
  lemma CommentsAgree(a: string, b: string)
    requires SameLine(a, b)
    ensures Trim(GoStripComment(a)) == Trim(RustStripComment(b))
  {
    assert RustStripComment(b) == GoStripComment(b);
    StripIgnoresCR(b);
  }

  lemma {:induction false} StripIgnoresCR(l: string)
    ensures Trim(GoStripComment(DropCR(l))) == Trim(GoStripComment(l))
  {
    if l != "" && l[|l| - 1] == '\r' {
      CommentBeforeCR(l[..|l| - 1]);
      assert l == l[..|l| - 1] + "\r";
      var i := IndexOf(l, "//");
      if i < 0 { TrimIgnoresCR(l); }
    }
  }

  lemma {:induction false} CommentBeforeCR(s: string)
    ensures IndexOf(s + "\r", "//") == IndexOf(s, "//")
    ensures IndexOf(s, "//") >= 0 ==> (s + "\r")[..IndexOf(s, "//")] == s[..IndexOf(s, "//")]
  {
    var t := s + "\r";
    assert HasPrefix(t, "//") <==> HasPrefix(s, "//") by {
      if |s| >= 2 { assert t[..2] == s[..2]; }
      if |s| == 1 { assert t[1] == '\r' && "//"[1] == '/'; }
    }
    if s == "" {
      assert t[1..] == "" && !HasPrefix("", "//");
    } else if !HasPrefix(s, "//") {
      CommentBeforeCR(s[1..]);
      assert t[1..] == s[1..] + "\r";
    }
  }

  lemma {:induction false} ReplacesAgree(a: seq<string>, b: seq<string>)
    requires SameLines(a, b)
    ensures ReplacesOf(GoModLine, a).inBlock == ReplacesOf(RustModLine, b).inBlock
    ensures SameTargets(ReplacesOf(GoModLine, a).targets, ReplacesOf(RustModLine, b).targets)
  {
    if a == [] {
    } else {
      var n := |a| - 1;
      ReplacesAgree(a[..n], b[..n]);
      ModLinesAgree(ReplacesOf(GoModLine, a[..n]), ReplacesOf(RustModLine, b[..n]), a[n], b[n]);
    }
  }

  lemma ModLinesAgree(g: Replaces<GoTarget>, r: Replaces<RustTarget>, a: string, b: string)
    requires g.inBlock == r.inBlock && SameTargets(g.targets, r.targets) && SameLine(a, b)
    ensures GoModLine(g, a).inBlock == RustModLine(r, b).inBlock
    ensures SameTargets(GoModLine(g, a).targets, RustModLine(r, b).targets)
  {
    CommentsAgree(a, b);
    var line := Trim(GoStripComment(a));
    DirectivesAgree(line);
    NotesAgree(g, r, GoDirective(line), RustDirective(line));
    if HasPrefix(line, "replace ") {
      var inner := Trim(line[|"replace "|..]);
      DirectivesAgree(inner);
      NotesAgree(g, r, GoDirective(inner), RustDirective(inner));
    }
  }

  lemma NotesAgree(g: Replaces<GoTarget>, r: Replaces<RustTarget>, d: Option<(string, GoTarget)>,
      e: Option<(string, RustTarget)>)
    requires g.inBlock == r.inBlock && SameTargets(g.targets, r.targets)
    requires d.Some? <==> e.Some?
    requires d.Some? ==> d.value.0 == e.value.0 && GoMeaning(d.value.1) == RustMeaning(e.value.1)
    ensures Note(g, d).inBlock == Note(r, e).inBlock && SameTargets(Note(g, d).targets, Note(r, e).targets)
  {
  }
}
