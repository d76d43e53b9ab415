/** Splitting text into lines, as Go's `bufio.Scanner` does it. */
module Scanner {

  /** The longest line a scanner with a 1 MiB buffer delivers. */
  const MAX_LINE: nat := 1024 * 1024 - 1

  predicate OneLine(s: string) {
    '\n' !in s
  }

  function DropCR(s: string): string {
    if s != "" && s[|s| - 1] == '\r' then s[..|s| - 1] else s
  }

  /** The position of the first line feed, or the length. */
  function LineEnd(s: string): (i: nat)
    ensures i <= |s| && (i < |s| ==> s[i] == '\n')
  {
    if s == "" || s[0] == '\n' then 0 else LineEnd(s[1..]) + 1
  }

  lemma {:induction false} NoFeedBeforeLineEnd(s: string)
    ensures OneLine(s[..LineEnd(s)])
  {
    if s == "" || s[0] == '\n' {
    } else {
      NoFeedBeforeLineEnd(s[1..]);
      assert s[..LineEnd(s)] == [s[0]] + s[1..][..LineEnd(s[1..])];
    }
  }

  lemma {:induction false} LineEndOfOneLine(l: string)
    requires OneLine(l)
    ensures LineEnd(l) == |l|
  {
    if l == "" {
    } else {
      LineEndOfOneLine(l[1..]);
      assert l[0] in l;
    }
  }

  /** What is left after the first line. */
  function AfterLine(s: string): (r: string)
    ensures s != "" ==> |r| < |s|
  {
    var i := LineEnd(s);
    if i < |s| then s[i + 1..] else ""
  }

  /** `bufio.Scanner`: the lines up to the first one that is too long. */
  function Scan(s: string): (seq<string>, bool)
    decreases |s|
  {
    if s == "" then ([], false)
    else if LineEnd(s) > MAX_LINE then ([], true)
    else
      var (lines, err) := Scan(AfterLine(s));
      ([DropCR(s[..LineEnd(s)])] + lines, err)
  }

  /** One call of the scanner. */
  method NextLine(s: string) returns (line: string, rest: string, tooLong: bool)
    requires s != ""
    ensures |rest| < |s|
    ensures tooLong ==> Scan(s) == ([], true)
    ensures !tooLong ==> Scan(s) == ([line] + Scan(rest).0, Scan(rest).1)
  {
    var i := LineEnd(s);
    line, rest, tooLong := DropCR(s[..i]), AfterLine(s), i > MAX_LINE;
  }

  /** `lines` have been read of s, `rest` is still to be read. */
  ghost predicate Halfway(s: string, lines: seq<string>, rest: string) {
    lines + Scan(rest).0 == Scan(s).0 && Scan(rest).1 == Scan(s).1
  }

  lemma HalfwayStart(s: string)
    ensures Halfway(s, [], s)
  {
    assert [] + Scan(s).0 == Scan(s).0;
  }

  lemma HalfwayStep(s: string, lines: seq<string>, rest: string, line: string, rest': string)
    requires Halfway(s, lines, rest) && Scan(rest) == ([line] + Scan(rest').0, Scan(rest').1)
    ensures Halfway(s, lines + [line], rest')
  {
    assert lines + ([line] + Scan(rest').0) == lines + [line] + Scan(rest').0;
  }

  lemma HalfwayEnd(s: string, lines: seq<string>)
    requires Halfway(s, lines, "")
    ensures lines == Scan(s).0 && !Scan(s).1
  {
    assert lines + [] == lines;
  }

  // ---------------------------------------------------------------------
  // When the scanner gives up
  // ---------------------------------------------------------------------

  /** The text between line feeds. */
  function RawLines(s: string): seq<string>
    decreases |s|
  {
    if s == "" then [] else [s[..LineEnd(s)]] + RawLines(AfterLine(s))
  }

  lemma {:induction false} ScanFailsIff(s: string)
    ensures Scan(s).1 <==> exists l :: l in RawLines(s) && |l| > MAX_LINE
    decreases |s|
  {
    if s == "" {
    } else {
      ScanFailsIff(AfterLine(s));
      var l := s[..LineEnd(s)];
      assert RawLines(s) == [l] + RawLines(AfterLine(s));
      assert l in RawLines(s) && forall x :: x in RawLines(AfterLine(s)) ==> x in RawLines(s);
    }
  }

  // ---------------------------------------------------------------------
  // Scanning what was joined
  // ---------------------------------------------------------------------

  function Line(s: string): string {
    s + "\n"
  }

  function Join(lines: seq<string>): string {
    if lines == [] then "" else Join(lines[..|lines| - 1]) + Line(lines[|lines| - 1])
  }

  lemma JoinSnoc(lines: seq<string>, l: string)
    ensures Join(lines + [l]) == Join(lines) + Line(l)
  {
    assert (lines + [l])[..|lines|] == lines;
  }

  /** A line the scanner delivers in one piece. */
  predicate Scannable(l: string) {
    OneLine(l) && |l| <= MAX_LINE
  }

  function DropCRs(lines: seq<string>): (r: seq<string>)
    ensures |r| == |lines| && forall i :: 0 <= i < |r| ==> r[i] == DropCR(lines[i])
  {
    seq(|lines|, i requires 0 <= i < |lines| => DropCR(lines[i]))
  }

  lemma {:induction false} LineEndOf(l: string, rest: string)
    requires OneLine(l)
    ensures LineEnd(Line(l) + rest) == |l|
  {
    var s := Line(l) + rest;
    if l == "" {
    } else {
      LineEndOf(l[1..], rest);
      assert s[1..] == Line(l[1..]) + rest;
      assert s[0] in l;
    }
  }

  lemma ScanLine(l: string, rest: string)
    requires Scannable(l)
    ensures Scan(Line(l) + rest) == ([DropCR(l)] + Scan(rest).0, Scan(rest).1)
  {
    var s := Line(l) + rest;
    LineEndOf(l, rest);
    assert s[..|l|] == l && s[|l| + 1..] == rest;
  }

  lemma JoinSplit(lines: seq<string>, rest: string)
    requires lines != []
    ensures Join(lines) + rest == Join(lines[..|lines| - 1]) + (Line(lines[|lines| - 1]) + rest)
  {
  }

  lemma DropCRsSplit(lines: seq<string>, tail: seq<string>)
    requires lines != []
    ensures DropCRs(lines[..|lines| - 1]) + ([DropCR(lines[|lines| - 1])] + tail) == DropCRs(lines) + tail
  {
  }

  lemma {:induction false} ScanJoined(lines: seq<string>, rest: string)
    requires forall l :: l in lines ==> Scannable(l)
    ensures Scan(Join(lines) + rest) == (DropCRs(lines) + Scan(rest).0, Scan(rest).1)
    decreases |lines|
  {
    if lines == [] {
      assert Join(lines) + rest == rest && DropCRs(lines) + Scan(rest).0 == Scan(rest).0;
    } else {
      var n := |lines| - 1;
      ScanJoined(lines[..n], Line(lines[n]) + rest);
      ScanLine(lines[n], rest);
      JoinSplit(lines, rest);
      DropCRsSplit(lines, Scan(rest).0);
    }
  }

  /** The text between line feeds is what was joined. */
  lemma {:induction false} RawJoined(lines: seq<string>, rest: string)
    requires forall l :: l in lines ==> OneLine(l)
    ensures RawLines(Join(lines) + rest) == lines + RawLines(rest)
    decreases |lines|
  {
    if lines == [] {
      assert Join(lines) + rest == rest && lines + RawLines(rest) == RawLines(rest);
    } else {
      var n := |lines| - 1;
      RawJoined(lines[..n], Line(lines[n]) + rest);
      JoinSplit(lines, rest);
      RawLine(lines[n], rest);
      LastLine(lines, RawLines(rest));
    }
  }

  lemma RawLine(l: string, rest: string)
    requires OneLine(l)
    ensures RawLines(Line(l) + rest) == [l] + RawLines(rest)
  {
    var s := Line(l) + rest;
    LineEndOf(l, rest);
    assert s[..|l|] == l && s[|l| + 1..] == rest;
  }

  lemma LastLine(lines: seq<string>, tail: seq<string>)
    requires lines != []
    ensures lines[..|lines| - 1] + ([lines[|lines| - 1]] + tail) == lines + tail
  {
  }

  lemma ScanAll(lines: seq<string>)
    requires forall l :: l in lines ==> Scannable(l)
    ensures Scan(Join(lines)) == (DropCRs(lines), false)
  {
    ScanJoined(lines, "");
    assert Join(lines) + "" == Join(lines) && DropCRs(lines) + [] == DropCRs(lines);
  }
}
