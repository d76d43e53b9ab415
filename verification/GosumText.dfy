/** How go.sum and go.mod texts are read, stated on the texts: words and the
    blanks between them, ordinary lines, whole files. */
module GosumText {
  import opened Ordering
  import opened Text
  import opened Scanner
  import opened Gosum
  import opened GosumParity

  // ---------------------------------------------------------------------
  // Words and blanks
  // ---------------------------------------------------------------------

  /** Space, tab, line feed, vertical tab, form feed and carriage return. */
  const BLANKS: string := " \t\n\U{000B}\U{000C}\r"

  ghost predicate Word(w: string) {
    w != "" && forall c :: c in w ==> c !in BLANKS
  }

  ghost predicate Gap(g: string) {
    forall c :: c in g ==> c in BLANKS
  }

  lemma BlankIff(c: char)
    ensures c in BLANKS <==> IsSpace(c)
  {
    assert BLANKS == [' ', '\t', '\n', '\U{000B}', '\U{000C}', '\r'];
    assert '\t' as int == 9 && '\n' as int == 10 && '\U{000B}' as int == 11 && '\U{000C}' as int == 12
      && '\r' as int == 13;
    if IsSpace(c) && c != ' ' { assert 9 <= c as int <= 13; }
  }

  /** Words with a gap before, between and after them. */
  function Spaced(gaps: seq<string>, words: seq<string>): string
    requires |gaps| == |words| + 1
  {
    if words == [] then gaps[0] else gaps[0] + (words[0] + Spaced(gaps[1..], words[1..]))
  }

  /** The words are words, the gaps are blank, and no two words touch. */
  ghost predicate WellSpaced(gaps: seq<string>, words: seq<string>) {
    && |gaps| == |words| + 1
    && (forall i :: 0 <= i < |words| ==> Word(words[i]))
    && (forall i :: 0 <= i < |gaps| ==> Gap(gaps[i]))
    && (forall i :: 0 < i < |words| ==> gaps[i] != "")
  }

  lemma {:induction false} FieldsSkipGap(g: string, s: string)
    requires Gap(g)
    ensures Fields(g + s) == Fields(s)
  {
    if g == "" {
      assert g + s == s;
    } else {
      BlankIff(g[0]);
      assert g[0] in g;
      FieldsSkipGap(g[1..], s);
      assert (g + s)[1..] == g[1..] + s;
    }
  }

  lemma {:induction false} WordEndOf(w: string, s: string)
    requires forall c :: c in w ==> c !in BLANKS
    requires s == "" || s[0] in BLANKS
    ensures WordEnd(w + s) == |w|
  {
    if w == "" {
      assert w + s == s;
      if s != "" { BlankIff(s[0]); }
    } else {
      BlankIff(w[0]);
      assert w[0] in w;
      WordEndOf(w[1..], s);
      assert (w + s)[1..] == w[1..] + s;
    }
  }

  lemma FieldsTakeWord(w: string, s: string)
    requires Word(w) && (s == "" || s[0] in BLANKS)
    ensures Fields(w + s) == [w] + Fields(s)
  {
    WordEndOf(w, s);
    BlankIff(w[0]);
    assert w[0] in w && (w + s)[0] == w[0];
    assert (w + s)[..|w|] == w && (w + s)[|w|..] == s;
  }

  lemma SpacedStart(gaps: seq<string>, words: seq<string>)
    requires WellSpaced(gaps, words) && (words != [] ==> gaps[0] != "")
    ensures var s := Spaced(gaps, words); s == "" || s[0] in BLANKS
  {
    var s := Spaced(gaps, words);
    if s != "" { assert s[0] == gaps[0][0] && gaps[0][0] in gaps[0]; }
  }

  /** The fields of a text are its words. */
  lemma {:induction false} FieldsOfSpaced(gaps: seq<string>, words: seq<string>)
    requires WellSpaced(gaps, words)
    ensures Fields(Spaced(gaps, words)) == words
    decreases |words|
  {
    if words == [] {
      FieldsSkipGap(gaps[0], "");
      assert gaps[0] + "" == gaps[0];
    } else {
      var rest := Spaced(gaps[1..], words[1..]);
      FieldsOfSpaced(gaps[1..], words[1..]);
      SpacedStart(gaps[1..], words[1..]);
      FieldsSkipGap(gaps[0], words[0] + rest);
      FieldsTakeWord(words[0], rest);
    }
  }

  /** Every text consists of words and gaps. */
  lemma {:induction false} EveryText(s: string) returns (gaps: seq<string>, words: seq<string>)
    ensures WellSpaced(gaps, words) && s == Spaced(gaps, words)
    decreases |s|
  {
    if s == "" {
      gaps, words := [""], [];
    } else if s[0] in BLANKS {
      gaps, words := EveryText(s[1..]);
      assert s == [s[0]] + s[1..];
      gaps := WidenGap([s[0]], gaps, words);
    } else {
      var n := FirstWord(s);
      gaps, words := EveryText(s[n..]);
      assert s == s[..n] + s[n..];
      gaps, words := PutWord(s[..n], s[n..], gaps, words);
    }
  }

  lemma WidenGap(g: string, gaps: seq<string>, words: seq<string>) returns (gaps': seq<string>)
    requires WellSpaced(gaps, words) && Gap(g)
    ensures WellSpaced(gaps', words) && Spaced(gaps', words) == g + Spaced(gaps, words)
  {
    gaps' := [g + gaps[0]] + gaps[1..];
    assert gaps'[1..] == gaps[1..];
    if words != [] {
      var rest := words[0] + Spaced(gaps[1..], words[1..]);
      assert g + gaps[0] + rest == g + (gaps[0] + rest);
    }
  }

  lemma {:induction false} FirstWord(s: string) returns (n: nat)
    requires s != "" && s[0] !in BLANKS
    ensures 0 < n <= |s| && Word(s[..n]) && (n < |s| ==> s[n] in BLANKS)
  {
    n := 1;
    while n < |s| && s[n] !in BLANKS
      invariant 0 < n <= |s| && forall i :: 0 <= i < n ==> s[i] !in BLANKS
    {
      n := n + 1;
    }
  }

  lemma PutWord(w: string, s: string, gaps: seq<string>, words: seq<string>)
    returns (gaps': seq<string>, words': seq<string>)
    requires Word(w) && WellSpaced(gaps, words) && s == Spaced(gaps, words) && (s == "" || s[0] in BLANKS)
    ensures WellSpaced(gaps', words') && w + s == Spaced(gaps', words')
  {
    gaps', words' := [""] + gaps, [w] + words;
    assert gaps'[1..] == gaps && words'[1..] == words;
    StartsWithWord(gaps, words);
    assert "" + (w + s) == w + s;
  }

  lemma StartsWithWord(gaps: seq<string>, words: seq<string>)
    requires WellSpaced(gaps, words)
    ensures var s := Spaced(gaps, words); words != [] && gaps[0] == "" ==> s != "" && s[0] !in BLANKS
  {
    var s := Spaced(gaps, words);
    if words != [] && gaps[0] == "" { assert s[0] == words[0][0] && words[0][0] in words[0]; }
  }

  // ---------------------------------------------------------------------
  // Trimming
  // ---------------------------------------------------------------------

  /** Begins and ends with something other than a blank, or is empty. */
  predicate Tight(s: string) {
    s == "" || (s[0] !in BLANKS && s[|s| - 1] !in BLANKS)
  }

  lemma {:induction false} TrimLeftOf(g: string, s: string)
    requires Gap(g) && (s == "" || s[0] !in BLANKS)
    ensures TrimLeft(g + s) == s
  {
    if g == "" {
      assert g + s == s;
      if s != "" { BlankIff(s[0]); }
    } else {
      BlankIff(g[0]);
      assert g[0] in g && (g + s)[1..] == g[1..] + s;
      TrimLeftOf(g[1..], s);
    }
  }

  lemma {:induction false} TrimRightOf(s: string, g: string)
    requires Gap(g) && (s == "" || s[|s| - 1] !in BLANKS)
    ensures TrimRight(s + g) == s
  {
    if g == "" {
      assert s + g == s;
      if s != "" { BlankIff(s[|s| - 1]); }
    } else {
      var n := |g| - 1;
      BlankIff(g[n]);
      assert g[n] in g && (s + g)[|s + g| - 1] == g[n] && (s + g)[..|s + g| - 1] == s + g[..n];
      TrimRightOf(s, g[..n]);
    }
  }

  lemma TrimOf(a: string, s: string, b: string)
    requires Gap(a) && Gap(b) && Tight(s)
    ensures Trim(a + s + b) == s
  {
    if s == "" {
      assert a + s + b == "" + (a + b) && a + b == a + (b + "");
      forall c | c in a + b ensures c in BLANKS { }
      TrimRightOf("", a + b);
      TrimLeftOf("", "");
      assert "" + "" == "";
    } else {
      TrimRightOf(a + s, b);
      TrimLeftOf(a, s);
    }
  }

  // ---------------------------------------------------------------------
  // go.sum lines
  // ---------------------------------------------------------------------

  /** A line of three words, the third a hash of the h1 kind, is the entry of its
      module and version; "/go.mod" at the end of the version is taken off and
      marks the entry as not primary. Blank lines are skipped, all others
      refused. Both readers do so. */
  lemma SumLineMeans(gaps: seq<string>, words: seq<string>)
    requires WellSpaced(gaps, words)
    ensures var line := Spaced(gaps, words);
      && GoSumLine(line) == RustSumLine(line)
      && (GoSumLine(line) == Skip <==> words == [])
      && (GoSumLine(line).Good? <==> |words| == 3 && |words[2]| >= 3 && words[2][..3] == "h1:")
      && (GoSumLine(line).Good? ==> var e := GoSumLine(line).entry;
            && e.key.moduleName == words[0] && e.hash == words[2]
            && words[1] == e.key.version + (if e.primary then "" else "/go.mod")
            && (e.primary ==> !HasSuffix(words[1], "/go.mod")))
  {
    var line := Spaced(gaps, words);
    SumLinesAgree(line, line);
    TrimmedFields(gaps, words);
    if |words| == 3 { SuffixParts(words[1], "/go.mod"); }
  }

  lemma SuffixParts(s: string, p: string)
    ensures HasSuffix(s, p) ==> s == TrimSuffix(s, p) + p
    ensures !HasSuffix(s, p) ==> s == TrimSuffix(s, p) + ""
  {
  }

  /** Trimming takes nothing but the outer gaps. */
  lemma TrimmedFields(gaps: seq<string>, words: seq<string>)
    requires WellSpaced(gaps, words)
    ensures var line := Trim(Spaced(gaps, words)); Fields(line) == words && (line == "" <==> words == [])
  {
    if words == [] {
      TrimOf(gaps[0], "", "");
      assert gaps[0] + "" + "" == gaps[0];
      FieldsOfSpaced([""], []);
    } else {
      var n := |words|;
      var inner := [""] + gaps[1..n] + [""];
      SpacedParts(gaps, words);
      InnerSpaced(gaps, words);
      InnerTight(inner, words);
      TrimOf(gaps[0], Spaced(inner, words), gaps[n]);
      FieldsOfSpaced(inner, words);
    }
  }

  lemma InnerSpaced(gaps: seq<string>, words: seq<string>)
    requires WellSpaced(gaps, words) && words != []
    ensures WellSpaced([""] + gaps[1..|words|] + [""], words)
  {
    var n := |words|;
    var inner := [""] + gaps[1..n] + [""];
    forall i | 0 <= i < |inner| ensures Gap(inner[i]) && (0 < i < n ==> inner[i] != "") {
      if 0 < i < n { assert inner[i] == gaps[i]; }
    }
  }

  lemma SpacedParts(gaps: seq<string>, words: seq<string>)
    requires |gaps| == |words| + 1 && words != []
    ensures var n := |words|;
      Spaced(gaps, words) == gaps[0] + Spaced([""] + gaps[1..n] + [""], words) + gaps[n]
  {
    var n := |words|;
    WithoutLastGap(gaps, words);
    WithoutFirstGap(gaps[..n] + [""], words);
    SameInner(gaps, n);
  }

  lemma WithoutFirstGap(gaps: seq<string>, words: seq<string>)
    requires |gaps| == |words| + 1 && words != []
    ensures Spaced(gaps, words) == gaps[0] + Spaced([""] + gaps[1..], words)
  {
    var bare := [""] + gaps[1..];
    assert bare[1..] == gaps[1..];
    var rest := words[0] + Spaced(gaps[1..], words[1..]);
    assert "" + rest == rest;
  }

  lemma SameInner(gaps: seq<string>, n: nat)
    requires 0 < n < |gaps|
    ensures (gaps[..n] + [""])[0] == gaps[0]
    ensures [""] + (gaps[..n] + [""])[1..] == [""] + gaps[1..n] + [""]
  {
    assert (gaps[..n] + [""])[1..] == gaps[1..n] + [""];
  }

  lemma {:induction false} WithoutLastGap(gaps: seq<string>, words: seq<string>)
    requires |gaps| == |words| + 1
    ensures Spaced(gaps, words) == Spaced(gaps[..|words|] + [""], words) + gaps[|words|]
    decreases |words|
  {
    var n := |words|;
    var right := gaps[..n] + [""];
    if n == 0 {
      assert right == [""] && Spaced(right, words) == "";
      assert "" + gaps[0] == gaps[0];
    } else {
      WithoutLastGap(gaps[1..], words[1..]);
      assert right[1..] == gaps[1..][..n - 1] + [""] && right[0] == gaps[0] && gaps[1..][n - 1] == gaps[n];
      var rest := Spaced(right[1..], words[1..]);
      assert Spaced(gaps, words) == gaps[0] + (words[0] + (rest + gaps[n]));
      assert gaps[0] + (words[0] + (rest + gaps[n])) == gaps[0] + (words[0] + rest) + gaps[n];
    }
  }

  lemma {:induction false} InnerTight(gaps: seq<string>, words: seq<string>)
    requires WellSpaced(gaps, words) && words != [] && gaps[0] == "" && gaps[|words|] == ""
    ensures Tight(Spaced(gaps, words)) && Spaced(gaps, words) != ""
  {
    var s := Spaced(gaps, words);
    assert s[0] == words[0][0] && words[0][0] in words[0];
    EndsLikeLast(gaps, words);
  }

  lemma {:induction false} EndsLikeLast(gaps: seq<string>, words: seq<string>)
    requires WellSpaced(gaps, words) && words != [] && gaps[|words|] == ""
    ensures var s := Spaced(gaps, words); s != "" && s[|s| - 1] !in BLANKS
    decreases |words|
  {
    var w := words[0];
    if |words| == 1 {
      assert gaps[1..] == [""] && Spaced(gaps, words) == gaps[0] + (w + "");
      assert w + "" == w && w[|w| - 1] in w;
    } else {
      EndsLikeLast(gaps[1..], words[1..]);
    }
  }

  // ---------------------------------------------------------------------
  // go.sum files
  // ---------------------------------------------------------------------

  /** An entry as the go command writes it. */
  function SumText(e: Entry): string {
    e.key.moduleName + " " + e.key.version + (if e.primary then "" else "/go.mod") + " " + e.hash
  }

  ghost predicate Ordinary(e: Entry) {
    && Word(e.key.moduleName) && Word(e.key.version) && Word(e.hash)
    && |e.hash| >= 3 && e.hash[..3] == "h1:"
    && (e.primary ==> !HasSuffix(e.key.version, "/go.mod"))
    && |SumText(e)| <= MAX_LINE
  }

  function SumTexts(es: seq<Entry>): (r: seq<string>)
    ensures |r| == |es| && forall i :: 0 <= i < |es| ==> r[i] == SumText(es[i])
  {
    seq(|es|, i requires 0 <= i < |es| => SumText(es[i]))
  }

  lemma SumTextSpaced(e: Entry) returns (gaps: seq<string>, words: seq<string>)
    requires Ordinary(e)
    ensures WellSpaced(gaps, words) && SumText(e) == Spaced(gaps, words)
    ensures words == [e.key.moduleName, e.key.version + (if e.primary then "" else "/go.mod"), e.hash]
  {
    var v := e.key.version + (if e.primary then "" else "/go.mod");
    gaps, words := ["", " ", " ", ""], [e.key.moduleName, v, e.hash];
    WordWithSuffix(e.key.version, e.primary);
    ThreeWords(e.key.moduleName, v, e.hash);
    assert SumText(e) == e.key.moduleName + " " + v + " " + e.hash;
  }

  lemma WordWithSuffix(v: string, primary: bool)
    requires Word(v)
    ensures Word(v + (if primary then "" else "/go.mod"))
  {
    assert forall c :: c in "/go.mod" ==> c !in BLANKS;
  }

  lemma ThreeWords(a: string, b: string, c: string)
    ensures Spaced(["", " ", " ", ""], [a, b, c]) == a + " " + b + " " + c
  {
    var gaps, words := ["", " ", " ", ""], [a, b, c];
    assert gaps[1..] == [" ", " ", ""] && words[1..] == [b, c];
    assert gaps[1..][1..] == [" ", ""] && words[1..][1..] == [c];
    assert gaps[1..][1..][1..] == [""] && words[1..][1..][1..] == [];
    assert Spaced([""], []) == "";
    assert Spaced([" ", ""], [c]) == " " + (c + "");
    assert Spaced([" ", " ", ""], [b, c]) == " " + (b + (" " + (c + "")));
    assert "" + (a + (" " + (b + (" " + (c + ""))))) == a + " " + b + " " + c;
  }

  lemma SumTextReads(e: Entry)
    requires Ordinary(e)
    ensures GoSumLine(SumText(e)) == Good(e)
  {
    var gaps, words := SumTextSpaced(e);
    SumLineMeans(gaps, words);
    var r := GoSumLine(SumText(e)).entry;
    var v := e.key.version;
    if !e.primary { assert words[1] == v + "/go.mod" && words[1][|v|..] == "/go.mod"; }
    assert r.primary == e.primary;
    assert e.primary ==> v + "" == v && r.key.version + "" == r.key.version;
    assert !e.primary ==> v == words[1][..|words[1]| - 7] && r.key.version == words[1][..|words[1]| - 7];
  }

  lemma {:induction false} TextsRead(es: seq<Entry>)
    requires forall e :: e in es ==> Ordinary(e)
    ensures EntriesOf(GoSumLine, SumTexts(es)) == Some(es)
  {
    if es == [] {
    } else {
      var n := |es| - 1;
      TextsRead(es[..n]);
      assert SumTexts(es)[..n] == SumTexts(es[..n]);
      assert es[n] in es;
      SumTextReads(es[n]);
      assert es[..n] + [es[n]] == es;
    }
  }

  lemma SumTextIsLine(e: Entry)
    requires Ordinary(e)
    ensures Scannable(SumText(e)) && DropCR(SumText(e)) == SumText(e)
  {
    var t := SumText(e);
    assert '\n' in BLANKS && '\r' in BLANKS;
    assert t[|t| - 1] == e.hash[|e.hash| - 1] && e.hash[|e.hash| - 1] in e.hash;
  }

  /** A file of ordinary entries, one to a line, is read as those entries by both
      languages. */
  lemma FileReads(es: seq<Entry>)
    requires forall e :: e in es ==> Ordinary(e)
    ensures var file := Join(SumTexts(es));
      && !Scan(file).1 && EntriesOf(GoSumLine, Scan(file).0) == Some(es)
      && EntriesOf(RustSumLine, RustLines(file)) == Some(es)
  {
    var lines := SumTexts(es);
    forall l | l in lines ensures Scannable(l) && DropCR(l) == l {
      var i :| 0 <= i < |es| && lines[i] == l;
      assert es[i] in es;
      SumTextIsLine(es[i]);
    }
    ScanAll(lines);
    assert DropCRs(lines) == lines;
    TextsRead(es);
    ScannersAgree(Join(lines));
    EntriesAgree(Scan(Join(lines)).0, RustLines(Join(lines)));
  }

  /** Without a go.mod, the rows of such a file are its modules and versions with
      their hashes, in both languages. */
  lemma PlainRows(es: seq<Entry>, go: seq<Row>, rust: seq<Row>, r: Row)
    requires forall e :: e in es ==> Ordinary(e)
    requires var file := Join(SumTexts(es));
      && EntriesOf(GoSumLine, Scan(file).0).Some? && EntriesOf(RustSumLine, RustLines(file)).Some?
      && IsParse(EntriesOf(GoSumLine, Scan(file).0).value, GoTargets(ReplacesOf(GoModLine, Scan("").0).targets), go)
      && IsStableParse(EntriesOf(RustSumLine, RustLines(file)).value,
                       RustTargets(ReplacesOf(RustModLine, RustLines("")).targets), rust)
    ensures r in go <==> exists e :: e in es && e.key == Key(r.name, r.version) && HasHash(es, e.key, r.hash)
    ensures r in rust <==> r in go
  {
    FileReads(es);
    assert GoTargets(ReplacesOf(GoModLine, Scan("").0).targets) == map[];
    assert RustTargets(ReplacesOf(RustModLine, RustLines("")).targets) == map[];
    RowsMean(es, map[], go, r);
    StableIsParse(es, map[], rust);
    RowsMean(es, map[], rust, r);
  }

  // ---------------------------------------------------------------------
  // Replace directives
  // ---------------------------------------------------------------------

  /** The search finds the first occurrence, if there is one. */
  lemma {:induction false} IndexIsFirst(s: string, p: string)
    ensures var i := IndexOf(s, p);
      forall j :: 0 <= j <= |s| && (i < 0 || j < i) ==> !HasPrefix(s[j..], p)
  {
    var i := IndexOf(s, p);
    if HasPrefix(s, p) {
    } else if s == "" {
      assert s[0..] == s;
    } else {
      IndexIsFirst(s[1..], p);
      forall j | 0 <= j <= |s| && (i < 0 || j < i) ensures !HasPrefix(s[j..], p) {
        if j == 0 { assert s[0..] == s; } else { assert s[j..] == s[1..][j - 1..]; }
      }
    }
  }

  lemma FoundAt(s: string, p: string, n: nat)
    requires n <= |s| && HasPrefix(s[n..], p) && forall j :: 0 <= j < n ==> !HasPrefix(s[j..], p)
    ensures IndexOf(s, p) == n
  {
    IndexIsFirst(s, p);
  }

  lemma ArrowAt(l: string, r: string)
    requires '=' !in l
    ensures IndexOf(l + "=>" + r, "=>") == |l|
  {
    var s := l + "=>" + r;
    assert s[|l|..] == "=>" + r && (s[|l|..])[..2] == "=>";
    forall j | 0 <= j < |l| ensures !HasPrefix(s[j..], "=>") {
      assert s[j] == l[j] && l[j] in l;
      assert |s[j..]| >= 2 ==> s[j..][..2][0] == s[j];
    }
    FoundAt(s, "=>", |l|);
  }

  /** The target the words right of the arrow stand for: the first one at the
      version that follows; a path that starts with a dot or a slash, or has no
      version, is local. */
  ghost function TargetOf(words: seq<string>): Target
    requires words != [] && words[0] != ""
  {
    if words[0][0] == '.' || words[0][0] == '/' || |words| == 1 then Local else Remote(words[0], words[1])
  }

  /** `OLD [OLDVER] => NEW [NEWVER]`: the first word left of the arrow is
      replaced by what the words right of it stand for. */
  lemma DirectiveMeans(lg: seq<string>, lw: seq<string>, rg: seq<string>, rw: seq<string>)
    requires WellSpaced(lg, lw) && WellSpaced(rg, rw) && '=' !in Spaced(lg, lw)
    ensures var line := Spaced(lg, lw) + "=>" + Spaced(rg, rw);
      && (GoDirective(line).Some? <==> lw != [] && rw != [])
      && (RustDirective(line).Some? <==> lw != [] && rw != [])
      && (lw != [] && rw != [] ==>
            && GoDirective(line).value.0 == lw[0] == RustDirective(line).value.0
            && GoMeaning(GoDirective(line).value.1) == TargetOf(rw) == RustMeaning(RustDirective(line).value.1))
  {
    var l, r := Spaced(lg, lw), Spaced(rg, rw);
    ArrowAt(l, r);
    FieldsOfSpaced(lg, lw);
    FieldsOfSpaced(rg, rw);
    SidesMean(l, r);
    DirectivesAgree(l + "=>" + r);
  }

  lemma SidesMean(l: string, r: string)
    requires IndexOf(l + "=>" + r, "=>") == |l|
    ensures var line := l + "=>" + r;
      && (GoDirective(line).Some? <==> Fields(l) != [] && Fields(r) != [])
      && (Fields(l) != [] && Fields(r) != [] ==>
            && Fields(r)[0] != "" && GoDirective(line).value.0 == Fields(l)[0]
            && GoMeaning(GoDirective(line).value.1) == TargetOf(Fields(r)))
  {
    var line := l + "=>" + r;
    assert line[..|l|] == l && line[|l| + 2..] == r;
    PartsMean(line, l, r);
  }

  lemma PartsMean(line: string, l: string, r: string)
    requires SplitN2(line, "=>") == [l, r]
    ensures GoDirective(line).Some? <==> Fields(l) != [] && Fields(r) != []
    ensures Fields(l) != [] && Fields(r) != [] ==>
      && Fields(r)[0] != "" && GoDirective(line).value.0 == Fields(l)[0]
      && GoMeaning(GoDirective(line).value.1) == TargetOf(Fields(r))
  {
    var lhs, rhs := Fields(l), Fields(r);
    if lhs != [] && rhs != [] {
      assert rhs[0] in rhs && (|rhs| >= 2 ==> rhs[1] in rhs);
      FirstChar(rhs[0]);
    }
  }

  lemma FirstChar(w: string)
    requires w != ""
    ensures (HasPrefix(w, ".") <==> w[0] == '.') && (HasPrefix(w, "/") <==> w[0] == '/')
  {
    assert w[..1] == [w[0]];
  }

  /** A line without an arrow replaces nothing. */
  lemma NoArrow(line: string)
    requires '=' !in line
    ensures GoDirective(line) == None && RustDirective(line) == None
  {
    ArrowHasEquals(line);
  }

  lemma ArrowHasEquals(line: string)
    ensures IndexOf(line, "=>") >= 0 ==> '=' in line
  {
    var i := IndexOf(line, "=>");
    if i >= 0 { assert line[i..][..2] == "=>" && line[i] == line[i..][..2][0] == '='; }
  }

  // ---------------------------------------------------------------------
  // go.mod lines
  // ---------------------------------------------------------------------

  /** No two slashes in a row, and none at the end. */
  predicate NoSlashes(t: string) {
    && (forall i :: 0 <= i < |t| - 1 ==> !(t[i] == '/' && t[i + 1] == '/'))
    && (t == "" || t[|t| - 1] != '/')
  }

  /** A comment runs from the first pair of slashes to the end of the line. */
  lemma CommentMeans(t: string, comment: string)
    requires NoSlashes(t)
    ensures GoStripComment(t) == t && GoStripComment(t + "//" + comment) == t
    ensures RustStripComment(t) == t && RustStripComment(t + "//" + comment) == t
  {
    var s := t + "//" + comment;
    assert s[|t|..] == "//" + comment && s[|t|..][..2] == "//";
    forall j | 0 <= j < |t| ensures !HasPrefix(s[j..], "//") && !HasPrefix(t[j..], "//") {
      assert s[j] == t[j] && (j + 1 < |t| ==> s[j + 1] == t[j + 1]);
      assert |s[j..]| >= 2 && s[j..][..2] == [s[j], s[j + 1]];
      assert |t[j..]| >= 2 ==> t[j..][..2] == [t[j], t[j + 1]];
    }
    FoundAt(s, "//", |t|);
    assert s[..|t|] == t;
    assert t[|t|..] == "";
    NotFound(t, "//");
  }

  lemma NotFound(s: string, p: string)
    requires forall j :: 0 <= j <= |s| ==> !HasPrefix(s[j..], p)
    ensures IndexOf(s, p) == -1
  {
  }

  /** A line of go.mod, outer blanks and comment aside, opens or closes a block,
      or gives a directive, and anything else changes nothing. */
  lemma ModLineMeans(s: Replaces<GoTarget>, a: string, line: string, b: string, comment: string)
    requires Gap(a) && Gap(b) && Tight(line) && NoSlashes(a + line + b)
    ensures var raw := a + line + b + "//" + comment;
      && GoModLine(s, a + line + b) == GoModLine(s, raw)
      && (line == "" ==> GoModLine(s, raw) == s)
      && (!s.inBlock && line == "replace (" ==> GoModLine(s, raw) == s.(inBlock := true))
      && (s.inBlock && line == ")" ==> GoModLine(s, raw) == s.(inBlock := false))
      && (!s.inBlock && !HasPrefix(line, "replace ") ==> GoModLine(s, raw) == s)
  {
    TrimOf(a, line, b);
    CommentMeans(a + line + b, comment);
  }

  /** A directive inside a block sets the target of its module. */
  lemma BlockLineMeans(s: Replaces<GoTarget>, a: string, d: string, b: string)
    requires s.inBlock && Gap(a) && Gap(b) && Tight(d) && NoSlashes(a + d + b)
    requires d != "" && d != ")" && GoDirective(d).Some?
    ensures GoModLine(s, a + d + b) == s.(targets := s.targets[GoDirective(d).value.0 := GoDirective(d).value.1])
  {
    TrimOf(a, d, b);
    CommentMeans(a + d + b, "");
  }

  /** Outside a block it does so after the word replace. */
  lemma ReplaceLineMeans(s: Replaces<GoTarget>, a: string, d: string, b: string)
    requires !s.inBlock && Gap(a) && Gap(b) && Tight(d) && NoSlashes(a + ("replace " + d) + b)
    requires d != "" && d != "(" && GoDirective(d).Some?
    ensures GoModLine(s, a + ("replace " + d) + b) ==
      s.(targets := s.targets[GoDirective(d).value.0 := GoDirective(d).value.1])
  {
    var line := "replace " + d;
    ReplacePrefix(d);
    TrimOf(a, line, b);
    CommentMeans(a + line + b, "");
    ReplaceCleaned(s, a + line + b, d);
  }

  lemma ReplaceCleaned(s: Replaces<GoTarget>, raw: string, d: string)
    requires !s.inBlock && Trim(GoStripComment(raw)) == "replace " + d
    requires Tight(d) && d != "" && d != "(" && GoDirective(d).Some?
    ensures GoModLine(s, raw) == s.(targets := s.targets[GoDirective(d).value.0 := GoDirective(d).value.1])
  {
    ReplacePrefix(d);
    TrimTight(d);
  }

  lemma TrimTight(d: string)
    requires Tight(d)
    ensures Trim(d) == d
  {
    TrimOf("", d, "");
    assert "" + d + "" == d;
  }

  lemma ReplacePrefix(d: string)
    requires Tight(d) && d != "" && d != "("
    ensures var line := "replace " + d;
      Tight(line) && HasPrefix(line, "replace ") && line[|"replace "|..] == d && line != "replace (" && line != ""
  {
    var line := "replace " + d;
    assert line[..8] == "replace " && line[8..] == d && "replace ("[8..] == "(";
    assert line[0] == 'r' && line[|line| - 1] == d[|d| - 1];
  }
}
