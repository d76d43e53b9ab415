/** The writer of the engine's event stream and the reader of the Slack
    notifier: the subset of server-sent events (section 9.2 of the WHATWG HTML
    standard) the two share. */
module Sse {
  import opened Text
  import opened Scanner

  datatype Frame = Frame(id: string, eventType: string, data: string)

  const BLANK: Frame := Frame("", "", "")

  /** What the stream loop writes: an event or a heartbeat comment. */
  datatype Item = EventItem(frame: Frame) | Comment(text: string)

  // ---------------------------------------------------------------------
  // Writer
  // ---------------------------------------------------------------------

  function IdLine(id: string): string { "id: " + id }
  function EventLine(t: string): string { "event: " + t }
  function DataLine(d: string): string { "data: " + d }
  function CommentLine(t: string): string { ": " + t }

  /** The lines of one item; the last one is empty. */
  function ItemLines(i: Item): seq<string> {
    match i
    case EventItem(f) =>
      (if f.id == "" then [] else [IdLine(f.id)]) + [EventLine(f.eventType)] + [DataLine(f.data)] + [""]
    case Comment(t) => [CommentLine(t)] + [""]
  }

  function StreamLines(items: seq<Item>): seq<string> {
    if items == [] then [] else StreamLines(items[..|items| - 1]) + ItemLines(items[|items| - 1])
  }

  function StreamText(items: seq<Item>): string {
    Join(StreamLines(items))
  }

  /** The text of one item. */
  function ItemText(i: Item): string {
    match i
    case EventItem(f) =>
      (if f.id == "" then "" else "id: " + f.id + "\n")
      + (("event: " + f.eventType + "\n") + ("data: " + f.data + "\n") + "\n")
    case Comment(t) => (": " + t + "\n") + "\n"
  }

  /** Writing one more item appends its text. */
  lemma StreamTextSnoc(items: seq<Item>, i: Item)
    ensures StreamText([]) == "" && StreamText(items + [i]) == StreamText(items) + ItemText(i)
  {
    assert (items + [i])[..|items|] == items;
    JoinItem(StreamLines(items), i);
  }

  lemma JoinItem(ls: seq<string>, i: Item)
    ensures Join(ls + ItemLines(i)) == Join(ls) + ItemText(i)
  {
    match i
    case EventItem(f) =>
      if f.id == "" { JoinWithoutId(ls, EventLine(f.eventType), DataLine(f.data)); }
      else { JoinWithId(ls, IdLine(f.id), EventLine(f.eventType), DataLine(f.data)); }
    case Comment(t) => JoinOne(ls, CommentLine(t));
  }

  lemma JoinWithoutId(ls: seq<string>, a: string, b: string)
    ensures Join(ls + ([] + [a] + [b] + [""])) == Join(ls) + ("" + ((a + "\n") + (b + "\n") + "\n"))
  {
    JoinTwo(ls, a, b);
    assert ls + ([] + [a] + [b] + [""]) == ls + [a] + [b] + [""];
  }

  lemma JoinWithId(ls: seq<string>, l: string, a: string, b: string)
    ensures Join(ls + ([l] + [a] + [b] + [""])) == Join(ls) + ((l + "\n") + ((a + "\n") + (b + "\n") + "\n"))
  {
    JoinSnoc(ls, l);
    JoinTwo(ls + [l], a, b);
    assert ls + ([l] + [a] + [b] + [""]) == ls + [l] + [a] + [b] + [""];
    Regroup(Join(ls), l + "\n", (a + "\n") + (b + "\n") + "\n", "");
  }

  lemma JoinOne(ls: seq<string>, a: string)
    ensures Join(ls + [a] + [""]) == Join(ls + ([a] + [""])) == Join(ls) + ((a + "\n") + "\n")
  {
    assert ls + [a] + [""] == ls + ([a] + [""]);
    JoinSnoc(ls, a);
    JoinSnoc(ls + [a], "");
    assert Line("") == "\n";
  }

  lemma JoinTwo(ls: seq<string>, a: string, b: string)
    ensures Join(ls + [a] + [b] + [""]) == Join(ls) + ((a + "\n") + (b + "\n") + "\n")
  {
    JoinSnoc(ls, a);
    JoinOne(ls + [a], b);
    Regroup(Join(ls), a + "\n", b + "\n", "\n");
  }

  lemma Regroup(j: string, a: string, b: string, c: string)
    ensures j + a + (b + c) == j + (a + b + c)
  {
  }

  function EventsOf(items: seq<Item>): seq<Frame> {
    if items == [] then []
    else
      var n := |items| - 1;
      EventsOf(items[..n]) + (match items[n] case EventItem(f) => [f] case Comment(_) => [])
  }

  class Writer {
    /** The lines written so far; the response body is their Join. */
    ghost var lines: seq<string>
    var body: string

    constructor ()
      ensures lines == [] && Valid()
    {
      lines, body := [], "";
    }

    ghost predicate Valid()
      reads this
    {
      body == Join(lines)
    }

    method Print(l: string)
      requires Valid()
      modifies this
      ensures Valid() && lines == old(lines) + [l]
    {
      JoinSnoc(lines, l);
      lines := lines + [l];
      body := body + Line(l);
    }

    method WriteEvent(eventType: string, id: string, payload: string)
      requires Valid()
      modifies this
      ensures Valid() && lines == old(lines) + ItemLines(EventItem(Frame(id, eventType, payload)))
    {
      if id != "" {
        Print(IdLine(id));
      }
      Print(EventLine(eventType));
      Print(DataLine(payload));
      Print("");
    }

    method WriteComment(text: string)
      requires Valid()
      modifies this
      ensures Valid() && lines == old(lines) + ItemLines(Comment(text))
    {
      Print(CommentLine(text));
      Print("");
    }

    /** The body of the stream handler: `items` is what its select yields, in
        turn, until the channel closes. */
    method StreamLoop(items: seq<Item>)
      requires Valid() && lines == []
      modifies this
      ensures Valid() && body == StreamText(items)
    {
      for i := 0 to |items|
        invariant Valid() && lines == StreamLines(items[..i])
      {
        assert items[..i + 1][..i] == items[..i];
        WriteItem(items[i]);
      }
      assert items[..|items|] == items;
    }

    method WriteItem(i: Item)
      requires Valid()
      modifies this
      ensures Valid() && lines == old(lines) + ItemLines(i)
    {
      match i {
        case EventItem(f) => WriteEvent(f.eventType, f.id, f.data);
        case Comment(t) => WriteComment(t);
      }
    }
  }

  // ---------------------------------------------------------------------
  // Reader
  // ---------------------------------------------------------------------

  /** One line: the frame being assembled after it, and the frames it completes. */
  function OnLine(cur: Frame, line: string): (Frame, seq<Frame>) {
    if line == "" then
      if cur.eventType != "" || cur.data != "" then (BLANK, [cur]) else (cur, [])
    else if HasPrefix(line, ":") then (cur, [])
    else if HasPrefix(line, "id: ") then (cur.(id := line[4..]), [])
    else if HasPrefix(line, "event: ") then (cur.(eventType := line[7..]), [])
    else if HasPrefix(line, "data: ") then (cur.(data := line[6..]), [])
    else (cur, [])
  }

  /** The frame being assembled after some lines, and the frames completed. */
  function Assemble(lines: seq<string>): (Frame, seq<Frame>) {
    if lines == [] then (BLANK, [])
    else
      var n := |lines| - 1;
      var (cur, frames) := Assemble(lines[..n]);
      var (cur', done) := OnLine(cur, lines[n]);
      (cur', frames + done)
  }

  /** What is read of a stream that delivers s and then ends or, if `broken`,
      fails: the frames handed to the handler, and whether an error is
      returned. The scanner delivers a last partial line either way. */
  function Read(s: string, broken: bool): (seq<Frame>, bool) {
    (Assemble(Scan(s).0).1, Scan(s).1 || broken)
  }

  method ReadStream(s: string, broken: bool) returns (frames: seq<Frame>, err: bool)
    ensures (frames, err) == Read(s, broken)
  {
    frames, err := [], false;
    var rest, cur := s, BLANK;
    ghost var lines: seq<string> := [];
    HalfwayStart(s);
    while rest != ""
      invariant Halfway(s, lines, rest) && !err
      invariant (cur, frames) == Assemble(lines)
      decreases |rest|
    {
      var line, rest', tooLong := NextLine(rest);
      if tooLong {
        assert lines + [] == lines;
        return frames, true;
      }
      HalfwayStep(s, lines, rest, line, rest');
      AssembleSnoc(lines, line);
      lines, rest := lines + [line], rest';
      var done;
      cur, done := TakeLine(cur, line);
      frames := frames + done;
    }
    HalfwayEnd(s, lines);
    err := broken;
  }

  /** The switch of the read loop; `done` is what goes to the handler. */
  method TakeLine(cur0: Frame, line: string) returns (cur: Frame, done: seq<Frame>)
    ensures (cur, done) == OnLine(cur0, line)
  {
    cur, done := cur0, [];
    if line == "" {
      if cur.eventType != "" || cur.data != "" {
        done := [cur];
        cur := BLANK;
      }
      return;
    }
    if HasPrefix(line, ":") { return; }
    if HasPrefix(line, "id: ") {
      cur := cur.(id := line[4..]);
    } else if HasPrefix(line, "event: ") {
      cur := cur.(eventType := line[7..]);
    } else if HasPrefix(line, "data: ") {
      cur := cur.(data := line[6..]);
    }
  }

  // ---------------------------------------------------------------------
  // Assembling what was written
  // ---------------------------------------------------------------------

  predicate EndsInCR(s: string) {
    s != "" && s[|s| - 1] == '\r'
  }

  predicate OneLineFrame(f: Frame) {
    OneLine(f.id) && OneLine(f.eventType) && OneLine(f.data)
  }

  /** What the format can carry. */
  predicate Clean(f: Frame) {
    && OneLineFrame(f)
    && !EndsInCR(f.id) && !EndsInCR(f.eventType) && !EndsInCR(f.data)
    && (f.eventType != "" || f.data != "")
  }

  predicate Fits(f: Frame) {
    |f.id| + 4 <= MAX_LINE && |f.eventType| + 7 <= MAX_LINE && |f.data| + 6 <= MAX_LINE
  }

  predicate Sendable(i: Item) {
    match i
    case EventItem(f) => Clean(f) && Fits(f)
    case Comment(t) => OneLine(t) && |t| + 2 <= MAX_LINE
  }

  lemma AssembleSnoc(lines: seq<string>, l: string)
    ensures Assemble(lines + [l]) ==
            (OnLine(Assemble(lines).0, l).0, Assemble(lines).1 + OnLine(Assemble(lines).0, l).1)
  {
    assert (lines + [l])[..|lines|] == lines;
  }

  lemma FieldLine(name: string, value: string)
    requires name != "" && name[|name| - 1] == ' '
    ensures DropCR(name + value) == name + DropCR(value)
    ensures (name + DropCR(value))[..|name|] == name && (name + DropCR(value))[|name|..] == DropCR(value)
  {
    if value != "" {
      assert (name + value)[|name + value| - 1] == value[|value| - 1];
      assert (name + value)[..|name + value| - 1] == name + value[..|value| - 1];
    } else {
      assert name + value == name;
    }
  }

  lemma OnIdLine(cur: Frame, v: string)
    ensures OnLine(cur, DropCR(IdLine(v))) == (cur.(id := DropCR(v)), [])
  {
    FieldLine("id: ", v);
    assert DropCR(IdLine(v))[0] == 'i';
  }

  lemma OnEventLine(cur: Frame, v: string)
    ensures OnLine(cur, DropCR(EventLine(v))) == (cur.(eventType := DropCR(v)), [])
  {
    FieldLine("event: ", v);
    assert DropCR(EventLine(v))[0] == 'e';
  }

  lemma OnDataLine(cur: Frame, v: string)
    ensures OnLine(cur, DropCR(DataLine(v))) == (cur.(data := DropCR(v)), [])
  {
    FieldLine("data: ", v);
    assert DropCR(DataLine(v))[0] == 'd';
  }

  lemma OnCommentLine(cur: Frame, v: string)
    ensures OnLine(cur, DropCR(CommentLine(v))) == (cur, [])
  {
    FieldLine(": ", v);
    assert DropCR(CommentLine(v))[0] == ':';
  }

  /** The frame an event's lines leave to the empty line that ends it: without
      an id line the id of the frame before it stays. */
  function Filled(cur: Frame, f: Frame): Frame {
    Frame(if f.id == "" then cur.id else DropCR(f.id), DropCR(f.eventType), DropCR(f.data))
  }

  lemma AssembleEvent(before: seq<string>, f: Frame)
    ensures var (cur, fs) := Assemble(before);
      Assemble(before + DropCRs(ItemLines(EventItem(f)))) ==
        (OnLine(Filled(cur, f), "").0, fs + OnLine(Filled(cur, f), "").1)
  {
    var l0 := if f.id == "" then [] else [IdLine(f.id)];
    var b0 := before + DropCRs(l0);
    AssembleId(before, l0, f);
    AssembleRest(b0, Assemble(b0).0, Assemble(before).1, f);
    FourLines(before, l0, EventLine(f.eventType), DataLine(f.data));
  }

  lemma FourLines(before: seq<string>, l0: seq<string>, l1: string, l2: string)
    ensures before + DropCRs(l0 + [l1] + [l2] + [""]) == before + DropCRs(l0) + [DropCR(l1)] + [DropCR(l2)] + [""]
  {
  }

  lemma AssembleId(before: seq<string>, l0: seq<string>, f: Frame)
    requires l0 == if f.id == "" then [] else [IdLine(f.id)]
    ensures var (cur, fs) := Assemble(before);
      Assemble(before + DropCRs(l0)) == (cur.(id := if f.id == "" then cur.id else DropCR(f.id)), fs)
  {
    var (cur, fs) := Assemble(before);
    assert fs + [] == fs;
    if f.id == "" {
      assert before + DropCRs(l0) == before;
    } else {
      assert DropCRs(l0) == [DropCR(IdLine(f.id))];
      AssembleSnoc(before, DropCR(IdLine(f.id)));
      OnIdLine(cur, f.id);
    }
  }

  lemma AssembleRest(b: seq<string>, c: Frame, fs: seq<Frame>, f: Frame)
    requires Assemble(b) == (c, fs)
    ensures var full := Frame(c.id, DropCR(f.eventType), DropCR(f.data));
      Assemble(b + [DropCR(EventLine(f.eventType))] + [DropCR(DataLine(f.data))] + [""]) ==
        (OnLine(full, "").0, fs + OnLine(full, "").1)
  {
    assert fs + [] == fs;
    var b1 := b + [DropCR(EventLine(f.eventType))];
    AssembleSnoc(b, DropCR(EventLine(f.eventType)));
    OnEventLine(c, f.eventType);
    assert Assemble(b1) == (c.(eventType := DropCR(f.eventType)), fs);
    var b2 := b1 + [DropCR(DataLine(f.data))];
    AssembleSnoc(b1, DropCR(DataLine(f.data)));
    OnDataLine(c.(eventType := DropCR(f.eventType)), f.data);
    assert Assemble(b2) == (Frame(c.id, DropCR(f.eventType), DropCR(f.data)), fs);
    AssembleSnoc(b2, "");
  }

  /** No event is under way: at most an id has been seen. */
  predicate Between(cur: Frame) {
    cur.eventType == "" && cur.data == ""
  }

  lemma AssembleComment(before: seq<string>, t: string)
    requires Between(Assemble(before).0)
    ensures Assemble(before + DropCRs(ItemLines(Comment(t)))) == Assemble(before)
  {
    var (cur, fs) := Assemble(before);
    var l := DropCR(CommentLine(t));
    assert fs + [] == fs;
    TwoLines(before, CommentLine(t));
    AssembleSnoc(before, l);
    OnCommentLine(cur, t);
    AssembleSnoc(before + [l], "");
  }

  lemma TwoLines(before: seq<string>, l: string)
    ensures before + DropCRs([l] + [""]) == before + [DropCR(l)] + [""]
  {
  }

  lemma FilledClean(f: Frame)
    requires Clean(f)
    ensures Filled(BLANK, f) == f && OnLine(f, "") == (BLANK, [f])
  {
  }

  /** An event whose fields survive their lines is clean. */
  lemma DoneIffClean(f: Frame)
    requires OneLineFrame(f)
    ensures OnLine(Filled(BLANK, f), "").1 == [f] <==> Clean(f)
  {
    if Clean(f) {
      FilledClean(f);
    } else if OnLine(Filled(BLANK, f), "").1 != [] {
      assert OnLine(Filled(BLANK, f), "").1 == [Filled(BLANK, f)];
    }
  }

  lemma DropCRsConcat(a: seq<string>, b: seq<string>)
    ensures DropCRs(a + b) == DropCRs(a) + DropCRs(b)
  {
  }

  lemma {:induction false} AssembleWritten(items: seq<Item>)
    requires forall i :: i in items ==> Sendable(i)
    ensures Assemble(DropCRs(StreamLines(items))) == (BLANK, EventsOf(items))
  {
    if items == [] {
    } else {
      var n := |items| - 1;
      AssembleWritten(items[..n]);
      DropCRsConcat(StreamLines(items[..n]), ItemLines(items[n]));
      assert Sendable(items[n]);
      match items[n] {
        case EventItem(f) =>
          AssembleEvent(DropCRs(StreamLines(items[..n])), f);
          FilledClean(f);
        case Comment(t) =>
          AssembleComment(DropCRs(StreamLines(items[..n])), t);
          assert EventsOf(items[..n]) + [] == EventsOf(items[..n]);
      }
    }
  }

  lemma EventLinesScannable(f: Frame, l: string)
    requires OneLineFrame(f) && Fits(f) && l in ItemLines(EventItem(f))
    ensures Scannable(l) && (l == "" || l[0] != '\r')
  {
  }

  lemma ItemLinesScannable(i: Item, l: string)
    requires Sendable(i) && l in ItemLines(i)
    ensures Scannable(l) && (l == "" || l[0] != '\r')
  {
    if i.EventItem? { EventLinesScannable(i.frame, l); }
  }

  lemma {:induction false} StreamLinesScannable(items: seq<Item>, l: string)
    requires (forall i :: i in items ==> Sendable(i)) && l in StreamLines(items)
    ensures Scannable(l) && (l == "" || l[0] != '\r')
  {
    var n := |items| - 1;
    if l in ItemLines(items[n]) {
      ItemLinesScannable(items[n], l);
    } else {
      StreamLinesScannable(items[..n], l);
    }
  }

  /** Any sequence of sendable events and heartbeats reads back as the events. */
  lemma RoundTrip(items: seq<Item>)
    requires forall i :: i in items ==> Sendable(i)
    ensures Read(StreamText(items), false) == (EventsOf(items), false)
  {
    var lines := StreamLines(items);
    forall l | l in lines ensures Scannable(l) { StreamLinesScannable(items, l); }
    ScanAll(lines);
    AssembleWritten(items);
  }

  // ---------------------------------------------------------------------
  // What survives, exactly
  // ---------------------------------------------------------------------

  /** One event read back alone is the event exactly when it is clean and every
      line of it fits the scanner. */
  lemma EventSurvivesIff(f: Frame)
    ensures Read(StreamText([EventItem(f)]), false) == ([f], false) <==> Clean(f) && Fits(f)
  {
    if !OneLineFrame(f) {
      SplitEventFails(f);
    } else if Fits(f) {
      ReadOneLineEvent(f);
      DoneIffClean(f);
    } else {
      LongEventFails(f);
    }
  }

  lemma SplitEventFails(f: Frame)
    requires !OneLineFrame(f)
    ensures Read(StreamText([EventItem(f)]), false).0 != [f]
  {
    var frames := Read(StreamText([EventItem(f)]), false).0;
    assert f in [f];
    if f in frames { FramesAreOneLine(StreamText([EventItem(f)]), f); }
  }

  lemma LongEventFails(f: Frame)
    requires OneLineFrame(f) && !Fits(f)
    ensures Read(StreamText([EventItem(f)]), false).1
  {
    var lines := ItemLines(EventItem(f));
    StreamOfOne(EventItem(f));
    forall l | l in lines ensures OneLine(l) { EventLinesOneLine(f, l); }
    LongLineListed(f);
    var k := FirstLong(lines);
    ScanLong(lines, k, "");
    assert Join(lines) + "" == Join(lines);
  }

  lemma EventLinesOneLine(f: Frame, l: string)
    requires OneLineFrame(f) && l in ItemLines(EventItem(f))
    ensures OneLine(l)
  {
  }

  ghost predicate HasLong(lines: seq<string>) {
    exists i :: 0 <= i < |lines| && |lines[i]| > MAX_LINE
  }

  lemma LongLineListed(f: Frame)
    requires !Fits(f)
    ensures HasLong(ItemLines(EventItem(f)))
  {
    var lines, n := ItemLines(EventItem(f)), |ItemLines(EventItem(f))|;
    assert lines[n - 3] == EventLine(f.eventType) && lines[n - 2] == DataLine(f.data);
    assert f.id != "" ==> lines[0] == IdLine(f.id);
  }

  lemma FirstLong(lines: seq<string>) returns (k: nat)
    requires HasLong(lines)
    ensures k < |lines| && |lines[k]| > MAX_LINE && forall i :: 0 <= i < k ==> |lines[i]| <= MAX_LINE
  {
    k := 0;
    while |lines[k]| <= MAX_LINE
      invariant k < |lines| && forall i :: 0 <= i < k ==> |lines[i]| <= MAX_LINE
      decreases |lines| - k
    {
      k := k + 1;
    }
  }

  lemma {:induction false} ScanLong(lines: seq<string>, k: nat, rest: string)
    requires forall l :: l in lines ==> OneLine(l)
    requires k < |lines| && |lines[k]| > MAX_LINE && forall i :: 0 <= i < k ==> |lines[i]| <= MAX_LINE
    ensures Scan(Join(lines) + rest).1
    decreases |lines|
  {
    var n := |lines| - 1;
    JoinSplit(lines, rest);
    if k < n {
      ScanLong(lines[..n], k, Line(lines[n]) + rest);
    } else {
      LineEndOf(lines[n], rest);
      ScanJoined(lines[..n], Line(lines[n]) + rest);
    }
  }

  lemma ReadOneLineEvent(f: Frame)
    requires Fits(f) && OneLineFrame(f)
    ensures Read(StreamText([EventItem(f)]), false) == (OnLine(Filled(BLANK, f), "").1, false)
  {
    var lines := ItemLines(EventItem(f));
    StreamOfOne(EventItem(f));
    forall l | l in lines ensures Scannable(l) { EventLinesScannable(f, l); }
    ScanAll(lines);
    AssembleEventAlone(f);
  }

  lemma StreamOfOne(i: Item)
    ensures StreamLines([i]) == ItemLines(i)
  {
    assert [i][..0] == [] && [] + ItemLines(i) == ItemLines(i);
  }

  lemma AssembleEventAlone(f: Frame)
    ensures Assemble(DropCRs(ItemLines(EventItem(f)))).1 == OnLine(Filled(BLANK, f), "").1
  {
    var lines, done := DropCRs(ItemLines(EventItem(f))), OnLine(Filled(BLANK, f), "").1;
    AssembleEvent([], f);
    assert [] + lines == lines && [] + done == done;
  }

  lemma FramesAreOneLine(s: string, f: Frame)
    requires f in Read(s, false).0
    ensures OneLineFrame(f)
  {
    forall l | l in Scan(s).0 ensures OneLine(l) { ScannedIsOneLine(s, l); }
    AssembledIsOneLine(Scan(s).0, f);
  }

  lemma {:induction false} ScannedIsOneLine(s: string, l: string)
    requires l in Scan(s).0
    ensures OneLine(l)
    decreases |s|
  {
    NoFeedBeforeLineEnd(s);
    if l != DropCR(s[..LineEnd(s)]) { ScannedIsOneLine(AfterLine(s), l); }
  }

  lemma {:induction false} AssembledIsOneLine(lines: seq<string>, f: Frame)
    requires forall l :: l in lines ==> OneLine(l)
    requires f in Assemble(lines).1 || f == Assemble(lines).0
    ensures OneLineFrame(f)
    decreases |lines|
  {
    if lines == [] {
    } else {
      var n := |lines| - 1;
      var (cur, frames) := Assemble(lines[..n]);
      AssembledIsOneLine(lines[..n], cur);
      if f in frames { AssembledIsOneLine(lines[..n], f); }
      assert OneLine(lines[n]);
    }
  }

  // ---------------------------------------------------------------------
  // A whole stream survives exactly when every event does
  // ---------------------------------------------------------------------

  predicate Plain(i: Item) {
    match i
    case EventItem(f) => OneLineFrame(f) && Fits(f)
    case Comment(t) => OneLine(t) && |t| + 2 <= MAX_LINE
  }

  ghost predicate AllClean(items: seq<Item>) {
    forall f :: f in EventsOf(items) ==> Clean(f)
  }

  /** What one-line, fitting items leave: never more frames than events, and as
      many, or the same ones, only if nothing of an event stays behind. */
  ghost predicate Kept(items: seq<Item>, cur: Frame, frames: seq<Frame>) {
    && Between(cur) && |frames| <= |EventsOf(items)|
    && (|frames| == |EventsOf(items)| ==> cur == BLANK)
    && (frames == EventsOf(items) ==> AllClean(items))
  }

  lemma {:induction false} PlainKept(items: seq<Item>)
    requires forall i :: i in items ==> Plain(i)
    ensures var (cur, frames) := Assemble(DropCRs(StreamLines(items))); Kept(items, cur, frames)
  {
    if items == [] {
    } else {
      var n := |items| - 1;
      var front, last := items[..n], items[n];
      var before := DropCRs(StreamLines(front));
      PlainKept(front);
      DropCRsConcat(StreamLines(front), ItemLines(last));
      assert Plain(last);
      match last {
        case EventItem(f) =>
          AssembleEvent(before, f);
          KeptEvent(items, f, Assemble(before).0, Assemble(before).1);
        case Comment(t) =>
          AssembleComment(before, t);
          assert EventsOf(items) == EventsOf(front) + [] == EventsOf(front);
      }
    }
  }

  lemma KeptEvent(items: seq<Item>, f: Frame, cur: Frame, frames: seq<Frame>)
    requires items != [] && items[|items| - 1] == EventItem(f) && OneLineFrame(f)
    requires Kept(items[..|items| - 1], cur, frames)
    ensures var (cur', done) := OnLine(Filled(cur, f), ""); Kept(items, cur', frames + done)
  {
    var front := items[..|items| - 1];
    var (cur', done) := OnLine(Filled(cur, f), "");
    var es := EventsOf(front);
    assert EventsOf(items) == es + [f] && |done| <= 1;
    if frames + done == es + [f] {
      SameParts(frames, done, es, f);
      DoneIffClean(f);
      forall g | g in EventsOf(items) ensures Clean(g) { if g != f { assert g in es; } }
    }
  }

  lemma SameParts(a: seq<Frame>, d: seq<Frame>, b: seq<Frame>, f: Frame)
    requires a + d == b + [f] && |a| <= |b| && |d| <= 1
    ensures a == b && d == [f]
  {
    assert a == (a + d)[..|a|] && b == (b + [f])[..|b|];
    assert d == (a + d)[|a|..];
  }

  /** A stream of any events and of heartbeats that fit a line reads back as
      exactly its events if and only if every event is clean and fits. */
  lemma RoundTripIff(items: seq<Item>)
    requires forall i :: i in items && i.Comment? ==> Plain(i)
    ensures Read(StreamText(items), false) == (EventsOf(items), false) <==>
      forall f :: f in EventsOf(items) ==> Clean(f) && Fits(f)
  {
    if f :| f in EventsOf(items) && !OneLineFrame(f) {
      SplitStreamFails(items, f);
    } else if f :| f in EventsOf(items) && !Fits(f) {
      LongStreamFails(items, f);
    } else {
      PlainStream(items);
    }
  }

  lemma SplitStreamFails(items: seq<Item>, f: Frame)
    requires f in EventsOf(items) && !OneLineFrame(f)
    ensures Read(StreamText(items), false).0 != EventsOf(items)
  {
    if f in Read(StreamText(items), false).0 { FramesAreOneLine(StreamText(items), f); }
  }

  lemma {:induction false} EventIsItem(items: seq<Item>, f: Frame)
    ensures f in EventsOf(items) <==> EventItem(f) in items
  {
    if items == [] {
    } else {
      var n := |items| - 1;
      EventIsItem(items[..n], f);
      assert forall i :: i in items <==> i in items[..n] || i == items[n];
    }
  }

  lemma {:induction false} LineOfItem(items: seq<Item>, l: string) returns (i: Item)
    requires l in StreamLines(items)
    ensures i in items && l in ItemLines(i)
  {
    var n := |items| - 1;
    if l in ItemLines(items[n]) {
      i := items[n];
    } else {
      i := LineOfItem(items[..n], l);
    }
  }

  lemma LongInStream(items: seq<Item>, k: nat)
    requires k < |items| && HasLong(ItemLines(items[k]))
    ensures HasLong(StreamLines(items))
  {
    var a, b := AroundItem(items, k);
    LongInEither(a, ItemLines(items[k]));
    LongInEither(a + ItemLines(items[k]), b);
  }

  lemma {:induction false} AroundItem(items: seq<Item>, k: nat) returns (a: seq<string>, b: seq<string>)
    requires k < |items|
    ensures StreamLines(items) == a + ItemLines(items[k]) + b
    decreases |items|
  {
    var n := |items| - 1;
    if k == n {
      a, b := StreamLines(items[..n]), [];
    } else {
      a, b := AroundItem(items[..n], k);
      b := b + ItemLines(items[n]);
    }
  }

  lemma LongInEither(a: seq<string>, b: seq<string>)
    ensures HasLong(a) || HasLong(b) ==> HasLong(a + b)
  {
    if i :| 0 <= i < |a| && |a[i]| > MAX_LINE {
      assert (a + b)[i] == a[i];
    } else if i :| 0 <= i < |b| && |b[i]| > MAX_LINE {
      assert (a + b)[|a| + i] == b[i];
    }
  }

  lemma LongStreamFails(items: seq<Item>, f: Frame)
    requires forall i :: i in items && i.Comment? ==> Plain(i)
    requires forall g :: g in EventsOf(items) ==> OneLineFrame(g)
    requires f in EventsOf(items) && !Fits(f)
    ensures Read(StreamText(items), false).1
  {
    var lines := StreamLines(items);
    forall l | l in lines ensures OneLine(l) { StreamLineIsOneLine(items, l); }
    EventIsItem(items, f);
    LongLineListed(f);
    var k :| 0 <= k < |items| && items[k] == EventItem(f);
    LongInStream(items, k);
    var first := FirstLong(lines);
    ScanLong(lines, first, "");
    assert Join(lines) + "" == Join(lines);
  }

  lemma StreamLineIsOneLine(items: seq<Item>, l: string)
    requires forall i :: i in items && i.Comment? ==> Plain(i)
    requires forall g :: g in EventsOf(items) ==> OneLineFrame(g)
    requires l in StreamLines(items)
    ensures OneLine(l)
  {
    var i := LineOfItem(items, l);
    match i {
      case EventItem(g) =>
        EventIsItem(items, g);
        EventLinesOneLine(g, l);
      case Comment(t) => ItemLinesScannable(i, l);
    }
  }

  lemma PlainStream(items: seq<Item>)
    requires forall i :: i in items && i.Comment? ==> Plain(i)
    requires forall f :: f in EventsOf(items) ==> OneLineFrame(f) && Fits(f)
    ensures Read(StreamText(items), false) == (EventsOf(items), false) <==> AllClean(items)
  {
    var lines := StreamLines(items);
    forall i | i in items ensures Plain(i) { if i.EventItem? { EventIsItem(items, i.frame); } }
    forall l | l in lines ensures Scannable(l) {
      var i := LineOfItem(items, l);
      if i.EventItem? { EventLinesScannable(i.frame, l); } else { ItemLinesScannable(i, l); }
    }
    ScanAll(lines);
    PlainKept(items);
    if AllClean(items) {
      forall i | i in items ensures Sendable(i) { if i.EventItem? { EventIsItem(items, i.frame); } }
      AssembleWritten(items);
    }
  }

  // ---------------------------------------------------------------------
  // Cut streams
  // ---------------------------------------------------------------------

  lemma {:induction false} AssemblePrefix(lines: seq<string>, n: nat)
    requires n <= |lines|
    ensures Assemble(lines[..n]).1 <= Assemble(lines).1
    decreases |lines|
  {
    if n < |lines| {
      AssemblePrefix(lines[..|lines| - 1], n);
      assert lines[..|lines| - 1][..n] == lines[..n];
    } else {
      assert lines[..n] == lines;
    }
  }

  /** A non-empty last line completes no frame. */
  lemma PartialLineCompletesNothing(lines: seq<string>, l: string)
    requires l != ""
    ensures Assemble(lines + [l]).1 == Assemble(lines).1
  {
    AssembleSnoc(lines, l);
  }

  /** Cutting the joined lines leaves the first of them, and perhaps the
      non-empty beginning of the next. */
  lemma {:induction false} CutJoined(lines: seq<string>, k: nat) returns (n: nat, part: string)
    requires k <= |Join(lines)|
    ensures n <= |lines| && Join(lines)[..k] == Join(lines[..n]) + part
    ensures part != "" ==> n < |lines| && part <= lines[n]
    decreases |lines|
  {
    if k == |Join(lines)| {
      n, part := |lines|, "";
      assert lines[..n] == lines && Join(lines)[..k] == Join(lines) + "";
    } else {
      var m := |lines| - 1;
      var front := Join(lines[..m]);
      if k <= |front| {
        n, part := CutJoined(lines[..m], k);
        assert lines[..m][..n] == lines[..n] && Join(lines)[..k] == front[..k];
      } else {
        n, part := m, lines[m][..k - |front|];
        assert Join(lines)[..k] == front + part;
      }
    }
  }

  lemma ScanPart(part: string)
    requires Scannable(part)
    ensures Scan(part) == (if part == "" then [] else [DropCR(part)], false)
  {
    if part != "" {
      LineEndOfOneLine(part);
      assert part[..|part|] == part && AfterLine(part) == "";
      assert Scan("") == ([], false);
      assert [DropCR(part)] + [] == [DropCR(part)];
    }
  }

  /** A written stream cut at any position reads back as a prefix of its
      events, never a partial frame; an error is returned exactly if the
      connection broke. */
  lemma CutStreamYieldsPrefix(items: seq<Item>, k: nat, broken: bool)
    requires (forall i :: i in items ==> Sendable(i)) && k <= |StreamText(items)|
    ensures var (frames, err) := Read(StreamText(items)[..k], broken);
      frames <= EventsOf(items) && err == broken
  {
    var lines := StreamLines(items);
    forall l | l in lines ensures Scannable(l) && (l == "" || l[0] != '\r') { StreamLinesScannable(items, l); }
    var n, part := CutJoined(lines, k);
    PartIsScannable(lines, n, part);
    ScanJoined(lines[..n], part);
    ScanPart(part);
    var kept := DropCRs(lines[..n]);
    assert kept == DropCRs(lines)[..n];
    AssemblePrefix(DropCRs(lines), n);
    AssembleWritten(items);
    if part == "" {
      assert kept + [] == kept;
    } else {
      PartialLineCompletesNothing(kept, DropCR(part));
    }
  }

  lemma PartIsScannable(lines: seq<string>, n: nat, part: string)
    requires n <= |lines| && (part != "" ==> n < |lines| && part <= lines[n])
    requires forall l :: l in lines ==> Scannable(l) && (l == "" || l[0] != '\r')
    ensures Scannable(part) && (part != "" ==> DropCR(part) != "")
  {
    if part != "" {
      assert lines[n] in lines;
      assert forall c :: c in part ==> c in lines[n];
    }
  }
}
