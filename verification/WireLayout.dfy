/** The bytes of the protocol between the Go client and the Rust sidecar,
    position by position: opcodes, big-endian lengths and error codes. */
module WireLayout {
  import opened Ordering
  import opened Wire

  /** The four bytes at `at`, most significant first. */
  function LengthAt(b: Bytes, at: nat): int
    requires at + 4 <= |b|
  {
    var b0: int, b1: int, b2: int, b3: int := b[at], b[at + 1], b[at + 2], b[at + 3];
    0x100_0000 * b0 + 0x1_0000 * b1 + 0x100 * b2 + b3
  }

  /** A length and as many bytes of content, from `at` on. */
  predicate FieldAt(b: Bytes, at: nat, content: Bytes) {
    at + 4 + |content| <= |b| && LengthAt(b, at) == |content| && b[at + 4..at + 4 + |content|] == content
  }

  lemma GetIsLength(b: Bytes, at: nat)
    requires at + 4 <= |b|
    ensures GetU32(b[at..]) == LengthAt(b, at)
  {
    var c := b[at..];
    assert c[0] == b[at] && c[1] == b[at + 1] && c[2] == b[at + 2] && c[3] == b[at + 3];
  }

  lemma FieldIsAt(before: Bytes, content: Bytes, after: Bytes)
    requires |content| < TWO32
    ensures FieldAt(before + (Field(content) + after), |before|, content)
  {
    var b, f := before + (Field(content) + after), Field(content) + after;
    assert b[|before|..] == f;
    FieldLayout(content, after);
    GetIsLength(b, |before|);
    SliceOfDrop(b, |before|, 4, 4 + |content|);
  }

  lemma TwoFieldsAt(before: Bytes, x: Bytes, y: Bytes)
    requires |x| < TWO32 && |y| < TWO32
    ensures var b := before + (Field(x) + Field(y));
      |b| == |before| + 8 + |x| + |y| && FieldAt(b, |before|, x) && FieldAt(b, |before| + 4 + |x|, y)
  {
    FieldIsAt(before, x, Field(y));
    FieldIsAt(before + Field(x), y, []);
    assert before + Field(x) + (Field(y) + []) == before + (Field(x) + Field(y));
  }

  lemma OneFieldAt(before: Bytes, x: Bytes)
    requires |x| < TWO32
    ensures var b := before + Field(x); |b| == |before| + 4 + |x| && FieldAt(b, |before|, x)
  {
    FieldIsAt(before, x, []);
    assert Field(x) + [] == Field(x);
  }

  /** What the client puts on the wire for each request. */
  lemma RequestLayout(r: Request)
    requires |RequestBody(r)| < TWO32
    ensures var b := RequestBody(r);
      match r
      case ParseNpm(c, m) => |b| == 9 + |c| + |m| && b[0] == 0x01 && FieldAt(b, 1, c) && FieldAt(b, 5 + |c|, m)
      case ParseGomod(s, m) => |b| == 9 + |s| + |m| && b[0] == 0x06 && FieldAt(b, 1, s) && FieldAt(b, 5 + |s|, m)
      case ParseCargo(c) => |b| == 5 + |c| && b[0] == 0x07 && FieldAt(b, 1, c)
      case Ping => b == [0xFF]
  {
    match r
    case ParseNpm(c, m) => TwoFieldsAt([PARSE_NPM], c, m);
    case ParseGomod(s, m) => TwoFieldsAt([PARSE_GOMOD], s, m);
    case ParseCargo(c) => OneFieldAt([PARSE_CARGO], c);
    case Ping =>
  }

  /** A body is read as r exactly when it is the encoding of r. */
  lemma DecodesIff(body: Bytes, r: Request)
    requires |body| < TWO32
    ensures DecodeRequest(body) == Ok(r) <==> body == RequestBody(r)
  {
    if DecodeRequest(body).Ok? { EncodeDecoded(body); }
    if body == RequestBody(r) { DecodeEncoded(r); }
  }

  /** Which error every other body gets. */
  lemma RejectedAs(body: Bytes)
    requires body != []
    ensures DecodeRequest([]) == Err(EmptyBody)
    ensures body[0] != 0x01 && body[0] != 0x06 && body[0] != 0x07 && body[0] != 0xFF ==>
      DecodeRequest(body) == Err(UnknownOpcode(body[0]))
    ensures body[0] == 0xFF && |body| > 1 ==> DecodeRequest(body) == Err(TrailingBytes)
    ensures body[0] == 0x07 && (|body| < 5 || |body| < 5 + LengthAt(body, 1)) ==> DecodeRequest(body) == Err(Truncated)
    ensures body[0] == 0x07 && |body| >= 5 && |body| > 5 + LengthAt(body, 1) ==>
      DecodeRequest(body) == Err(TrailingBytes)
    ensures (body[0] == 0x01 || body[0] == 0x06) && TwoFieldsLack(body) ==> DecodeRequest(body) == Err(Truncated)
    ensures (body[0] == 0x01 || body[0] == 0x06) && TwoFieldsExceed(body) ==> DecodeRequest(body) == Err(TrailingBytes)
  {
    var rest := body[1..];
    if |body| >= 5 {
      GetIsLength(body, 1);
      var n := LengthAt(body, 1);
      if |body| >= 9 + n {
        GetIsLength(body, 5 + n);
        assert rest[4 + n..] == body[5 + n..];
      }
    }
  }

  /** The body ends before its second field does. */
  predicate TwoFieldsLack(body: Bytes) {
    || |body| < 5
    || |body| < 9 + LengthAt(body, 1)
    || |body| < 9 + LengthAt(body, 1) + LengthAt(body, 5 + LengthAt(body, 1))
  }

  /** The body goes on after its second field. */
  predicate TwoFieldsExceed(body: Bytes) {
    !TwoFieldsLack(body) && |body| > 9 + LengthAt(body, 1) + LengthAt(body, 5 + LengthAt(body, 1))
  }

  /** What the sidecar puts on the wire for each reply, the frame's own length
      included. */
  lemma ReplyLayout(r: Reply)
    requires ReplySize(r) < TWO32
    ensures var f := RustEncode(r);
      && |f| >= 5 && LengthAt(f, 0) == |f| - 4
      && match r
         case Result(json) => |f| == 9 + |json| && f[4] == 0x02 && FieldAt(f, 5, json)
         case Failure(code, msg) =>
           |f| == 13 + |code| + |msg| && f[4] == 0x03 && FieldAt(f, 5, code) && FieldAt(f, 9 + |code|, msg)
         case Pong => f[4..] == [0xFE]
  {
    FrameLength(r);
    match r
    case Result(json) => ResultLayout(json);
    case Failure(code, msg) => FailureLayout(code, msg);
    case Pong =>
  }

  lemma FrameLength(r: Reply)
    requires ReplySize(r) < TWO32
    ensures var f := RustEncode(r); |f| == 4 + ReplySize(r) >= 5 && LengthAt(f, 0) == ReplySize(r)
  {
    RustEncodesBody(r);
    OneFieldAt([], ReplyBody(r));
    assert [] + Field(ReplyBody(r)) == Frame(ReplyBody(r));
  }

  lemma ResultLayout(json: Bytes)
    requires ReplySize(Result(json)) < TWO32
    ensures var f := RustEncode(Result(json)); |f| == 9 + |json| && f[4] == 0x02 && FieldAt(f, 5, json)
  {
    var head := PutU32(5 + |json|) + [PARSE_RESULT];
    OneFieldAt(head, json);
    assert head + Field(json) == RustEncode(Result(json));
    assert head[4] == PARSE_RESULT;
  }

  lemma FailureLayout(code: Bytes, msg: Bytes)
    requires ReplySize(Failure(code, msg)) < TWO32
    ensures var f := RustEncode(Failure(code, msg));
      |f| == 13 + |code| + |msg| && f[4] == 0x03 && FieldAt(f, 5, code) && FieldAt(f, 9 + |code|, msg)
  {
    var head := PutU32(9 + |code| + |msg|) + [ERROR];
    TwoFieldsAt(head, code, msg);
    assert head + (Field(code) + Field(msg)) == RustEncode(Failure(code, msg));
    assert head[4] == ERROR;
  }

  /** How the two sides take frames off a stream. They differ in what fewer
      than four bytes mean. */
  lemma FramesAreRead(stream: Bytes)
    ensures |stream| < 4 ==> ReadFrame(stream) == Closed && GoReadBody(stream) == Violation
    ensures |stream| >= 4 ==>
      var n := LengthAt(stream, 0);
      ReadFrame(stream) == GoReadBody(stream)
      == if 1 <= n <= 104_857_600 && 4 + n <= |stream| then Body(stream[4..4 + n], stream[4 + n..]) else Violation
  {
    if |stream| >= 4 {
      assert stream[0..] == stream;
      GetIsLength(stream, 0);
    }
  }

  lemma CodeLength(e: ParseError)
    ensures |CodeOf(e)| <= 28
  {
  }

  /** The codes on the wire and what the client makes of them. */
  lemma ErrorCodes(code: Bytes)
    ensures CodeOf(MalformedLockfile) == Ascii("MALFORMED_LOCKFILE")
    ensures CodeOf(UnsupportedVersion) == Ascii("UNSUPPORTED_LOCKFILE_VERSION")
    ensures CodeOf(EmptyLockfile) == Ascii("EMPTY_LOCKFILE")
    ensures Classify(Ascii("MALFORMED_REQUEST")).None?
    ensures forall e :: Classify(code) == Some(e) <==> code == CodeOf(e)
  {
    ErrorClassSurvives(MalformedLockfile);
    ErrorClassSurvives(UnsupportedVersion);
    ErrorClassSurvives(EmptyLockfile);
    var m, l := Ascii("MALFORMED_REQUEST"), Ascii("MALFORMED_LOCKFILE");
    assert |m| == 17 && |l| == 18;
  }

  /** What the client gets for a request it sends: a pong, the SBOM, or the
      parser's error under the code the client maps back to it. */
  lemma ExchangeMeans(parse: Parser, text: DecodeError -> Bytes, r: Request)
    requires |RequestBody(r)| <= MAX_FRAME
    ensures var got := GoReceive(r.Ping?, Replies(parse, text, ReadAll(Frame(RequestBody(r))).0));
      && (r.Ping? ==> got == Some(Pong))
      && (!r.Ping? && parse(r).Sbom? && 5 + |parse(r).json| <= 104_857_600 ==> got == Some(Result(parse(r).json)))
      && (!r.Ping? && parse(r).Rejected? && 37 + |parse(r).message| <= 104_857_600 ==>
            got.Some? && got.value.Failure? && got.value.message == parse(r).message
            && Classify(got.value.code) == Some(parse(r).kind))
  {
    ExchangeIsFaithful(parse, text, r);
    if !r.Ping? && parse(r).Rejected? {
      CodeLength(parse(r).kind);
      ErrorClassSurvives(parse(r).kind);
    }
  }
}
