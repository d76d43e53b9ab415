/** The binary protocol between the Go client and the Rust sidecar. Each side
    is modelled from its own code; lengths are truncated to 32 bits where the
    code casts them. */
module Wire {
  import opened Ordering

  type Byte = b: int | 0 <= b < 256
  type Bytes = seq<Byte>

  const MAX_FRAME: nat := 100 * 1024 * 1024
  const TWO32: nat := 0x1_0000_0000

  const PARSE_NPM: Byte := 0x01
  const PARSE_RESULT: Byte := 0x02
  const ERROR: Byte := 0x03
  const PARSE_GOMOD: Byte := 0x06
  const PARSE_CARGO: Byte := 0x07
  const PONG: Byte := 0xFE
  const PING: Byte := 0xFF

  // ---------------------------------------------------------------------
  // Big-endian 32-bit integers
  // ---------------------------------------------------------------------

  /** The cast to uint32 followed by the big-endian encoding. */
  function PutU32(n: nat): (b: Bytes)
    ensures |b| == 4
  {
    var low := n % TWO32;
    var mid := low / 256;
    var high := mid / 256;
    [high / 256, high % 256, mid % 256, low % 256]
  }

  function GetU32(b: Bytes): (n: nat)
    requires |b| >= 4
    ensures n < TWO32
  {
    var b0: int, b1: int, b2: int, b3: int := b[0], b[1], b[2], b[3];
    ((b0 * 256 + b1) * 256 + b2) * 256 + b3
  }

  lemma DivMod(n: nat)
    ensures n / 256 * 256 + n % 256 == n
  {
  }

  lemma GetPut(n: nat, rest: Bytes)
    ensures GetU32(PutU32(n) + rest) == n % TWO32
  {
    var low := n % TWO32;
    DivMod(low);
    DivMod(low / 256);
    DivMod(low / 256 / 256);
    var b := PutU32(n) + rest;
    assert b[0] == low / 256 / 256 / 256 && b[1] == low / 256 / 256 % 256 && b[2] == low / 256 % 256
      && b[3] == low % 256;
  }

  lemma PutGet(b: Bytes)
    requires |b| >= 4
    ensures PutU32(GetU32(b)) == b[..4]
  {
    var b0: int, b1: int, b2: int, b3: int := b[0], b[1], b[2], b[3];
    var high := b0 * 256 + b1;
    var mid := high * 256 + b2;
    var n := mid * 256 + b3;
    assert n == GetU32(b) && n % TWO32 == n;
    assert n / 256 == mid && n % 256 == b3;
    assert mid / 256 == high && mid % 256 == b2;
    assert high / 256 == b0 && high % 256 == b1;
  }

  /** A length-prefixed field. */
  function Field(content: Bytes): Bytes {
    PutU32(|content|) + content
  }

  // ---------------------------------------------------------------------
  // Requests
  // ---------------------------------------------------------------------

  datatype Request =
    | ParseNpm(content: Bytes, metadata: Bytes)
    | ParseGomod(gosum: Bytes, gomod: Bytes)
    | ParseCargo(content: Bytes)
    | Ping

  datatype DecodeError = EmptyBody | Truncated | TrailingBytes | UnknownOpcode(opcode: Byte)

  datatype Decoded<T> = Ok(value: T) | Err(error: DecodeError)

  function RequestBody(r: Request): Bytes {
    match r
    case ParseNpm(c, m) => [PARSE_NPM] + (Field(c) + Field(m))
    case ParseGomod(s, m) => [PARSE_GOMOD] + (Field(s) + Field(m))
    case ParseCargo(c) => [PARSE_CARGO] + Field(c)
    case Ping => [PING]
  }

  /** The Go client: it always sends empty npm metadata, and refuses to send
      what exceeds the cap. */
  method GoEncode(r: Request) returns (frame: Option<Bytes>)
    requires r.ParseNpm? ==> r.metadata == []
    ensures frame.Some? <==> |RequestBody(r)| <= MAX_FRAME
    ensures frame.Some? ==> frame.value == PutU32(|RequestBody(r)|) + RequestBody(r)
  {
    match r {
      case Ping =>
        frame := Some(PutU32(1) + [PING]);
      case ParseNpm(content, _) =>
        var bodyLen := 1 + 4 + |content| + 4;
        if bodyLen > MAX_FRAME { return None; }
        var b := PutU32(bodyLen) + [PARSE_NPM];
        b := b + PutU32(|content|) + content;
        b := b + PutU32(0);
        assert Field([]) == PutU32(0);
        assert b == PutU32(bodyLen) + ([PARSE_NPM] + (Field(content) + Field([])));
        frame := Some(b);
      case ParseGomod(gosum, gomod) =>
        var bodyLen := 1 + 4 + |gosum| + 4 + |gomod|;
        if bodyLen > MAX_FRAME { return None; }
        var b := PutU32(bodyLen) + [PARSE_GOMOD];
        b := b + PutU32(|gosum|) + gosum;
        b := b + PutU32(|gomod|) + gomod;
        assert b == PutU32(bodyLen) + ([PARSE_GOMOD] + (Field(gosum) + Field(gomod)));
        frame := Some(b);
      case ParseCargo(content) =>
        var bodyLen := 1 + 4 + |content|;
        if bodyLen > MAX_FRAME { return None; }
        var b := PutU32(bodyLen) + [PARSE_CARGO];
        b := b + PutU32(|content|) + content;
        assert b == PutU32(bodyLen) + ([PARSE_CARGO] + Field(content));
        frame := Some(b);
    }
  }

  /** Rust's `read_length_prefixed`: the field and what follows it. */
  function ReadField(b: Bytes): Decoded<(Bytes, Bytes)> {
    if |b| < 4 then Err(Truncated)
    else
      var n := GetU32(b);
      if |b| - 4 < n then Err(Truncated) else Ok((b[4..4 + n], b[4 + n..]))
  }

  /** One field and nothing else. */
  function ReadOne(b: Bytes): Decoded<Bytes> {
    match ReadField(b)
    case Err(e) => Err(e)
    case Ok((x, rest)) => if rest != [] then Err(TrailingBytes) else Ok(x)
  }

  /** Two fields and nothing else. */
  function ReadTwo(b: Bytes): Decoded<(Bytes, Bytes)> {
    match ReadField(b)
    case Err(e) => Err(e)
    case Ok((x, rest)) =>
      match ReadField(rest)
      case Err(e) => Err(e)
      case Ok((y, rest')) => if rest' != [] then Err(TrailingBytes) else Ok((x, y))
  }

  function DecodeRequest(body: Bytes): Decoded<Request> {
    if body == [] then Err(EmptyBody)
    else
      var rest := body[1..];
      if body[0] == PARSE_NPM then
        (match ReadTwo(rest) case Err(e) => Err(e) case Ok((c, m)) => Ok(ParseNpm(c, m)))
      else if body[0] == PARSE_GOMOD then
        (match ReadTwo(rest) case Err(e) => Err(e) case Ok((s, m)) => Ok(ParseGomod(s, m)))
      else if body[0] == PARSE_CARGO then
        (match ReadOne(rest) case Err(e) => Err(e) case Ok(c) => Ok(ParseCargo(c)))
      else if body[0] == PING then
        if rest != [] then Err(TrailingBytes) else Ok(Ping)
      else Err(UnknownOpcode(body[0]))
  }

  lemma ReadFieldOf(content: Bytes, rest: Bytes)
    requires |content| < TWO32
    ensures ReadField(Field(content) + rest) == Ok((content, rest))
  {
    FieldLayout(content, rest);
  }

  lemma FieldLayout(content: Bytes, tail: Bytes)
    requires |content| < TWO32
    ensures var b := Field(content) + tail;
      |b| == 4 + |content| + |tail| && GetU32(b) == |content| && b[4..4 + |content|] == content
        && b[4 + |content|..] == tail
  {
    assert Field(content) + tail == PutU32(|content|) + (content + tail);
    GetPut(|content|, content + tail);
  }

  lemma FieldOfRead(b: Bytes)
    requires ReadField(b).Ok?
    ensures var (x, rest) := ReadField(b).value; |x| < TWO32 && b == Field(x) + rest
  {
    PutGet(b);
    var (x, rest) := ReadField(b).value;
    assert b == b[..4] + (b[4..4 + |x|] + b[4 + |x|..]);
  }

  /** Decoding undoes encoding for every request whose fields have 32-bit
      lengths, the cap or not. */
  lemma DecodeEncoded(r: Request)
    requires |RequestBody(r)| < TWO32
    ensures DecodeRequest(RequestBody(r)) == Ok(r)
  {
    var body := RequestBody(r);
    match r {
      case ParseNpm(c, m) =>
        assert body[1..] == Field(c) + Field(m);
        ReadTwoOf(c, m);
      case ParseGomod(s, m) =>
        assert body[1..] == Field(s) + Field(m);
        ReadTwoOf(s, m);
      case ParseCargo(c) =>
        assert body[1..] == Field(c) + [];
        ReadFieldOf(c, []);
      case Ping =>
    }
  }

  lemma ReadTwoOf(x: Bytes, y: Bytes)
    requires |x| < TWO32 && |y| < TWO32
    ensures ReadTwo(Field(x) + Field(y)) == Ok((x, y))
  {
    ReadFieldOf(x, Field(y));
    assert Field(y) == Field(y) + [];
    ReadFieldOf(y, []);
  }

  /** An accepted body is the encoding of the request it decodes to: no two
      bodies mean the same request. */
  lemma EncodeDecoded(body: Bytes)
    requires DecodeRequest(body).Ok?
    ensures RequestBody(DecodeRequest(body).value) == body
  {
    var rest := body[1..];
    assert body == [body[0]] + rest;
    if body[0] == PARSE_NPM || body[0] == PARSE_GOMOD {
      var (x, rest1) := ReadField(rest).value;
      FieldOfRead(rest);
      FieldOfRead(rest1);
      var (y, rest2) := ReadField(rest1).value;
      assert rest1 == Field(y) + [] == Field(y);
    } else if body[0] == PARSE_CARGO {
      FieldOfRead(rest);
      assert Field(ReadField(rest).value.0) + [] == rest;
    }
  }

  // ---------------------------------------------------------------------
  // Frames
  // ---------------------------------------------------------------------

  function Frame(body: Bytes): Bytes {
    PutU32(|body|) + body
  }

  datatype FrameRead = Closed | Violation | Body(body: Bytes, rest: Bytes)

  /** `read_frame`: fewer than four bytes is a clean close, a short body or a
      length outside [1, cap] is a violation. */
  function ReadFrame(stream: Bytes): (r: FrameRead)
    ensures r.Body? ==> |r.rest| < |stream|
  {
    if |stream| < 4 then Closed
    else
      var n := GetU32(stream);
      if n == 0 || n > MAX_FRAME || |stream| - 4 < n then Violation
      else Body(stream[4..4 + n], stream[4 + n..])
  }

  lemma ReadFrameOf(body: Bytes, rest: Bytes)
    requires 1 <= |body| <= MAX_FRAME
    ensures ReadFrame(Frame(body) + rest) == Body(body, rest)
  {
    var s := Frame(body) + rest;
    assert s == PutU32(|body|) + (body + rest);
    GetPut(|body|, body + rest);
    assert s[4..4 + |body|] == body && s[4 + |body|..] == rest;
  }

  function Frames(bodies: seq<Bytes>): Bytes {
    if bodies == [] then [] else Frame(bodies[0]) + Frames(bodies[1..])
  }

  /** The bodies a connection delivers before it closes or is dropped. */
  function ReadAll(stream: Bytes): (seq<Bytes>, bool)
    decreases |stream|
  {
    match ReadFrame(stream)
    case Closed => ([], true)
    case Violation => ([], false)
    case Body(b, rest) => var (bs, clean) := ReadAll(rest); ([b] + bs, clean)
  }

  /** Concatenated frames read back as their bodies. */
  lemma {:induction false} ReadAllOf(bodies: seq<Bytes>)
    requires forall b :: b in bodies ==> 1 <= |b| <= MAX_FRAME
    ensures ReadAll(Frames(bodies)) == (bodies, true)
  {
    if bodies == [] {
    } else {
      assert bodies[0] in bodies;
      ReadFrameOf(bodies[0], Frames(bodies[1..]));
      ReadAllOf(bodies[1..]);
      assert [bodies[0]] + bodies[1..] == bodies;
    }
  }

  // ---------------------------------------------------------------------
  // Replies
  // ---------------------------------------------------------------------

  datatype Reply = Result(json: Bytes) | Failure(code: Bytes, message: Bytes) | Pong

  /** The Rust encoders: body length and field lengths are cast to u32, and
      nothing checks the cap. */
  function RustEncode(r: Reply): Bytes {
    match r
    case Result(json) => PutU32(1 + 4 + |json|) + [PARSE_RESULT] + PutU32(|json|) + json
    case Failure(code, msg) =>
      PutU32(1 + 4 + |code| + 4 + |msg|) + [ERROR] + PutU32(|code|) + code + PutU32(|msg|) + msg
    case Pong => PutU32(1) + [PONG]
  }

  function ReplySize(r: Reply): nat {
    match r
    case Result(json) => 5 + |json|
    case Failure(code, msg) => 9 + |code| + |msg|
    case Pong => 1
  }

  /** The reading half of `roundTrip`. */
  function GoReadBody(stream: Bytes): FrameRead {
    if |stream| < 4 then Violation
    else
      var n := GetU32(stream);
      if n == 0 || n > MAX_FRAME || |stream| - 4 < n then Violation
      else Body(stream[4..4 + n], stream[4 + n..])
  }

  function DecodeParseResult(rest: Bytes): Option<Bytes> {
    if |rest| < 4 then None
    else if GetU32(rest) + 4 != |rest| then None
    else Some(rest[4..])
  }

  /** `decodeErrorFrame`. The first slice bound is computed in 32 bits, the
      others in 64; the guards keep all of them in range. */
  function DecodeErrorFrame(rest: Bytes): Option<(Bytes, Bytes)>
    requires |rest| <= MAX_FRAME
  {
    if |rest| < 4 then None
    else
      var codeLen := GetU32(rest);
      if 4 + codeLen > |rest| then None
      else
        var code := rest[4..(4 + codeLen) % TWO32];
        var after := 4 + codeLen;
        if |rest| < after + 4 then None
        else
          var msgLen := GetU32(rest[after..]);
          if after + 4 + msgLen != |rest| then None
          else Some((code, rest[after + 4..after + 4 + msgLen]))
  }

  /** The client's reading of a reply body. A ping accepts only a pong; the
      parse calls accept a result or an error. */
  function GoDecode(ping: bool, body: Bytes): Option<Reply>
    requires |body| <= MAX_FRAME
  {
    if ping then
      if body == [PONG] then Some(Pong) else None
    else if body == [] then None
    else if body[0] == PARSE_RESULT then
      (match DecodeParseResult(body[1..]) case None => None case Some(j) => Some(Result(j)))
    else if body[0] == ERROR then
      (match DecodeErrorFrame(body[1..]) case None => None case Some((c, m)) => Some(Failure(c, m)))
    else None
  }

  /** The reply the client gets from a stream, None for any error. */
  function GoReceive(ping: bool, stream: Bytes): Option<Reply> {
    match GoReadBody(stream)
    case Body(b, _) => GoDecode(ping, b)
    case _ => None
  }

  function ReplyBody(r: Reply): Bytes {
    match r
    case Result(json) => [PARSE_RESULT] + Field(json)
    case Failure(code, msg) => [ERROR] + (Field(code) + Field(msg))
    case Pong => [PONG]
  }

  lemma RustEncodesBody(r: Reply)
    ensures RustEncode(r) == Frame(ReplyBody(r)) && |ReplyBody(r)| == ReplySize(r)
  {
    match r
    case Result(json) =>
    case Failure(code, msg) =>
      assert RustEncode(r) == PutU32(ReplySize(r)) + ([ERROR] + (PutU32(|code|) + code + (PutU32(|msg|) + msg)));
    case Pong =>
  }

  lemma GoDecodesResult(json: Bytes)
    requires 5 + |json| <= MAX_FRAME
    ensures GoDecode(false, ReplyBody(Result(json))) == Some(Result(json))
  {
    var rest := ReplyBody(Result(json))[1..];
    assert rest == PutU32(|json|) + json;
    GetPut(|json|, json);
    assert rest[4..] == json;
  }

  lemma DecodeErrorFrameOf(code: Bytes, msg: Bytes)
    requires 8 + |code| + |msg| <= MAX_FRAME
    ensures |Field(code) + Field(msg)| <= MAX_FRAME && DecodeErrorFrame(Field(code) + Field(msg)) == Some((code, msg))
  {
    var rest, tail := Field(code) + Field(msg), Field(msg);
    FieldLayout(code, tail);
    FieldLayout(msg, []);
    assert tail + [] == tail;
    ErrorFrameParts(rest, code, tail, msg);
  }

  /** A body laid out as two fields decodes to them. */
  lemma ErrorFrameParts(rest: Bytes, code: Bytes, tail: Bytes, msg: Bytes)
    requires |rest| == 4 + |code| + |tail| && |rest| <= MAX_FRAME
    requires GetU32(rest) == |code| && rest[4..4 + |code|] == code && rest[4 + |code|..] == tail
    requires |tail| == 4 + |msg| && GetU32(tail) == |msg| && tail[4..4 + |msg|] == msg
    ensures DecodeErrorFrame(rest) == Some((code, msg))
  {
    SliceOfDrop(rest, 4 + |code|, 4, 4 + |msg|);
    assert (4 + |code|) % TWO32 == 4 + |code|;
  }

  lemma SliceOfDrop(b: Bytes, n: nat, i: nat, j: nat)
    requires i <= j && n + j <= |b|
    ensures b[n + i..n + j] == b[n..][i..j]
  {
  }

  lemma GoDecodesFailure(code: Bytes, msg: Bytes)
    requires 9 + |code| + |msg| <= MAX_FRAME
    ensures GoDecode(false, ReplyBody(Failure(code, msg))) == Some(Failure(code, msg))
  {
    DecodeErrorFrameOf(code, msg);
    assert ReplyBody(Failure(code, msg))[1..] == Field(code) + Field(msg);
  }

  lemma DecodedSize(ping: bool, body: Bytes)
    requires |body| <= MAX_FRAME && GoDecode(ping, body).Some?
    ensures ReplySize(GoDecode(ping, body).value) == |body|
  {
  }

  /** The Go client gets back exactly the replies that fit the cap: one byte
      more and the reply is lost, or a different one is read. */
  lemma ReplyArrivesIff(r: Reply, rest: Bytes)
    ensures GoReceive(r.Pong?, RustEncode(r) + rest) == Some(r) <==> ReplySize(r) <= MAX_FRAME
  {
    RustEncodesBody(r);
    var body := ReplyBody(r);
    GoReadsFrame(body, rest);
    if |body| <= MAX_FRAME {
      GoDecodesReply(r);
    } else {
      var read := GoReadBody(Frame(body) + rest);
      if read.Body? && GoDecode(r.Pong?, read.body).Some? { DecodedSize(r.Pong?, read.body); }
    }
  }

  lemma GoDecodesReply(r: Reply)
    requires ReplySize(r) <= MAX_FRAME
    ensures |ReplyBody(r)| <= MAX_FRAME && GoDecode(r.Pong?, ReplyBody(r)) == Some(r)
  {
    match r
    case Result(json) => GoDecodesResult(json);
    case Failure(code, msg) => GoDecodesFailure(code, msg);
    case Pong =>
  }

  /** The client reads a frame of at most the cap, and never a longer body. */
  lemma GoReadsFrame(body: Bytes, rest: Bytes)
    requires body != []
    ensures |body| <= MAX_FRAME ==> GoReadBody(Frame(body) + rest) == Body(body, rest)
    ensures GoReadBody(Frame(body) + rest).Body? ==> |GoReadBody(Frame(body) + rest).body| <= MAX_FRAME
  {
    if |body| <= MAX_FRAME { FieldLayout(body, rest); }
  }

  // ---------------------------------------------------------------------
  // The server
  // ---------------------------------------------------------------------

  datatype ParseError = MalformedLockfile | UnsupportedVersion | EmptyLockfile

  /** What a lockfile parser returns, with the SBOM already serialised. */
  datatype Parsed = Sbom(json: Bytes) | Rejected(kind: ParseError, message: Bytes)

  type Parser = Request -> Parsed

  function Ascii(s: string): (b: Bytes)
    ensures |b| == |s|
  {
    seq(|s|, i requires 0 <= i < |s| => s[i] as int % 256)
  }

  function CodeOf(e: ParseError): Bytes {
    match e
    case MalformedLockfile => Ascii("MALFORMED_LOCKFILE")
    case UnsupportedVersion => Ascii("UNSUPPORTED_LOCKFILE_VERSION")
    case EmptyLockfile => Ascii("EMPTY_LOCKFILE")
  }

  /** `classifyRemoteError`: the sentinel a code stands for, if any. */
  function Classify(code: Bytes): Option<ParseError> {
    if code == Ascii("MALFORMED_LOCKFILE") then Some(MalformedLockfile)
    else if code == Ascii("UNSUPPORTED_LOCKFILE_VERSION") then Some(UnsupportedVersion)
    else if code == Ascii("EMPTY_LOCKFILE") then Some(EmptyLockfile)
    else None
  }

  /** `handle_body`, with the text of decode errors as a parameter. */
  function HandleBody(parse: Parser, text: DecodeError -> Bytes, body: Bytes): Reply {
    match DecodeRequest(body)
    case Err(e) => Failure(Ascii("MALFORMED_REQUEST"), text(e))
    case Ok(Ping) => Pong
    case Ok(r) =>
      match parse(r)
      case Sbom(json) => Result(json)
      case Rejected(kind, message) => Failure(CodeOf(kind), message)
  }

  function Replies(parse: Parser, text: DecodeError -> Bytes, bodies: seq<Bytes>): Bytes {
    if bodies == [] then []
    else Replies(parse, text, bodies[..|bodies| - 1]) + RustEncode(HandleBody(parse, text, bodies[|bodies| - 1]))
  }

  lemma RepliesSnoc(parse: Parser, text: DecodeError -> Bytes, bodies: seq<Bytes>, b: Bytes)
    ensures Replies(parse, text, bodies + [b]) == Replies(parse, text, bodies) + RustEncode(HandleBody(parse, text, b))
  {
    assert (bodies + [b])[..|bodies|] == bodies;
  }

  /** `bodies` have been read of the stream, `rest` is still to be read. */
  ghost predicate Halfway(stream: Bytes, bodies: seq<Bytes>, rest: Bytes) {
    bodies + ReadAll(rest).0 == ReadAll(stream).0
  }

  lemma HalfwayStep(stream: Bytes, bodies: seq<Bytes>, rest: Bytes)
    requires Halfway(stream, bodies, rest)
    ensures ReadFrame(rest).Body? ==> Halfway(stream, bodies + [ReadFrame(rest).body], ReadFrame(rest).rest)
    ensures !ReadFrame(rest).Body? ==> bodies == ReadAll(stream).0
  {
    var f := ReadFrame(rest);
    if f.Body? {
      assert bodies + ([f.body] + ReadAll(f.rest).0) == bodies + [f.body] + ReadAll(f.rest).0;
    } else {
      assert bodies + [] == bodies;
    }
  }

  /** `handle_connection` against a client that writes `stream` and reads all
      replies: one reply per frame, in order. */
  method HandleConnection(parse: Parser, text: DecodeError -> Bytes, stream: Bytes) returns (out: Bytes)
    ensures out == Replies(parse, text, ReadAll(stream).0)
  {
    out := [];
    var rest := stream;
    ghost var bodies: seq<Bytes> := [];
    while true
      invariant Halfway(stream, bodies, rest)
      invariant out == Replies(parse, text, bodies)
      decreases |rest|
    {
      var frame := ReadFrame(rest);
      HalfwayStep(stream, bodies, rest);
      if !frame.Body? { return; }
      RepliesSnoc(parse, text, bodies, frame.body);
      out := out + RustEncode(HandleBody(parse, text, frame.body));
      bodies := bodies + [frame.body];
      rest := frame.rest;
    }
  }

  /** What the server should answer to a request. */
  function Answer(parse: Parser, r: Request): Reply {
    if r.Ping? then Pong
    else
      match parse(r)
      case Sbom(json) => Result(json)
      case Rejected(kind, message) => Failure(CodeOf(kind), message)
  }

  lemma ServerAnswers(parse: Parser, text: DecodeError -> Bytes, r: Request)
    requires |RequestBody(r)| <= MAX_FRAME
    ensures Replies(parse, text, ReadAll(Frame(RequestBody(r))).0) == RustEncode(Answer(parse, r))
  {
    var body := RequestBody(r);
    ReadAllOf([body]);
    assert Frames([body]) == Frame(body) + [] == Frame(body);
    DecodeEncoded(r);
    RepliesSnoc(parse, text, [], body);
    assert [] + [body] == [body];
    assert [] + RustEncode(Answer(parse, r)) == RustEncode(Answer(parse, r));
  }

  /** A whole exchange: for every request the client agrees to send, what it
      gets back is the parser's answer to that request, if and only if the
      answer fits the cap. */
  lemma ExchangeIsFaithful(parse: Parser, text: DecodeError -> Bytes, r: Request)
    requires |RequestBody(r)| <= MAX_FRAME
    ensures GoReceive(r.Ping?, Replies(parse, text, ReadAll(Frame(RequestBody(r))).0)) == Some(Answer(parse, r))
            <==> ReplySize(Answer(parse, r)) <= MAX_FRAME
  {
    var reply := Answer(parse, r);
    ServerAnswers(parse, text, r);
    ReplyArrivesIff(reply, []);
    assert RustEncode(reply) + [] == RustEncode(reply);
  }

  lemma ErrorClassSurvives(e: ParseError)
    ensures Classify(CodeOf(e)) == Some(e)
  {
    assert Ascii("MALFORMED_LOCKFILE") != Ascii("UNSUPPORTED_LOCKFILE_VERSION");
  }
}
