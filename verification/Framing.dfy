/** Length-prefixed, tagged and checksummed messages in a byte stream. The checksum and the
    serialisation of messages are parameters. */
module Framing {
  import opened Serial
  import Lists

  type Bytes = seq<byte>

  const HEADER: nat := 4
  const CHECKSUM: nat := 4
  const MAX_MESSAGE := 64 * 1024 * 1024

  datatype Option<M> = None | Some(value: M)

  /** `raw` is the callback that may refuse a frame before it is parsed. */
  datatype Codec<!M> = Codec(tag: Bytes, checksum: Bytes -> u32, parse: Bytes -> Option<M>, raw: Bytes -> bool)

  datatype Error = NoError | InvalidLength | CheckSumError | UnknownMessageType | ParseError

  // ---------------------------------------------------------------- network byte order

  function Encode32(l: u32): (r: Bytes)
    ensures |r| == 4
  {
    [l / 16777216, l / 65536 % 256, l / 256 % 256, l % 256]
  }

  function Decode32(p: Bytes): u32
    requires |p| >= 4
  {
    var a: int, b: int, c: int, d: int := p[0], p[1], p[2], p[3];
    16777216 * a + 65536 * b + 256 * c + d
  }

  lemma Digits(l: u32)
    ensures l == 16777216 * (l / 16777216) + 65536 * (l / 65536 % 256) + 256 * (l / 256 % 256) + l % 256
  {
    var a: int := l / 256;
    var b := a / 256;
    var c := b / 256;
    assert l / 65536 == b && l / 16777216 == c;
    assert l == 256 * a + l % 256 && a == 256 * b + a % 256 && b == 256 * c + b % 256;
  }

  lemma RoundTrip32(l: u32, rest: Bytes)
    ensures Decode32(Encode32(l) + rest) == l
  {
    Digits(l);
    var p, e := Encode32(l) + rest, Encode32(l);
    assert p[0] == e[0] && p[1] == e[1] && p[2] == e[2] && p[3] == e[3];
  }

  lemma Canonical32(p: Bytes)
    requires |p| == 4
    ensures Encode32(Decode32(p)) == p
  {
    DigitsOf(p[3], p[2], p[1], p[0]);
  }

  lemma FirstFour(p: Bytes)
    requires |p| >= 4
    ensures Decode32(p) == Decode32(p[..4])
  {}

  // ---------------------------------------------------------------- encoding and parsing one frame

  /** What lies behind the length: the tag, the payload and the checksum of both. */
  function Body<M>(c: Codec<M>, payload: Bytes): Bytes {
    c.tag + payload + Encode32(c.checksum(c.tag + payload))
  }

  /** The length is cut to 32 bits. */
  function Frame<M>(c: Codec<M>, payload: Bytes): Bytes {
    Encode32(Wrap(|Body(c, payload)|)) + Body(c, payload)
  }

  function MinMessage<M>(c: Codec<M>): nat {
    |c.tag| + CHECKSUM
  }

  datatype Parsed<M> = Good(message: M) | Bad(error: Error)

  /** The verdict on the body of a frame. */
  function ParseBody<M>(c: Codec<M>, body: Bytes): (r: Parsed<M>)
    requires |body| >= MinMessage(c)
    ensures r.Bad? ==> r.error != NoError
  {
    var n := |body| - CHECKSUM;
    if Decode32(body[n..]) != c.checksum(body[..n]) then Bad(CheckSumError)
    else if body[..|c.tag|] != c.tag then Bad(UnknownMessageType)
    else
      match c.parse(body[|c.tag|..n])
      case Some(m) => Good(m)
      case None => Bad(ParseError)
  }

  // ---------------------------------------------------------------- decoding a stream

  /** Whether the buffer holds a complete frame of an allowed length at its head, and that frame. */
  predicate Complete<M>(c: Codec<M>, buf: Bytes)
    ensures Complete(c, buf) ==> HEADER <= HEADER + Length(buf) <= |buf| && Length(buf) >= MinMessage(c)
  {
    && |buf| >= MinMessage(c) + HEADER && MinMessage(c) <= Length(buf) <= MAX_MESSAGE && |buf| >= HEADER + Length(buf)
  }

  function Length(buf: Bytes): int {
    if |buf| >= 4 then ToI32(Decode32(buf)) else 0
  }

  function First(buf: Bytes): (r: Bytes)
    ensures 0 <= Length(buf) && HEADER + Length(buf) <= |buf| ==> |r| == HEADER + Length(buf)
  {
    if 0 <= Length(buf) && HEADER + Length(buf) <= |buf| then buf[..HEADER + Length(buf)] else []
  }

  function Rest(buf: Bytes): (r: Bytes)
    ensures 0 <= Length(buf) && HEADER + Length(buf) <= |buf| ==> |r| < |buf|
  {
    if 0 <= Length(buf) && HEADER + Length(buf) <= |buf| then buf[HEADER + Length(buf)..] else []
  }

  predicate TooLong<M>(c: Codec<M>, buf: Bytes) {
    |buf| >= MinMessage(c) + HEADER && !(MinMessage(c) <= Length(buf) <= MAX_MESSAGE)
  }

  /** One call on what the buffer holds: the messages delivered, the error it stops with, and what stays
      in the buffer. */
  datatype Result<M> = Result(messages: seq<M>, error: Error, rest: Bytes)

  function Decode<M>(c: Codec<M>, buf: Bytes): Result<M>
    decreases |buf|
  {
    if TooLong(c, buf) then Result([], InvalidLength, buf)
    else if !Complete(c, buf) then Result([], NoError, buf)
    else if !c.raw(First(buf)) then Decode(c, Rest(buf))
    else
      match ParseBody(c, First(buf)[HEADER..])
      case Bad(e) => Result([], e, buf)
      case Good(m) => var more := Decode(c, Rest(buf)); more.(messages := [m] + more.messages)
  }

  /** Decoding what arrived first, then what was left with the rest behind it, delivers the messages of
      decoding all at once, and stops in the same way with the same leftover. */
  lemma {:induction false} DecodeSplit<M>(c: Codec<M>, a: Bytes, b: Bytes)
    ensures var p := Decode(c, a);
      var q := Decode(c, p.rest + b);
      Decode(c, a + b) == q.(messages := p.messages + q.messages)
    decreases |a|
  {
    hide *;
    DecodeIs(c, a);
    DecodeIs(c, a + b);
    HeadStays(c, a, b);
    if Complete(c, a) {
      DecodeSplit(c, Rest(a), b);
      var p := Decode(c, Rest(a));
      if c.raw(First(a)) && ParseBody(c, First(a)[HEADER..]).Good? {
        Lists.Associative([ParseBody(c, First(a)[HEADER..]).message], p.messages, Decode(c, p.rest + b).messages);
      }
    }
    Lists.Empty(Decode(c, a + b).messages);
  }

  /** One turn of the decoding loop. */
  lemma DecodeIs<M>(c: Codec<M>, buf: Bytes)
    ensures Complete(c, buf) ==>
        |First(buf)| >= HEADER && |First(buf)[HEADER..]| >= MinMessage(c) && |Rest(buf)| < |buf|
    ensures Decode(c, buf) ==
      if TooLong(c, buf) then Result([], InvalidLength, buf)
      else if !Complete(c, buf) then Result([], NoError, buf)
      else if !c.raw(First(buf)) then Decode(c, Rest(buf))
      else if ParseBody(c, First(buf)[HEADER..]).Bad? then Result([], ParseBody(c, First(buf)[HEADER..]).error, buf)
      else (var more := Decode(c, Rest(buf)); more.(messages :=
          [ParseBody(c, First(buf)[HEADER..]).message] + more.messages))
  {
    hide ToI32, Decode32, ParseBody;
  }

  /** More bytes change nothing about a complete frame or a refused length. */
  lemma HeadStays<M>(c: Codec<M>, a: Bytes, b: Bytes)
    ensures Complete(c, a) ==> Complete(c, a + b) && First(a + b) == First(a) && Rest(a + b) == Rest(a) + b
    ensures TooLong(c, a) ==> TooLong(c, a + b) && !Complete(c, a + b) && !Complete(c, a)
    ensures Complete(c, a) ==> !TooLong(c, a) && !TooLong(c, a + b)
  {
    hide ToI32, Decode32;
    if |a| >= 4 {
      FirstFour(a);
      FirstFour(a + b);
      assert (a + b)[..4] == a[..4];
      assert Length(a + b) == Length(a);
      hide Length;
      if Complete(c, a) { Lists.CutBoth(a, b, HEADER + Length(a)); }
    }
  }

  /** Bytes arrive in pieces; every piece is a call. `error` is the verdict of the last one. */
  function Feed<M>(c: Codec<M>, r: Result<M>, piece: Bytes): Result<M> {
    var next := Decode(c, r.rest + piece);
    next.(messages := r.messages + next.messages)
  }

  function FeedAll<M>(c: Codec<M>, r: Result<M>, pieces: seq<Bytes>): Result<M>
    decreases |pieces|
  {
    if pieces == [] then r else FeedAll(c, Feed(c, r, pieces[0]), pieces[1..])
  }

  lemma FeedTwo<M>(c: Codec<M>, r: Result<M>, a: Bytes, b: Bytes)
    ensures Feed(c, Feed(c, r, a), b) == Feed(c, r, a + b)
  {
    hide Decode;
    DecodeSplit(c, r.rest + a, b);
    Lists.Associative(r.rest, a, b);
    var p := Decode(c, r.rest + a);
    Lists.Associative(r.messages, p.messages, Decode(c, p.rest + b).messages);
  }

  ghost predicate Settled<M>(c: Codec<M>, r: Result<M>) {
    Feed(c, r, []) == r
  }

  /** However a stream is cut into pieces, the messages delivered, the final verdict and the leftover are
      those of the stream in one piece. */
  lemma {:induction false} ChunkingIndependent<M>(c: Codec<M>, r: Result<M>, pieces: seq<Bytes>)
    requires Settled(c, r)
    ensures FeedAll(c, r, pieces) == Feed(c, r, Lists.Concat(pieces))
    decreases |pieces|
  {
    hide Feed;
    if pieces != [] {
      FeedTwo(c, r, pieces[0], []);
      Lists.Empty(pieces[0]);
      ChunkingIndependent(c, Feed(c, r, pieces[0]), pieces[1..]);
      FeedTwo(c, r, pieces[0], Lists.Concat(pieces[1..]));
    }
  }

  lemma StartSettled<M>(c: Codec<M>)
    ensures Settled(c, Result([], NoError, []))
  {}

  // ---------------------------------------------------------------- round trip

  lemma BodyParsed<M>(c: Codec<M>, payload: Bytes)
    ensures var body := Body(c, payload);
      && |body| >= MinMessage(c) && |body| == |c.tag| + |payload| + CHECKSUM
      && ParseBody(c, body) == (match c.parse(payload) case Some(m) => Good(m) case None => Bad(ParseError))
  {
    var body, n := Body(c, payload), |c.tag| + |payload|;
    assert body[..n] == c.tag + payload;
    RoundTrip32(c.checksum(c.tag + payload), []);
    assert body[n..] == Encode32(c.checksum(c.tag + payload)) == Encode32(c.checksum(c.tag + payload)) + [];
    assert body[..|c.tag|] == c.tag && body[|c.tag|..n] == payload;
    hide Decode32, Encode32;
  }

  /** A number in network byte order. */
  predicate Network(p: Bytes, v: int) {
    |p| == 4 && 16777216 * (p[0] as int) + 65536 * (p[1] as int) + 256 * (p[2] as int) + p[3] == v
  }

  lemma NetworkIs(p: Bytes)
    requires |p| == 4
    ensures forall v: u32 :: Network(p, v) <==> Decode32(p) == v
  {}

  lemma EncodedNetwork(v: u32)
    ensures Network(Encode32(v), v)
  {
    Digits(v);
  }

  /** A frame byte by byte: the length of what follows, the tag, the payload, and the checksum of these two. */
  lemma FrameLayout<M>(c: Codec<M>, payload: Bytes)
    requires |c.tag| + |payload| + 4 < 0x1_0000_0000
    ensures var f, n := Frame(c, payload), |c.tag| + |payload|;
      && |f| == 4 + n + 4 && Network(f[..4], n + 4) && f[4..4 + n] == c.tag + payload
      && Network(f[4 + n..], c.checksum(c.tag + payload))
  {
    var f, n := Frame(c, payload), |c.tag| + |payload|;
    EncodedNetwork(n + 4);
    EncodedNetwork(c.checksum(c.tag + payload));
    hide Encode32, Network;
    assert f[..4] == Encode32(n + 4) && f[4..4 + n] == c.tag + payload;
    assert f[4 + n..] == Encode32(c.checksum(c.tag + payload));
  }

  /** What stands at the head of the buffer: a length is refused when it is negative, too small for the tag and
      the checksum, or above 64 MiB; otherwise the frame is waited for. */
  lemma LengthJudged<M>(c: Codec<M>, head: Bytes, len: int, rest: Bytes)
    requires -0x8000_0000 <= len < 0x8000_0000 && Network(head, if len < 0 then len + 0x1_0000_0000 else len)
    ensures var buf := head + rest;
      && (|rest| < |c.tag| + 4 ==> Decode(c, buf) == Result([], NoError, buf))
      && (|rest| >= |c.tag| + 4 && (len < |c.tag| + 4 || len > 67108864) ==>
            Decode(c, buf) == Result([], InvalidLength, buf))
      && (|c.tag| + 4 <= len <= 67108864 && |rest| < len ==> Decode(c, buf) == Result([], NoError, buf))
  {
    var buf := head + rest;
    assert buf[..4] == head by { hide Network; }
    HeadLength(buf, head, len);
    DecodeIs(c, buf);
    hide Length, Decode, Network, Decode32, First, Rest, ParseBody;
  }

  /** A complete frame the callback lets through is refused for its checksum, its tag, or its payload, in this
      order, and stays in the buffer; if none of them is wrong its message is delivered. */
  lemma BodyJudged<M>(c: Codec<M>, head: Bytes, body: Bytes, rest: Bytes)
    requires |c.tag| + 4 <= |body| <= 67108864 && Network(head, |body|) && c.raw(head + body)
    ensures var buf, n := head + body + rest, |body| - 4;
      var intact := Network(body[n..], c.checksum(body[..n]));
      && (!intact ==> Decode(c, buf) == Result([], CheckSumError, buf))
      && (intact && !(c.tag <= body[..n]) ==> Decode(c, buf) == Result([], UnknownMessageType, buf))
      && (intact && c.tag <= body[..n] && c.parse(body[|c.tag|..n]) == None ==>
            Decode(c, buf) == Result([], ParseError, buf))
      && (intact && c.tag <= body[..n] && c.parse(body[|c.tag|..n]).Some? ==>
            Decode(c, buf).messages == [c.parse(body[|c.tag|..n]).value] + Decode(c, rest).messages)
  {
    hide *;
    var buf, n := head + body + rest, |body| - 4;
    HeadComplete(c, head, body, rest);
    BodyVerdict(c, body);
    DecodeIs(c, buf);
  }

  lemma HeadComplete<M>(c: Codec<M>, head: Bytes, body: Bytes, rest: Bytes)
    requires |c.tag| + 4 <= |body| <= 67108864 && Network(head, |body|)
    ensures var buf := head + body + rest;
      && Complete(c, buf) && !TooLong(c, buf) && First(buf) == head + body && Rest(buf) == rest
      && |First(buf)| >= HEADER && First(buf)[HEADER..] == body && |body| >= MinMessage(c)
  {
    var buf := head + body + rest;
    assert buf[..4] == head by { hide Network; }
    HeadLength(buf, head, |body|);
    hide Length, Network;
    assert buf[..4 + |body|] == head + body && buf[4 + |body|..] == rest && (head + body)[4..] == body;
  }

  lemma HeadLength(buf: Bytes, head: Bytes, len: int)
    requires |buf| >= 4 && buf[..4] == head && -0x8000_0000 <= len < 0x8000_0000
    requires Network(head, if len < 0 then len + 0x1_0000_0000 else len)
    ensures Length(buf) == len && |head| == 4
  {
    FirstFour(buf);
    NetworkIs(head);
    hide Decode32, Network;
  }

  lemma BodyVerdict<M>(c: Codec<M>, body: Bytes)
    requires |body| >= MinMessage(c)
    ensures var n := |body| - 4;
      ParseBody(c, body) ==
        if !Network(body[n..], c.checksum(body[..n])) then Bad(CheckSumError)
        else if !(c.tag <= body[..n]) then Bad(UnknownMessageType)
        else match c.parse(body[|c.tag|..n]) case Some(m) => Good(m) case None => Bad(ParseError)
  {
    var n := |body| - 4;
    NetworkIs(body[n..]);
    hide Network, Decode32;
    assert c.tag <= body[..n] <==> body[..|c.tag|] == c.tag;
  }

  /** A frame at the head of the buffer: delivered when it parses, refused when it is too long. */
  lemma FrameDecoded<M>(c: Codec<M>, payload: Bytes, rest: Bytes)
    requires |Body(c, payload)| < 0x8000_0000
    ensures var buf := Frame(c, payload) + rest;
      Decode(c, buf) ==
        if |Body(c, payload)| > MAX_MESSAGE then Result([], InvalidLength, buf)
        else if !c.raw(Frame(c, payload)) then Decode(c, rest)
        else match c.parse(payload)
             case Some(m) => (var more := Decode(c, rest); more.(messages := [m] + more.messages))
             case None => Result([], ParseError, buf)
  {
    var body, buf := Body(c, payload), Frame(c, payload) + rest;
    BodyParsed(c, payload);
    assert buf == Encode32(|body|) + (body + rest);
    RoundTrip32(|body|, body + rest);
    hide Body, ParseBody, Encode32, Decode32;
    assert buf[..HEADER + |body|] == Frame(c, payload) && buf[HEADER + |body|..] == rest;
    assert Frame(c, payload)[HEADER..] == body;
  }

  /** The stream of the messages of `ms`, serialised by `serialize`. */
  function Stream<M>(c: Codec<M>, serialize: M -> Bytes, ms: seq<M>): Bytes
  {
    if ms == [] then [] else Frame(c, serialize(ms[0])) + Stream(c, serialize, ms[1..])
  }

  /** A message the receiver will take: its frame fits, is not refused, and parses to the message. */
  ghost predicate Sound<M>(c: Codec<M>, serialize: M -> Bytes, m: M) {
    && |Body(c, serialize(m))| <= MAX_MESSAGE && c.raw(Frame(c, serialize(m))) && c.parse(serialize(m)) == Some(m)
  }

  /** Encoded messages come back exactly, in order, and nothing of them is left. */
  lemma {:induction false} StreamDecoded<M>(c: Codec<M>, serialize: M -> Bytes, ms: seq<M>, rest: Bytes)
    requires forall i :: 0 <= i < |ms| ==> Sound(c, serialize, ms[i])
    ensures Decode(c, Stream(c, serialize, ms) + rest) ==
            var more := Decode(c, rest); more.(messages := ms + more.messages)
    decreases |ms|
  {
    hide Decode, Body, Frame;
    if ms == [] {
      Lists.Empty(rest);
      Lists.Empty(Decode(c, rest).messages);
    } else {
      var tail := Stream(c, serialize, ms[1..]) + rest;
      Lists.Associative(Frame(c, serialize(ms[0])), Stream(c, serialize, ms[1..]), rest);
      assert Sound(c, serialize, ms[0]);
      FrameDecoded(c, serialize(ms[0]), tail);
      StreamDecoded(c, serialize, ms[1..], rest);
      Lists.Associative([ms[0]], ms[1..], Decode(c, rest).messages);
      assert ms == [ms[0]] + ms[1..];
    }
  }

  /** The stream of encoded messages, cut in any way, delivers exactly those messages in order. */
  lemma MessagesDelivered<M>(c: Codec<M>, serialize: M -> Bytes, ms: seq<M>, pieces: seq<Bytes>)
    requires forall i :: 0 <= i < |ms| ==> Sound(c, serialize, ms[i])
    requires Lists.Concat(pieces) == Stream(c, serialize, ms)
    ensures FeedAll(c, Result([], NoError, []), pieces) == Result(ms, NoError, [])
  {
    StartSettled(c);
    ChunkingIndependent(c, Result([], NoError, []), pieces);
    StreamDecoded(c, serialize, ms, []);
    DecodeNothing(c);
    hide Decode, Stream, FeedAll, Lists.Concat;
    Lists.Empty(ms);
    Lists.Empty(Stream(c, serialize, ms));
  }

  lemma DecodeNothing<M>(c: Codec<M>)
    ensures Decode(c, []) == Result([], NoError, [])
  {}

  /** Only intact frames are delivered: a body that parses is the tag, a payload and the checksum of both. */
  lemma GoodIsIntact<M>(c: Codec<M>, body: Bytes)
    requires |body| >= MinMessage(c) && ParseBody(c, body).Good?
    ensures var payload := body[|c.tag|..|body| - CHECKSUM];
      body == Body(c, payload) && c.parse(payload) == Some(ParseBody(c, body).message)
  {
    var n := |body| - CHECKSUM;
    var payload := body[|c.tag|..n];
    assert body[..n] == c.tag + payload;
    Canonical32(body[n..]);
    assert body == body[..n] + body[n..];
    hide Encode32, Decode32;
  }
}
