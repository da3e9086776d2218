/** The incremental request parser: request line and headers (sections 3.1.1 and 3.2 of RFC 7230), taken
    from a buffer that grows as bytes arrive. */
module Http {
  import opened Serial
  import Lists

  type Bytes = seq<byte>

  datatype Method = Invalid | Get | Post | Head | Put | Delete
  datatype Version = Unknown | Http10 | Http11

  datatype Request = Request(mthd: Method, version: Version, path: Bytes, query: Bytes, receiveTime: int,
                             headers: map<Bytes, Bytes>)

  datatype Stage = ExpectRequestLine | ExpectHeaders | GotAll

  datatype Context = Context(stage: Stage, request: Request)

  const EMPTY := Request(Invalid, Unknown, [], [], 0, map[])

  const GET: Bytes := [71, 69, 84]
  const POST: Bytes := [80, 79, 83, 84]
  const HEAD: Bytes := [72, 69, 65, 68]
  const PUT: Bytes := [80, 85, 84]
  const DELETE: Bytes := [68, 69, 76, 69, 84, 69]
  const HTTP1: Bytes := [72, 84, 84, 80, 47, 49, 46]
  const SPACE: byte := 32
  const QUESTION: byte := 63
  const COLON: byte := 58
  const CR: byte := 13
  const LF: byte := 10

  /** The position of the first `c`, or the length. */
  function Find(s: Bytes, c: byte): (k: nat)
    ensures k <= |s| && (forall i :: 0 <= i < k ==> s[i] != c) && (k < |s| ==> s[k] == c)
  {
    if s == [] || s[0] == c then 0
    else
      var k := Find(s[1..], c);
      assert forall i :: 1 <= i < 1 + k ==> s[i] == s[1..][i - 1];
      1 + k
  }

  /** The position of the first CRLF, or -1. */
  function FindCrlf(s: Bytes): (k: int)
    ensures -1 <= k && (k >= 0 ==> k + 2 <= |s|)
  {
    if |s| < 2 then -1
    else if s[0] == CR && s[1] == LF then 0
    else
      var k := FindCrlf(s[1..]);
      if k < 0 then -1 else 1 + k
  }

  function MethodOf(m: Bytes): Method {
    if m == GET then Get else if m == POST then Post else if m == HEAD then Head else if m == PUT then Put
    else if m == DELETE then Delete else Invalid
  }

  function WithTarget(m: Request, target: Bytes): Request {
    var question := Find(target, QUESTION);
    if question < |target| then m.(path := target[..question], query := target[question..]) else m.(path := target)
  }

  function WithVersion(m: Request, version: Bytes): (bool, Request) {
    if |version| != 8 || version[..7] != HTTP1 then (false, m)
    else if version[7] == 49 then (true, m.(version := Http11))
    else if version[7] == 48 then (true, m.(version := Http10))
    else (false, m)
  }

  /** What follows the method. */
  function AfterMethod(m: Request, rest: Bytes): (bool, Request) {
    var end := Find(rest, SPACE);
    if end == |rest| then (false, m) else WithVersion(WithTarget(m, rest[..end]), rest[end + 1..])
  }

  /** The verdict on a request line, and the request as far as it was filled. */
  function RequestLine(r: Request, line: Bytes): (bool, Request) {
    var space := Find(line, SPACE);
    if space == |line| then (false, r)
    else
      var m := r.(mthd := MethodOf(line[..space]));
      if m.mthd == Invalid then (false, m) else AfterMethod(m, line[space + 1..])
  }

  predicate IsSpace(c: byte) {
    c == 32 || 9 <= c <= 13
  }

  function TrimLeft(s: Bytes): Bytes {
    if s != [] && IsSpace(s[0]) then TrimLeft(s[1..]) else s
  }

  function TrimRight(s: Bytes): Bytes {
    if s != [] && IsSpace(s[|s| - 1]) then TrimRight(s[..|s| - 1]) else s
  }

  function AddHeader(r: Request, line: Bytes, colon: nat): Request
    requires colon < |line|
  {
    r.(headers := r.headers[line[..colon] := TrimRight(TrimLeft(line[colon + 1..]))])
  }

  /** Where a call ends: the context, the verdict, and the bytes left in the buffer. */
  datatype Result = Result(ctx: Context, ok: bool, rest: Bytes)

  predicate Done(r: Result) {
    !r.ok || r.ctx.stage == GotAll
  }

  function Parse(ctx: Context, buf: Bytes, time: int): Result
    requires ctx.stage != GotAll
    decreases |buf|
  {
    var k := FindCrlf(buf);
    if k < 0 then Result(ctx, true, buf)
    else
      var line, rest := buf[..k], buf[k + 2..];
      if ctx.stage == ExpectRequestLine then
        var (ok, r) := RequestLine(ctx.request, line);
        if !ok then Result(ctx.(request := r), false, buf)
        else Parse(Context(ExpectHeaders, r.(receiveTime := time)), rest, time)
      else
        var colon := Find(line, COLON);
        if colon < |line| then Parse(ctx.(request := AddHeader(ctx.request, line, colon)), rest, time)
        else Result(ctx.(stage := GotAll), true, rest)
  }

  // ---------------------------------------------------------------- independence from chunking

  lemma {:induction false} CrlfStays(a: Bytes, b: Bytes)
    ensures FindCrlf(a) >= 0 ==> FindCrlf(a + b) == FindCrlf(a)
  {
    if |a| >= 2 && !(a[0] == CR && a[1] == LF) {
      assert (a + b)[1..] == a[1..] + b;
      CrlfStays(a[1..], b);
    }
  }

  /** Parsing what arrived first and then going on with the rest is parsing it all at once. */
  lemma {:induction false} ParseSplit(ctx: Context, a: Bytes, b: Bytes, time: int)
    requires ctx.stage != GotAll
    ensures var p := Parse(ctx, a, time);
      Parse(ctx, a + b, time) == if Done(p) then p.(rest := p.rest + b) else Parse(p.ctx, p.rest + b, time)
    decreases |a|
  {
    hide RequestLine, AddHeader, Find, FindCrlf;
    var k := FindCrlf(a);
    CrlfStays(a, b);
    if k >= 0 {
      var line, rest := a[..k], a[k + 2..];
      assert (a + b)[..k] == line && (a + b)[k + 2..] == rest + b;
      if ctx.stage == ExpectRequestLine {
        var (ok, r) := RequestLine(ctx.request, line);
        if ok { ParseSplit(Context(ExpectHeaders, r.(receiveTime := time)), rest, b, time); }
      } else {
        var colon := Find(line, COLON);
        if colon < |line| { ParseSplit(ctx.(request := AddHeader(ctx.request, line, colon)), rest, b, time); }
      }
    }
  }

  /** A piece arrives; after an error or a complete request it stays unparsed in the buffer. */
  function Feed(r: Result, piece: Bytes, time: int): Result {
    if Done(r) then r.(rest := r.rest + piece) else Parse(r.ctx, r.rest + piece, time)
  }

  function FeedAll(r: Result, pieces: seq<Bytes>, time: int): Result
    decreases |pieces|
  {
    if pieces == [] then r else FeedAll(Feed(r, pieces[0], time), pieces[1..], time)
  }

  /** Feeding two pieces is feeding them joined. */
  lemma FeedTwo(r: Result, a: Bytes, b: Bytes, time: int)
    ensures Feed(Feed(r, a, time), b, time) == Feed(r, a + b, time)
  {
    hide Parse;
    Lists.Associative(r.rest, a, b);
    if !Done(r) { ParseSplit(r.ctx, r.rest + a, b, time); }
  }

  /** A result nothing more can be parsed from: it is done, or its buffer was parsed already. */
  ghost predicate Settled(r: Result, time: int) {
    Feed(r, [], time) == r
  }

  /** However the input is cut into pieces, the verdict, the request and the leftover are those of the
      input in one piece. */
  lemma {:induction false} ChunkingIndependent(r: Result, pieces: seq<Bytes>, time: int)
    requires Settled(r, time)
    ensures FeedAll(r, pieces, time) == Feed(r, Lists.Concat(pieces), time)
    decreases |pieces|
  {
    hide Feed;
    if pieces != [] {
      FeedTwo(r, pieces[0], [], time);
      Lists.Empty(pieces[0]);
      ChunkingIndependent(Feed(r, pieces[0], time), pieces[1..], time);
      FeedTwo(r, pieces[0], Lists.Concat(pieces[1..]), time);
    }
  }

  /** A new context has nothing to parse. */
  lemma StartSettled(time: int)
    ensures Settled(Result(Context(ExpectRequestLine, EMPTY), true, []), time)
  {}

  /** The receive time is that of the piece that completes the request line; nothing else depends on time. */
  function Timeless(r: Result): Result {
    r.(ctx := r.ctx.(request := r.ctx.request.(receiveTime := 0)))
  }

  lemma {:induction false} TimeOnlyStamps(ctx: Context, other: Context, buf: Bytes, s: int, t: int)
    requires ctx.stage != GotAll && other == ctx.(request := ctx.request.(receiveTime := other.request.receiveTime))
    ensures Timeless(Parse(ctx, buf, s)) == Timeless(Parse(other, buf, t))
    decreases |buf|
  {
    hide Find, FindCrlf;
    var k := FindCrlf(buf);
    if k >= 0 {
      var line, rest := buf[..k], buf[k + 2..];
      if ctx.stage == ExpectRequestLine {
        LineTimeless(ctx.request, other.request, line);
        hide RequestLine;
        var (ok, r) := RequestLine(ctx.request, line);
        var (ok', r') := RequestLine(other.request, line);
        if ok {
          TimeOnlyStamps(Context(ExpectHeaders, r.(receiveTime := s)), Context(ExpectHeaders, r'.(receiveTime := t)),
            rest, s, t);
        }
      } else {
        hide RequestLine;
        var colon := Find(line, COLON);
        if colon < |line| {
          TimeOnlyStamps(ctx.(request := AddHeader(ctx.request, line, colon)),
                         other.(request := AddHeader(other.request, line, colon)), rest, s, t);
        }
      }
    }
  }

  lemma LineTimeless(r: Request, q: Request, line: Bytes)
    requires q == r.(receiveTime := q.receiveTime)
    ensures var (ok, a) := RequestLine(r, line);
      var (ok', b) := RequestLine(q, line);
      ok == ok' && b == a.(receiveTime := q.receiveTime)
  {
    hide Find;
  }

  /** Results that differ in the receive time alone go on differing in that alone. */
  lemma FeedAnyTime(r: Result, q: Result, piece: Bytes, s: int, t: int)
    requires Timeless(r) == Timeless(q)
    ensures Timeless(Feed(r, piece, s)) == Timeless(Feed(q, piece, t))
  {
    hide Parse;
    if !Done(r) {
      assert q.ctx == r.ctx.(request := r.ctx.request.(receiveTime := q.ctx.request.receiveTime));
      TimeOnlyStamps(r.ctx, q.ctx, r.rest + piece, s, t);
    }
  }

  /** Pieces that arrive at times of their own. */
  function FeedTimed(r: Result, pieces: seq<Bytes>, times: seq<int>): Result
    requires |times| == |pieces|
    decreases |pieces|
  {
    if pieces == [] then r else FeedTimed(Feed(r, pieces[0], times[0]), pieces[1..], times[1..])
  }

  lemma {:induction false} TimedSame(r: Result, q: Result, pieces: seq<Bytes>, times: seq<int>, time: int)
    requires |times| == |pieces| && Timeless(r) == Timeless(q)
    ensures Timeless(FeedTimed(r, pieces, times)) == Timeless(FeedAll(q, pieces, time))
    decreases |pieces|
  {
    hide Feed, Timeless;
    if pieces != [] {
      FeedAnyTime(r, q, pieces[0], times[0], time);
      TimedSame(Feed(r, pieces[0], times[0]), Feed(q, pieces[0], time), pieces[1..], times[1..], time);
    }
  }

  /** A new connection's bytes, cut and timed in any way, give the result of all of them at once, but for
      the receive time. */
  lemma AnyArrival(pieces: seq<Bytes>, times: seq<int>, time: int)
    requires |times| == |pieces|
    ensures var start := Result(Context(ExpectRequestLine, EMPTY), true, []);
      Timeless(FeedTimed(start, pieces, times)) == Timeless(Feed(start, Lists.Concat(pieces), time))
  {
    var start := Result(Context(ExpectRequestLine, EMPTY), true, []);
    StartSettled(time);
    hide *;
    TimedSame(start, start, pieces, times, time);
    ChunkingIndependent(start, pieces, time);
  }

  // ---------------------------------------------------------------- rendered requests

  /** The bytes of a text in ASCII. */
  function Ascii(text: string): (r: Bytes)
    requires forall i :: 0 <= i < |text| ==> text[i] as int < 0x80
    ensures |r| == |text| && forall i :: 0 <= i < |text| ==> r[i] == text[i] as int
  {
    seq(|text|, i requires 0 <= i < |text| => text[i] as int)
  }

  const CRLF: Bytes := Ascii("\r\n")

  function MethodName(m: Method): Bytes {
    match m
    case Get => Ascii("GET")
    case Post => Ascii("POST")
    case Head => Ascii("HEAD")
    case Put => Ascii("PUT")
    case Delete => Ascii("DELETE")
    case Invalid => []
  }

  function VersionName(v: Version): Bytes {
    match v
    case Http10 => Ascii("HTTP/1.0")
    case Http11 => Ascii("HTTP/1.1")
    case Unknown => []
  }

  lemma NamesAre()
    ensures MethodName(Get) == GET && MethodName(Post) == POST && MethodName(Head) == HEAD && MethodName(Put) == PUT
    ensures MethodName(Delete) == DELETE && CRLF == [CR, LF] && Ascii(" ") == [SPACE] && Ascii(": ") == [COLON, SPACE]
    ensures VersionName(Http10) == HTTP1 + [48] && VersionName(Http11) == HTTP1 + [49]
  {}

  predicate Plain(s: Bytes) {
    CR !in s
  }

  /** The line does not contain the two bytes that end one. */
  predicate Unbroken(s: Bytes) {
    forall i :: 0 <= i < |s| - 1 ==> s[i] != CR || s[i + 1] != LF
  }

  /** Space, tabulators, line and page breaks. */
  predicate Blank(c: byte) {
    c in {9, 10, 11, 12, 13, 32}
  }

  predicate AllBlank(s: Bytes) {
    forall i :: 0 <= i < |s| ==> Blank(s[i])
  }

  /** A value without white space around it. */
  predicate Trimmed(v: Bytes) {
    v == [] || (!Blank(v[0]) && !Blank(v[|v| - 1]))
  }

  /** A header as a client writes it, with white space on both sides of the value. */
  datatype Header = Header(field: Bytes, before: Bytes, value: Bytes, after: Bytes)

  predicate ValidHeader(h: Header) {
    && Plain(h.field) && COLON !in h.field && Plain(h.value) && Trimmed(h.value)
    && Plain(h.before) && AllBlank(h.before) && Plain(h.after) && AllBlank(h.after)
  }

  function HeaderLine(h: Header): Bytes {
    h.field + Ascii(":") + (h.before + h.value + h.after)
  }

  function RenderHeaders(hs: seq<Header>): Bytes {
    if hs == [] then CRLF else HeaderLine(hs[0]) + CRLF + RenderHeaders(hs[1..])
  }

  /** The headers in order; a later field of the same name replaces an earlier one. */
  function Collected(r: Request, hs: seq<Header>): Request
    decreases |hs|
  {
    if hs == [] then r else Collected(r.(headers := r.headers[hs[0].field := hs[0].value]), hs[1..])
  }

  lemma {:induction false} FirstCrlf(line: Bytes, rest: Bytes)
    requires Unbroken(line)
    ensures FindCrlf(line + CRLF + rest) == |line|
  {
    var s := line + CRLF + rest;
    if line == [] {
      assert s[0] == CR && s[1] == LF;
    } else {
      assert s[0] == line[0] && s[1] == (line + CRLF)[1];
      assert s[1..] == line[1..] + CRLF + rest;
      FirstCrlf(line[1..], rest);
    }
  }

  lemma PlainUnbroken(s: Bytes)
    ensures Plain(s) ==> Unbroken(s)
  {}

  lemma {:induction false} NoCrlf(s: Bytes)
    requires Unbroken(s)
    ensures FindCrlf(s) == -1
  {
    if |s| >= 2 { NoCrlf(s[1..]); }
  }

  lemma FindIs(s: Bytes, c: byte, k: nat)
    requires k < |s| && s[k] == c && c !in s[..k]
    ensures Find(s, c) == k
  {
    var n := Find(s, c);
    hide Find;
    assert forall i :: 0 <= i < k ==> s[i] == s[..k][i];
  }

  lemma FindNone(s: Bytes, c: byte)
    requires c !in s
    ensures Find(s, c) == |s|
  {
    hide Find;
  }

  lemma {:induction false} TrimLeftBlank(w: Bytes, x: Bytes)
    requires AllBlank(w)
    ensures TrimLeft(w + x) == TrimLeft(x)
  {
    if w == [] {
      Lists.Empty(x);
    } else {
      Lists.JoinTail(w, x);
      TrimLeftBlank(w[1..], x);
    }
  }

  lemma {:induction false} TrimRightBlank(x: Bytes, w: Bytes)
    requires AllBlank(w)
    ensures TrimRight(x + w) == TrimRight(x)
    decreases |w|
  {
    if w == [] {
      Lists.Empty(x);
    } else {
      var n := |w| - 1;
      assert (x + w)[|x| + n] == w[n] && (x + w)[..|x| + n] == x + w[..n];
      TrimRightBlank(x, w[..n]);
    }
  }

  /** Trimming takes all white space around a value and nothing of the value. */
  lemma TrimValue(before: Bytes, v: Bytes, after: Bytes)
    requires AllBlank(before) && Trimmed(v) && AllBlank(after)
    ensures TrimRight(TrimLeft(before + v + after)) == v
  {
    Lists.Associative(before, v, after);
    TrimLeftBlank(before, v + after);
    if v == [] {
      Lists.Empty(after);
      TrimLeftBlank(after, []);
      Lists.Empty(after);
    } else {
      assert (v + after)[0] == v[0];
      TrimRightBlank(v, after);
    }
  }

  /** One header line is taken for its field and its value. */
  lemma HeaderParsed(r: Request, h: Header)
    requires ValidHeader(h)
    ensures Plain(HeaderLine(h)) && Find(HeaderLine(h), COLON) == |h.field| < |HeaderLine(h)|
    ensures AddHeader(r, HeaderLine(h), |h.field|) == r.(headers := r.headers[h.field := h.value])
  {
    var line, padded := HeaderLine(h), h.before + h.value + h.after;
    assert Ascii(":") == [COLON];
    Lists.CutAt(h.field, COLON, padded);
    FindIs(line, COLON, |h.field|);
    TrimValue(h.before, h.value, h.after);
    hide Find, TrimLeft, TrimRight;
  }

  lemma {:induction false} HeadersParsed(r: Request, hs: seq<Header>, rest: Bytes, time: int)
    requires forall i :: 0 <= i < |hs| ==> ValidHeader(hs[i])
    ensures Parse(Context(ExpectHeaders, r), RenderHeaders(hs) + rest, time) ==
            Result(Context(GotAll, Collected(r, hs)), true, rest)
    decreases |hs|
  {
    hide Find, FindCrlf, AddHeader, ValidHeader, HeaderLine;
    if hs == [] {
      EmptyPlain();
      FirstCrlf([], rest);
      FindNone([], COLON);
      assert [] + CRLF + rest == CRLF + rest;
      assert (CRLF + rest)[..0] == [] && (CRLF + rest)[2..] == rest;
    } else {
      var line, tail := HeaderLine(hs[0]), RenderHeaders(hs[1..]) + rest;
      var buf := RenderHeaders(hs) + rest;
      assert buf == line + CRLF + tail;
      HeaderParsed(r, hs[0]);
      PlainUnbroken(line);
      FirstCrlf(line, tail);
      assert buf[..|line|] == line && buf[|line| + 2..] == tail;
      HeadersParsed(r.(headers := r.headers[hs[0].field := hs[0].value]), hs[1..], rest, time);
    }
  }

  // ---------------------------------------------------------------- lines without a colon

  /** A block of header lines, the empty line that ends it, and what follows. */
  function Block(lines: seq<Bytes>, rest: Bytes): Bytes {
    if lines == [] then CRLF + rest else lines[0] + CRLF + Block(lines[1..], rest)
  }

  /** The first line without a colon, or the number of lines. */
  function FirstColonless(lines: seq<Bytes>): (n: nat)
    ensures n <= |lines| && (forall i :: 0 <= i < n ==> COLON in lines[i]) && (n < |lines| ==> COLON !in lines[n])
  {
    if lines == [] || COLON !in lines[0] then 0
    else
      var n := FirstColonless(lines[1..]);
      assert forall i :: 1 <= i < 1 + n ==> lines[i] == lines[1..][i - 1];
      1 + n
  }

  function AddLines(r: Request, lines: seq<Bytes>): Request
    requires forall i :: 0 <= i < |lines| ==> COLON in lines[i]
    decreases |lines|
  {
    if lines == [] then r
    else
      FindSome(lines[0], COLON);
      AddLines(AddHeader(r, lines[0], Find(lines[0], COLON)), lines[1..])
  }

  lemma FindSome(s: Bytes, c: byte)
    ensures Find(s, c) < |s| <==> c in s
  {
    hide Find;
  }

  /** One line of a block: a header is added, or the headers end with the rest of the block unread. */
  lemma LineTaken(r: Request, line: Bytes, tail: Bytes, time: int)
    requires Unbroken(line)
    ensures Parse(Context(ExpectHeaders, r), line + CRLF + tail, time) ==
      if COLON in line then Parse(Context(ExpectHeaders, AddHeader(r, line, Find(line, COLON))), tail, time)
      else Result(Context(GotAll, r), true, tail)
  {
    hide Find, FindCrlf, AddHeader, Unbroken;
    FirstCrlf(line, tail);
    FindSome(line, COLON);
    var buf := line + CRLF + tail;
    assert buf[..|line|] == line && buf[|line| + 2..] == tail;
  }

  /** Where a block of header lines ends for the parser: after its first line without a colon, or after
      the empty line if there is none. The fields of the lines before that are taken. */
  lemma {:induction false} BlockParsed(r: Request, lines: seq<Bytes>, rest: Bytes, time: int)
    requires forall i :: 0 <= i < |lines| ==> Unbroken(lines[i])
    ensures var n := FirstColonless(lines);
      Parse(Context(ExpectHeaders, r), Block(lines, rest), time) ==
      Result(Context(GotAll, AddLines(r, lines[..n])), true, if n < |lines| then Block(lines[n + 1..], rest) else rest)
    decreases |lines|
  {
    hide Find, FindCrlf, AddHeader, Unbroken, Parse;
    if lines == [] {
      Lists.Empty(CRLF);
      assert Unbroken([]) by { EmptyPlain(); }
      LineTaken(r, [], rest, time);
    } else {
      LineTaken(r, lines[0], Block(lines[1..], rest), time);
      if COLON in lines[0] {
        FindSome(lines[0], COLON);
        BlockParsed(AddHeader(r, lines[0], Find(lines[0], COLON)), lines[1..], rest, time);
        var n := FirstColonless(lines[1..]);
        assert lines[..1 + n][0] == lines[0] && lines[..1 + n][1..] == lines[1..][..n];
        assert n < |lines| - 1 ==> lines[1..][n + 1..] == lines[1 + n + 1..];
      }
    }
  }

  lemma EmptyPlain()
    ensures Plain([]) && Unbroken([])
  {}

  lemma {:induction false} BlockLonger(lines: seq<Bytes>, rest: Bytes)
    ensures |Block(lines, rest)| > |rest|
    decreases |lines|
  {
    if lines != [] { BlockLonger(lines[1..], rest); }
  }

  /** The headers end at the empty line, with exactly what follows it left in the buffer, if and only if
      every line before it has a colon. */
  lemma HeadersEndExactly(r: Request, lines: seq<Bytes>, rest: Bytes, time: int)
    requires forall i :: 0 <= i < |lines| ==> Unbroken(lines[i])
    ensures Parse(Context(ExpectHeaders, r), Block(lines, rest), time).rest == rest
            <==> forall i :: 0 <= i < |lines| ==> COLON in lines[i]
  {
    hide Parse, Unbroken, Block, AddLines;
    BlockParsed(r, lines, rest, time);
    var n := FirstColonless(lines);
    hide FirstColonless;
    if n < |lines| { BlockLonger(lines[n + 1..], rest); }
  }

  /** A field after a line without a colon is lost, and is left in the buffer as if it followed the request. */
  lemma FieldLost(time: int)
    ensures Parse(Context(ExpectHeaders, EMPTY), [65] + CRLF + ([66, COLON, 67] + CRLF + CRLF), time) ==
            Result(Context(GotAll, EMPTY), true, [66, COLON, 67] + CRLF + CRLF)
  {
    LineTaken(EMPTY, [65], [66, COLON, 67] + CRLF + CRLF, time);
    hide Parse;
  }

  // ---------------------------------------------------------------- whole requests

  /** A request as a client writes it; a query begins with its question mark. */
  datatype Line = Line(mthd: Method, path: Bytes, query: Bytes, version: Version)

  predicate ValidLine(l: Line) {
    && l.mthd != Invalid && l.version != Unknown
    && Plain(l.path) && SPACE !in l.path && QUESTION !in l.path
    && Plain(l.query) && SPACE !in l.query && (l.query != [] ==> l.query[0] == QUESTION)
  }

  function RenderLine(l: Line): Bytes {
    MethodName(l.mthd) + Ascii(" ") + (l.path + l.query + Ascii(" ") + VersionName(l.version))
  }

  function Filled(l: Line): Request {
    Request(l.mthd, l.version, l.path, l.query, 0, map[])
  }

  /** The method's name is read as the method. */
  lemma MethodRead(m: Method)
    ensures MethodOf(MethodName(m)) == m && Plain(MethodName(m)) && SPACE !in MethodName(m)
  {
    NamesAre();
  }

  /** And nothing else is read as one. */
  lemma MethodUnderstood(word: Bytes)
    ensures MethodOf(word) != Invalid ==> word == MethodName(MethodOf(word))
  {
    NamesAre();
  }

  lemma VersionRead(r: Request, v: Version)
    requires v != Unknown
    ensures WithVersion(r, VersionName(v)) == (true, r.(version := v)) && Plain(VersionName(v))
  {
    NamesAre();
    Lists.Cut(HTTP1, [48]);
    Lists.Cut(HTTP1, [49]);
  }

  lemma VersionUnderstood(r: Request, word: Bytes) returns (v: Version)
    requires WithVersion(r, word).0
    ensures v != Unknown && word == VersionName(v)
  {
    NamesAre();
    v := if word[7] == 49 then Http11 else Http10;
    Lists.SplitAt(word, 7);
    assert word[8..] == [];
    Lists.Empty([word[7]]);
  }

  // ---------------------------------------------------------------- the request line

  /** A method, a space, a target without one, a space, and a version. */
  predicate IsLine(line: Bytes, m: Method, target: Bytes, v: Version) {
    && m != Invalid && v != Unknown && SPACE !in target
    && line == MethodName(m) + Ascii(" ") + (target + Ascii(" ") + VersionName(v))
  }

  lemma RequestLineIs(r: Request, line: Bytes)
    ensures var space := Find(line, SPACE);
      RequestLine(r, line) == if space == |line| then (false, r)
                              else if MethodOf(line[..space]) == Invalid then (false, r.(mthd := Invalid))
                              else AfterMethod(r.(mthd := MethodOf(line[..space])), line[space + 1..])
  {
    hide Find, MethodOf, AfterMethod;
  }

  lemma AfterMethodIs(m: Request, rest: Bytes)
    ensures var end := Find(rest, SPACE);
      AfterMethod(m, rest) == if end == |rest| then (false, m)
          else WithVersion(WithTarget(m, rest[..end]), rest[end + 1..])
  {
    hide WithTarget, WithVersion, Find;
  }

  /** The first space of a text that begins with a word and one. */
  lemma WordCut(s: Bytes, word: Bytes, rest: Bytes)
    requires s == word + Ascii(" ") + rest && SPACE !in word
    ensures Find(s, SPACE) == |word| < |s| && s[..|word|] == word && s[|word| + 1..] == rest
  {
    hide Find, Ascii;
    assert Ascii(" ") == [SPACE];
    Lists.CutAt(word, SPACE, rest);
    FindIs(s, SPACE, |word|);
  }

  lemma LineCut(line: Bytes, m: Method, target: Bytes, v: Version)
    requires IsLine(line, m, target, v)
    ensures var n, rest := |MethodName(m)|, target + Ascii(" ") + VersionName(v);
      && Find(line, SPACE) == n < |line| && line[..n] == MethodName(m) && line[n + 1..] == rest
      && Find(rest, SPACE) == |target| < |rest| && rest[..|target|] == target
      && rest[|target| + 1..] == VersionName(v)
  {
    hide *;
    IsLineIs(line, m, target, v);
    MethodRead(m);
    WordCut(line, MethodName(m), target + Ascii(" ") + VersionName(v));
    WordCut(target + Ascii(" ") + VersionName(v), target, VersionName(v));
  }

  /** Such a line is accepted, and the request gets its method, its version, and the target, cut at the
      first question mark. */
  lemma LineAccepted(r: Request, line: Bytes, m: Method, target: Bytes, v: Version)
    requires IsLine(line, m, target, v)
    ensures var (ok, q) := RequestLine(r, line);
      && ok && q == r.(mthd := m, version := v, path := q.path, query := q.query)
      && (QUESTION !in target ==> q.path == target && q.query == r.query)
      && (QUESTION in target ==>
            q.path + q.query == target && QUESTION !in q.path && q.query != [] && q.query[0] == QUESTION)
  {
    hide *;
    IsLineIs(line, m, target, v);
    LineCut(line, m, target, v);
    MethodRead(m);
    RequestLineIs(r, line);
    AfterMethodIs(r.(mthd := m), target + Ascii(" ") + VersionName(v));
    TargetCut(r.(mthd := m), target);
    VersionRead(WithTarget(r.(mthd := m), target), v);
  }

  /** A target is cut at its first question mark. */
  lemma TargetCut(r: Request, target: Bytes)
    ensures var q := WithTarget(r, target);
      && q == r.(path := q.path, query := q.query)
      && (QUESTION !in target ==> q.path == target && q.query == r.query)
      && (QUESTION in target ==>
            q.path + q.query == target && QUESTION !in q.path && q.query != [] && q.query[0] == QUESTION)
  {
    var k := Find(target, QUESTION);
    FindSome(target, QUESTION);
    hide Find;
    if k < |target| {
      Lists.Halves(target, k);
      Lists.SplitAt(target, k);
    }
  }

  lemma LineShape(r: Request, line: Bytes) returns (rest: Bytes, w: Request)
    requires RequestLine(r, line).0
    ensures var space, end := Find(line, SPACE), Find(rest, SPACE);
      && space < |line| && rest == line[space + 1..] && MethodOf(line[..space]) != Invalid
      && end < |rest| && WithVersion(w, rest[end + 1..]).0
  {
    hide Find, MethodOf, WithVersion, WithTarget;
    rest := line[Find(line, SPACE) + 1..];
    w := WithTarget(r.(mthd := MethodOf(line[..Find(line, SPACE)])), rest[..Find(rest, SPACE)]);
  }

  /** What stands before the first space and after it. */
  lemma AtSpace(s: Bytes)
    requires Find(s, SPACE) < |s|
    ensures var k := Find(s, SPACE); s == s[..k] + Ascii(" ") + s[k + 1..] && SPACE !in s[..k]
  {
    var k := Find(s, SPACE);
    hide Find;
    assert Ascii(" ") == [SPACE];
    Lists.SplitAt(s, k);
    Lists.Associative(s[..k], [SPACE], s[k + 1..]);
  }

  lemma LineUnderstood(r: Request, line: Bytes) returns (m: Method, target: Bytes, v: Version)
    requires RequestLine(r, line).0
    ensures IsLine(line, m, target, v)
  {
    hide *;
    var rest, w := LineShape(r, line);
    var space, end := Find(line, SPACE), Find(rest, SPACE);
    MethodUnderstood(line[..space]);
    AtSpace(line);
    AtSpace(rest);
    m, target := MethodOf(line[..space]), rest[..end];
    v := VersionUnderstood(w, rest[end + 1..]);
    IsLineIs(line, m, target, v);
  }

  lemma IsLineIs(line: Bytes, m: Method, target: Bytes, v: Version)
    ensures IsLine(line, m, target, v) <==>
      && m != Invalid && v != Unknown && SPACE !in target
      && line == MethodName(m) + Ascii(" ") + (target + Ascii(" ") + VersionName(v))
  {
    hide MethodName, VersionName, Ascii;
  }

  /** A request line is accepted if and only if it is one of the five methods, a space, a target without a
      space, a space, and HTTP/1.0 or HTTP/1.1. */
  lemma LineExactly(r: Request, line: Bytes)
    ensures RequestLine(r, line).0 <==> exists m, target, v :: IsLine(line, m, target, v)
  {
    hide RequestLine, IsLine;
    if RequestLine(r, line).0 {
      var m, target, v := LineUnderstood(r, line);
    }
    forall m, target, v | IsLine(line, m, target, v) ensures RequestLine(r, line).0 {
      LineAccepted(r, line, m, target, v);
    }
  }

  predicate NoMethod(word: Bytes) {
    forall m :: m != Invalid ==> word != MethodName(m)
  }

  predicate NoVersion(word: Bytes) {
    forall v :: v != Unknown ==> word != VersionName(v)
  }

  /** A refused line leaves in the request what was read before the fault: nothing without a space, the invalid
      method for an unknown word. */
  lemma WordRefused(r: Request, word: Bytes, rest: Bytes)
    requires SPACE !in word
    ensures RequestLine(r, word) == (false, r)
    ensures NoMethod(word) ==> RequestLine(r, word + Ascii(" ") + rest) == (false, r.(mthd := Invalid))
  {
    MethodUnderstood(word);
    hide *;
    FindNone(word, SPACE);
    WordCut(word + Ascii(" ") + rest, word, rest);
    RequestLineIs(r, word);
    RequestLineIs(r, word + Ascii(" ") + rest);
    NoMethodIs(word);
  }

  lemma NoMethodIs(word: Bytes)
    ensures NoMethod(word) && MethodOf(word) != Invalid ==> word != MethodName(MethodOf(word))
  {
    hide MethodOf, MethodName;
  }

  /** The method when the target does not end, and also the target when the version is unknown. */
  lemma TargetRefused(r: Request, m: Method, target: Bytes, version: Bytes)
    requires SPACE !in target && m != Invalid
    ensures RequestLine(r, MethodName(m) + Ascii(" ") + target) == (false, r.(mthd := m))
    ensures NoVersion(version) ==>
      RequestLine(r, MethodName(m) + Ascii(" ") + (target + Ascii(" ") + version)) ==
      (false, WithTarget(r.(mthd := m), target))
  {
    hide *;
    AfterName(r, m, target);
    FindNone(target, SPACE);
    AfterMethodIs(r.(mthd := m), target);
    var rest := target + Ascii(" ") + version;
    AfterName(r, m, rest);
    WordCut(rest, target, version);
    AfterMethodIs(r.(mthd := m), rest);
    VersionRefused(WithTarget(r.(mthd := m), target), version);
  }

  lemma AfterName(r: Request, m: Method, rest: Bytes)
    requires m != Invalid
    ensures RequestLine(r, MethodName(m) + Ascii(" ") + rest) == AfterMethod(r.(mthd := m), rest)
  {
    hide *;
    MethodRead(m);
    WordCut(MethodName(m) + Ascii(" ") + rest, MethodName(m), rest);
    RequestLineIs(r, MethodName(m) + Ascii(" ") + rest);
  }

  lemma VersionRefused(r: Request, version: Bytes)
    ensures NoVersion(version) ==> WithVersion(r, version) == (false, r)
  {
    if WithVersion(r, version).0 { var v := VersionUnderstood(r, version); }
    hide VersionName;
  }

  /** While no line has ended, parsing waits for more. */
  lemma Waits(ctx: Context, buf: Bytes, time: int)
    requires ctx.stage != GotAll && Unbroken(buf)
    ensures Parse(ctx, buf, time) == Result(ctx, true, buf)
  {
    NoCrlf(buf);
    hide FindCrlf, RequestLine, Find, AddHeader, Unbroken;
  }

  /** Once the request line has ended, parsing fails if and only if it is not acceptable, and then takes
      nothing from the buffer. */
  lemma RefusedExactly(r: Request, line: Bytes, rest: Bytes, time: int)
    requires Unbroken(line)
    ensures var p := Parse(Context(ExpectRequestLine, r), line + CRLF + rest, time);
      && (p.ok <==> exists m, target, v :: IsLine(line, m, target, v))
      && (!p.ok ==> p.ctx == Context(ExpectRequestLine, RequestLine(r, line).1) && p.rest == line + CRLF + rest)
  {
    LineExactly(r, line);
    FirstCrlf(line, rest);
    var buf := line + CRLF + rest;
    assert buf[..|line|] == line && buf[|line| + 2..] == rest;
    hide FindCrlf, RequestLine, Find, AddHeader, Unbroken, IsLine;
    var (ok, q) := RequestLine(r, line);
    if ok { HeadersNeverFail(Context(ExpectHeaders, q.(receiveTime := time)), rest, time); }
  }

  lemma {:induction false} HeadersNeverFail(ctx: Context, buf: Bytes, time: int)
    requires ctx.stage == ExpectHeaders
    ensures Parse(ctx, buf, time).ok
    decreases |buf|
  {
    hide FindCrlf, RequestLine, Find, AddHeader;
    var k := FindCrlf(buf);
    if k >= 0 {
      var colon := Find(buf[..k], COLON);
      if colon < k { HeadersNeverFail(ctx.(request := AddHeader(ctx.request, buf[..k], colon)), buf[k + 2..], time); }
    }
  }

  lemma LineParsed(l: Line)
    requires ValidLine(l)
    ensures Plain(RenderLine(l)) && RequestLine(EMPTY, RenderLine(l)) == (true, Filled(l))
  {
    var target := l.path + l.query;
    MethodRead(l.mthd);
    VersionRead(EMPTY, l.version);
    assert Plain(RenderLine(l)) && SPACE !in target by { hide MethodName, VersionName; assert Plain(Ascii(" ")); }
    assert IsLine(RenderLine(l), l.mthd, target, l.version);
    LineAccepted(EMPTY, RenderLine(l), l.mthd, target, l.version);
    hide RequestLine, RenderLine, IsLine, MethodName, VersionName, Plain;
    TargetSplit(l, RequestLine(EMPTY, RenderLine(l)).1.path, RequestLine(EMPTY, RenderLine(l)).1.query);
  }

  /** A target is cut at its first question mark in only one way. */
  lemma TargetSplit(l: Line, path: Bytes, query: Bytes)
    requires ValidLine(l) && (QUESTION !in l.path + l.query ==> path == l.path + l.query && query == [])
    requires QUESTION in l.path + l.query ==>
      path + query == l.path + l.query && QUESTION !in path && query != [] && query[0] == QUESTION
    ensures path == l.path && query == l.query
  {
    var target := l.path + l.query;
    Lists.Cut(l.path, l.query);
    Lists.Cut(path, query);
    hide Find;
    if l.query == [] {
      Lists.Empty(l.path);
    } else {
      assert target[|l.path|] == QUESTION;
      assert (path + query)[|path|] == QUESTION;
      FindIs(target, QUESTION, |l.path|);
      FindIs(target, QUESTION, |path|);
    }
  }

  /** A well-formed request is parsed to exactly its method, target, version and headers, whatever
      follows it, and what follows is left in the buffer. */
  lemma RequestParsed(l: Line, hs: seq<Header>, rest: Bytes, time: int)
    requires ValidLine(l) && forall i :: 0 <= i < |hs| ==> ValidHeader(hs[i])
    ensures Parse(Context(ExpectRequestLine, EMPTY), RenderLine(l) + CRLF + RenderHeaders(hs) + rest, time) ==
            Result(Context(GotAll, Collected(Filled(l).(receiveTime := time), hs)), true, rest)
  {
    hide Find, FindCrlf, RequestLine, ValidHeader, ValidLine, RenderLine, RenderHeaders, Collected;
    var line, tail := RenderLine(l), RenderHeaders(hs) + rest;
    var buf := line + CRLF + RenderHeaders(hs) + rest;
    assert buf == line + CRLF + tail;
    LineParsed(l);
    PlainUnbroken(line);
    FirstCrlf(line, tail);
    assert buf[..|line|] == line && buf[|line| + 2..] == tail;
    HeadersParsed(Filled(l).(receiveTime := time), hs, rest, time);
  }
}
