/** The request parser in place: it consumes the connection's input buffer and fills the request. */
module HttpContext {
  import opened Http
  import Buffer
  import Lists

  class HttpContext {
    var state: Stage
    var request: Request

    function Current(): Context
      reads this
    {
      Context(state, request)
    }

    constructor ()
      ensures Current() == Context(ExpectRequestLine, EMPTY)
    {
      state, request := ExpectRequestLine, EMPTY;
    }

    method Reset()
      modifies this
      ensures Current() == Context(ExpectRequestLine, EMPTY)
    {
      state, request := ExpectRequestLine, EMPTY;
    }

    /** The path and the query between the two spaces of a request line. */
    method SetTarget(target: Bytes)
      modifies this`request
      ensures request == WithTarget(old(request), target)
    {
      var question := Find(target, QUESTION);
      if question != |target| {
        request := request.(path := target[..question]);
        request := request.(query := target[question..]);
      } else {
        request := request.(path := target);
      }
    }

    method SetVersion(version: Bytes) returns (succeed: bool)
      modifies this`request
      ensures (succeed, request) == WithVersion(old(request), version)
    {
      succeed := |version| == 8 && version[..7] == HTTP1;
      if succeed {
        if version[7] == 49 {
          request := request.(version := Http11);
        } else if version[7] == 48 {
          request := request.(version := Http10);
        } else {
          succeed := false;
        }
      }
    }

    method ProcessRequestLine(line: Bytes) returns (succeed: bool)
      modifies this`request
      ensures (succeed, request) == RequestLine(old(request), line)
    {
      hide Find, WithTarget, WithVersion, MethodOf;
      succeed := false;
      var space := Find(line, SPACE);
      if space != |line| {
        request := request.(mthd := MethodOf(line[..space]));
        if request.mthd != Invalid {
          var rest := line[space + 1..];
          var end := Find(rest, SPACE);
          if end != |rest| {
            SetTarget(rest[..end]);
            succeed := SetVersion(rest[end + 1..]);
          }
        }
      }
    }

    method AddHeader(line: Bytes, colon: nat)
      requires colon < |line|
      modifies this`request
      ensures request == Http.AddHeader(old(request), line, colon)
    {
      hide TrimLeft, TrimRight;
      var field := line[..colon];
      var start := colon + 1;
      while start < |line| && IsSpace(line[start])
        invariant colon < start <= |line| && request == old(request)
        invariant TrimLeft(line[start..]) == TrimLeft(line[colon + 1..])
      {
        TrimLeftStep(line[start..]);
        Lists.SplitAt(line, start);
        start := start + 1;
      }
      if start < |line| { Lists.SplitAt(line, start); }
      TrimLeftStep(line[start..]);
      var value := line[start..];
      ghost var untrimmed := value;
      while value != [] && IsSpace(value[|value| - 1])
        invariant TrimRight(value) == TrimRight(untrimmed) && request == old(request)
      {
        TrimRightStep(value);
        value := value[..|value| - 1];
      }
      TrimRightStep(value);
      request := request.(headers := request.headers[field := value]);
    }

    /** Parses what the buffer holds; false on an error. The caller resets a context that got all. */
    method ParseRequest(buf: Buffer.Buffer, receiveTime: int) returns (ok: bool)
      requires buf.Valid() && state != GotAll
      modifies this, buf
      ensures buf.Valid() && Result(Current(), ok, buf.Contents()) ==
          Parse(old(Current()), old(buf.Contents()), receiveTime)
    {
      hide RequestLine, Http.AddHeader, Find, Http.FindCrlf, Parse;
      ghost var whole := Parse(Current(), buf.Contents(), receiveTime);
      ok := true;
      var hasMore := true;
      while hasMore
        invariant buf.Valid()
        invariant hasMore ==> ok && state != GotAll && Parse(Current(), buf.Contents(), receiveTime) == whole
        invariant !hasMore ==> Result(Current(), ok, buf.Contents()) == whole
        decreases buf.ReadableBytes() + if hasMore then 1 else 0
      {
        ParseStep(Current(), buf.Contents(), receiveTime);
        var crlf := SearchCrlf(buf.Contents());
        if crlf < 0 {
          hasMore := false;
        } else {
          var line := buf.Contents()[..crlf];
          if state == ExpectRequestLine {
            ok := ProcessRequestLine(line);
            if ok {
              request := request.(receiveTime := receiveTime);
              buf.Retrieve(crlf + 2);
              state := ExpectHeaders;
            } else {
              hasMore := false;
            }
          } else {
            var colon := Find(line, COLON);
            if colon != crlf {
              AddHeader(line, colon);
            } else {
              state := GotAll;
              hasMore := false;
            }
            buf.Retrieve(crlf + 2);
          }
        }
      }
    }
  }

  /** The position of the first CRLF, or -1. */
  method SearchCrlf(s: Bytes) returns (k: int)
    ensures k == Http.FindCrlf(s)
  {
    hide Http.FindCrlf;
    k := 0;
    assert s[0..] == s;
    while k + 1 < |s|
      invariant 0 <= k && (k <= |s|)
      invariant Http.FindCrlf(s) == var n := Http.FindCrlf(s[k..]); if n < 0 then -1 else k + n
    {
      CrlfStep(s[k..]);
      Lists.SplitAt(s, k);
      if s[k] == CR && s[k + 1] == LF { return; }
      k := k + 1;
    }
    CrlfStep(s[k..]);
    k := -1;
  }

  lemma CrlfStep(s: Bytes)
    ensures Http.FindCrlf(s) ==
      if |s| < 2 then -1 else if s[0] == CR && s[1] == LF then 0
      else var n := Http.FindCrlf(s[1..]); if n < 0 then -1 else 1 + n
  {}

  lemma TrimLeftStep(s: Bytes)
    ensures TrimLeft(s) == if s != [] && IsSpace(s[0]) then TrimLeft(s[1..]) else s
  {}

  lemma TrimRightStep(s: Bytes)
    ensures TrimRight(s) == if s != [] && IsSpace(s[|s| - 1]) then TrimRight(s[..|s| - 1]) else s
  {}

  /** One line. */
  lemma ParseStep(ctx: Context, buf: Bytes, time: int)
    requires ctx.stage != GotAll
    ensures Http.FindCrlf(buf) >= 0 ==>
      var k := Http.FindCrlf(buf);
      var line, rest := buf[..k], buf[k + 2..];
      var (ok, r) := RequestLine(ctx.request, line);
      var colon := Find(line, COLON);
      && (ctx.stage == ExpectRequestLine ==>
            Parse(ctx, buf, time) == if !ok then Result(ctx.(request := r), false, buf)
                                     else Parse(Context(ExpectHeaders, r.(receiveTime := time)), rest, time))
      && (ctx.stage == ExpectHeaders ==>
            Parse(ctx, buf, time) == if colon < k then
                                       Parse(ctx.(request := Http.AddHeader(ctx.request, line, colon)), rest, time)
                                     else Result(ctx.(stage := GotAll), true, rest))
    ensures Http.FindCrlf(buf) < 0 ==> Parse(ctx, buf, time) == Result(ctx, true, buf)
  {
    hide RequestLine, Http.AddHeader, Find, Http.FindCrlf;
  }
}
