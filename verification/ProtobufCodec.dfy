/** The message codec in place: it fills an empty buffer with one frame, and consumes the input buffer of
    a connection frame by frame. */
module ProtobufCodec {
  import opened Serial
  import opened Framing
  import Buffer
  import Lists

  class ProtobufCodec<M> {
    const codec: Codec<M>
    /** What the message callback and the error callback were given. */
    var delivered: seq<M>
    var errors: seq<Error>

    constructor (c: Codec<M>)
      ensures codec == c && delivered == [] && errors == []
    {
      codec, delivered, errors := c, [], [];
    }

    /** Appends the tag, the payload and the checksum, and puts the length in front. */
    method FillEmptyBuffer(buf: Buffer.Buffer, payload: Bytes)
      requires buf.Valid() && buf.Contents() == [] && buf.readerIndex >= HEADER
      modifies buf
      ensures buf.Valid() && buf.Contents() == Frame(codec, payload)
    {
      hide Encode32;
      buf.Append(codec.tag);
      buf.Append(payload);
      var checkSum := codec.checksum(buf.Contents());
      buf.Append(Encode32(checkSum));
      assert buf.Contents() == Body(codec, payload) by { Lists.Empty(codec.tag); }
      buf.Prepend(Encode32(Wrap(buf.ReadableBytes())));
    }

    /** A complete frame at the head: refused unread, delivered, or an error, which leaves it there. */
    method TakeFrame(buf: Buffer.Buffer, len: nat) returns (ok: bool)
      requires buf.Valid() && Complete(codec, buf.Contents()) && len == Length(buf.Contents())
      modifies this, buf
      ensures buf.Valid()
      ensures var before := old(buf.Contents());
        var raw, parsed := codec.raw(First(before)), ParseBody(codec, First(before)[HEADER..]);
        && (ok <==> !raw || parsed.Good?)
        && buf.Contents() == (if ok then Rest(before) else before)
        && delivered == old(delivered) + (if raw && parsed.Good? then [parsed.message] else [])
        && errors == old(errors) + (if ok then [] else [parsed.error])
    {
      hide ParseBody, Length, Complete;
      var frame := buf.Contents()[..HEADER + len];
      ok := true;
      if !codec.raw(frame) {
        buf.Retrieve(HEADER + len);
      } else {
        var parsed := ParseBody(codec, frame[HEADER..]);
        if parsed.Good? {
          delivered := delivered + [parsed.message];
          buf.Retrieve(HEADER + len);
        } else {
          errors := errors + [parsed.error];
          ok := false;
        }
      }
    }

    method OnMessage(buf: Buffer.Buffer)
      requires buf.Valid()
      modifies this, buf
      ensures buf.Valid()
      ensures var r := Decode(codec, old(buf.Contents()));
        && delivered == old(delivered) + r.messages && buf.Contents() == r.rest
        && errors == old(errors) + if r.error == NoError then [] else [r.error]
    {
      hide Decode, ParseBody, ToI32, Decode32, Complete, TooLong, First, Rest, Length;
      ghost var r := Decode(codec, buf.Contents());
      while buf.ReadableBytes() >= MinMessage(codec) + HEADER
        invariant buf.Valid() && errors == old(errors)
        invariant var now := Decode(codec, buf.Contents());
          delivered + now.messages == old(delivered) + r.messages && now.error == r.error && now.rest == r.rest
        decreases buf.ReadableBytes()
      {
        DecodeIs(codec, buf.Contents());
        HeadIs(codec, buf.Contents());
        var len := ToI32(Decode32(buf.Contents()));
        if len > MAX_MESSAGE || len < MinMessage(codec) {
          errors := errors + [InvalidLength];
          return;
        } else if buf.ReadableBytes() >= HEADER + len {
          ghost var more := Decode(codec, Rest(buf.Contents())).messages;
          ghost var before := delivered;
          var ok := TakeFrame(buf, len);
          if !ok { return; }
          Lists.Associative(before, delivered[|before|..], more);
        } else {
          return;
        }
      }
      DecodeIs(codec, buf.Contents());
      TooShort(codec, buf.Contents());
    }
  }

  lemma TooShort<M>(c: Codec<M>, buf: Bytes)
    requires |buf| < MinMessage(c) + HEADER
    ensures !TooLong(c, buf) && !Complete(c, buf)
  {
    hide Length;
  }

  /** The head of the buffer, as the decoding loop looks at it. */
  lemma HeadIs<M>(c: Codec<M>, buf: Bytes)
    requires |buf| >= MinMessage(c) + HEADER
    ensures var len := ToI32(Decode32(buf));
      && (TooLong(c, buf) <==> len > MAX_MESSAGE || len < MinMessage(c))
      && (Complete(c, buf) <==> MinMessage(c) <= len <= MAX_MESSAGE && |buf| >= HEADER + len)
      && len == Length(buf)
  {
    hide ToI32, Decode32;
  }
}
