/** The datagram format: 24-byte little-endian headers, each followed by its payload. */
module Wire {
  import opened Serial

  const OVERHEAD: nat := 24
  const CMD_PUSH: byte := 81
  const CMD_ACK: byte := 82
  const CMD_WASK: byte := 83
  const CMD_WINS: byte := 84

  /** One segment as it stands on the wire; the length field is `|data|`. */
  datatype WireSeg = WireSeg(conv: u32, cmd: byte, frg: byte, wnd: u16, ts: u32, sn: u32, una: u32,
                             data: seq<byte>)

  predicate ValidCmd(cmd: byte) {
    cmd == CMD_PUSH || cmd == CMD_ACK || cmd == CMD_WASK || cmd == CMD_WINS
  }

  function Encode16(w: u16): (r: seq<byte>)
    ensures |r| == 2
  {
    [w % 256, w / 256]
  }

  function Decode16(p: seq<byte>): u16
    requires |p| >= 2
  {
    var a: int, b: int := p[0], p[1];
    a + 256 * b
  }

  function Encode32(l: u32): (r: seq<byte>)
    ensures |r| == 4
  {
    [l % 256, l / 256 % 256, l / 65536 % 256, l / 16777216]
  }

  function Decode32(p: seq<byte>): u32
    requires |p| >= 4
  {
    var a: int, b: int, c: int, d: int := p[0], p[1], p[2], p[3];
    a + 256 * b + 65536 * c + 16777216 * d
  }

  lemma RoundTrip16(w: u16, rest: seq<byte>)
    ensures Decode16(Encode16(w) + rest) == w
  {}

  lemma Digits(l: u32)
    ensures l == l % 256 + 256 * (l / 256 % 256) + 65536 * (l / 65536 % 256) + 16777216 * (l / 16777216)
  {
    var a: int := l / 256;
    var b := a / 256;
    var c := b / 256;
    assert l / 65536 == b && l / 16777216 == c;
    assert l == 256 * a + l % 256 && a == 256 * b + a % 256 && b == 256 * c + b % 256;
  }

  lemma RoundTrip32(l: u32, rest: seq<byte>)
    ensures Decode32(Encode32(l) + rest) == l
  {
    Digits(l);
    var p, e := Encode32(l) + rest, Encode32(l);
    assert p[0] == e[0] && p[1] == e[1] && p[2] == e[2] && p[3] == e[3];
  }

  lemma Canonical16(p: seq<byte>)
    requires |p| == 2
    ensures Encode16(Decode16(p)) == p
  {}

  lemma Canonical32(p: seq<byte>)
    requires |p| == 4
    ensures Encode32(Decode32(p)) == p
  {
    DigitsOf(p[0], p[1], p[2], p[3]);
  }

  datatype Header = Header(conv: u32, cmd: byte, frg: byte, wnd: u16, ts: u32, sn: u32, una: u32, len: u32)

  function EncodeHeader(h: Header): (r: seq<byte>)
    ensures |r| == OVERHEAD
  {
    Encode32(h.conv) + [h.cmd, h.frg] + Encode16(h.wnd) + Encode32(h.ts) + Encode32(h.sn)
    + Encode32(h.una) + Encode32(h.len)
  }

  function DecodeHeader(p: seq<byte>): Header
    requires |p| >= OVERHEAD
  {
    Header(Decode32(p), p[4], p[5], Decode16(p[6..]), Decode32(p[8..]), Decode32(p[12..]),
           Decode32(p[16..]), Decode32(p[20..]))
  }

  /** Two and four bytes, the lowest first. */
  predicate Little16(p: seq<byte>, v: int) {
    |p| == 2 && (p[0] as int) + 256 * (p[1] as int) == v
  }

  predicate Little32(p: seq<byte>, v: int) {
    |p| == 4 && (p[0] as int) + 256 * (p[1] as int) + 65536 * (p[2] as int) + 16777216 * (p[3] as int) == v
  }

  /** Where each field stands in the 24 bytes of a header, lowest byte first. */
  lemma HeaderLayout(h: Header)
    ensures var p := EncodeHeader(h);
      && |p| == 24 && Little32(p[..4], h.conv) && p[4] == h.cmd && p[5] == h.frg && Little16(p[6..8], h.wnd)
      && Little32(p[8..12], h.ts) && Little32(p[12..16], h.sn) && Little32(p[16..20], h.una)
      && Little32(p[20..24], h.len)
  {
    EncodedLittle(h.conv); EncodedLittle(h.ts); EncodedLittle(h.sn); EncodedLittle(h.una); EncodedLittle(h.len);
    assert Little16(Encode16(h.wnd), h.wnd);
    hide Encode32, Encode16, Little32, Little16;
    var p := EncodeHeader(h);
    assert p[..4] == Encode32(h.conv) && p[6..8] == Encode16(h.wnd) && p[8..12] == Encode32(h.ts);
    assert p[12..16] == Encode32(h.sn) && p[16..20] == Encode32(h.una) && p[20..24] == Encode32(h.len);
  }

  lemma EncodedLittle(l: u32)
    ensures Little32(Encode32(l), l)
  {
    Digits(l);
  }

  lemma HeaderRoundTrip(h: Header, rest: seq<byte>)
    ensures DecodeHeader(EncodeHeader(h) + rest) == h
  {
    var p := EncodeHeader(h) + rest;
    assert p[..4] == Encode32(h.conv) && p[6..8] == Encode16(h.wnd) && p[8..12] == Encode32(h.ts);
    assert p[12..16] == Encode32(h.sn) && p[16..20] == Encode32(h.una) && p[20..24] == Encode32(h.len);
    RoundTrip32(h.conv, []); RoundTrip16(h.wnd, []); RoundTrip32(h.ts, []);
    RoundTrip32(h.sn, []); RoundTrip32(h.una, []); RoundTrip32(h.len, []);
    assert p[6..][..2] == p[6..8] && p[8..][..4] == p[8..12] && p[12..][..4] == p[12..16];
    assert p[16..][..4] == p[16..20] && p[20..][..4] == p[20..24];
    Prefix32(p); Prefix32(p[8..]); Prefix32(p[12..]); Prefix32(p[16..]); Prefix32(p[20..]);
  }

  lemma Prefix32(p: seq<byte>)
    requires |p| >= 4
    ensures Decode32(p) == Decode32(p[..4])
  {}

  lemma HeaderCanonical(p: seq<byte>)
    requires |p| == OVERHEAD
    ensures EncodeHeader(DecodeHeader(p)) == p
  {
    Canonical32(p[..4]); Canonical16(p[6..8]); Canonical32(p[8..12]);
    Canonical32(p[12..16]); Canonical32(p[16..20]); Canonical32(p[20..24]);
    assert p[6..][..2] == p[6..8] && p[8..][..4] == p[8..12] && p[12..][..4] == p[12..16];
    assert p[16..][..4] == p[16..20] && p[20..][..4] == p[20..24];
    Prefix32(p); Prefix32(p[8..]); Prefix32(p[12..]); Prefix32(p[16..]); Prefix32(p[20..]);
    assert p == p[..4] + [p[4], p[5]] + p[6..8] + p[8..12] + p[12..16] + p[16..20] + p[20..24];
  }

  function HeaderOf(s: WireSeg): Header
    requires |s.data| < 0x1_0000_0000
  {
    Header(s.conv, s.cmd, s.frg, s.wnd, s.ts, s.sn, s.una, |s.data|)
  }

  /** Segments whose payload length fits the signed test of the header loop. */
  predicate Sized(s: WireSeg) {
    |s.data| < 0x8000_0000
  }

  function Size(s: WireSeg): nat {
    OVERHEAD + |s.data|
  }

  function Encode(s: WireSeg): (r: seq<byte>)
    requires Sized(s)
    ensures |r| == Size(s)
  {
    EncodeHeader(HeaderOf(s)) + s.data
  }

  predicate AllSized(segs: seq<WireSeg>) {
    forall i :: 0 <= i < |segs| ==> Sized(segs[i])
  }

  function EncodeAll(segs: seq<WireSeg>): seq<byte>
    requires AllSized(segs)
  {
    if segs == [] then [] else Encode(segs[0]) + EncodeAll(segs[1..])
  }

  lemma {:induction false} EncodeAllAppend(a: seq<WireSeg>, b: seq<WireSeg>)
    requires AllSized(a) && AllSized(b)
    ensures EncodeAll(a + b) == EncodeAll(a) + EncodeAll(b)
  {
    hide Encode;
    if a == [] {
      assert a + b == b;
    } else {
      assert (a + b)[1..] == a[1..] + b;
      EncodeAllAppend(a[1..], b);
      assert EncodeAll(a + b) == Encode(a[0]) + (EncodeAll(a[1..]) + EncodeAll(b));
    }
  }

  /** What the header loop of the input routine reads from a datagram: the segments it accepts,
      in order, and the code it stops with (0 when fewer than 24 bytes are left). */
  datatype Parsed = Parsed(segs: seq<WireSeg>, code: int)

  function ParseOne(conv: u32, data: seq<byte>): (r: Parsed)
    requires |data| >= OVERHEAD
    ensures r.code == 0 ==> |r.segs| == 1 && Size(r.segs[0]) <= |data|
    ensures r.code != 0 ==> r.segs == []
  {
    var h := DecodeHeader(data);
    if h.conv != conv then Parsed([], -1)
    else if |data| - OVERHEAD < h.len || ToI32(h.len) < 0 then Parsed([], -2)
    else if !ValidCmd(h.cmd) then Parsed([], -3)
    else Parsed([WireSeg(h.conv, h.cmd, h.frg, h.wnd, h.ts, h.sn, h.una, data[OVERHEAD..OVERHEAD + h.len])], 0)
  }

  function Parse(conv: u32, data: seq<byte>): Parsed
    decreases |data|
  {
    if |data| < OVERHEAD then Parsed([], 0)
    else
      var one := ParseOne(conv, data);
      if one.code != 0 then one
      else
        var rest := Parse(conv, data[Size(one.segs[0])..]);
        Parsed(one.segs + rest.segs, rest.code)
  }

  /** A segment the header loop of a connection `conv` accepts. */
  predicate Acceptable(conv: u32, s: WireSeg) {
    s.conv == conv && ValidCmd(s.cmd) && Sized(s)
  }

  predicate AllAcceptable(conv: u32, segs: seq<WireSeg>)
    ensures AllAcceptable(conv, segs) ==> AllSized(segs)
  {
    forall i :: 0 <= i < |segs| ==> Acceptable(conv, segs[i])
  }

  /** Encoding then parsing gives back exactly the segments, in order. */
  lemma {:induction false} ParseEncoded(conv: u32, segs: seq<WireSeg>)
    requires AllAcceptable(conv, segs)
    ensures Parse(conv, EncodeAll(segs)) == Parsed(segs, 0)
  {
    hide Encode, ParseOne;
    if segs != [] {
      var s, rest := segs[0], EncodeAll(segs[1..]);
      var p := EncodeAll(segs);
      ParseOneEncoded(conv, s, rest);
      assert p[Size(s)..] == rest;
      ParseEncoded(conv, segs[1..]);
      assert segs == [s] + segs[1..];
    }
  }

  lemma ParseOneEncoded(conv: u32, s: WireSeg, rest: seq<byte>)
    requires Acceptable(conv, s)
    ensures ParseOne(conv, Encode(s) + rest) == Parsed([s], 0)
  {
    hide EncodeHeader, DecodeHeader;
    var p := Encode(s) + rest;
    assert p == EncodeHeader(HeaderOf(s)) + (s.data + rest);
    HeaderRoundTrip(HeaderOf(s), s.data + rest);
    assert p[OVERHEAD..OVERHEAD + |s.data|] == s.data;
  }

  /** Whatever the bytes, the accepted segments are acceptable and re-encode to a prefix of them;
      a clean stop leaves less than one header unread. */
  lemma {:induction false} ParseSound(conv: u32, data: seq<byte>)
    ensures AllAcceptable(conv, Parse(conv, data).segs)
    ensures EncodeAll(Parse(conv, data).segs) <= data
    ensures Parse(conv, data).code == 0 <==> |data| - |EncodeAll(Parse(conv, data).segs)| < OVERHEAD
    decreases |data|
  {
    hide Encode, ParseOne;
    if |data| >= OVERHEAD {
      var one := ParseOne(conv, data);
      if one.code == 0 {
        var s := one.segs[0];
        var rest := data[Size(s)..];
        ParseSound(conv, rest);
        EncodeParsed(conv, data);
        var all := Parse(conv, data).segs;
        assert all[0] == s && all[1..] == Parse(conv, rest).segs;
        assert EncodeAll(all) == data[..Size(s)] + EncodeAll(all[1..]);
        assert data == data[..Size(s)] + rest;
      }
    }
  }

  /** What the header loop refuses, and with which code: another conversation's segment, a payload longer than
      what is left or than a signed length allows, or an unknown command, in this order. */
  lemma RefusalCodes(conv: u32, data: seq<byte>)
    requires |data| >= 24
    ensures var h := DecodeHeader(data);
      && Parse(conv, data).code == (if h.conv != conv then -1
                                    else if |data| - 24 < h.len || h.len >= 0x8000_0000 then -2
                                    else if !(81 <= h.cmd <= 84) then -3
                                    else Parse(conv, data[24 + h.len..]).code)
      && (h.conv != conv || |data| - 24 < h.len || h.len >= 0x8000_0000 || !(81 <= h.cmd <= 84) ==>
            Parse(conv, data).segs == [])
  {
    hide DecodeHeader;
  }

  lemma EncodeParsed(conv: u32, data: seq<byte>)
    requires |data| >= OVERHEAD && ParseOne(conv, data).code == 0
    ensures Acceptable(conv, ParseOne(conv, data).segs[0])
    ensures Encode(ParseOne(conv, data).segs[0]) == data[..Size(ParseOne(conv, data).segs[0])]
  {
    hide EncodeHeader, DecodeHeader;
    HeaderCanonicalPrefix(data);
    var s := ParseOne(conv, data).segs[0];
    assert data[..Size(s)] == data[..OVERHEAD] + data[OVERHEAD..Size(s)];
    assert HeaderOf(s) == DecodeHeader(data);
  }

  lemma HeaderCanonicalPrefix(p: seq<byte>)
    requires |p| >= OVERHEAD
    ensures EncodeHeader(DecodeHeader(p)) == p[..OVERHEAD]
  {
    var q := p[..OVERHEAD];
    HeaderCanonical(q);
    assert forall i :: 0 <= i < OVERHEAD ==> q[i] == p[i];
    assert DecodeHeader(q) == DecodeHeader(p);
  }
}
