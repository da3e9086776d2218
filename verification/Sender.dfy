/** The sending half of a control block: fragmentation into `queue`, the flight of unacknowledged
    segments in `buf`, removal by acknowledgements and the transmission decision of a flush. */
module Sender {
  import opened Serial
  import opened Wire
  import Lists

  /** A fragment waiting in the send queue; it gets its sequence number when it leaves. */
  datatype Frag = Frag(frg: u32, data: seq<byte>)

  datatype Seg = Seg(frg: u32, data: seq<byte>, wnd: u32, ts: u32, sn: u32, una: u32,
                     resendts: u32, rto: u32, fastack: u32, xmit: u32)

  datatype Snd = Snd(una: u32, nxt: u32, queue: seq<Frag>, buf: seq<Seg>, nque: u32, nbuf: u32)

  const MAX_FRAGMENTS := 128

  // ---------------------------------------------------------------- fragmentation

  function FragmentCount(len: nat, mss: nat): nat
    requires mss > 0
  {
    if len <= mss then 1 else (len + mss - 1) / mss
  }

  /** `count` pieces, each but the last full; outside stream mode `frg` counts down to zero. */
  function Fragments(msg: seq<byte>, count: nat, mss: nat, stream: bool): seq<Frag>
    requires count < MAX_FRAGMENTS
  {
    if count == 0 then []
    else
      var size := if |msg| > mss then mss else |msg|;
      [Frag(if stream then 0 else count - 1, msg[..size])] + Fragments(msg[size..], count - 1, mss, stream)
  }

  datatype SendResult = SendResult(snd: Snd, code: int)

  function Enqueue(s: Snd, mss: nat, stream: bool, msg: seq<byte>): SendResult
    requires mss > 0
  {
    var count := FragmentCount(|msg|, mss);
    if count >= MAX_FRAGMENTS then SendResult(s, -2)
    else SendResult(s.(queue := s.queue + Fragments(msg, count, mss, stream), nque := Wrap(s.nque + count)), 0)
  }

  /** How many bytes the tail of the queue takes in stream mode. */
  function Extend(s: Snd, mss: nat, len: nat): nat {
    if s.queue != [] && |s.queue[|s.queue| - 1].data| < mss
    then Min(len, mss - |s.queue[|s.queue| - 1].data|) else 0
  }

  function Extended(s: Snd, mss: nat, msg: seq<byte>): Snd {
    if s.queue != [] && |s.queue[|s.queue| - 1].data| < mss then
      var n := |s.queue| - 1;
      s.(queue := s.queue[..n] + [Frag(0, s.queue[n].data + msg[..Extend(s, mss, |msg|)])])
    else s
  }

  function Send(s: Snd, mss: nat, stream: bool, msg: seq<byte>): SendResult
    requires mss > 0
  {
    if !stream then Enqueue(s, mss, false, msg)
    else
      var rest := msg[Extend(s, mss, |msg|)..];
      if rest == [] then SendResult(Extended(s, mss, msg), 0)
      else Enqueue(Extended(s, mss, msg), mss, true, rest)
  }

  // ---------------------------------------------------------------- acknowledgements

  function ShrinkBuf(s: Snd): Snd {
    s.(una := if s.buf != [] then s.buf[0].sn else s.nxt)
  }

  /** The flight without segment `sn`; the scan stops at the first higher number. */
  function WithoutSn(buf: seq<Seg>, sn: u32): (r: seq<Seg>)
    ensures |buf| - 1 <= |r| <= |buf|
  {
    if buf == [] then []
    else if sn == buf[0].sn then buf[1..]
    else if TimeDiff(sn, buf[0].sn) < 0 then buf
    else [buf[0]] + WithoutSn(buf[1..], sn)
  }

  function ParseAck(s: Snd, sn: u32): Snd {
    if TimeDiff(sn, s.una) < 0 || TimeDiff(sn, s.nxt) >= 0 then s
    else
      var buf := WithoutSn(s.buf, sn);
      s.(buf := buf, nbuf := Wrap(s.nbuf - (|s.buf| - |buf|)))
  }

  /** How many segments at the head lie below `una`. */
  function BelowUna(buf: seq<Seg>, una: u32): (k: nat)
    ensures k <= |buf|
    ensures forall i :: 0 <= i < k ==> TimeDiff(una, buf[i].sn) > 0
    ensures k < |buf| ==> TimeDiff(una, buf[k].sn) <= 0
  {
    if buf != [] && TimeDiff(una, buf[0].sn) > 0 then
      var rest := BelowUna(buf[1..], una);
      assert forall i :: 1 <= i < 1 + rest ==> buf[i] == buf[1..][i - 1];
      1 + rest
    else 0
  }

  function ParseUna(s: Snd, una: u32): Snd {
    var k := BelowUna(s.buf, una);
    s.(buf := s.buf[k..], nbuf := Wrap(s.nbuf - k))
  }

  function Skipped(buf: seq<Seg>, sn: u32): (r: seq<Seg>)
    ensures |r| == |buf|
    ensures forall i :: 0 <= i < |buf| ==> r[i] == buf[i].(fastack := r[i].fastack)
  {
    if buf == [] || TimeDiff(sn, buf[0].sn) < 0 then buf
    else
      var g := buf[0];
      [if sn != g.sn then g.(fastack := Wrap(g.fastack + 1)) else g] + Skipped(buf[1..], sn)
  }

  function ParseFastack(s: Snd, sn: u32): Snd {
    if TimeDiff(sn, s.una) < 0 || TimeDiff(sn, s.nxt) >= 0 then s else s.(buf := Skipped(s.buf, sn))
  }

  // ---------------------------------------------------------------- flush: admission and transmission

  /** What a flush knows when it sends: `wnd` and `ack` are the receive side's free window and next number. */
  datatype Tx = Tx(current: u32, wnd: u32, ack: u32, rxRto: u32, resent: u32, rtomin: u32, nodelay: bool)

  function Admit(s: Snd, cwnd: u32, c: Tx): Snd
    decreases |s.queue|
  {
    if TimeDiff(s.nxt, Wrap(s.una + cwnd)) < 0 && s.queue != [] then
      var g := Seg(s.queue[0].frg, s.queue[0].data, c.wnd, c.current, s.nxt, c.ack, c.current, c.rxRto, 0, 0);
      Admit(s.(queue := s.queue[1..], buf := s.buf + [g], nque := Wrap(s.nque - 1), nbuf := Wrap(s.nbuf + 1),
               nxt := Wrap(s.nxt + 1)), cwnd, c)
    else s
  }

  datatype Verdict = Idle | Initial | Timeout | Fast

  function Judge(g: Seg, c: Tx): Verdict {
    if g.xmit == 0 then Initial
    else if TimeDiff(c.current, g.resendts) >= 0 then Timeout
    else if g.fastack >= c.resent then Fast
    else Idle
  }

  function Backoff(g: Seg, c: Tx): u32 {
    Wrap(g.rto + if c.nodelay then c.rxRto / 2 else c.rxRto)
  }

  function Transmit(g: Seg, c: Tx): Seg {
    var t := g.(ts := c.current, wnd := c.wnd, una := c.ack, xmit := Wrap(g.xmit + 1));
    match Judge(g, c)
    case Idle => g
    case Initial => t.(rto := c.rxRto, resendts := Wrap(c.current + c.rxRto + c.rtomin))
    case Timeout => t.(rto := Backoff(g, c), resendts := Wrap(c.current + Backoff(g, c)))
    case Fast => t.(fastack := 0, resendts := Wrap(c.current + g.rto))
  }

  function TransmitAll(buf: seq<Seg>, c: Tx): (r: seq<Seg>)
    ensures |r| == |buf|
    ensures forall i :: 0 <= i < |buf| ==> r[i] == Transmit(buf[i], c)
  {
    if buf == [] then [] else [Transmit(buf[0], c)] + TransmitAll(buf[1..], c)
  }

  /** The segments a flush puts on the wire, in order. */
  function Sent(buf: seq<Seg>, c: Tx): seq<Seg> {
    if buf == [] then []
    else (if Judge(buf[0], c) != Idle then [Transmit(buf[0], c)] else []) + Sent(buf[1..], c)
  }

  function CountOf(buf: seq<Seg>, c: Tx, v: Verdict): nat {
    if buf == [] then 0 else (if Judge(buf[0], c) == v then 1 else 0) + CountOf(buf[1..], c, v)
  }

  function ToWire(conv: u32, g: Seg): WireSeg {
    WireSeg(conv, CMD_PUSH, g.frg % 0x100, g.wnd % 0x1_0000, g.ts, g.sn, g.una, g.data)
  }

  // ---------------------------------------------------------------- invariant

  function InFlight(s: Snd): nat {
    Off(s.una, s.nxt)
  }

  ghost predicate Ascending(base: u32, end: int, buf: seq<Seg>) {
    && (forall i :: 0 <= i < |buf| ==> Off(base, buf[i].sn) < end)
    && (forall i, j :: 0 <= i < j < |buf| ==> Off(base, buf[i].sn) < Off(base, buf[j].sn))
  }

  /** Strictly increasing numbers in `[una, nxt)`, at most `limit` in flight, counters exact
      (the queue's own counter wraps, since nothing bounds the queue). */
  ghost predicate Ordered(s: Snd, limit: int) {
    && InFlight(s) <= limit < HALF
    && Ascending(s.una, InFlight(s), s.buf)
    && s.nbuf == |s.buf| && s.nque == Wrap(|s.queue|)
  }

  /** Between two calls `una` is the head of the flight, or `nxt` when nothing is in flight. */
  ghost predicate Inv(s: Snd, limit: int) {
    Ordered(s, limit) && s.una == if s.buf != [] then s.buf[0].sn else s.nxt
  }

  lemma {:induction false} AscendingBound(base: u32, end: int, buf: seq<Seg>)
    requires Ascending(base, end, buf)
    ensures forall i :: 0 <= i < |buf| ==> i <= Off(base, buf[i].sn)
    ensures |buf| <= Max(end, 0)
  {
    hide Off;
    if buf != [] {
      var n := |buf| - 1;
      AscendingBound(base, end, buf[..n]);
      assert n > 0 ==> Off(base, buf[..n][n - 1].sn) < Off(base, buf[n].sn);
    }
  }

  /** Rebasing a suffix on its own first number, or on the end when it is empty. */
  lemma Rebase(base: u32, n: nat, buf: seq<Seg>, una: u32)
    requires n < HALF && Ascending(base, n, buf)
    requires una == if buf != [] then buf[0].sn else Wrap(base + n)
    ensures Off(base, una) <= n && Off(una, Wrap(base + n)) == n - Off(base, una)
    ensures Ascending(una, n - Off(base, una), buf)
    ensures forall i :: 0 <= i < |buf| ==> Off(una, buf[i].sn) == Off(base, buf[i].sn) - Off(base, una)
  {
    OffWrap(base, n);
    AdvanceTo(base, una);
    hide Off, Wrap;
    var a := Off(base, una);
    OffAdvance(base, a, Wrap(base + n));
    forall i | 0 <= i < |buf| ensures a <= Off(base, buf[i].sn) && Off(una, buf[i].sn) == Off(base, buf[i].sn) - a {
      OffAdvance(base, a, buf[i].sn);
    }
  }

  lemma ShrinkInv(s: Snd, limit: int)
    requires Ordered(s, limit)
    ensures Inv(ShrinkBuf(s), limit) && InFlight(ShrinkBuf(s)) <= InFlight(s)
  {
    AdvanceTo(s.una, s.nxt);
    Rebase(s.una, InFlight(s), s.buf, ShrinkBuf(s).una);
    hide Off, Wrap;
  }

  /** Any `una` a peer claims keeps the flight ordered. */
  lemma ParseUnaInv(s: Snd, una: u32, limit: int)
    requires Ordered(s, limit)
    ensures Ordered(ParseUna(s, una), limit) && InFlight(ParseUna(s, una)) == InFlight(s)
  {
    hide Off, TimeDiff;
    var k := BelowUna(s.buf, una);
    assert forall i :: 0 <= i < |s.buf[k..]| ==> s.buf[k..][i] == s.buf[k + i];
  }

  /** The scan removes segment `sn` at its place, or nothing. */
  lemma {:induction false} WithoutSnSpec(buf: seq<Seg>, sn: u32) returns (k: nat)
    ensures k <= |buf|
    ensures k == |buf| ==> WithoutSn(buf, sn) == buf
    ensures k < |buf| ==> buf[k].sn == sn && WithoutSn(buf, sn) == buf[..k] + buf[k + 1..]
    decreases |buf|, 0
  {
    hide TimeDiff;
    k := |buf|;
    if buf != [] {
      if sn == buf[0].sn {
        k := 0;
      } else if TimeDiff(sn, buf[0].sn) >= 0 {
        k := WithoutSnTail(buf, sn);
        k := 1 + k;
      }
    }
  }

  lemma WithoutSnTail(buf: seq<Seg>, sn: u32) returns (k: nat)
    requires buf != []
    ensures 1 + k <= |buf|
    ensures 1 + k == |buf| ==> [buf[0]] + WithoutSn(buf[1..], sn) == buf
    ensures 1 + k < |buf| ==>
      buf[1 + k].sn == sn && [buf[0]] + WithoutSn(buf[1..], sn) == buf[..1 + k] + buf[1 + k + 1..]
    decreases |buf| - 1, 1
  {
    hide WithoutSn;
    k := WithoutSnSpec(buf[1..], sn);
    Lists.HeadTail(buf);
    if 1 + k < |buf| { Lists.TailWithout(buf, k); }
  }

  lemma AscendingCut(base: u32, end: int, buf: seq<Seg>, k: nat)
    requires Ascending(base, end, buf) && k < |buf|
    ensures Ascending(base, end, buf[..k] + buf[k + 1..])
  {
    hide Off;
    var cut := buf[..k] + buf[k + 1..];
    assert forall i :: 0 <= i < |cut| ==> cut[i] == if i < k then buf[i] else buf[i + 1];
  }

  lemma ParseAckInv(s: Snd, sn: u32, limit: int)
    requires Ordered(s, limit)
    ensures Ordered(ParseAck(s, sn), limit) && InFlight(ParseAck(s, sn)) == InFlight(s)
  {
    hide Off, TimeDiff, WithoutSn, Ascending;
    var k := WithoutSnSpec(s.buf, sn);
    if k < |s.buf| {
      AscendingCut(s.una, InFlight(s), s.buf, k);
    }
  }

  // ---------------------------------------------------------------- what acknowledgements remove

  lemma TailAscending(base: u32, end: int, buf: seq<Seg>)
    requires Ascending(base, end, buf) && buf != []
    ensures Ascending(base, end, buf[1..])
    ensures forall g :: g in buf[1..] ==> Off(base, buf[0].sn) < Off(base, g.sn)
  {
    hide Off;
  }

  lemma OffsBelow(base: u32, end: int, buf: seq<Seg>)
    requires Ascending(base, end, buf)
    ensures forall g :: g in buf ==> Off(base, g.sn) < end
  {
    hide Off;
  }

  /** The scan for a number finds every segment that carries it. */
  lemma {:induction false} WithoutSnExactly(base: u32, end: int, buf: seq<Seg>, sn: u32)
    requires Ascending(base, end, buf) && end < HALF && Off(base, sn) < end
    ensures forall g :: g in WithoutSn(buf, sn) <==> g in buf && g.sn != sn
    decreases |buf|
  {
    hide Off, TimeDiff, Ascending;
    if buf != [] {
      TailAscending(base, end, buf);
      OffsBelow(base, end, buf);
      DiffOff(base, sn, buf[0].sn);
      WithoutSnExactly(base, end, buf[1..], sn);
      Lists.HeadTail(buf);
    }
  }

  /** A selective acknowledgement of a number in flight removes exactly the segment that carries it; any
      other changes nothing. */
  lemma ParseAckExactly(s: Snd, sn: u32, limit: int)
    requires Ordered(s, limit)
    ensures var r := ParseAck(s, sn);
      && Ordered(r, limit) && r == s.(buf := r.buf, nbuf := |r.buf|)
      && (Off(s.una, sn) < InFlight(s) ==> forall g :: g in r.buf <==> g in s.buf && g.sn != sn)
      && (Off(s.una, sn) >= InFlight(s) ==> r == s)
    ensures forall g :: g in ParseAck(s, sn).buf <==> g in s.buf && g.sn != sn
  {
    var n := InFlight(s);
    AdvanceTo(s.una, s.nxt);
    if n > 0 { WindowTest(s.una, n, sn); }
    ParseAckInv(s, sn, limit);
    OffsBelow(s.una, n, s.buf);
    if Off(s.una, sn) < n { WithoutSnExactly(s.una, n, s.buf, sn); }
    hide Off, TimeDiff, Wrap, WithoutSn, Ascending;
  }

  /** `sn` lies below a `una` that is ahead of the flight. */
  predicate Below(s: Snd, una: u32, sn: u32) {
    TimeDiff(una, s.una) > 0 && Off(s.una, sn) < Off(s.una, una)
  }

  /** A cumulative acknowledgement removes exactly the segments below it. */
  lemma ParseUnaExactly(s: Snd, una: u32, limit: int)
    requires Inv(s, limit)
    ensures var r := ParseUna(s, una);
      && Ordered(r, limit) && r == s.(buf := r.buf, nbuf := |r.buf|)
      && forall g :: g in r.buf <==> g in s.buf && !Below(s, una, g.sn)
  {
    hide *;
    OrderedParts(s, limit);
    ParseUnaInv(s, una, limit);
    OrderedParts(ParseUna(s, una), limit);
    UnaCut(s, una);
    var k := BelowUna(s.buf, una);
    forall i | 0 <= i < |s.buf| ensures i < k <==> Below(s, una, s.buf[i].sn) {
      UnaPlace(s, una, limit, k, i);
    }
    Lists.DropExactly(s.buf, k, (g: Seg) => Below(s, una, g.sn));
  }

  /** The same while `una` is not yet the head of the flight: what counts is the head. */
  lemma ParseUnaOrdered(s: Snd, una: u32, limit: int)
    requires Ordered(s, limit)
    ensures var r := ParseUna(s, una);
      && Ordered(r, limit) && r == s.(buf := r.buf, nbuf := |r.buf|)
      && forall g :: g in r.buf <==> g in s.buf && !Below(ShrinkBuf(s), una, g.sn)
  {
    hide *;
    OrderedParts(s, limit);
    ParseUnaInv(s, una, limit);
    OrderedParts(ParseUna(s, una), limit);
    UnaCut(s, una);
    ShrinkInv(s, limit);
    ShrinkKeeps(s);
    UnaCut(ShrinkBuf(s), una);
    ParseUnaExactly(ShrinkBuf(s), una, limit);
  }

  lemma ShrinkKeeps(s: Snd)
    ensures ShrinkBuf(s).buf == s.buf
  {}

  lemma OrderedParts(s: Snd, limit: int)
    ensures Inv(s, limit) ==> Ordered(s, limit)
    ensures Ordered(s, limit) ==> s.nbuf == |s.buf|
  {
    hide Off, Ascending;
  }

  lemma UnaCut(s: Snd, una: u32)
    ensures BelowUna(s.buf, una) <= |s.buf|
    ensures ParseUna(s, una) == s.(buf := s.buf[BelowUna(s.buf, una)..], nbuf := ParseUna(s, una).nbuf)
  {
    hide BelowUna, Wrap;
  }

  lemma UnaPlace(s: Snd, una: u32, limit: int, k: nat, i: nat)
    requires Inv(s, limit) && k == BelowUna(s.buf, una) && i < |s.buf|
    ensures i < k <==> Below(s, una, s.buf[i].sn)
  {
    AdvanceTo(s.una, una);
    OffSelf(s.una, s.buf[0].sn);
    AheadOff(s.una, una);
    hide TimeDiff, Off, BelowUna;
    if TimeDiff(una, s.una) > 0 {
      DiffOff(s.una, una, s.buf[i].sn);
      if k < |s.buf| { DiffOff(s.una, una, s.buf[k].sn); }
    }
  }

  lemma AheadOff(base: u32, sn: u32)
    ensures TimeDiff(sn, base) > 0 <==> 0 < Off(base, sn) < HALF
  {
    OffSelf(base, base);
    AdvanceTo(base, sn);
    WrapBack(base + Off(base, sn));
    hide TimeDiff, Off, Wrap;
    if Off(base, sn) < HALF {
      DiffExact(base + Off(base, sn), base);
    } else {
      DiffExact(base + Off(base, sn) - 0x1_0000_0000, base);
    }
  }

  /** A segment after number `sn` was acknowledged: one that lies below it is counted once more. */
  function PassedOver(base: u32, sn: u32, g: Seg): Seg {
    g.(fastack := if Off(base, g.sn) < Off(base, sn) then Wrap(g.fastack + 1) else g.fastack)
  }

  lemma SkippedHead(base: u32, end: int, buf: seq<Seg>, sn: u32)
    requires Ascending(base, end, buf) && end < HALF && Off(base, sn) < end && buf != []
    ensures Off(base, sn) < Off(base, buf[0].sn) ==> Skipped(buf, sn) == buf
    ensures Off(base, sn) >= Off(base, buf[0].sn) ==>
      Skipped(buf, sn) == [PassedOver(base, sn, buf[0])] + Skipped(buf[1..], sn)
  {
    hide *;
    SkippedIs(buf, sn);
    OffsBelow(base, end, buf);
    assert buf[0] in buf;
    DiffOff(base, sn, buf[0].sn);
    PassedIs(base, sn, buf[0]);
  }

  lemma SkippedIs(buf: seq<Seg>, sn: u32)
    requires buf != []
    ensures var g := buf[0];
      Skipped(buf, sn) == if TimeDiff(sn, g.sn) < 0 then buf
                          else [if sn != g.sn then g.(fastack := Wrap(g.fastack + 1)) else g] + Skipped(buf[1..], sn)
  {
    hide TimeDiff, Wrap;
  }

  lemma PassedIs(base: u32, sn: u32, g: Seg)
    ensures Off(base, g.sn) <= Off(base, sn) ==>
      PassedOver(base, sn, g) == if sn != g.sn then g.(fastack := Wrap(g.fastack + 1)) else g
  {
    if Off(base, sn) == Off(base, g.sn) { OffInjective(base, sn, g.sn); }
    hide Off, Wrap;
  }

  /** Counting passes over exactly the segments below the acknowledged number. */
  lemma {:induction false} SkippedExactly(base: u32, end: int, buf: seq<Seg>, sn: u32)
    requires Ascending(base, end, buf) && end < HALF && Off(base, sn) < end
    ensures forall i :: 0 <= i < |buf| ==> Skipped(buf, sn)[i] == PassedOver(base, sn, buf[i])
    decreases |buf|
  {
    hide *;
    if buf != [] {
      SkippedHead(base, end, buf, sn);
      TailAscending(base, end, buf);
      SkippedExactly(base, end, buf[1..], sn);
      if Off(base, sn) < Off(base, buf[0].sn) { PassesNone(base, sn, buf); }
    }
  }

  lemma PassesNone(base: u32, sn: u32, buf: seq<Seg>)
    requires buf != [] && Off(base, sn) < Off(base, buf[0].sn)
    requires forall g :: g in buf[1..] ==> Off(base, buf[0].sn) < Off(base, g.sn)
    ensures forall i :: 0 <= i < |buf| ==> PassedOver(base, sn, buf[i]) == buf[i]
  {
    hide Off, Wrap;
    assert forall i :: 1 <= i < |buf| ==> buf[i] == buf[1..][i - 1];
  }

  /** An acknowledged number in flight counts every segment below it once more; any other changes nothing. */
  lemma ParseFastackExactly(s: Snd, sn: u32, limit: int)
    requires Ordered(s, limit)
    ensures var r := ParseFastack(s, sn);
      && r == s.(buf := r.buf) && |r.buf| == |s.buf|
      && (Off(s.una, sn) < InFlight(s) ==>
            forall i :: 0 <= i < |s.buf| ==> r.buf[i] == PassedOver(s.una, sn, s.buf[i]))
      && (Off(s.una, sn) >= InFlight(s) ==> r == s)
  {
    var n := InFlight(s);
    AdvanceTo(s.una, s.nxt);
    if n > 0 { WindowTest(s.una, n, sn); }
    if Off(s.una, sn) < n { SkippedExactly(s.una, n, s.buf, sn); }
    hide Off, TimeDiff, Wrap, Skipped, Ascending, PassedOver;
  }

  lemma ParseFastackInv(s: Snd, sn: u32, limit: int)
    requires Inv(s, limit)
    ensures Inv(ParseFastack(s, sn), limit)
  {
    hide Off, TimeDiff, Skipped;
  }

  function Room(s: Snd, cwnd: u32): (n: nat)
    ensures n <= |s.queue|
  {
    Min(|s.queue|, Max(0, cwnd - InFlight(s)))
  }

  /** Admission moves exactly as much as the window has room for and the queue holds. */
  lemma {:induction false} AdmitSpec(s: Snd, cwnd: u32, c: Tx, limit: int)
    requires Ordered(s, limit) && cwnd <= limit
    ensures Ordered(Admit(s, cwnd, c), limit)
    ensures Admit(s, cwnd, c).una == s.una
    ensures InFlight(Admit(s, cwnd, c)) == InFlight(s) + Room(s, cwnd)
    ensures Admit(s, cwnd, c).queue == s.queue[Room(s, cwnd)..]
    ensures |Admit(s, cwnd, c).buf| == |s.buf| + Room(s, cwnd) && s.buf <= Admit(s, cwnd, c).buf
    decreases |s.queue|
  {
    WindowEdge(s.una, s.nxt, cwnd);
    hide Off, TimeDiff, Wrap, Ascending;
    if InFlight(s) < cwnd && s.queue != [] {
      var t := AdmitOne(s, cwnd, c, limit);
      AdmitSpec(t, cwnd, c, limit);
      assert s.queue[1..][Room(t, cwnd)..] == s.queue[Room(s, cwnd)..];
      hide Admit;
    }
  }

  lemma WindowEdge(una: u32, nxt: u32, cwnd: u32)
    requires Off(una, nxt) < HALF && cwnd < HALF
    ensures TimeDiff(nxt, Wrap(una + cwnd)) < 0 <==> Off(una, nxt) < cwnd
  {
    hide TimeDiff, Off, Wrap;
    AdvanceTo(una, nxt);
    DiffExact(una + Off(una, nxt), una + cwnd);
  }

  /** One turn of the admission loop. */
  lemma AdmitOne(s: Snd, cwnd: u32, c: Tx, limit: int) returns (t: Snd)
    requires Ordered(s, limit) && InFlight(s) < cwnd <= limit && s.queue != []
    ensures Ordered(t, limit) && InFlight(t) == InFlight(s) + 1 && t.una == s.una && t.queue == s.queue[1..]
    ensures |t.buf| == |s.buf| + 1 && s.buf <= t.buf && t.nxt == Wrap(s.nxt + 1)
    ensures var g := t.buf[|s.buf|];
      g.sn == s.nxt && g.frg == s.queue[0].frg && g.data == s.queue[0].data && g.xmit == 0 && g.fastack == 0
    ensures Admit(s, cwnd, c) == Admit(t, cwnd, c)
  {
    WindowEdge(s.una, s.nxt, cwnd);
    hide Off, Wrap, TimeDiff;
    var g := Seg(s.queue[0].frg, s.queue[0].data, c.wnd, c.current, s.nxt, c.ack, c.current, c.rxRto, 0, 0);
    t := s.(queue := s.queue[1..], buf := s.buf + [g], nque := Wrap(s.nque - 1), nbuf := Wrap(s.nbuf + 1),
            nxt := Wrap(s.nxt + 1));
    AdmittedOrdered(s, t, limit);
  }

  lemma AdmittedOrdered(s: Snd, t: Snd, limit: int)
    requires Ordered(s, limit) && InFlight(s) < limit && s.queue != []
    requires |t.buf| == |s.buf| + 1 && s.buf <= t.buf && t.buf[|s.buf|].sn == s.nxt && t.una == s.una
    requires t.nxt == Wrap(s.nxt + 1) && t.queue == s.queue[1..]
    requires t.nque == Wrap(s.nque - 1) && t.nbuf == Wrap(s.nbuf + 1)
    ensures Ordered(t, limit) && InFlight(t) == InFlight(s) + 1
  {
    OffNext(s.una, s.nxt);
    AscendingBound(s.una, InFlight(s), s.buf);
    WrapAdd(|s.queue|, -1);
    hide Off, Wrap;
  }

  lemma OffNext(base: u32, sn: u32)
    requires Off(base, sn) < HALF
    ensures Off(base, Wrap(sn + 1)) == Off(base, sn) + 1
  {
    hide Off, Wrap;
    AdvanceTo(base, sn);
    WrapAdd(base + Off(base, sn), 1);
    OffWrap(base, Off(base, sn) + 1);
  }

  lemma TransmitAllInv(s: Snd, c: Tx, limit: int)
    requires Inv(s, limit)
    ensures Inv(s.(buf := TransmitAll(s.buf, c)), limit)
  {
    hide Off, Judge, Backoff;
    assert forall i :: 0 <= i < |s.buf| ==> TransmitAll(s.buf, c)[i].sn == s.buf[i].sn;
  }

  lemma SendInv(s: Snd, mss: nat, stream: bool, msg: seq<byte>, limit: int)
    requires mss > 0 && Inv(s, limit)
    ensures Inv(Send(s, mss, stream, msg).snd, limit)
  {
    hide Inv, Enqueue;
    EnqueueInv(s, mss, stream, msg, limit);
    if stream {
      ExtendedInv(s, mss, msg, limit);
      EnqueueInv(Extended(s, mss, msg), mss, stream, msg[Extend(s, mss, |msg|)..], limit);
    }
    hide Extended;
  }

  lemma ExtendedInv(s: Snd, mss: nat, msg: seq<byte>, limit: int)
    requires Inv(s, limit)
    ensures Inv(Extended(s, mss, msg), limit)
  {
    hide Off, Wrap;
  }

  lemma EnqueueInv(s: Snd, mss: nat, stream: bool, msg: seq<byte>, limit: int)
    requires mss > 0 && Inv(s, limit)
    ensures Inv(Enqueue(s, mss, stream, msg).snd, limit)
  {
    FragmentsLength(msg, FragmentCount(|msg|, mss), mss, stream);
    WrapAdd(|s.queue|, FragmentCount(|msg|, mss));
    hide Off, Wrap, Fragments, FragmentCount;
  }

  lemma {:induction false} FragmentsLength(msg: seq<byte>, count: nat, mss: nat, stream: bool)
    ensures count < MAX_FRAGMENTS ==> |Fragments(msg, count, mss, stream)| == count
  {
    if 0 < count < MAX_FRAGMENTS {
      FragmentsLength(msg[(if |msg| > mss then mss else |msg|)..], count - 1, mss, stream);
    }
  }
}
