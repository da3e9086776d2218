/** The congestion window `cwnd` and its byte-granular credit `incr`. */
module Congestion {
  import opened Serial

  const THRESH_MIN := 2

  datatype Cong = Cong(cwnd: u32, incr: u32, ssthresh: u32)

  /** A number of full segments in bytes. */
  function Bytes(segments: nat, mss: nat): nat {
    segments * mss
  }

  /** An input that moved `snd_una` forward: slow start, then congestion avoidance. */
  function OnAdvance(c: Cong, rmt: u32, mss: u32): Cong
    requires mss > 0
  {
    if c.cwnd >= rmt then c
    else Clamp(if c.cwnd < c.ssthresh then c.(cwnd := Wrap(c.cwnd + 1), incr := Wrap(c.incr + mss))
               else Avoid(c, mss), rmt, mss)
  }

  function Avoid(c: Cong, mss: u32): Cong
    requires mss > 0
  {
    var base := if c.incr < mss then mss else c.incr;
    var incr := Wrap(base + Wrap(Bytes(mss, mss)) / base + mss / 16);
    c.(incr := incr, cwnd := if Wrap(Bytes(Wrap(c.cwnd + 1), mss)) <= incr then Wrap(c.cwnd + 1) else c.cwnd)
  }

  function Clamp(c: Cong, rmt: u32, mss: u32): Cong {
    if c.cwnd > rmt then c.(cwnd := rmt, incr := Wrap(Bytes(rmt, mss))) else c
  }

  /** A flush that fast-retransmitted something. */
  function OnFast(c: Cong, inflight: u32, resent: u32, mss: u32): Cong {
    var ssthresh := Max(inflight / 2, THRESH_MIN);
    var cwnd := Wrap(ssthresh + resent);
    Cong(cwnd, Wrap(Bytes(cwnd, mss)), ssthresh)
  }

  /** A flush that retransmitted something after a timeout. */
  function OnLost(c: Cong, window: u32, mss: u32): Cong {
    Cong(1, mss, Max(window / 2, THRESH_MIN))
  }

  function AtLeastOne(c: Cong, mss: u32): Cong {
    if c.cwnd < 1 then c.(cwnd := 1, incr := mss) else c
  }

  /** The end of a flush, in the engine's order. */
  function AfterFlush(c: Cong, fast: bool, lost: bool, inflight: u32, window: u32, resent: u32, mss: u32): Cong {
    var c1 := if fast then OnFast(c, inflight, resent, mss) else c;
    AtLeastOne(if lost then OnLost(c1, window, mss) else c1, mss)
  }

  /** `incr` is the window in bytes, plus less than one segment of credit. */
  ghost predicate Credit(c: Cong, mss: nat) {
    Bytes(c.cwnd, mss) <= c.incr < Bytes(c.cwnd + 1, mss) && c.ssthresh >= THRESH_MIN
  }

  /** The credit congestion avoidance adds, over unbounded integers. */
  function Growth(incr: nat, mss: nat): nat {
    if incr == 0 then 0 else Bytes(mss, mss) / incr + mss / 16
  }

  lemma BytesMonotone(a: nat, b: nat, m: nat)
    requires a <= b
    ensures Bytes(a, m) <= Bytes(b, m) && Bytes(m, a) <= Bytes(m, b)
  {}

  lemma BytesNext(a: nat, m: nat)
    ensures Bytes(a + 1, m) == Bytes(a, m) + m
  {}

  lemma BytesBelow(a: nat, m: nat)
    requires a <= 0x1_0000 && m < 0x1_0000
    ensures Bytes(a, m) < 0x1_0000_0000
  {
    BytesMonotone(a, 0x1_0000, m);
  }

  /** The division in congestion avoidance adds at most half a segment of credit. */
  lemma ShareBelowHalf(base: nat, mss: nat)
    requires 0 < mss && 2 * mss <= base
    ensures 0 <= Bytes(mss, mss) / base <= mss / 2
  {
    var square, q := Bytes(mss, mss), Bytes(mss, mss) / base;
    assert Bytes(q, base) <= square;
    if q > mss / 2 {
      var h := mss / 2 + 1;
      BytesMonotone(h, q, base);
      BytesMonotone(2 * mss, base, h);
      assert Bytes(h, 2 * mss) == Bytes(2 * h, mss);
      BytesMonotone(mss + 1, 2 * h, mss);
    }
  }

  /** One input raises `cwnd` by at most one, never past the remote window; the credit invariant
      holds, no product or sum wraps, and the final clamp never applies. */
  lemma AdvanceKeepsCredit(c: Cong, rmt: u32, mss: u32)
    requires 0 < mss < 0x1_0000 && rmt < 0x1_0000 && Credit(c, mss)
    ensures Credit(OnAdvance(c, rmt, mss), mss)
    ensures c.cwnd <= OnAdvance(c, rmt, mss).cwnd <= c.cwnd + 1
    ensures OnAdvance(c, rmt, mss).cwnd <= Max(c.cwnd, rmt)
    ensures OnAdvance(c, rmt, mss).ssthresh == c.ssthresh
    ensures c.cwnd < rmt && c.cwnd >= c.ssthresh ==> Avoid(c, mss).cwnd <= rmt
    ensures c.cwnd >= rmt ==> OnAdvance(c, rmt, mss) == c
    ensures c.cwnd < rmt ==>
      OnAdvance(c, rmt, mss).incr == c.incr + if c.cwnd < c.ssthresh then mss else Growth(c.incr, mss)
  {
    if c.cwnd < rmt {
      RoomForOne(c, mss);
      if c.cwnd >= c.ssthresh {
        AvoidKeepsCredit(c, mss);
      }
    }
    hide Wrap, Avoid, Bytes, Growth;
  }

  lemma RoomForOne(c: Cong, mss: u32)
    requires 0 < mss < 0x1_0000 && c.cwnd < 0xFFFF && Credit(c, mss)
    ensures c.incr + mss < 0x1_0000_0000 && Bytes(mss, mss) < 0x1_0000_0000
    ensures Bytes(c.cwnd + 1, mss) == Bytes(c.cwnd, mss) + mss
    ensures Bytes(c.cwnd + 2, mss) == Bytes(c.cwnd + 1, mss) + mss < 0x1_0000_0000
  {
    BytesBelow(c.cwnd + 2, mss);
    BytesBelow(mss, mss);
    BytesNext(c.cwnd, mss);
    BytesNext(c.cwnd + 1, mss);
    hide Bytes;
  }

  lemma AvoidKeepsCredit(c: Cong, mss: u32)
    requires 0 < mss < 0x1_0000 && c.ssthresh <= c.cwnd < 0xFFFF && Credit(c, mss)
    ensures Avoid(c, mss).incr == c.incr + Growth(c.incr, mss)
    ensures Credit(Avoid(c, mss), mss) && c.cwnd <= Avoid(c, mss).cwnd <= c.cwnd + 1
    ensures Avoid(c, mss).ssthresh == c.ssthresh
  {
    assert 2 * mss <= c.incr by { BytesMonotone(2, c.cwnd, mss); }
    RoomForOne(c, mss);
    ShareBelowHalf(c.incr, mss);
    hide Wrap, Bytes;
  }

  /** A fast retransmission keeps the credit invariant exactly when its new window, in bytes,
      fits 32 bits. */
  lemma FastKeepsCredit(c: Cong, inflight: u32, resent: u32, mss: u32)
    requires 0 < mss
    ensures Credit(OnFast(c, inflight, resent, mss), mss) <==>
            Bytes(Wrap(Max(inflight / 2, THRESH_MIN) + resent), mss) < 0x1_0000_0000
  {
    BytesNext(Wrap(Max(inflight / 2, THRESH_MIN) + resent), mss);
    hide Bytes;
  }

  /** Every flush keeps the credit invariant if the window of a fast retransmission fits. */
  lemma FlushKeepsCredit(c: Cong, fast: bool, lost: bool, inflight: u32, window: u32, resent: u32, mss: u32)
    requires 0 < mss < 0x1_0000 && Credit(c, mss)
    requires fast ==> Bytes(Wrap(Max(inflight / 2, THRESH_MIN) + resent), mss) < 0x1_0000_0000
    ensures Credit(AfterFlush(c, fast, lost, inflight, window, resent, mss), mss)
    ensures AfterFlush(c, fast, lost, inflight, window, resent, mss).cwnd >= 1
  {
    assert Bytes(1, mss) == mss && Bytes(2, mss) == 2 * mss;
    FastKeepsCredit(c, inflight, resent, mss);
    hide Wrap, Bytes;
  }

  /** A fast-resend count of up to 32767, and the value standing for off, fit. */
  lemma ResentFits(inflight: u32, resent: u32, mss: u32)
    requires inflight < 0x1_0000 && mss < 0x1_0000
    requires resent <= 32767 || resent == 0xFFFF_FFFF
    ensures Bytes(Wrap(Max(inflight / 2, THRESH_MIN) + resent), mss) < 0x1_0000_0000
  {
    var cwnd := Wrap(Max(inflight / 2, THRESH_MIN) + resent);
    assert cwnd <= 65534;
    hide Wrap;
    BytesBelow(cwnd, mss);
  }

  /** A large count does not: with segments of 1376 bytes and a count of 4000000 the product wraps. */
  lemma ResentOverflows()
    ensures !Credit(OnFast(Cong(1, 1376, 2), 32, 4000000, 1376), 1376)
  {
    FastKeepsCredit(Cong(1, 1376, 2), 32, 4000000, 1376);
  }
}
