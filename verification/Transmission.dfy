/** What a flush does to the flight: who is sent, when it is due again, and how its timeout grows. */
module Transmission {
  import opened Serial
  import opened Sender
  import opened Control
  import ControlInvariant
  import opened Wire
  import RoundTrip
  import Receiver
  import Congestion

  /** The segment is not due for a timeout at `current`. */
  predicate Pending(g: Seg, current: u32) {
    TimeDiff(current, g.resendts) < 0
  }

  /** A timeout grows by at most 60 seconds a transmission; 35791 of them stay below half the clock. */
  const YOUNG := 35791

  predicate Bounded(g: Seg) {
    1 <= g.xmit <= YOUNG ==> 0 < g.rto <= RoundTrip.RTO_MAX * g.xmit
  }

  predicate Sane(c: Tx) {
    0 < c.rxRto <= RoundTrip.RTO_MAX && c.rtomin <= c.rxRto
  }

  lemma DueAfter(current: u32, rto: nat)
    requires 0 < rto <= HALF
    ensures TimeDiff(current, Wrap(current + rto)) < 0
  {
    NotDueAfter(current, rto);
    hide TimeDiff, Wrap;
  }

  lemma NotDueAfter(current: u32, rto: u32)
    ensures TimeDiff(current, Wrap(current + rto)) < 0 <==> 0 < rto <= HALF
  {
    hide TimeDiff, Wrap;
    if rto <= HALF {
      DiffExact(current, current + rto);
    } else {
      WrapBack(current + 0x1_0000_0000);
      DiffExact(current + 0x1_0000_0000, current + rto);
    }
  }

  /** What a timeout is grown by. */
  function Growth(c: Tx): nat {
    if c.nodelay then c.rxRto / 2 else c.rxRto
  }

  /** What a flush needs to leave a segment's timeout as long as it was: the grown timeout of one that timed
      out fits 32 bits, and one that counts as never sent had no longer timeout than the present one. */
  predicate Lengthens(g: Seg, c: Tx) {
    && (Judge(g, c) == Timeout ==> g.rto + Growth(c) < 0x1_0000_0000)
    && (Judge(g, c) == Initial ==> g.rto <= c.rxRto)
  }

  /** Exactly then its timeout does not shrink. */
  lemma LongerExactly(g: Seg, c: Tx)
    ensures Transmit(g, c).rto >= g.rto <==> Lengthens(g, c)
  {
    hide TimeDiff;
    assert g.rto + Growth(c) >= 0x1_0000_0000 ==> Backoff(g, c) == g.rto + Growth(c) - 0x1_0000_0000;
  }

  /** A segment with a bounded timeout that was sent less than 35791 times qualifies. */
  lemma YoungLengthens(g: Seg, c: Tx)
    requires Sane(c) && Bounded(g) && 1 <= g.xmit < YOUNG
    ensures Lengthens(g, c)
  {
    hide TimeDiff;
  }

  /** One segment in a flush: it is transmitted unless its resend time lies ahead and too few later
      segments were acknowledged; afterwards it is pending and its timeout has not shrunk. */
  lemma TransmitSpec(g: Seg, c: Tx)
    requires Sane(c) && Bounded(g)
    ensures var t := Transmit(g, c);
      && Bounded(t) && t.sn == g.sn && t.data == g.data && t.frg == g.frg
      && (1 <= t.xmit <= YOUNG ==> Pending(t, c.current) && (g.xmit >= 1 ==> t.rto >= g.rto))
      && (g.xmit >= 1 && t.rto != g.rto ==> !Pending(g, c.current))
      && (t.xmit == g.xmit <==> Judge(g, c) == Idle)
    ensures Judge(g, c) == Idle <==> g.xmit >= 1 && Pending(g, c.current) && g.fastack < c.resent
  {
    hide TimeDiff;
    var t := Transmit(g, c);
    LongerExactly(g, c);
    if 1 <= g.xmit < YOUNG { YoungLengthens(g, c); }
    hide Lengthens;
    match Judge(g, c)
    case Idle =>
    case Initial => DueAfter(c.current, c.rxRto + c.rtomin);
    case Timeout =>
      if t.xmit <= YOUNG && g.xmit < 0xFFFF_FFFF { DueAfter(c.current, t.rto); }
    case Fast =>
      if t.xmit <= YOUNG && g.xmit < 0xFFFF_FFFF { DueAfter(c.current, t.rto); }
  }

  /** What a flush needs to leave a segment pending: the grown timeout of one that timed out, or the timeout
      of one that is resent early, is not zero and at most half the clock. */
  predicate Renewable(g: Seg, c: Tx) {
    && (Judge(g, c) == Timeout ==> 0 < Backoff(g, c) <= HALF)
    && (Judge(g, c) == Fast ==> 0 < g.rto <= HALF)
  }

  /** Without a bound on the number of transmissions: exactly then it is pending again. */
  lemma PendingExactly(g: Seg, c: Tx)
    requires Sane(c)
    ensures Pending(Transmit(g, c), c.current) <==> Renewable(g, c)
  {
    match Judge(g, c)
    case Idle => hide TimeDiff;
    case Initial => DueAfter(c.current, c.rxRto + c.rtomin); hide TimeDiff;
    case Timeout => NotDueAfter(c.current, Backoff(g, c)); hide TimeDiff, Backoff;
    case Fast => NotDueAfter(c.current, g.rto); hide TimeDiff;
  }

  /** A counter value of zero comes back exactly when the transmission counter wraps. */
  lemma CounterWrapsExactly(g: Seg, c: Tx)
    ensures Transmit(g, c).xmit == 0 <==> g.xmit == 0xFFFF_FFFF && Judge(g, c) != Idle
  {}

  /** 35791 transmissions of a segment with a bounded timeout leave it pending. */
  lemma YoungRenewable(g: Seg, c: Tx)
    requires Sane(c) && Bounded(g) && g.xmit < YOUNG
    ensures Renewable(g, c)
  {
    hide TimeDiff;
  }

  lemma {:induction false} AdmitBounded(s: Snd, cwnd: u32, c: Tx)
    requires forall i :: 0 <= i < |s.buf| ==> Bounded(s.buf[i])
    ensures forall i :: 0 <= i < |Admit(s, cwnd, c).buf| ==> Bounded(Admit(s, cwnd, c).buf[i])
    decreases |s.queue|
  {
    hide TimeDiff, Wrap;
    if TimeDiff(s.nxt, Wrap(s.una + cwnd)) < 0 && s.queue != [] {
      var g := Seg(s.queue[0].frg, s.queue[0].data, c.wnd, c.current, s.nxt, c.ack, c.current, c.rxRto, 0, 0);
      var t := s.(queue := s.queue[1..], buf := s.buf + [g], nque := Wrap(s.nque - 1), nbuf := Wrap(s.nbuf + 1),
                  nxt := Wrap(s.nxt + 1));
      AdmitBounded(t, cwnd, c);
    }
  }

  lemma {:induction false} AdmittedNew(s: Snd, cwnd: u32, c: Tx)
    ensures s.buf <= Admit(s, cwnd, c).buf
    ensures forall i :: |s.buf| <= i < |Admit(s, cwnd, c).buf| ==>
      Admit(s, cwnd, c).buf[i].xmit == 0 && Admit(s, cwnd, c).buf[i].fastack == 0
    decreases |s.queue|
  {
    hide TimeDiff, Wrap;
    if TimeDiff(s.nxt, Wrap(s.una + cwnd)) < 0 && s.queue != [] {
      var g := Seg(s.queue[0].frg, s.queue[0].data, c.wnd, c.current, s.nxt, c.ack, c.current, c.rxRto, 0, 0);
      var t := s.(queue := s.queue[1..], buf := s.buf + [g], nque := Wrap(s.nque - 1), nbuf := Wrap(s.nbuf + 1),
                  nxt := Wrap(s.nxt + 1));
      AdmittedNew(t, cwnd, c);
    }
  }

  ghost predicate AllBounded(cb: Cb) {
    forall i :: 0 <= i < |cb.snd.buf| ==> Bounded(cb.snd.buf[i])
  }

  lemma TxSane(cb: Cb)
    requires ControlInvariant.Inv(cb)
    ensures Sane(TxOf(cb))
  {
    hide Sender.Inv, ControlInvariant.Receiver.Inv;
  }

  /** What a flush does to the flight: every segment that was there or was admitted has been sent at
      least once, is pending unless its 35791 transmissions are used up, kept or grew its timeout, and
      was resent for a timeout only if its resend time had passed. */
  ghost predicate FlightRenewed(cb: Cb, after: seq<Seg>) {
    && |cb.snd.buf| <= |after|
    && (forall i :: 0 <= i < |after| ==>
          && (1 <= after[i].xmit <= YOUNG ==> Pending(after[i], cb.current))
          && (after[i].xmit == 0 ==> i < |cb.snd.buf| && cb.snd.buf[i].xmit == 0xFFFF_FFFF))
    && (forall i :: 0 <= i < |cb.snd.buf| && cb.snd.buf[i].xmit >= 1 ==>
          && after[i].sn == cb.snd.buf[i].sn
          && (after[i].rto != cb.snd.buf[i].rto ==> !Pending(cb.snd.buf[i], cb.current))
          && (1 <= after[i].xmit <= YOUNG ==> after[i].rto >= cb.snd.buf[i].rto))
  }

  lemma FlushFlight(cb: Cb)
    requires ControlInvariant.Inv(cb) && AllBounded(cb) && cb.updated
    ensures AllBounded(Flush(cb).cb) && FlightRenewed(cb, Flush(cb).cb.snd.buf)
  {
    var c := TxOf(cb);
    TxSane(cb);
    var a := Admit(cb.snd, SendWindow(cb), c);
    AdmitBounded(cb.snd, SendWindow(cb), c);
    AdmittedNew(cb.snd, SendWindow(cb), c);
    var after := FlightAfter(cb, a);
    hide ControlInvariant.Inv, Flush, Admit, TransmitAll, Bounded, Pending, Sane, TxOf, SendWindow, Transmit, Judge;
    forall i | 0 <= i < |after|
      ensures Bounded(after[i]) && (1 <= after[i].xmit <= YOUNG ==> Pending(after[i], cb.current))
      ensures after[i].xmit == 0 ==> i < |cb.snd.buf| && cb.snd.buf[i].xmit == 0xFFFF_FFFF
      ensures i < |cb.snd.buf| && cb.snd.buf[i].xmit >= 1 ==>
        && after[i].sn == cb.snd.buf[i].sn
        && (after[i].rto != cb.snd.buf[i].rto ==> !Pending(cb.snd.buf[i], cb.current))
        && (1 <= after[i].xmit <= YOUNG ==> after[i].rto >= cb.snd.buf[i].rto)
    {
      TransmitSpec(a.buf[i], c);
      CounterWrapsExactly(a.buf[i], c);
    }
  }

  /** The flight after a flush is what was admitted, each segment transmitted if it is due. */
  lemma FlightAfter(cb: Cb, a: Snd) returns (after: seq<Seg>)
    requires ValidConfig(cb.cfg) && cb.updated && a == Admit(cb.snd, SendWindow(cb), TxOf(cb))
    ensures after == Flush(cb).cb.snd.buf && |after| == |a.buf|
    ensures forall i :: 0 <= i < |after| ==> after[i] == Transmit(a.buf[i], TxOf(cb))
    ensures TxOf(cb).current == cb.current
  {
    hide Admit, Transmit, SendWindow, ProbeTimer, Congestion.AfterFlush, ReachedDeadLink;
    after := TransmitAll(a.buf, TxOf(cb));
  }

  /** After a flush the whole flight is pending exactly when every segment that was in flight before it
      could be renewed; what the flush admits always is. */
  lemma FlushPendingExactly(cb: Cb)
    requires ControlInvariant.Inv(cb) && cb.updated
    ensures (forall i :: 0 <= i < |Flush(cb).cb.snd.buf| ==> Pending(Flush(cb).cb.snd.buf[i], cb.current))
            <==> forall i :: 0 <= i < |cb.snd.buf| ==> Renewable(cb.snd.buf[i], TxOf(cb))
  {
    var c := TxOf(cb);
    TxSane(cb);
    var a := Admit(cb.snd, SendWindow(cb), c);
    AdmittedNew(cb.snd, SendWindow(cb), c);
    var after := FlightAfter(cb, a);
    hide ControlInvariant.Inv, Flush, Admit, Pending, Renewable, Sane, TxOf, SendWindow, Transmit;
    forall i | 0 <= i < |after|
      ensures Pending(after[i], cb.current) <==> Renewable(a.buf[i], c)
      ensures i >= |cb.snd.buf| ==> Pending(after[i], cb.current)
      ensures i < |cb.snd.buf| ==> a.buf[i] == cb.snd.buf[i]
    {
      PendingExactly(a.buf[i], c);
      if i >= |cb.snd.buf| { NewRenewable(a.buf[i], c); }
    }
    assert forall i :: 0 <= i < |cb.snd.buf| ==> (Pending(after[i], cb.current) <==> Renewable(cb.snd.buf[i], c));
  }

  /** A flush shrinks no timeout in the flight exactly when every segment that was in flight before it
      qualified. */
  lemma FlushLengthensExactly(cb: Cb)
    requires ValidConfig(cb.cfg) && cb.updated
    ensures |cb.snd.buf| <= |Flush(cb).cb.snd.buf|
    ensures (forall i :: 0 <= i < |cb.snd.buf| ==> Flush(cb).cb.snd.buf[i].rto >= cb.snd.buf[i].rto)
            <==> forall i :: 0 <= i < |cb.snd.buf| ==> Lengthens(cb.snd.buf[i], TxOf(cb))
  {
    var c := TxOf(cb);
    var a := Admit(cb.snd, SendWindow(cb), c);
    AdmittedNew(cb.snd, SendWindow(cb), c);
    var after := FlightAfter(cb, a);
    hide Flush, Admit, Lengthens, TxOf, SendWindow, Transmit;
    forall i | 0 <= i < |cb.snd.buf| ensures after[i].rto >= cb.snd.buf[i].rto <==> Lengthens(cb.snd.buf[i], c) {
      LongerExactly(a.buf[i], c);
    }
  }

  /** After a flush every segment counts as sent exactly when none that was due had the largest count. */
  lemma FlushCountsExactly(cb: Cb)
    requires ValidConfig(cb.cfg) && cb.updated
    ensures (forall i :: 0 <= i < |Flush(cb).cb.snd.buf| ==> Flush(cb).cb.snd.buf[i].xmit >= 1)
            <==> forall i :: 0 <= i < |cb.snd.buf| ==>
                   cb.snd.buf[i].xmit < 0xFFFF_FFFF || Judge(cb.snd.buf[i], TxOf(cb)) == Idle
  {
    var c := TxOf(cb);
    var a := Admit(cb.snd, SendWindow(cb), c);
    AdmittedNew(cb.snd, SendWindow(cb), c);
    var after := FlightAfter(cb, a);
    hide Flush, Admit, TxOf, SendWindow, Transmit, Judge;
    forall i | 0 <= i < |after|
      ensures after[i].xmit >= 1 <==> a.buf[i].xmit < 0xFFFF_FFFF || Judge(a.buf[i], c) == Idle
      ensures i < |cb.snd.buf| ==> a.buf[i] == cb.snd.buf[i]
    {
      CounterWrapsExactly(a.buf[i], c);
    }
    assert forall i :: 0 <= i < |cb.snd.buf| ==>
        (after[i].xmit >= 1 <==> cb.snd.buf[i].xmit < 0xFFFF_FFFF || Judge(cb.snd.buf[i], c) == Idle);
  }

  lemma NewRenewable(g: Seg, c: Tx)
    requires g.xmit == 0
    ensures Renewable(g, c)
  {}

  /** So a flight none of whose segments was sent 35791 times is pending as a whole. */
  lemma YoungFlightPending(cb: Cb)
    requires ControlInvariant.Inv(cb) && AllBounded(cb) && cb.updated
    requires forall i :: 0 <= i < |cb.snd.buf| ==> cb.snd.buf[i].xmit < YOUNG
    ensures forall i :: 0 <= i < |Flush(cb).cb.snd.buf| ==> Pending(Flush(cb).cb.snd.buf[i], cb.current)
  {
    TxSane(cb);
    FlushPendingExactly(cb);
    hide ControlInvariant.Inv, Flush, Bounded, Pending, Renewable, Sane, TxOf;
    forall i | 0 <= i < |cb.snd.buf| ensures Renewable(cb.snd.buf[i], TxOf(cb)) {
      YoungRenewable(cb.snd.buf[i], TxOf(cb));
    }
  }

  /** And no timeout in it shrinks if each was sent before. */
  lemma YoungFlightLengthens(cb: Cb)
    requires ControlInvariant.Inv(cb) && AllBounded(cb) && cb.updated
    requires forall i :: 0 <= i < |cb.snd.buf| ==> 1 <= cb.snd.buf[i].xmit < YOUNG
    ensures |cb.snd.buf| <= |Flush(cb).cb.snd.buf|
    ensures forall i :: 0 <= i < |cb.snd.buf| ==> Flush(cb).cb.snd.buf[i].rto >= cb.snd.buf[i].rto
  {
    TxSane(cb);
    FlushLengthensExactly(cb);
    hide ControlInvariant.Inv, Flush, Bounded, Lengthens, Sane, TxOf;
    forall i | 0 <= i < |cb.snd.buf| ensures Lengthens(cb.snd.buf[i], TxOf(cb)) {
      YoungLengthens(cb.snd.buf[i], TxOf(cb));
    }
  }

  lemma RemovalBounded(s: Snd, una: u32, sn: u32)
    requires forall i :: 0 <= i < |s.buf| ==> Bounded(s.buf[i])
    ensures forall i :: 0 <= i < |ParseUna(s, una).buf| ==> Bounded(ParseUna(s, una).buf[i])
    ensures forall i :: 0 <= i < |ParseAck(s, sn).buf| ==> Bounded(ParseAck(s, sn).buf[i])
    ensures forall i :: 0 <= i < |ParseFastack(s, sn).buf| ==> Bounded(ParseFastack(s, sn).buf[i])
  {
    var k := WithoutSnSpec(s.buf, sn);
    hide TimeDiff, WithoutSn, BelowUna;
  }

  lemma {:induction false} OnSegmentsBounded(cb: Cb, segs: seq<WireSeg>)
    requires AllBounded(cb)
    ensures AllBounded(OnSegments(cb, segs))
    decreases |segs|
  {
    hide TimeDiff, RoundTrip.UpdateAck, ParseUna, ParseAck, Bounded, Receiver.OnPush;
    if segs != [] {
      RemovalBounded(cb.snd, segs[0].una, 0);
      RemovalBounded(ShrinkBuf(ParseUna(cb.snd, segs[0].una)), 0, segs[0].sn);
      assert AllBounded(OnSegment(cb, segs[0]));
      hide OnSegment, AllBounded;
      OnSegmentsBounded(OnSegment(cb, segs[0]), segs[1..]);
    }
  }

  lemma InputBounded(cb: Cb, data: seq<byte>)
    requires ControlInvariant.Inv(cb) && AllBounded(cb)
    ensures AllBounded(Input(cb, data).cb)
  {
    var p := Parse(cb.cfg.conv, data);
    OnSegmentsBounded(cb, p.segs);
    OnSegmentsConfig(cb, p.segs);
    var h := HighestAck(NoAck, p.segs);
    if h != NoAck { RemovalBounded(OnSegments(cb, p.segs).snd, 0, h.sn); }
    hide Bounded, ControlInvariant.Inv, OnSegments, Parse, HighestAck, ParseFastack, ParseUna, ParseAck,
      Congestion.OnAdvance, ToI32, TimeDiff, ValidConfig;
  }

  /** The bound on the timeouts is kept by every call. */
  lemma ApplyBounded(cb: Cb, call: ControlInvariant.Call)
    requires ControlInvariant.Inv(cb) && AllBounded(cb)
    ensures AllBounded(ControlInvariant.Apply(cb, call))
  {
    hide AllBounded, UserSend, UserRecv, Input, Flush, Update, ControlInvariant.Inv;
    match call
    case CallSend(msg) => UserBounded(cb, msg, 0);
    case CallRecv(len) => UserBounded(cb, [], len);
    case CallInput(data) => InputBounded(cb, data);
    case CallFlush => ApplyFlushBounded(cb);
    case CallUpdate(current) => UpdateBounded(cb, current);
  }

  lemma UserBounded(cb: Cb, msg: seq<byte>, len: int)
    requires ValidConfig(cb.cfg) && AllBounded(cb)
    ensures AllBounded(UserSend(cb, msg).cb) && AllBounded(UserRecv(cb, len).cb)
  {
    hide Bounded, Fragments, Extend, FragmentCount, Receiver.Recv, Wrap;
  }

  lemma UpdateBounded(cb: Cb, current: u32)
    requires ControlInvariant.Inv(cb) && AllBounded(cb)
    ensures AllBounded(Update(cb, current).cb)
  {
    ControlInvariant.UpdateIs(cb, current);
    var c := Clocked(cb, current);
    var f := c.(tsFlush := NextFlush(c.tsFlush, current, c.cfg.interval));
    hide Bounded, Clocked, Due, Update, Flush, NextFlush, Sender.Inv, Receiver.Inv;
    ApplyFlushBounded(f);
  }

  lemma ApplyFlushBounded(cb: Cb)
    requires ControlInvariant.Inv(cb) && AllBounded(cb)
    ensures AllBounded(Flush(cb).cb)
  {
    if cb.updated { FlushFlight(cb); }
    hide ControlInvariant.Inv, AllBounded;
  }

  lemma CreateBounded(cfg: Config, rcvWnd: u32, minrto: int)
    ensures AllBounded(Create(cfg, rcvWnd, minrto))
  {}

  lemma {:induction false} RunBounded(run: seq<Cb>, calls: seq<ControlInvariant.Call>, n: nat, cfg: Config, rcvWnd: u32,
                                      minrto: int)
    requires ControlInvariant.IsRun(run, calls) && n <= |calls|
    requires ValidConfig(cfg) && 0 < rcvWnd < HALF && 0 < minrto <= 200 && run[0] == Create(cfg, rcvWnd, minrto)
    ensures ControlInvariant.Inv(run[n]) && AllBounded(run[n])
  {
    hide ControlInvariant.Inv, ControlInvariant.Apply, AllBounded, Create;
    ControlInvariant.RunInv(run, calls, n, cfg, rcvWnd, minrto);
    if n == 0 {
      CreateBounded(cfg, rcvWnd, minrto);
    } else {
      RunBounded(run, calls, n - 1, cfg, rcvWnd, minrto);
      assert ControlInvariant.StepAt(run, calls, n - 1);
      ApplyBounded(run[n - 1], calls[n - 1]);
    }
  }

  /** Every flush of every run, asked for directly or by an update, renews the flight. */
  lemma RunFlights(run: seq<Cb>, calls: seq<ControlInvariant.Call>, n: nat, cfg: Config, rcvWnd: u32, minrto: int)
    requires ControlInvariant.IsRun(run, calls) && n < |calls|
    requires ValidConfig(cfg) && 0 < rcvWnd < HALF && 0 < minrto <= 200 && run[0] == Create(cfg, rcvWnd, minrto)
    ensures calls[n].CallFlush? && run[n].updated ==> FlightRenewed(run[n], run[n + 1].snd.buf)
    ensures calls[n].CallUpdate? && Due(run[n], calls[n].current) ==>
      FlightRenewed(Clocked(run[n], calls[n].current), run[n + 1].snd.buf)
  {
    RunBounded(run, calls, n, cfg, rcvWnd, minrto);
    hide ControlInvariant.Inv, AllBounded, Create, Flush, FlightRenewed, Update, Due, Clocked;
    assert ControlInvariant.StepAt(run, calls, n);
    assert run[n + 1] == ControlInvariant.Apply(run[n], calls[n]);
    assert calls[n].CallFlush? ==> run[n + 1] == Flush(run[n]).cb;
    assert calls[n].CallUpdate? ==> run[n + 1] == Update(run[n], calls[n].current).cb;
    hide ControlInvariant.Apply, ControlInvariant.IsRun, ControlInvariant.StepAt;
    if calls[n].CallFlush? && run[n].updated { FlushFlight(run[n]); }
    if calls[n].CallUpdate? && Due(run[n], calls[n].current) { UpdateFlight(run[n], calls[n].current); }
  }

  lemma UpdateFlight(cb: Cb, current: u32)
    requires ControlInvariant.Inv(cb) && AllBounded(cb) && Due(cb, current)
    ensures FlightRenewed(Clocked(cb, current), Update(cb, current).cb.snd.buf)
  {
    ControlInvariant.UpdateIs(cb, current);
    var c := Clocked(cb, current);
    var f := c.(tsFlush := NextFlush(c.tsFlush, current, c.cfg.interval));
    assert ControlInvariant.Inv(f) && AllBounded(f) by {
      hide Bounded, Clocked, Due, Update, Flush, NextFlush, Sender.Inv, Receiver.Inv;
    }
    FlushFlight(f);
    assert FlightRenewed(c, Flush(f).cb.snd.buf) by {
      hide Clocked, Due, Flush, Update, NextFlush, Pending, AllBounded, ControlInvariant.Inv;
    }
    hide *;
  }
}
