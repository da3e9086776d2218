/** The congestion credit over every run, whatever the peer sends. */
module CongestionRuns {
  import opened Serial
  import opened Wire
  import opened Control
  import opened ControlInvariant
  import opened Congestion
  import Sender
  import Receiver
  import RoundTrip
  import InputEffect

  /** Segments below 64 KiB, and the credit. */
  ghost predicate Credited(cb: Cb)
    ensures Credited(cb) ==> ValidConfig(cb.cfg)
  {
    ControlInvariant.Inv(cb) && cb.cfg.mtu < 0x1_0000 && Credit(cb.cong, Mss(cb.cfg))
  }

  /** What stands for the fast-resend count in a flush: 0 means off. */
  function Resent(cfg: Config): u32 {
    if cfg.fastresend > 0 then cfg.fastresend else 0xFFFF_FFFF
  }

  /** With `inflight` segments in flight the window of a fast retransmission fits 32 bits in bytes. */
  predicate WindowFits(inflight: int, cfg: Config)
    requires ValidConfig(cfg)
  {
    Bytes(Wrap(Max(inflight / 2, THRESH_MIN) + Resent(cfg)), Mss(cfg)) < 0x1_0000_0000
  }

  /** The settings under which it does with the largest flight, and so with every other. */
  predicate ResentSafe(cfg: Config)
    requires ValidConfig(cfg)
  {
    WindowFits(Limit(cfg), cfg)
  }

  lemma SafeBelow(inflight: int, cfg: Config)
    requires ValidConfig(cfg) && ResentSafe(cfg) && 0 <= inflight <= Limit(cfg)
    ensures WindowFits(inflight, cfg)
  {
    var most := Limit(cfg);
    WindowMonotone(Max(inflight / 2, THRESH_MIN), Max(most / 2, THRESH_MIN), Resent(cfg));
    hide Wrap, Bytes, Limit, Mss, Resent;
    BytesMonotone(Wrap(Max(inflight / 2, THRESH_MIN) + Resent(cfg)), Wrap(Max(most / 2, THRESH_MIN) + Resent(cfg)),
                  Mss(cfg));
  }

  /** A count below half the circle does not wrap, and the value for off wraps by one. */
  lemma WindowMonotone(a: nat, b: nat, resent: u32)
    requires 2 <= a <= b <= 0xFFFF && (resent < HALF || resent == 0xFFFF_FFFF)
    ensures Wrap(a + resent) <= Wrap(b + resent)
  {
    if resent == 0xFFFF_FFFF {
      WrapAdd(resent, a);
      WrapAdd(resent, b);
      assert Wrap(a + resent) == a - 1 && Wrap(b + resent) == b - 1;
    }
  }

  /** A count of up to 32767, and off, are safe whatever the other settings. */
  lemma SmallCountSafe(cfg: Config)
    requires ValidConfig(cfg) && cfg.mtu < 0x1_0000 && cfg.fastresend <= 32767
    ensures ResentSafe(cfg)
  {
    hide Bytes, Wrap;
    ResentFits(Limit(cfg), Resent(cfg), Mss(cfg));
  }

  /** With segments of 1376 bytes and a send window of 32, exactly the counts up to 3121326 are safe. */
  lemma UsualCountSafe(cfg: Config)
    requires ValidConfig(cfg) && cfg.mtu == 1400 && cfg.sndWnd == 32
    ensures ResentSafe(cfg) <==> cfg.fastresend <= 3121326
  {}

  lemma {:induction false} OnSegmentsKeepCong(cb: Cb, segs: seq<WireSeg>)
    ensures OnSegments(cb, segs).cong == cb.cong && OnSegments(cb, segs).cfg == cb.cfg
    decreases |segs|
  {
    hide RoundTrip.UpdateAck, Receiver.OnPush, Sender.ParseUna, Sender.ParseAck, Sender.ShrinkBuf, TimeDiff;
    if segs != [] { OnSegmentsKeepCong(OnSegment(cb, segs[0]), segs[1..]); }
  }

  /** What the definitions say about the window after an input. */
  lemma InputWindow(cb: Cb, data: seq<byte>)
    requires ControlInvariant.Inv(cb)
    ensures var r := Input(cb, data).cb;
      && r.cfg == cb.cfg && ValidConfig(cb.cfg) && r.rmtWnd < 0x1_0000
      && (r.cong == cb.cong || r.cong == OnAdvance(cb.cong, r.rmtWnd, Mss(cb.cfg)))
  {
    InputInv(cb, data);
    var p := Parse(cb.cfg.conv, data);
    OnSegmentsKeepCong(cb, p.segs);
    hide Sender.Inv, Receiver.Inv, OnSegments, OnAdvance, Parse, ToI32, HighestAck, Sender.ParseFastack, TimeDiff;
  }

  /** A datagram that moves the flight's head adds the credit of slow start or of congestion avoidance unless
      the window fills the remote one; any other leaves the window alone. */
  lemma InputGrows(cb: Cb, segs: seq<WireSeg>)
    requires Credited(cb) && segs != [] && AllAcceptable(cb.cfg.conv, segs) && TotalSize(segs) < HALF
    ensures var r, c, mss := Input(cb, EncodeAll(segs)).cb, cb.cong, Mss(cb.cfg);
      && (r.snd.una == cb.snd.una || c.cwnd >= r.rmtWnd ==> r.cong == c)
      && (r.snd.una != cb.snd.una && c.cwnd < r.rmtWnd ==>
            && r.cong.ssthresh == c.ssthresh && Credit(r.cong, mss)
            && r.cong.incr == c.incr + if c.cwnd < c.ssthresh then mss else Growth(c.incr, mss))
  {
    hide ControlInvariant.Inv, OnAdvance, Credit, Input, ValidConfig, Avoid, AllAcceptable, TotalSize, EncodeAll,
      Growth;
    InputEffect.InputReports(cb, segs);
    InputEffect.SndInv(cb);
    AdvanceKeepsCredit(cb.cong, Input(cb, EncodeAll(segs)).cb.rmtWnd, Mss(cb.cfg));
  }

  /** One datagram, whatever its bytes, raises `cwnd` by at most one and never past the remote window
      it leaves, except that a window already beyond it stays. */
  lemma InputCredited(cb: Cb, data: seq<byte>)
    requires Credited(cb)
    ensures Credited(Input(cb, data).cb)
    ensures cb.cong.cwnd <= Input(cb, data).cb.cong.cwnd <= cb.cong.cwnd + 1
    ensures Input(cb, data).cb.cong.cwnd <= Max(cb.cong.cwnd, Input(cb, data).cb.rmtWnd)
  {
    hide ControlInvariant.Inv, OnAdvance, Credit, Input, ValidConfig, Avoid;
    InputInv(cb, data);
    InputWindow(cb, data);
    AdvanceKeepsCredit(cb.cong, Input(cb, data).cb.rmtWnd, Mss(cb.cfg));
  }

  /** What the definitions say about the window after a flush. */
  lemma FlushWindow(cb: Cb)
    requires ControlInvariant.Inv(cb)
    ensures ValidConfig(cb.cfg)
    ensures var a := Sender.Admit(cb.snd, SendWindow(cb), TxOf(cb));
      && Sender.InFlight(a) <= Limit(cb.cfg) && TxOf(cb).resent == Resent(cb.cfg)
      && Flush(cb).cb.cong == (if !cb.updated then cb.cong else
           AfterFlush(cb.cong, Sender.CountOf(a.buf, TxOf(cb), Sender.Fast) > 0,
                      Sender.CountOf(a.buf, TxOf(cb), Sender.Timeout) > 0, Sender.InFlight(a), SendWindow(cb),
                      TxOf(cb).resent, Mss(cb.cfg)))
  {
    Sender.AdmitSpec(cb.snd, SendWindow(cb), TxOf(cb), Limit(cb.cfg));
    hide Receiver.Inv, AfterFlush, Sender.Admit, Sender.CountOf, Off, Sender.Sent, Sender.TransmitAll, ProbeTimer,
      ReachedDeadLink, AckSegs, ProbeSegs, ToWires, TxOf;
  }

  lemma FlushCredited(cb: Cb)
    requires Credited(cb) && ResentSafe(cb.cfg)
    ensures Credited(Flush(cb).cb)
  {
    hide ControlInvariant.Inv, Credit, AfterFlush, Sender.Admit, Sender.CountOf, Sender.InFlight, Flush, ValidConfig,
      SendWindow, Bytes, TxOf, ResentSafe;
    FlushInv(cb);
    FlushWindow(cb);
    var c, w := TxOf(cb), SendWindow(cb);
    var a := Sender.Admit(cb.snd, w, c);
    SafeBelow(Sender.InFlight(a), cb.cfg);
    FlushKeepsCredit(cb.cong, Sender.CountOf(a.buf, c, Sender.Fast) > 0, Sender.CountOf(a.buf, c, Sender.Timeout) > 0,
                     Sender.InFlight(a), w, c.resent, Mss(cb.cfg));
  }

  lemma ClockedCredited(cb: Cb, current: u32)
    requires Credited(cb)
    ensures var c := Clocked(cb, current);
      Credited(c) && Credited(c.(tsFlush := NextFlush(c.tsFlush, current, c.cfg.interval)))
  {
    hide Sender.Inv, Receiver.Inv, ValidConfig, Credit, NextFlush, TimeDiff, ControlInvariant.Fitting, Limit, Mss;
  }

  lemma UpdateCredited(cb: Cb, current: u32)
    requires Credited(cb) && ResentSafe(cb.cfg)
    ensures Credited(Update(cb, current).cb)
  {
    assert ValidConfig(cb.cfg) by { hide Sender.Inv, Receiver.Inv; }
    ClockedCredited(cb, current);
    UpdateIs(cb, current);
    var c := Clocked(cb, current);
    FlushCredited(c.(tsFlush := NextFlush(c.tsFlush, current, c.cfg.interval)));
    hide *;
  }

  lemma UserCredited(cb: Cb, msg: seq<byte>, len: int)
    requires Credited(cb)
    ensures Credited(UserSend(cb, msg).cb) && Credited(UserRecv(cb, len).cb)
  {
    UserSendInv(cb, msg);
    UserRecvInv(cb, len);
    hide ControlInvariant.Inv, Sender.Send, Receiver.Recv, Credit, ValidConfig;
  }

  /** Every call keeps the credit under safe settings, and the settings stay. */
  lemma ApplyCredited(cb: Cb, call: Call)
    requires Credited(cb) && ResentSafe(cb.cfg)
    ensures Credited(Apply(cb, call)) && Apply(cb, call).cfg == cb.cfg
  {
    ApplyConfig(cb, call);
    hide Credited, UserSend, UserRecv, Input, Flush, Update, ResentSafe;
    match call
    case CallSend(msg) => UserCredited(cb, msg, 0);
    case CallRecv(len) => UserCredited(cb, [], len);
    case CallInput(data) => InputCredited(cb, data);
    case CallFlush => FlushCredited(cb);
    case CallUpdate(current) => UpdateCredited(cb, current);
  }

  lemma CreateCredited(cfg: Config, rcvWnd: u32, minrto: int)
    requires ValidConfig(cfg) && cfg.mtu < 0x1_0000
    requires 0 < rcvWnd < HALF && 0 < minrto <= 200
    ensures Credited(Create(cfg, rcvWnd, minrto))
  {
    CreateInv(cfg, rcvWnd, minrto);
    hide ControlInvariant.Inv;
  }

  /** The credit in every state of every run with safe settings. */
  lemma {:induction false} RunCredited(run: seq<Cb>, calls: seq<Call>, n: nat, cfg: Config, rcvWnd: u32, minrto: int)
    requires IsRun(run, calls) && n <= |calls|
    requires ValidConfig(cfg) && cfg.mtu < 0x1_0000 && ResentSafe(cfg)
    requires 0 < rcvWnd < HALF && 0 < minrto <= 200 && run[0] == Create(cfg, rcvWnd, minrto)
    ensures Credited(run[n]) && run[n].cfg == cfg
  {
    hide Credited, Apply, ResentSafe;
    if n == 0 {
      CreateCredited(cfg, rcvWnd, minrto);
    } else {
      RunCredited(run, calls, n - 1, cfg, rcvWnd, minrto);
      assert StepAt(run, calls, n - 1);
      ApplyCredited(run[n - 1], calls[n - 1]);
    }
  }

  // ---------------------------------------------------------------- settings that are not safe

  /** One segment of `inflight` is left, and as many later ones were acknowledged as a fast retransmission
      takes; the credit holds. */
  function Overtaken(cfg: Config, inflight: u32): Cb
    requires ValidConfig(cfg)
  {
    Create(cfg, 128, 100).(snd := Sender.Snd(0, inflight, [], [Skipped(cfg)], 0, 1), cong := Cong(1, Mss(cfg), 2),
                           updated := true)
  }

  function Skipped(cfg: Config): Sender.Seg {
    Sender.Seg(0, [], 0, 0, 0, 0, 1, 200, Resent(cfg), 1)
  }

  lemma OvertakenCredited(cfg: Config, inflight: u32)
    requires ValidConfig(cfg) && cfg.mtu < 0x1_0000 && 0 < inflight <= Limit(cfg)
    ensures Credited(Overtaken(cfg, inflight)) && Overtaken(cfg, inflight).cfg == cfg
  {
    assert Bytes(1, Mss(cfg)) == Mss(cfg) && Bytes(2, Mss(cfg)) == 2 * Mss(cfg);
    hide Bytes;
  }

  /** Nothing is admitted, and the one segment is due for a fast retransmission and nothing else. */
  lemma OvertakenFast(cfg: Config, inflight: u32)
    requires ValidConfig(cfg)
    ensures var cb := Overtaken(cfg, inflight);
      var c := TxOf(cb);
      && cb.updated && Sender.Admit(cb.snd, SendWindow(cb), c) == cb.snd && Sender.InFlight(cb.snd) == inflight
      && Sender.CountOf(cb.snd.buf, c, Sender.Fast) == 1 && Sender.CountOf(cb.snd.buf, c, Sender.Timeout) == 0
  {
    hide SendWindow;
    var c := TxOf(Overtaken(cfg, inflight));
    assert Sender.Judge(Skipped(cfg), c) == Sender.Fast by { assert TimeDiff(0, 1) == -1; }
    hide TxOf, TimeDiff, Sender.Judge, Mss, ValidConfig;
  }

  lemma OvertakenFlush(cfg: Config, inflight: u32)
    requires ValidConfig(cfg) && cfg.mtu < 0x1_0000 && 0 < inflight <= Limit(cfg)
    requires !WindowFits(inflight, cfg)
    ensures !Credited(Flush(Overtaken(cfg, inflight)).cb)
  {
    hide *;
    var cb := Overtaken(cfg, inflight);
    OvertakenCredited(cfg, inflight);
    CreditedParts(cb);
    OvertakenFast(cfg, inflight);
    FlushWindow(cb);
    FlushInv(cb);
    FastBreaks(cb.cong, inflight, SendWindow(cb), cfg);
    if Credited(Flush(cb).cb) { CreditedParts(Flush(cb).cb); }
  }

  lemma CreditedParts(cb: Cb)
    requires Credited(cb)
    ensures ControlInvariant.Inv(cb) && cb.cfg.mtu < 0x1_0000 && Credit(cb.cong, Mss(cb.cfg))
  {
    hide Credit, ControlInvariant.Inv;
  }

  lemma CreditedOf(cb: Cb)
    requires ControlInvariant.Inv(cb) && cb.cfg.mtu < 0x1_0000 && Credit(cb.cong, Mss(cb.cfg))
    ensures Credited(cb)
  {
    hide Credit, ControlInvariant.Inv;
  }

  lemma FastBreaks(c: Cong, inflight: u32, window: u32, cfg: Config)
    requires ValidConfig(cfg) && !WindowFits(inflight, cfg)
    ensures !Credit(AfterFlush(c, true, false, inflight, window, Resent(cfg), Mss(cfg)), Mss(cfg))
  {
    FastKeepsCredit(c, inflight, Resent(cfg), Mss(cfg));
    assert Bytes(0, Mss(cfg)) == 0;
    hide Wrap, Bytes, Resent, Mss;
  }

  /** The credit survives every flush exactly under safe settings. */
  lemma CreditKeptExactly(cfg: Config)
    requires ValidConfig(cfg) && cfg.mtu < 0x1_0000
    ensures ResentSafe(cfg) <==> forall cb :: Credited(cb) && cb.cfg == cfg ==> Credited(Flush(cb).cb)
  {
    hide Credited, Flush, WindowFits, Overtaken;
    forall cb | Credited(cb) && cb.cfg == cfg && ResentSafe(cfg) ensures Credited(Flush(cb).cb) {
      FlushCredited(cb);
    }
    if !ResentSafe(cfg) {
      OvertakenCredited(cfg, Limit(cfg));
      OvertakenFlush(cfg, Limit(cfg));
    }
  }
}
