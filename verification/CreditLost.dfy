/** How the credit of the congestion window comes to be lost: with the usual segment size and send window,
    and any fast-resend count that is not safe, a run of a peer that acknowledges one late segment over and
    over leads there. */
module CreditLost {
  import opened Serial
  import opened Wire
  import opened Control
  import opened ControlInvariant
  import CongestionRuns
  import Congestion
  import Fragmentation
  import Overrun
  import Receiver
  import RoundTrip
  import Sender
  import InputEffect
  import Transmission

  /** Segments of 1376 bytes, a send window of 32, no congestion window on the sender. */
  function Settings(fastresend: u32): Config {
    Config(0, 1400, 32, 100, false, fastresend, true, 20, false)
  }

  /** The acknowledgement of segment 1 alone, stamped ahead so that it is no sample. */
  const LATE := WireSeg(0, CMD_ACK, 0, 128, 1, 1, 0, [])

  // ---------------------------------------------------------------- a full flight

  /** The first segment of 32 was skipped `k` times, and none is due for a timeout. */
  ghost predicate Skipping(cb: Cb, fastresend: u32, k: nat)
    ensures Skipping(cb, fastresend, k) ==> cb.cfg == Settings(fastresend)
  {
    && cb.cfg == Settings(fastresend) && cb.updated && cb.current == 0
    && cb.snd.queue == [] && cb.snd.una == 0 && cb.snd.nxt == 32
    && cb.snd.buf != [] && cb.snd.buf[0].sn == 0 && cb.snd.buf[0].fastack == k
    && forall i :: 0 <= i < |cb.snd.buf| ==> cb.snd.buf[i].xmit == 1 && cb.snd.buf[i].resendts == 225
  }

  lemma SettingsValid(fastresend: u32)
    requires fastresend < HALF
    ensures ValidConfig(Settings(fastresend)) && Mss(Settings(fastresend)) == 1376 && Limit(Settings(fastresend)) == 32
  {}

  /** A message of 32 segments is queued. */
  lemma SendFull(fastresend: u32, msg: seq<byte>)
    requires fastresend < HALF && |msg| == 44032
    ensures var cb := Create(Settings(fastresend), 128, 100);
      && cb.cfg == Settings(fastresend) && ValidConfig(cb.cfg)
      && var t := UserSend(cb, msg).cb;
         && t == cb.(snd := t.snd) && |t.snd.queue| == 32 && t.snd.buf == [] && t.snd.una == 0 && t.snd.nxt == 0
  {
    SettingsValid(fastresend);
    var cb := Create(Settings(fastresend), 128, 100);
    Fragmentation.SendMessage(cb.snd, 1376, msg);
    Fragmentation.FragmentsShape(msg, 32, 1376, false);
    assert Sender.FragmentCount(44032, 1376) == 32;
    hide Sender.Fragments, Sender.FragmentCount;
  }

  /** The first update sends all of it. */
  lemma FirstFlush(fastresend: u32, s: Cb)
    requires fastresend < HALF && s == Create(Settings(fastresend), 128, 100).(snd := s.snd)
    requires CongestionRuns.Credited(s)
    requires |s.snd.queue| == 32 && s.snd.buf == [] && s.snd.una == 0 && s.snd.nxt == 0
    ensures Skipping(Update(s, 0).cb, fastresend, 0) && CongestionRuns.Credited(Update(s, 0).cb)
  {
    hide *;
    SettingsValid(fastresend);
    CreatedIs(fastresend, s);
    UpdateIs(s, 0);
    Overrun.StartClock(s);
    var c := Clocked(s, 0);
    var f := c.(tsFlush := NextFlush(c.tsFlush, 0, 100));
    CongestionRuns.ClockedCredited(s, 0);
    CongestionRuns.CreditedParts(f);
    SenderOf(f);
    FlushFull(fastresend, f);
    FlushCredited(f);
  }

  lemma SenderOf(s: Cb)
    requires Inv(s) && Limit(s.cfg) == 32
    ensures Sender.Inv(s.snd, 32)
  {
    hide Sender.Inv, Receiver.Inv, Fitting;
  }

  /** A flush of segments never sent before keeps the credit, whatever the count. */
  lemma FlushCredited(f: Cb)
    requires CongestionRuns.Credited(f) && f.snd.buf == [] && f.updated
    ensures CongestionRuns.Credited(Flush(f).cb)
  {
    hide *;
    CongestionRuns.CreditedParts(f);
    CongestionRuns.FlushWindow(f);
    FlushInv(f);
    var c, w := TxOf(f), SendWindow(f);
    var a := Sender.Admit(f.snd, w, c);
    Transmission.AdmittedNew(f.snd, w, c);
    AllInitial(a.buf, c);
    MssSmall(f.cfg);
    Congestion.FlushKeepsCredit(f.cong, false, false, Sender.InFlight(a), w, c.resent, Mss(f.cfg));
    CongestionRuns.CreditedOf(Flush(f).cb);
  }

  lemma MssSmall(cfg: Config)
    requires ValidConfig(cfg) && cfg.mtu < 0x1_0000
    ensures 0 < Mss(cfg) < 0x1_0000 && Limit(cfg) <= 0xFFFF
  {}

  lemma {:induction false} AllInitial(buf: seq<Sender.Seg>, c: Sender.Tx)
    requires forall i :: 0 <= i < |buf| ==> buf[i].xmit == 0
    ensures Sender.CountOf(buf, c, Sender.Fast) == 0 && Sender.CountOf(buf, c, Sender.Timeout) == 0
  {
    if buf != [] { AllInitial(buf[1..], c); }
  }

  lemma CreatedIs(fastresend: u32, s: Cb)
    requires s == Create(Settings(fastresend), 128, 100).(snd := s.snd)
    ensures s.cfg == Settings(fastresend) && s.cfg.interval == 100 && !s.updated && s.rmtWnd == 128 && s.rtt.rto == 200
  {}

  lemma FlushFull(fastresend: u32, f: Cb)
    requires fastresend < HALF && f.cfg == Settings(fastresend) && f.updated && f.current == 0
    requires f.rmtWnd == 128 && f.rtt.rto == 200 && Sender.Inv(f.snd, 32)
    requires |f.snd.queue| == 32 && f.snd.buf == [] && f.snd.una == 0 && f.snd.nxt == 0
    ensures Skipping(Flush(f).cb, fastresend, 0)
  {
    hide *;
    SettingsValid(fastresend);
    FullTx(fastresend, f);
    var c := TxOf(f);
    var a := Sender.Admit(f.snd, 32, c);
    OrderedOf(f.snd);
    Sender.AdmitSpec(f.snd, 32, c, 32);
    RoomFull(f.snd, a);
    Transmission.AdmittedNew(f.snd, 32, c);
    FirstAdmitted(f.snd, 32, c);
    var after := Transmission.FlightAfter(f, a);
    FlushRest(f, a);
    forall i | 0 <= i < |after|
      ensures after[i].sn == a.buf[i].sn && after[i].fastack == 0 && after[i].xmit == 1 && after[i].resendts == 225
    {
      FirstSent(a.buf[i], c);
    }
    SkippingIs(Flush(f).cb, fastresend, 0);
  }

  lemma FullTx(fastresend: u32, f: Cb)
    requires f.cfg == Settings(fastresend) && f.current == 0 && f.rmtWnd == 128 && f.rtt.rto == 200
    ensures SendWindow(f) == 32
    ensures TxOf(f).current == 0 && TxOf(f).rxRto == 200 && TxOf(f).rtomin == 25
  {}

  lemma OrderedOf(s: Sender.Snd)
    requires Sender.Inv(s, 32)
    ensures Sender.Ordered(s, 32)
  {
    hide Sender.Ordered;
  }

  lemma RoomFull(s: Sender.Snd, a: Sender.Snd)
    requires |s.queue| == 32 && s.buf == [] && s.una == 0 && s.nxt == 0 && a.una == s.una
    requires Sender.InFlight(a) == Sender.InFlight(s) + Sender.Room(s, 32) && a.queue == s.queue[Sender.Room(s, 32)..]
    requires |a.buf| == |s.buf| + Sender.Room(s, 32)
    ensures Sender.Room(s, 32) == 32 && a.queue == [] && |a.buf| == 32 && a.nxt == 32
  {}

  lemma FlushRest(f: Cb, a: Sender.Snd)
    requires ValidConfig(f.cfg) && f.updated && a == Sender.Admit(f.snd, SendWindow(f), TxOf(f))
    ensures var t := Flush(f).cb;
      && t.cfg == f.cfg && t.updated && t.current == f.current
      && t.snd.queue == a.queue && t.snd.una == a.una && t.snd.nxt == a.nxt
  {
    hide Sender.Admit, SendWindow, TxOf, ProbeTimer, Congestion.AfterFlush, ReachedDeadLink, Sender.TransmitAll;
  }

  lemma FirstSent(g: Sender.Seg, c: Sender.Tx)
    requires g.xmit == 0 && g.fastack == 0 && c.current == 0 && c.rxRto == 200 && c.rtomin == 25
    ensures var t := Sender.Transmit(g, c); t.sn == g.sn && t.fastack == 0 && t.xmit == 1 && t.resendts == 225
  {}

  lemma SkippingIs(cb: Cb, fastresend: u32, k: nat)
    ensures Skipping(cb, fastresend, k) <==>
      && cb.cfg == Settings(fastresend) && cb.updated && cb.current == 0
      && cb.snd.queue == [] && cb.snd.una == 0 && cb.snd.nxt == 32
      && cb.snd.buf != [] && cb.snd.buf[0].sn == 0 && cb.snd.buf[0].fastack == k
      && forall i :: 0 <= i < |cb.snd.buf| ==> cb.snd.buf[i].xmit == 1 && cb.snd.buf[i].resendts == 225
  {
    hide Settings;
  }

  // ---------------------------------------------------------------- the late acknowledgement

  /** Each time it arrives, the first segment is skipped once more and nothing else changes about it. */
  lemma SkipOnce(cb: Cb, fastresend: u32, k: nat)
    requires fastresend < HALF && Skipping(cb, fastresend, k) && k + 1 < 0x1_0000_0000
    ensures Skipping(Input(cb, EncodeAll([LATE])).cb, fastresend, k + 1)
  {
    hide *;
    SettingsValid(fastresend);
    SkippingIs(cb, fastresend, k);
    LateAcceptable(fastresend);
    InputEffect.InputIs(cb, [LATE]);
    LateSegment(cb);
    var t := Sender.ShrinkBuf(Sender.ParseAck(Sender.ShrinkBuf(Sender.ParseUna(cb.snd, 0)), 1));
    AckStep(cb.snd);
    SkipStep(t, k);
    LateFinish(OnSegment(cb, LATE), t);
    SkippingIs(Input(cb, EncodeAll([LATE])).cb, fastresend, k + 1);
  }

  lemma LateAcceptable(fastresend: u32)
    ensures AllAcceptable(Settings(fastresend).conv, [LATE]) && AllSized([LATE]) && TotalSize([LATE]) < HALF
  {
    assert TotalSize([LATE]) == Size(LATE) + TotalSize([]);
  }

  lemma LateSegment(cb: Cb)
    requires cb.current == 0
    ensures OnSegments(cb, [LATE]) == OnSegment(cb, LATE) && HighestAck(NoAck, [LATE]) == Highest.Ack(1)
    ensures OnSegment(cb, LATE) ==
      cb.(rmtWnd := 128, snd := Sender.ShrinkBuf(Sender.ParseAck(Sender.ShrinkBuf(Sender.ParseUna(cb.snd, 0)), 1)))
  {
    assert TimeDiff(0, 1) == -1;
    hide Sender.ShrinkBuf, Sender.ParseAck, Sender.ParseUna, RoundTrip.UpdateAck, Receiver.OnPush, TimeDiff;
    assert [LATE][1..] == [];
  }

  lemma AckStep(s: Sender.Snd)
    requires s.una == 0 && s.nxt == 32 && s.queue == [] && s.buf != [] && s.buf[0].sn == 0
    requires forall i :: 0 <= i < |s.buf| ==> s.buf[i].xmit == 1 && s.buf[i].resendts == 225
    ensures var t := Sender.ShrinkBuf(Sender.ParseAck(Sender.ShrinkBuf(Sender.ParseUna(s, 0)), 1));
      && t.una == 0 && t.nxt == 32 && t.queue == [] && t.buf != [] && t.buf[0] == s.buf[0]
      && forall i :: 0 <= i < |t.buf| ==> t.buf[i].xmit == 1 && t.buf[i].resendts == 225
  {
    assert Sender.ParseUna(s, 0).buf == s.buf by { assert TimeDiff(0, 0) == 0; assert Sender.BelowUna(s.buf, 0) == 0; }
    var u := Sender.ShrinkBuf(Sender.ParseUna(s, 0));
    assert u.una == 0 && u.nxt == 32 && u.queue == [] && u.buf == s.buf;
    assert TimeDiff(1, 0) == 1 && TimeDiff(1, 32) == -31;
    hide TimeDiff;
    assert Sender.WithoutSn(u.buf, 1) == [u.buf[0]] + Sender.WithoutSn(u.buf[1..], 1);
    var k := Sender.WithoutSnSpec(u.buf, 1);
    hide Sender.WithoutSn, Sender.ParseUna;
  }

  lemma SkipStep(t: Sender.Snd, k: nat)
    requires t.una == 0 && t.nxt == 32 && t.buf != [] && t.buf[0].sn == 0 && t.buf[0].fastack == k
    requires k + 1 < 0x1_0000_0000
    ensures var u := Sender.ParseFastack(t, 1);
      u == t.(buf := u.buf) && |u.buf| == |t.buf| && u.buf[0].fastack == k + 1
      && forall i :: 0 <= i < |t.buf| ==> u.buf[i] == t.buf[i].(fastack := u.buf[i].fastack)
  {
    assert TimeDiff(1, 0) == 1 && TimeDiff(1, 32) == -31;
    hide TimeDiff;
  }

  lemma LateFinish(c: Cb, t: Sender.Snd)
    requires ValidConfig(c.cfg) && c.snd == t && t.una == 0 && Sender.ParseFastack(t, 1).una == 0
    ensures Finish(c, 0, Highest.Ack(1)) == c.(snd := Sender.ParseFastack(t, 1))
  {
    assert TimeDiff(0, 0) == 0;
    hide Sender.ParseFastack, Congestion.OnAdvance, TimeDiff;
  }

  // ---------------------------------------------------------------- the run

  /** The acknowledgement has arrived `k` times. */
  lemma {:induction false} SkippedRun(fastresend: u32, k: nat) returns (run: seq<Cb>, calls: seq<Call>)
    requires fastresend < HALF && k < 0x1_0000_0000
    ensures IsRun(run, calls) && run[0] == Create(Settings(fastresend), 128, 100)
    ensures Skipping(run[|calls|], fastresend, k) && CongestionRuns.Credited(run[|calls|])
  {
    hide UserSend, Update, Input, Skipping, Create, ValidConfig, EncodeAll, AllSized, CongestionRuns.Credited;
    SettingsValid(fastresend);
    if k == 0 {
      var msg: seq<byte> := seq(44032, i => 0);
      var cb := Create(Settings(fastresend), 128, 100);
      SendFull(fastresend, msg);
      run, calls := [cb], [];
      assert IsRun(run, calls);
      run, calls := Overrun.RunExtended(run, calls, CallSend(msg));
      CongestionRuns.CreateCredited(Settings(fastresend), 128, 100);
      CongestionRuns.UserCredited(cb, msg, 0);
      FirstFlush(fastresend, UserSend(cb, msg).cb);
      run, calls := Overrun.RunExtended(run, calls, CallUpdate(0));
    } else {
      run, calls := SkippedRun(fastresend, k - 1);
      SkipOnce(run[|calls|], fastresend, k - 1);
      LateAcceptable(fastresend);
      CongestionRuns.InputCredited(run[|calls|], EncodeAll([LATE]));
      run, calls := Overrun.RunExtended(run, calls, CallInput(EncodeAll([LATE])));
    }
  }

  /** When it has arrived as often as a fast retransmission takes, the next flush retransmits the first
      segment and nothing else is counted as lost. */
  lemma SkippedFast(fastresend: u32, cb: Cb)
    requires 0 < fastresend && Skipping(cb, fastresend, fastresend)
    ensures var c := TxOf(cb);
      && Sender.Admit(cb.snd, SendWindow(cb), c) == cb.snd && Sender.InFlight(cb.snd) == 32
      && Sender.CountOf(cb.snd.buf, c, Sender.Fast) > 0 && Sender.CountOf(cb.snd.buf, c, Sender.Timeout) == 0
  {
    var c := TxOf(cb);
    assert c.current == 0 && c.resent == fastresend;
    assert Sender.Judge(cb.snd.buf[0], c) == Sender.Fast by { hide TxOf; }
    hide TxOf, SendWindow;
    NoTimeouts(cb.snd.buf, c);
  }

  lemma {:induction false} NoTimeouts(buf: seq<Sender.Seg>, c: Sender.Tx)
    requires c.current == 0 && forall i :: 0 <= i < |buf| ==> buf[i].xmit == 1 && buf[i].resendts == 225
    ensures Sender.CountOf(buf, c, Sender.Timeout) == 0
  {
    if buf != [] { NoTimeouts(buf[1..], c); }
  }

  /** With the usual settings and any fast-resend count that is not safe, a run from a created control
      block has the credit before its last call, a flush, and has lost it after. */
  lemma CreditLostInRun(fastresend: u32) returns (run: seq<Cb>, calls: seq<Call>)
    requires 3121326 < fastresend < HALF
    ensures IsRun(run, calls) && run[0] == Create(Settings(fastresend), 128, 100)
    ensures |calls| > 0 && calls[|calls| - 1].CallFlush?
    ensures CongestionRuns.Credited(run[|calls| - 1]) && !CongestionRuns.Credited(run[|calls|])
  {
    hide Flush, Skipping, Create, CongestionRuns.Credited, CongestionRuns.ResentSafe;
    SettingsValid(fastresend);
    run, calls := SkippedRun(fastresend, fastresend);
    RunInv(run, calls, |calls|, Settings(fastresend), 128, 100);
    var cb := run[|calls|];
    CongestionRuns.UsualCountSafe(Settings(fastresend));
    FlushBreaks(fastresend, cb);
    run, calls := Overrun.RunExtended(run, calls, CallFlush);
  }

  lemma FlushBreaks(fastresend: u32, cb: Cb)
    requires 0 < fastresend < HALF && Inv(cb) && Skipping(cb, fastresend, fastresend)
    requires ValidConfig(Settings(fastresend)) && !CongestionRuns.ResentSafe(Settings(fastresend))
    ensures !CongestionRuns.Credited(Flush(cb).cb)
  {
    hide *;
    SettingsValid(fastresend);
    SkippingIs(cb, fastresend, fastresend);
    SkippedFast(fastresend, cb);
    CongestionRuns.FlushWindow(cb);
    FlushInv(cb);
    NotFits(fastresend);
    CongestionRuns.FastBreaks(cb.cong, 32, SendWindow(cb), cb.cfg);
    if CongestionRuns.Credited(Flush(cb).cb) { CongestionRuns.CreditedParts(Flush(cb).cb); }
  }

  lemma NotFits(fastresend: u32)
    requires ValidConfig(Settings(fastresend)) && !CongestionRuns.ResentSafe(Settings(fastresend))
    requires Limit(Settings(fastresend)) == 32
    ensures !CongestionRuns.WindowFits(32, Settings(fastresend))
  {
    hide CongestionRuns.WindowFits, Settings, Limit;
  }
}
