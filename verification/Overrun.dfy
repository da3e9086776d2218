/** How a segment comes to be overdue right after it was sent, because its timeout passes half the clock,
    and how the timeout comes to shrink, because it passes the whole. */
module Overrun {
  import opened Serial
  import opened Control
  import opened ControlInvariant
  import opened Transmission
  import Sender

  const CFG := Config(0, 1400, 32, 100, false, 0, true, 20, false)

  // ---------------------------------------------------------------- one flush

  /** One segment in flight, in a control block whose clock stands at 0. */
  function Holding(fastresend: u32, rto: int, g: Sender.Seg): Cb
    requires fastresend < HALF
  {
    var cb := Create(CFG.(fastresend := fastresend), 128, 100);
    cb.(snd := Sender.Snd(0, 1, [], [g], 0, 1), rtt := cb.rtt.(rto := rto), updated := true)
  }

  lemma HoldingFlush(fastresend: u32, rto: int, g: Sender.Seg)
    requires fastresend < HALF && 100 <= rto <= 60000 && g.sn == 0 && g.data == [] && Bounded(g)
    ensures var cb := Holding(fastresend, rto, g);
      && Inv(cb) && AllBounded(cb) && TxOf(cb).current == 0 && TxOf(cb).rxRto == rto && !TxOf(cb).nodelay
      && TxOf(cb).resent == (if fastresend > 0 then fastresend else 0xFFFF_FFFF)
    ensures var cb := Holding(fastresend, rto, g);
      Flush(cb).cb.snd.buf == [Sender.Transmit(g, TxOf(cb))]
  {
    var cb := Holding(fastresend, rto, g);
    assert Sender.Admit(cb.snd, SendWindow(cb), TxOf(cb)) == cb.snd by { hide SendWindow, TxOf; }
    assert cb.snd.buf == [g];
    hide Sender.Admit, Bounded, Sender.Transmit, SendWindow, ProbeTimer, ReachedDeadLink, Sender.CountOf;
  }

  /** The bound on the number of transmissions is tight: after 35791 of them, each 60 seconds longer, the
      next timeout passes half the clock. */
  lemma TimeoutOverruns()
    ensures var cb := Holding(0, 60000, Sender.Seg(0, [], 0, 0, 0, 0, 0, 2147460000, 0, YOUNG));
      Inv(cb) && AllBounded(cb) && |Flush(cb).cb.snd.buf| == 1 && !Pending(Flush(cb).cb.snd.buf[0], cb.current)
  {
    var g := Sender.Seg(0, [], 0, 0, 0, 0, 0, 2147460000, 0, YOUNG);
    HoldingFlush(0, 60000, g);
    hide Flush, Inv, AllBounded, TxOf;
  }

  /** So does a fast retransmission of a segment whose timeout has passed it already. */
  lemma FastOverruns()
    ensures var cb := Holding(2, 200, Sender.Seg(0, [], 0, 0, 0, 0, 1, 0x8000_0001, 5, 40000));
      Inv(cb) && AllBounded(cb) && |Flush(cb).cb.snd.buf| == 1 && !Pending(Flush(cb).cb.snd.buf[0], cb.current)
  {
    var g := Sender.Seg(0, [], 0, 0, 0, 0, 1, 0x8000_0001, 5, 40000);
    HoldingFlush(2, 200, g);
    hide Flush, Inv, AllBounded, TxOf, Pending;
    EarlyOverrun(g, TxOf(Holding(2, 200, g)));
    hide Sender.Transmit;
  }

  /** And a timeout that passes 32 bits shrinks. */
  lemma TimeoutShrinks()
    ensures var cb := Holding(0, 60000, Sender.Seg(0, [], 0, 0, 0, 0, 0, 0xFFFF_FFF0, 0, 80000));
      Inv(cb) && AllBounded(cb) && |Flush(cb).cb.snd.buf| == 1 && Flush(cb).cb.snd.buf[0].rto < cb.snd.buf[0].rto
  {
    var g := Sender.Seg(0, [], 0, 0, 0, 0, 0, 0xFFFF_FFF0, 0, 80000);
    var cb := Holding(0, 60000, g);
    HoldingFlush(0, 60000, g);
    hide Flush, Inv, AllBounded, TxOf, Lengthens;
    ShortOverflow(g, TxOf(cb));
    LongerExactly(g, TxOf(cb));
    hide Sender.Transmit;
  }

  lemma ShortOverflow(g: Sender.Seg, c: Sender.Tx)
    requires g.xmit == 80000 && g.resendts == 0 && g.rto == 0xFFFF_FFF0
    requires c.current == 0 && c.rxRto == 60000 && !c.nodelay
    ensures !Lengthens(g, c)
  {}

  /** And the largest count is followed by zero. */
  lemma CounterWraps()
    ensures var cb := Holding(0, 200, Sender.Seg(0, [], 0, 0, 0, 0, 0, 200, 0, 0xFFFF_FFFF));
      Inv(cb) && AllBounded(cb) && |Flush(cb).cb.snd.buf| == 1 && Flush(cb).cb.snd.buf[0].xmit == 0
  {
    var g := Sender.Seg(0, [], 0, 0, 0, 0, 0, 200, 0, 0xFFFF_FFFF);
    HoldingFlush(0, 200, g);
    hide Flush, Inv, AllBounded, TxOf;
    DueAt(g, TxOf(Holding(0, 200, g)));
    CounterWrapsExactly(g, TxOf(Holding(0, 200, g)));
    hide Sender.Transmit, Sender.Judge;
  }

  lemma DueAt(g: Sender.Seg, c: Sender.Tx)
    requires g.xmit == 0xFFFF_FFFF && g.resendts == 0 && c.current == 0
    ensures Sender.Judge(g, c) != Sender.Idle
  {}

  lemma EarlyOverrun(g: Sender.Seg, c: Sender.Tx)
    requires g.xmit == 40000 && g.resendts == 1 && g.fastack == 5 && g.rto == 0x8000_0001
    requires c.current == 0 && c.resent == 2
    ensures !Pending(Sender.Transmit(g, c), 0)
  {}

  // ---------------------------------------------------------------- a run

  /** One segment was sent, the peer never answered, and `k` timeouts have passed, each at its time. */
  ghost predicate Waiting(cb: Cb, k: nat)
    ensures Waiting(cb, k) ==> cb.cfg == CFG && |cb.snd.buf| == 1
    ensures Waiting(cb, k) && k > 0 ==> cb.snd.buf[0].resendts == Wrap(cb.current + 200 * (k + 1))
  {
    && cb.cfg == CFG && cb.updated && cb.rtt == Create(CFG, 128, 100).rtt && cb.rmtWnd == 128
    && cb.tsFlush == Wrap(cb.current + CFG.interval)
    && |cb.snd.buf| == 1 && cb.snd.queue == []
    && var g := cb.snd.buf[0];
       && g.xmit == k + 1 && g.rto == 200 * (k + 1) && g.fastack == 0
       && g.resendts == Wrap(cb.current + if k == 0 then 225 else g.rto)
  }

  /** The update at the resend time, as long as that is at most half the clock ahead. */
  lemma WaitStep(cb: Cb, k: nat)
    requires Waiting(cb, k) && 200 * (k + 1) < HALF
    ensures Waiting(Update(cb, cb.snd.buf[0].resendts).cb, k + 1)
  {
    hide Waiting, Update, Clocked, Due, Flush, NextFlush, Create, ValidConfig, TimeDiff, Wrap;
    DiffExact(cb.snd.buf[0].resendts, cb.snd.buf[0].resendts);
    var g, now: u32 := cb.snd.buf[0], cb.snd.buf[0].resendts;
    WaitingIs(cb, k);
    Settings();
    UpdateIs(cb, now);
    WaitClock(cb, now, if k == 0 then 225 else 200 * (k + 1));
    var c := Clocked(cb, now);
    var f := c.(tsFlush := NextFlush(c.tsFlush, now, 100));
    WaitFlush(f, g, k);
    WaitingIs(Flush(f).cb, k + 1);
  }

  /** Past half the clock the segment is overdue at once, so the next flush times it out again. */
  lemma WaitAgain(cb: Cb, k: nat)
    requires Waiting(cb, k) && 200 * (k + 1) > HALF && 200 * (k + 2) < 0x1_0000_0000
    ensures Waiting(Flush(cb).cb, k + 1)
  {
    hide Waiting, Flush, Create, ValidConfig, TimeDiff, Wrap;
    WaitingIs(cb, k);
    Settings();
    Overdue(cb.current, 200 * (k + 1));
    WaitFlush(cb, cb.snd.buf[0], k);
    WaitingIs(Flush(cb).cb, k + 1);
  }

  lemma Overdue(current: u32, rto: u32)
    requires rto > HALF
    ensures TimeDiff(current, Wrap(current + rto)) >= 0
  {}

  lemma Settings()
    ensures CFG.interval == 100 && ValidConfig(CFG)
  {}

  lemma WaitingIs(cb: Cb, k: nat)
    ensures Waiting(cb, k) <==>
      && cb.cfg == CFG && cb.updated && cb.rtt == Create(CFG, 128, 100).rtt && cb.rmtWnd == 128
      && cb.tsFlush == Wrap(cb.current + CFG.interval) && cb.snd.queue == [] && |cb.snd.buf| == 1
      && cb.snd.buf[0].xmit == k + 1 && cb.snd.buf[0].rto == 200 * (k + 1) && cb.snd.buf[0].fastack == 0
      && cb.snd.buf[0].resendts == Wrap(cb.current + if k == 0 then 225 else 200 * (k + 1))
  {
    hide Create, Wrap;
  }

  lemma WaitClock(cb: Cb, now: u32, wait: nat)
    requires cb.updated && cb.tsFlush == Wrap(cb.current + 100)
    requires now == Wrap(cb.current + wait) && 200 <= wait < HALF
    ensures var c := Clocked(cb, now); Due(cb, now) && NextFlush(c.tsFlush, now, 100) == Wrap(now + 100)
  {
    hide TimeDiff, Wrap, NextFlush;
    DiffExact(cb.current + wait, cb.current + 100);
    DiffExact(now, now);
    LateFlush(cb.current, wait);
  }

  /** From the flush time or from now, the next flush is an interval from now. */
  lemma LateFlush(current: u32, wait: nat)
    requires 200 <= wait < HALF
    ensures var now := Wrap(current + wait);
      NextFlush(now, now, 100) == Wrap(now + 100) && NextFlush(Wrap(current + 100), now, 100) == Wrap(now + 100)
  {
    hide TimeDiff, Wrap;
    var now := Wrap(current + wait);
    WrapAdd(current + 100, 100);
    DiffExact(current + wait, current + 200);
    WrapAdd(current + wait, 100);
    DiffExact(current + wait, current + wait + 100);
  }

  lemma WaitFlush(f: Cb, g: Sender.Seg, k: nat)
    requires f.cfg == CFG && f.updated && f.rtt == Create(CFG, 128, 100).rtt
    requires f.snd.queue == [] && f.snd.buf == [g] && TimeDiff(f.current, g.resendts) >= 0
    requires g.xmit == k + 1 && g.rto == 200 * (k + 1) && 200 * (k + 2) < 0x1_0000_0000
    ensures var r := Flush(f).cb;
      && r.cfg == CFG && r.updated && r.rtt == f.rtt && r.rmtWnd == f.rmtWnd && r.tsFlush == f.tsFlush
      && r.current == f.current && r.snd.queue == [] && |r.snd.buf| == 1
      && r.snd.buf[0].xmit == k + 2 && r.snd.buf[0].rto == 200 * (k + 2) && r.snd.buf[0].fastack == g.fastack
      && r.snd.buf[0].resendts == Wrap(f.current + 200 * (k + 2))
  {
    var c := TxOf(f);
    assert c.rxRto == 200 && !c.nodelay && c.current == f.current;
    assert Sender.Admit(f.snd, SendWindow(f), c) == f.snd by { hide SendWindow, TxOf; }
    assert Sender.Transmit(g, c) == g.(ts := c.current, wnd := c.wnd, una := c.ack, xmit := k + 2, rto := 200 * (k + 2),
                                       resendts := Wrap(c.current + 200 * (k + 2))) by { hide TxOf, TimeDiff; }
    hide Sender.Admit, Sender.Transmit, TxOf, SendWindow, ProbeTimer, ReachedDeadLink, Sender.CountOf, Wrap, TimeDiff;
  }

  /** One byte is sent, and the first update flushes it. */
  lemma WaitStart()
    ensures var sent := UserSend(Create(CFG, 128, 100), [0]).cb;
      sent.cfg == CFG && Waiting(Update(sent, 0).cb, 0)
  {
    hide *;
    Settings();
    StartSent();
    var sent := UserSend(Create(CFG, 128, 100), [0]).cb;
    UpdateIs(sent, 0);
    StartClock(sent);
    var f := Clocked(sent, 0).(tsFlush := 100);
    StartFlush(f);
    WaitingIs(Flush(f).cb, 0);
    StartWrap();
  }

  lemma StartWrap()
    ensures Wrap(0 + 100) == 100 && Wrap(0 + 225) == 225
  {}

  lemma StartSent()
    ensures var cb := Create(CFG, 128, 100);
      UserSend(cb, [0]).cb == cb.(snd := cb.snd.(queue := [Sender.Frag(0, [0])], nque := 1))
    ensures var cb := Create(CFG, 128, 100);
      cb.cfg == CFG && !cb.updated && cb.rmtWnd == 128 && cb.rtt.rto == 200 && cb.snd == Sender.Snd(0, 0, [], [], 0, 0)
  {
    var msg: seq<byte> := [0];
    assert Sender.Fragments(msg, 1, 1376, false) == [Sender.Frag(0, msg)] by {
      assert msg[..1] == msg;
      assert Sender.Fragments(msg[1..], 0, 1376, false) == [];
    }
    hide Sender.Fragments;
  }

  lemma StartClock(cb: Cb)
    requires !cb.updated
    ensures Due(cb, 0) && NextFlush(0, 0, 100) == 100
    ensures Clocked(cb, 0) == cb.(current := 0, updated := true, tsFlush := 0)
  {}

  lemma StartFlush(f: Cb)
    requires f.cfg == CFG && f.updated && f.rtt.rto == 200 && f.rmtWnd == 128 && f.current == 0
    requires f.snd == Sender.Snd(0, 0, [Sender.Frag(0, [0])], [], 1, 0)
    ensures var r := Flush(f).cb;
      && r.cfg == CFG && r.updated && r.rtt == f.rtt && r.rmtWnd == 128 && r.tsFlush == f.tsFlush && r.current == 0
      && r.snd.queue == [] && |r.snd.buf| == 1
      && r.snd.buf[0].xmit == 1 && r.snd.buf[0].rto == 200 && r.snd.buf[0].fastack == 0 && r.snd.buf[0].resendts == 225
  {
    var c := TxOf(f);
    StartTx(f);
    var g := Sender.Seg(0, [0], c.wnd, 0, 0, c.ack, 0, 200, 0, 0);
    StartAdmit(f.snd, SendWindow(f), c, g);
    var a := Sender.Admit(f.snd, SendWindow(f), c);
    var after := FlightAfter(f, a);
    assert Sender.Transmit(g, c).resendts == 225 && Sender.Transmit(g, c).xmit == 1 by { hide TxOf; }
    assert Flush(f).cb == f.(snd := Flush(f).cb.snd, rcv := Flush(f).cb.rcv, probe := Flush(f).cb.probe,
                             xmit := Flush(f).cb.xmit, dead := Flush(f).cb.dead, cong := Flush(f).cb.cong)
           && Flush(f).cb.snd.queue == a.queue by {
      hide TxOf, Sender.Admit, Sender.Transmit, SendWindow, ProbeTimer, ReachedDeadLink, Sender.CountOf;
    }
    hide TxOf, Sender.Admit, SendWindow, Flush;
  }

  lemma StartTx(f: Cb)
    requires f.cfg == CFG && f.rtt.rto == 200 && f.rmtWnd == 128 && f.current == 0
    ensures TxOf(f).current == 0 && TxOf(f).rxRto == 200 && TxOf(f).rtomin == 25 && SendWindow(f) == 32
    ensures ValidConfig(f.cfg)
  {}

  lemma StartAdmit(s: Sender.Snd, wnd: u32, c: Sender.Tx, g: Sender.Seg)
    requires s == Sender.Snd(0, 0, [Sender.Frag(0, [0])], [], 1, 0) && wnd == 32 && c.current == 0 && c.rxRto == 200
    requires g == Sender.Seg(0, [0], c.wnd, 0, 0, c.ack, 0, 200, 0, 0)
    ensures Sender.Admit(s, wnd, c).buf == [g] && Sender.Admit(s, wnd, c).queue == []
  {
    var t := Sender.Snd(0, 1, [], [g], 0, 1);
    assert [] + [g] == [g] && s.queue[1..] == [];
    assert Sender.Admit(s, wnd, c) == Sender.Admit(t, wnd, c);
  }

  lemma RunExtended(run: seq<Cb>, calls: seq<Call>, call: Call) returns (r: seq<Cb>, cs: seq<Call>)
    requires IsRun(run, calls) && ValidConfig(run[|calls|].cfg)
    ensures r == run + [Apply(run[|calls|], call)] && cs == calls + [call] && IsRun(r, cs)
  {
    r, cs := run + [Apply(run[|calls|], call)], calls + [call];
    hide Apply, ValidConfig;
    forall i | 0 <= i < |cs| ensures StepAt(r, cs, i) {
      if i < |calls| { assert StepAt(run, calls, i); }
    }
  }

  /** The run in which the peer never answers. */
  lemma {:induction false} SilentRun(k: nat) returns (run: seq<Cb>, calls: seq<Call>)
    requires 200 * (k + 1) < 0x1_0000_0000
    ensures IsRun(run, calls) && run[0] == Create(CFG, 128, 100)
    ensures |calls| == k + 2 && Waiting(run[|calls|], k) && (200 * k < HALF ==> calls[|calls| - 1].CallUpdate?)
  {
    hide UserSend, Update, Flush, Waiting, Create;
    Settings();
    if k == 0 {
      WaitStart();
      assert Create(CFG, 128, 100).cfg == CFG by { StartSent(); }
      run, calls := [Create(CFG, 128, 100)], [];
      assert IsRun(run, calls);
      run, calls := RunExtended(run, calls, CallSend([0]));
      run, calls := RunExtended(run, calls, CallUpdate(0));
    } else {
      run, calls := SilentRun(k - 1);
      var cb := run[|calls|];
      if 200 * k < HALF {
        WaitStep(cb, k - 1);
        run, calls := RunExtended(run, calls, CallUpdate(cb.snd.buf[0].resendts));
      } else {
        WaitAgain(cb, k - 1);
        run, calls := RunExtended(run, calls, CallFlush);
      }
    }
  }

  /** When a peer never answers, the flush after 10737418 timeouts leaves a segment overdue. */
  lemma OverrunReached() returns (run: seq<Cb>, calls: seq<Call>)
    ensures IsRun(run, calls) && run[0] == Create(CFG, 128, 100)
    ensures |calls| == 10737420 && calls[|calls| - 1].CallUpdate?
    ensures var cb := run[|calls|]; |cb.snd.buf| == 1 && !Pending(cb.snd.buf[0], cb.current)
  {
    run, calls := SilentRun(10737418);
    NotDueAfter(run[|calls|].current, 2147483800);
    hide IsRun, Create, TimeDiff, Wrap;
  }

  /** After 21474835 of them its timeout is 4294967200 ms, and the next flush leaves it with 104. */
  lemma ShrinkReached() returns (run: seq<Cb>, calls: seq<Call>)
    ensures IsRun(run, calls) && run[0] == Create(CFG, 128, 100)
    ensures |calls| == 21474838 && calls[|calls| - 1].CallFlush?
    ensures |run[|calls| - 1].snd.buf| == 1 && run[|calls| - 1].snd.buf[0].rto == 4294967200
    ensures |run[|calls|].snd.buf| == 1 && run[|calls|].snd.buf[0].rto == 104
  {
    hide Create, Flush, Waiting, TimeDiff, Wrap;
    run, calls := SilentRun(21474835);
    var cb := run[|calls|];
    WaitingIs(cb, 21474835);
    Settings();
    Overdue(cb.current, 4294967200);
    ShrinkFlush(cb, cb.snd.buf[0]);
    run, calls := RunExtended(run, calls, CallFlush);
  }

  lemma ShrinkFlush(f: Cb, g: Sender.Seg)
    requires f.cfg == CFG && f.updated && f.rtt == Create(CFG, 128, 100).rtt
    requires f.snd.queue == [] && f.snd.buf == [g] && TimeDiff(f.current, g.resendts) >= 0
    requires g.xmit != 0 && g.rto == 4294967200
    ensures |Flush(f).cb.snd.buf| == 1 && Flush(f).cb.snd.buf[0].rto == 104
  {
    var c := TxOf(f);
    assert c.rxRto == 200 && !c.nodelay && c.current == f.current;
    assert Sender.Admit(f.snd, SendWindow(f), c) == f.snd by { hide SendWindow, TxOf; }
    assert Sender.Transmit(g, c).rto == 104 by { hide TxOf, TimeDiff; }
    hide Sender.Admit, Sender.Transmit, TxOf, SendWindow, Flush, TimeDiff;
    var after := FlightAfter(f, f.snd);
  }
}
