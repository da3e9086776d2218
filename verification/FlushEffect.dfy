/** What a flush leaves behind: the flight with its new resend times, the counters, and the congestion
    window, in terms of what timed out and what was passed over. */
module FlushEffect {
  import opened Serial
  import opened Wire
  import opened Control
  import opened Sender
  import ControlInvariant
  import Congestion
  import FlushContent
  import InputEffect
  import Receiver
  import RoundTrip
  import Transmission

  // ---------------------------------------------------------------- the flight

  /** The smallest of the windows that apply. */
  function Window(cb: Cb): u32 {
    var w := if cb.cfg.sndWnd < cb.rmtWnd then cb.cfg.sndWnd else cb.rmtWnd;
    if cb.cfg.nocwnd || w < cb.cong.cwnd then w else cb.cong.cwnd
  }

  /** How many segments of the queue a flush puts into flight: what the window leaves room for. */
  function Room(cb: Cb): nat {
    Min(|cb.snd.queue|, Max(0, Window(cb) - InFlight(cb.snd)))
  }

  lemma WindowIs(cb: Cb)
    ensures SendWindow(cb) == Window(cb)
  {}

  /** The segment timed out. */
  predicate Late(cb: Cb, g: Seg) {
    g.xmit > 0 && TimeDiff(cb.current, g.resendts) >= 0
  }

  /** Enough later segments were acknowledged, before it timed out. */
  predicate Passed(cb: Cb, g: Seg) {
    g.xmit > 0 && TimeDiff(cb.current, g.resendts) < 0
    && g.fastack >= (if cb.cfg.fastresend > 0 then cb.cfg.fastresend else 0xFFFF_FFFF)
  }

  /** How long the timeout of a transmission is: that of the estimator at first, longer after each timeout. */
  function NextTimeout(cb: Cb, g: Seg): u32 {
    if g.xmit == 0 then Wrap(cb.rtt.rto)
    else if Late(cb, g) then Wrap(g.rto + if cb.cfg.nodelay then Wrap(cb.rtt.rto) / 2 else Wrap(cb.rtt.rto))
    else g.rto
  }

  /** The first transmission waits an eighth longer, unless delays are off. */
  function Grace(cb: Cb, g: Seg): u32 {
    if g.xmit == 0 && !cb.cfg.nodelay then Wrap(cb.rtt.rto) / 8 else 0
  }

  /** `t` is `g` after a transmission in a flush of `cb`. */
  ghost predicate Retransmitted(cb: Cb, g: Seg, t: Seg) {
    && t.sn == g.sn && t.frg == g.frg && t.data == g.data
    && t.ts == cb.current && t.una == cb.rcv.nxt && t.wnd == cb.rcv.wnd - |cb.rcv.queue|
    && t.xmit == Wrap(g.xmit + 1) && t.rto == NextTimeout(cb, g)
    && Off(cb.current, t.resendts) == Wrap(t.rto + Grace(cb, g))
    && t.fastack == if Passed(cb, g) then 0 else g.fastack
  }

  ghost predicate Renewed(cb: Cb, g: Seg, t: Seg) {
    if FlushContent.Overdue(cb, g) then Retransmitted(cb, g, t) else t == g
  }

  /** A segment the flush admitted: fragment `k` of the queue with the next free number, sent for the first time. */
  ghost predicate Fresh(cb: Cb, k: nat, t: Seg)
    requires k < |cb.snd.queue|
  {
    && Off(cb.snd.nxt, t.sn) == k && t.frg == cb.snd.queue[k].frg && t.data == cb.snd.queue[k].data
    && Retransmitted(cb, t.(xmit := 0, fastack := 0), t)
  }

  /** Fragment `k` of the queue with the number it gets, not sent yet. */
  predicate Admitted(s: Snd, k: nat, g: Seg)
    requires k < |s.queue|
  {
    g.sn == Wrap(s.nxt + k) && g.frg == s.queue[k].frg && g.data == s.queue[k].data && g.xmit == 0 && g.fastack == 0
  }

  /** Admission hands out the next numbers in the order of the queue. */
  lemma {:induction false} AdmittedInOrder(s: Snd, cwnd: u32, c: Tx, limit: int)
    requires Ordered(s, limit) && cwnd <= limit
    ensures var a, n := Admit(s, cwnd, c), Sender.Room(s, cwnd);
      && a.nxt == Wrap(s.nxt + n) && |a.buf| == |s.buf| + n
      && forall i :: |s.buf| <= i < |a.buf| ==> Admitted(s, i - |s.buf|, a.buf[i])
    decreases |s.queue|
  {
    hide Off, Ordered, Admit, Wrap;
    AdmitSpec(s, cwnd, c, limit);
    if Sender.Room(s, cwnd) > 0 {
      var t := AdmitOne(s, cwnd, c, limit);
      AdmittedInOrder(t, cwnd, c, limit);
      AdmitSpec(t, cwnd, c, limit);
      var a, n := Admit(s, cwnd, c), Sender.Room(s, cwnd);
      assert Sender.Room(t, cwnd) == n - 1;
      assert a.buf[|s.buf|] == t.buf[|s.buf|];
      NumberAfter(s.nxt, 0);
      forall i | |s.buf| <= i < |a.buf| ensures Admitted(s, i - |s.buf|, a.buf[i]) {
        if i > |s.buf| {
          NumberAfter(s.nxt, i - |s.buf| - 1);
          assert Admitted(t, i - |t.buf|, a.buf[i]);
        }
      }
      NumberAfter(s.nxt, n - 1);
    } else {
      OrderedSmall(s, limit);
      NothingAdmitted(s, cwnd, c);
      NumberAfter(s.nxt, 0);
    }
  }

  lemma OrderedSmall(s: Snd, limit: int)
    requires Ordered(s, limit)
    ensures Off(s.una, s.nxt) == InFlight(s) <= limit < HALF
  {
    hide Off, Ascending;
  }

  lemma NumberAfter(nxt: u32, k: nat)
    ensures Wrap(Wrap(nxt + 1) + k) == Wrap(nxt + (k + 1)) && Wrap(nxt + 0) == nxt
  {
    hide Wrap;
    WrapAdd(nxt + 1, k);
  }

  lemma NothingAdmitted(s: Snd, cwnd: u32, c: Tx)
    requires Sender.Room(s, cwnd) == 0 && Off(s.una, s.nxt) < HALF && cwnd < HALF
    ensures Admit(s, cwnd, c) == s
  {
    WindowEdge(s.una, s.nxt, cwnd);
    hide Off, TimeDiff, Wrap;
  }

  lemma TransmitRenews(cb: Cb, g: Seg)
    requires ControlInvariant.Inv(cb)
    ensures Renewed(cb, g, Transmit(g, TxOf(cb)))
  {
    FlushContent.UnusedIsFree(cb);
    FreeExactly(cb);
    var t := Transmit(g, TxOf(cb));
    RtoSmall(cb);
    OffWrap(cb.current, t.rto + Grace(cb, g));
    hide TimeDiff, Off, ControlInvariant.Inv, FlushContent.Free, Unused;
  }

  lemma FreeExactly(cb: Cb)
    requires ControlInvariant.Inv(cb)
    ensures Unused(cb.rcv) == cb.rcv.wnd - |cb.rcv.queue|
  {
    hide Sender.Inv, ControlInvariant.Fitting, Receiver.InOrder, Receiver.Contiguous, Receiver.Drained;
  }

  lemma RtoSmall(cb: Cb)
    requires ControlInvariant.Inv(cb)
    ensures 0 < cb.rtt.rto <= 60000 && Wrap(cb.rtt.rto) == cb.rtt.rto
  {
    hide Sender.Inv, Receiver.Inv, ControlInvariant.Fitting;
  }

  /** A flush takes from the queue what the window has room for and gives it the next numbers; exactly the
      segments that are due are transmitted, and each of them gets its next resend time. */
  lemma FlushRenews(cb: Cb)
    requires ControlInvariant.Inv(cb) && cb.updated
    ensures var s, r, n := cb.snd, Flush(cb).cb.snd, Room(cb);
      && r.una == s.una && r.nxt == Wrap(s.nxt + n) && r.queue == s.queue[n..] && |r.buf| == |s.buf| + n
      && (forall i :: 0 <= i < |s.buf| ==> Renewed(cb, s.buf[i], r.buf[i]))
      && forall i :: |s.buf| <= i < |r.buf| ==> Fresh(cb, i - |s.buf|, r.buf[i])
  {
    hide *;
    var a := FlushContent.FlightIs(cb);
    var c, limit, n := TxOf(cb), ControlInvariant.Limit(cb.cfg), Room(cb);
    InputEffect.SndInv(cb);
    InputEffect.InvOrdered(cb.snd, limit);
    FlushContent.WindowWithin(cb);
    AdmitSpec(cb.snd, SendWindow(cb), c, limit);
    AdmittedInOrder(cb.snd, SendWindow(cb), c, limit);
    RoomIs(cb);
    FlushSnd(cb);
    var r := Flush(cb).cb.snd;
    forall i | 0 <= i < |cb.snd.buf| ensures Renewed(cb, cb.snd.buf[i], r.buf[i]) {
      assert a.buf[i] == cb.snd.buf[i];
      TransmitRenews(cb, a.buf[i]);
    }
    LimitSmall(cb);
    forall i | |cb.snd.buf| <= i < |r.buf| ensures Fresh(cb, i - |cb.snd.buf|, r.buf[i]) {
      TransmitRenews(cb, a.buf[i]);
      FreshIs(cb, i - |cb.snd.buf|, a.buf[i], r.buf[i]);
    }
  }

  lemma RoomIs(cb: Cb)
    ensures Room(cb) == Sender.Room(cb.snd, SendWindow(cb)) && Room(cb) <= |cb.snd.queue|
    ensures Room(cb) <= SendWindow(cb)
  {
    WindowIs(cb);
    hide SendWindow, Window, Off;
  }

  lemma LimitSmall(cb: Cb)
    ensures ControlInvariant.Limit(cb.cfg) <= 0xFFFF
  {}

  lemma FlushSnd(cb: Cb)
    requires ValidConfig(cb.cfg) && cb.updated
    ensures var a, r := Admit(cb.snd, SendWindow(cb), TxOf(cb)), Flush(cb).cb.snd;
      r == a.(buf := r.buf)
  {
    hide Admit, SendWindow, TxOf, ProbeTimer, Congestion.AfterFlush, ReachedDeadLink, TransmitAll, Sent, CountOf;
  }

  lemma FreshIs(cb: Cb, k: nat, g: Seg, t: Seg)
    requires k < |cb.snd.queue| && k < 0x1_0000_0000 && Admitted(cb.snd, k, g) && Renewed(cb, g, t)
    ensures Fresh(cb, k, t)
  {
    OffWrap(cb.snd.nxt, k);
    hide Off, TimeDiff;
    assert Retransmitted(cb, g, t);
    assert 1 == Wrap(0 + 1);
    hide Wrap;
  }

  // ---------------------------------------------------------------- counters and congestion

  /** How many of the first `n` segments in flight timed out. */
  function Lates(cb: Cb, n: nat): nat
    requires n <= |cb.snd.buf|
  {
    if n == 0 then 0 else Lates(cb, n - 1) + if Late(cb, cb.snd.buf[n - 1]) then 1 else 0
  }

  predicate AnyPassed(cb: Cb) {
    exists i :: 0 <= i < |cb.snd.buf| && Passed(cb, cb.snd.buf[i])
  }

  lemma {:induction false} CountSplit(a: seq<Seg>, b: seq<Seg>, c: Tx, v: Verdict)
    ensures CountOf(a + b, c, v) == CountOf(a, c, v) + CountOf(b, c, v)
  {
    hide Judge;
    if a == [] {
      assert a + b == b;
    } else {
      assert (a + b)[1..] == a[1..] + b;
      CountSplit(a[1..], b, c, v);
    }
  }

  lemma {:induction false} CountNone(buf: seq<Seg>, c: Tx, v: Verdict)
    requires v != Initial && forall i :: 0 <= i < |buf| ==> buf[i].xmit == 0
    ensures CountOf(buf, c, v) == 0
  {
    if buf != [] { CountNone(buf[1..], c, v); }
  }

  lemma {:induction false} CountPositive(buf: seq<Seg>, c: Tx, v: Verdict)
    ensures CountOf(buf, c, v) > 0 <==> exists i :: 0 <= i < |buf| && Judge(buf[i], c) == v
  {
    hide Judge;
    if buf != [] {
      CountPositive(buf[1..], c, v);
      assert forall i :: 1 <= i < |buf| ==> buf[i] == buf[1..][i - 1];
      if CountOf(buf[1..], c, v) > 0 {
        var i :| 0 <= i < |buf| - 1 && Judge(buf[1..][i], c) == v;
        assert Judge(buf[i + 1], c) == v;
      }
    }
  }

  lemma VerdictIs(cb: Cb, g: Seg)
    ensures Judge(g, TxOf(cb)) == Timeout <==> Late(cb, g)
    ensures Judge(g, TxOf(cb)) == Fast <==> Passed(cb, g)
  {
    hide TimeDiff, Wrap, Unused;
  }

  lemma {:induction false} LatesCounted(cb: Cb, n: nat)
    requires n <= |cb.snd.buf|
    ensures CountOf(cb.snd.buf[..n], TxOf(cb), Timeout) == Lates(cb, n)
  {
    hide Judge, Late, TxOf;
    if n > 0 {
      LatesCounted(cb, n - 1);
      var g := cb.snd.buf[n - 1];
      assert cb.snd.buf[..n] == cb.snd.buf[..n - 1] + [g];
      CountSplit(cb.snd.buf[..n - 1], [g], TxOf(cb), Timeout);
      VerdictIs(cb, g);
      assert [g][1..] == [];
      assert CountOf([g], TxOf(cb), Timeout) == (if Judge(g, TxOf(cb)) == Timeout then 1 else 0);
    }
  }

  lemma CountsAre(cb: Cb)
    ensures var a, c := Admit(cb.snd, SendWindow(cb), TxOf(cb)), TxOf(cb);
      && CountOf(a.buf, c, Timeout) == Lates(cb, |cb.snd.buf|)
      && (CountOf(a.buf, c, Fast) > 0 <==> AnyPassed(cb))
  {
    hide *;
    var a, c, n := Admit(cb.snd, SendWindow(cb), TxOf(cb)), TxOf(cb), |cb.snd.buf|;
    Transmission.AdmittedNew(cb.snd, SendWindow(cb), c);
    var more := a.buf[n..];
    assert a.buf == cb.snd.buf + more && cb.snd.buf[..n] == cb.snd.buf;
    CountSplit(cb.snd.buf, more, c, Timeout);
    CountSplit(cb.snd.buf, more, c, Fast);
    CountNone(more, c, Timeout);
    CountNone(more, c, Fast);
    LatesCounted(cb, n);
    CountPositive(cb.snd.buf, c, Fast);
    forall i | 0 <= i < n { VerdictIs(cb, cb.snd.buf[i]); }
    AnyPassedIs(cb);
  }

  lemma AnyPassedIs(cb: Cb)
    ensures AnyPassed(cb) <==> exists i :: 0 <= i < |cb.snd.buf| && Passed(cb, cb.snd.buf[i])
  {
    hide Passed;
  }

  /** Segment `i` was transmitted by the flush, for the `deadLink`-th time or later. */
  predicate TooOften(cb: Cb, flight: seq<Seg>, i: nat)
    requires i < |flight|
  {
    FlushContent.DueAt(cb, i) && flight[i].xmit >= cb.cfg.deadLink
  }

  /** The fast-resend count; off is the largest number. */
  function FastLimit(cfg: Config): u32 {
    if cfg.fastresend > 0 then cfg.fastresend else 0xFFFF_FFFF
  }

  lemma FlushParts(cb: Cb)
    requires ControlInvariant.Inv(cb) && cb.updated
    ensures var r, a, c := Flush(cb).cb, Admit(cb.snd, SendWindow(cb), TxOf(cb)), TxOf(cb);
      && r.rcv == cb.rcv.(acks := []) && !r.probe.ask && !r.probe.tell
      && r.xmit == Wrap(cb.xmit + CountOf(a.buf, c, Timeout))
      && (r.dead <==> cb.dead || ReachedDeadLink(cb.cfg.deadLink, Sent(a.buf, c)))
      && r.cong == Congestion.AfterFlush(cb.cong, CountOf(a.buf, c, Fast) > 0, CountOf(a.buf, c, Timeout) > 0,
                                         InFlight(a), SendWindow(cb), FastLimit(cb.cfg), Mss(cb.cfg))
      && InFlight(a) == InFlight(r.snd)
  {
    hide ControlInvariant.Inv, Admit, SendWindow, ProbeTimer, Congestion.AfterFlush, ReachedDeadLink, TransmitAll, Sent,
      CountOf, Mss, Wrap, Unused, Off;
  }

  lemma DeadExactly(cb: Cb)
    requires ControlInvariant.Inv(cb) && cb.updated
    ensures var a, c, flight := Admit(cb.snd, SendWindow(cb), TxOf(cb)), TxOf(cb), Flush(cb).cb.snd.buf;
      ReachedDeadLink(cb.cfg.deadLink, Sent(a.buf, c)) <==> exists i :: 0 <= i < |flight| && TooOften(cb, flight, i)
  {
    hide *;
    var a := FlushContent.FlightIs(cb);
    var c, sent, flight := TxOf(cb), Sent(a.buf, TxOf(cb)), Flush(cb).cb.snd.buf;
    FlushContent.SentIs(a.buf, c);
    ReachedIs(cb.cfg.deadLink, sent);
    if ReachedDeadLink(cb.cfg.deadLink, sent) {
      var k :| 0 <= k < |sent| && sent[k].xmit >= cb.cfg.deadLink;
      assert sent[k] in sent;
      var j := FlushContent.SentPlace(a.buf, c, sent[k]);
      TooOftenIs(cb, flight, j);
    }
    forall i | 0 <= i < |flight| && TooOften(cb, flight, i) ensures ReachedDeadLink(cb.cfg.deadLink, sent) {
      TooOftenIs(cb, flight, i);
      FlushContent.SentAt(a.buf, c, i);
      var k :| 0 <= k < |sent| && sent[k] == flight[i];
    }
  }

  lemma ReachedIs(deadLink: u32, sent: seq<Seg>)
    ensures ReachedDeadLink(deadLink, sent) <==> exists k :: 0 <= k < |sent| && sent[k].xmit >= deadLink
  {}

  lemma TooOftenIs(cb: Cb, flight: seq<Seg>, i: nat)
    requires i < |flight|
    ensures TooOften(cb, flight, i) <==> FlushContent.DueAt(cb, i) && flight[i].xmit >= cb.cfg.deadLink
  {
    hide FlushContent.DueAt;
  }

  /** What a flush does to the congestion window: a timeout shrinks the window to one segment and the threshold
      to half the window that applied; else, when a segment was passed over, the threshold becomes half of what
      is in flight, and the window that plus the fast-resend count. The threshold is set to two segments at
      least, the window is one at least. */
  lemma FlushBacksOff(cb: Cb)
    requires ControlInvariant.Inv(cb) && cb.updated
    ensures var c, late, passed := Flush(cb).cb.cong, Lates(cb, |cb.snd.buf|) > 0, AnyPassed(cb);
      && (late ==> c.cwnd == 1 && c.incr == Mss(cb.cfg) && c.ssthresh == Max(Window(cb) / 2, 2))
      && (!late && passed ==>
            && c.ssthresh == Max(InFlight(Flush(cb).cb.snd) / 2, 2)
            && c.cwnd == Max(Wrap(c.ssthresh + FastLimit(cb.cfg)), 1)
            && (c.cwnd > 1 ==> c.incr == Wrap(Congestion.Bytes(c.cwnd, Mss(cb.cfg)))))
      && (!late && !passed ==> c.ssthresh == cb.cong.ssthresh && c.cwnd == Max(cb.cong.cwnd, 1))
      && (!late && !passed && cb.cong.cwnd > 0 ==> c == cb.cong)
  {
    FlushParts(cb);
    CountsAre(cb);
    WindowIs(cb);
    hide ControlInvariant.Inv, Flush, Admit, SendWindow, CountOf, Lates, AnyPassed, TxOf, Mss, Off, Congestion.Bytes,
      Wrap, Window, FastLimit, ReachedDeadLink, Sent;
  }

  /** What a flush does besides: it counts the timeouts, declares the link dead once a transmission was one
      too many, empties the list of acknowledgements and clears the probe flags. */
  lemma FlushCounts(cb: Cb)
    requires ControlInvariant.Inv(cb) && cb.updated
    ensures var r := Flush(cb).cb;
      && r.xmit == Wrap(cb.xmit + Lates(cb, |cb.snd.buf|))
      && (r.dead <==> cb.dead || exists i :: 0 <= i < |r.snd.buf| && TooOften(cb, r.snd.buf, i))
      && r.rcv == cb.rcv.(acks := []) && !r.probe.ask && !r.probe.tell
  {
    hide *;
    FlushParts(cb);
    CountsAre(cb);
    DeadExactly(cb);
  }

  /** What a created block does first: a flush before the first update does nothing and the first update flushes
      at once; nothing is there to be received; no segment is admitted before the congestion window opened, if
      there is one; a first transmission waits 200 ms, and the first round trip is taken as it is. */
  lemma CreatedBlock(cfg: Config, rcvWnd: u32, minrto: int, now: u32, len: int, g: Seg, rtt: nat)
    requires ValidConfig(cfg) && g.xmit == 0 && 0 < rtt < 0x1000_0000
    ensures var cb := Create(cfg, rcvWnd, minrto);
      && Flush(cb) == FlushResult(cb, []) && Due(cb, now) && Check(cb, now) == now
      && UserRecv(cb, len).code == -1
      && Window(cb) == (if !cfg.nocwnd then 0 else if cfg.sndWnd < 128 then cfg.sndWnd else 128)
      && NextTimeout(cb, g) == 200
      && RoundTrip.UpdateAck(cb.rtt, cfg.interval, rtt).srtt == rtt
      && RoundTrip.UpdateAck(cb.rtt, cfg.interval, rtt).rttval == rtt / 2
  {}
}
