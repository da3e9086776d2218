/** The control-block invariant over every run: any bytes may be input, at any time, in any
    interleaving with sends, receives, flushes and updates. */
module ControlInvariant {
  import opened Serial
  import opened Wire
  import opened Control
  import Sender
  import Receiver
  import RoundTrip
  import Congestion
  import Fragmentation

  /** The flight never exceeds the send window, nor the 16-bit window a peer can grant. */
  function Limit(cfg: Config): int {
    Min(cfg.sndWnd, 0xFFFF)
  }

  ghost predicate Fitting(s: Sender.Snd, mss: nat) {
    && (forall i :: 0 <= i < |s.queue| ==> |s.queue[i].data| <= mss)
    && (forall i :: 0 <= i < |s.buf| ==> |s.buf[i].data| <= mss)
  }

  ghost predicate Inv(cb: Cb)
    ensures Inv(cb) ==> ValidConfig(cb.cfg)
  {
    && ValidConfig(cb.cfg)
    && Sender.Inv(cb.snd, Limit(cb.cfg)) && Fitting(cb.snd, Mss(cb.cfg))
    && Receiver.Inv(cb.rcv)
    && 0 < cb.rtt.minrto <= cb.rtt.rto <= RoundTrip.RTO_MAX
    && cb.rmtWnd < 0x1_0000
  }

  lemma CreateInv(cfg: Config, rcvWnd: u32, minrto: int)
    requires ValidConfig(cfg) && 0 < rcvWnd < HALF && 0 < minrto <= 200
    ensures Inv(Create(cfg, rcvWnd, minrto))
  {}

  lemma UserSendInv(cb: Cb, msg: seq<byte>)
    requires Inv(cb)
    ensures Inv(UserSend(cb, msg).cb)
  {
    Sender.SendInv(cb.snd, Mss(cb.cfg), cb.cfg.stream, msg, Limit(cb.cfg));
    if cb.cfg.stream {
      Fragmentation.SendStream(cb.snd, Mss(cb.cfg), msg);
    } else {
      Fragmentation.SendMessage(cb.snd, Mss(cb.cfg), msg);
    }
    hide Sender.Inv, Receiver.Inv, Sender.Send, Fragmentation.Bytes;
  }

  lemma UserRecvInv(cb: Cb, len: int)
    requires Inv(cb)
    ensures Inv(UserRecv(cb, len).cb)
  {
    Receiver.RecvInv(cb.rcv, len);
    hide Sender.Inv, Receiver.Inv, Receiver.Recv;
  }

  lemma ParseUnaFitting(s: Sender.Snd, una: u32, mss: nat)
    requires Fitting(s, mss)
    ensures Fitting(Sender.ParseUna(s, una), mss)
  {
    hide TimeDiff;
  }

  lemma ParseAckFitting(s: Sender.Snd, sn: u32, mss: nat)
    requires Fitting(s, mss)
    ensures Fitting(Sender.ParseAck(s, sn), mss)
  {
    var k := Sender.WithoutSnSpec(s.buf, sn);
    hide TimeDiff, Sender.WithoutSn;
  }

  lemma AckInv(s: Sender.Snd, una: u32, limit: int, mss: nat)
    requires Sender.Inv(s, limit) && Fitting(s, mss)
    ensures var t := Sender.ShrinkBuf(Sender.ParseUna(s, una)); Sender.Inv(t, limit) && Fitting(t, mss)
  {
    Sender.ParseUnaInv(s, una, limit);
    ParseUnaFitting(s, una, mss);
    Sender.ShrinkInv(Sender.ParseUna(s, una), limit);
    hide Sender.Inv, Sender.Ordered, Sender.ParseUna;
  }

  lemma SelectiveAckInv(s: Sender.Snd, sn: u32, limit: int, mss: nat)
    requires Sender.Inv(s, limit) && Fitting(s, mss)
    ensures var t := Sender.ShrinkBuf(Sender.ParseAck(s, sn)); Sender.Inv(t, limit) && Fitting(t, mss)
  {
    Sender.ParseAckInv(s, sn, limit);
    ParseAckFitting(s, sn, mss);
    Sender.ShrinkInv(Sender.ParseAck(s, sn), limit);
    hide Sender.Inv, Sender.Ordered, Sender.ParseAck;
  }

  /** Every accepted segment, whatever its fields claim, keeps the invariant. */
  lemma OnSegmentInv(cb: Cb, s: WireSeg)
    requires Inv(cb)
    ensures Inv(OnSegment(cb, s)) && OnSegment(cb, s).cfg == cb.cfg
  {
    hide Sender.Inv, Receiver.Inv, Sender.ParseUna, Sender.ParseAck, Sender.ShrinkBuf, Receiver.OnPush, Fitting,
      RoundTrip.UpdateAck, TimeDiff, ValidConfig, Limit, Mss;
    var mss: nat, limit := Mss(cb.cfg), Limit(cb.cfg);
    AckInv(cb.snd, s.una, limit, mss);
    SelectiveAckInv(Sender.ShrinkBuf(Sender.ParseUna(cb.snd, s.una)), s.sn, limit, mss);
    Receiver.OnPushInv(cb.rcv, s);
    RoundTrip.TimeoutBounded(cb.rtt, cb.cfg.interval, TimeDiff(cb.current, s.ts));
    RttMinimum(cb.rtt, cb.cfg.interval, TimeDiff(cb.current, s.ts));
  }

  lemma RttMinimum(t: RoundTrip.Rtt, interval: u32, rtt: int)
    ensures RoundTrip.UpdateAck(t, interval, rtt).minrto == t.minrto
  {}

  lemma {:induction false} OnSegmentsInv(cb: Cb, segs: seq<WireSeg>)
    requires Inv(cb)
    ensures Inv(OnSegments(cb, segs)) && OnSegments(cb, segs).cfg == cb.cfg
    decreases |segs|
  {
    hide Inv, OnSegment;
    if segs != [] {
      OnSegmentInv(cb, segs[0]);
      OnSegmentsInv(OnSegment(cb, segs[0]), segs[1..]);
    }
  }

  /** Any byte string, including one rejected half way, keeps the invariant. */
  lemma InputInv(cb: Cb, data: seq<byte>)
    requires Inv(cb)
    ensures Inv(Input(cb, data).cb) && Input(cb, data).cb.cfg == cb.cfg
  {
    var p := Parse(cb.cfg.conv, data);
    OnSegmentsInv(cb, p.segs);
    var c := OnSegments(cb, p.segs);
    FinishInv(c, cb.snd.una, HighestAck(NoAck, p.segs));
    hide Inv, OnSegments, Finish, ToI32, Parse;
  }

  lemma FinishInv(c: Cb, una: u32, h: Highest)
    requires Inv(c)
    ensures Inv(Finish(c, una, h)) && Finish(c, una, h).cfg == c.cfg
  {
    if h != NoAck { Sender.ParseFastackInv(c.snd, h.sn, Limit(c.cfg)); }
    hide Sender.Inv, Receiver.Inv, TimeDiff, Congestion.OnAdvance, ValidConfig, Limit, Mss;
  }

  /** A flush never lets the flight exceed the larger of what it was and the send window. */
  lemma FlushInv(cb: Cb)
    requires Inv(cb)
    ensures Inv(Flush(cb).cb) && Flush(cb).cb.cfg == cb.cfg
    ensures Sender.InFlight(cb.snd) <= Sender.InFlight(Flush(cb).cb.snd)
    ensures Sender.InFlight(Flush(cb).cb.snd) <= Max(Sender.InFlight(cb.snd), SendWindow(cb))
  {
    if cb.updated {
      var c := TxOf(cb);
      var limit := Limit(cb.cfg);
      Sender.AdmitSpec(cb.snd, SendWindow(cb), c, limit);
      AdmitFitting(cb.snd, SendWindow(cb), c, Mss(cb.cfg));
      var a := Sender.Admit(cb.snd, SendWindow(cb), c);
      AdmitHead(cb.snd, SendWindow(cb), c, limit);
      Sender.TransmitAllInv(a, c, limit);
      TransmitFitting(a, c, Mss(cb.cfg));
      assert Receiver.Inv(cb.rcv.(acks := []));
      hide Sender.Inv, Receiver.Inv, Sender.Ordered, Fitting, Sender.Admit, Sender.TransmitAll, Off, TxOf, Limit,
        ValidConfig, Mss, SendWindow, Congestion.AfterFlush, ProbeTimer, ReachedDeadLink;
    }
  }

  lemma AdmitHead(s: Sender.Snd, cwnd: u32, c: Sender.Tx, limit: int)
    requires Sender.Inv(s, limit) && cwnd <= limit
    ensures Sender.Inv(Sender.Admit(s, cwnd, c), limit)
  {
    Sender.AdmitSpec(s, cwnd, c, limit);
    var a := Sender.Admit(s, cwnd, c);
    if s.buf == [] {
      assert s.una == s.nxt;
      FirstAdmitted(s, cwnd, c);
    } else {
      assert a.buf[0] == s.buf[0];
    }
    hide Off, Sender.Admit;
  }

  lemma {:induction false} FirstAdmitted(s: Sender.Snd, cwnd: u32, c: Sender.Tx)
    ensures Sender.Admit(s, cwnd, c) == s
            || (|Sender.Admit(s, cwnd, c).buf| > |s.buf| && Sender.Admit(s, cwnd, c).buf[|s.buf|].sn == s.nxt)
    ensures s.buf <= Sender.Admit(s, cwnd, c).buf
    decreases |s.queue|
  {
    hide TimeDiff, Wrap;
    if TimeDiff(s.nxt, Wrap(s.una + cwnd)) < 0 && s.queue != [] {
      var g := Sender.Seg(s.queue[0].frg, s.queue[0].data, c.wnd, c.current, s.nxt, c.ack, c.current, c.rxRto, 0, 0);
      var t := s.(queue := s.queue[1..], buf := s.buf + [g], nque := Wrap(s.nque - 1), nbuf := Wrap(s.nbuf + 1),
                  nxt := Wrap(s.nxt + 1));
      FirstAdmitted(t, cwnd, c);
      assert t.buf[|s.buf|] == g;
    }
  }

  lemma {:induction false} AdmitFitting(s: Sender.Snd, cwnd: u32, c: Sender.Tx, mss: nat)
    requires Fitting(s, mss)
    ensures Fitting(Sender.Admit(s, cwnd, c), mss)
    decreases |s.queue|
  {
    hide TimeDiff, Wrap;
    if TimeDiff(s.nxt, Wrap(s.una + cwnd)) < 0 && s.queue != [] {
      var g := Sender.Seg(s.queue[0].frg, s.queue[0].data, c.wnd, c.current, s.nxt, c.ack, c.current, c.rxRto, 0, 0);
      AdmitFitting(s.(queue := s.queue[1..], buf := s.buf + [g], nque := Wrap(s.nque - 1), nbuf := Wrap(s.nbuf + 1),
                      nxt := Wrap(s.nxt + 1)), cwnd, c, mss);
    }
  }

  lemma TransmitFitting(s: Sender.Snd, c: Sender.Tx, mss: nat)
    requires Fitting(s, mss)
    ensures Fitting(s.(buf := Sender.TransmitAll(s.buf, c)), mss)
  {
    hide Sender.Judge, Sender.Backoff, Wrap;
    assert forall i :: 0 <= i < |s.buf| ==> Sender.TransmitAll(s.buf, c)[i].data == s.buf[i].data;
  }

  /** An update sets the clock and, when the flush time has come, moves it on and flushes. */
  lemma UpdateIs(cb: Cb, current: u32)
    requires ValidConfig(cb.cfg)
    ensures var c := Clocked(cb, current);
      var f := c.(tsFlush := NextFlush(c.tsFlush, current, c.cfg.interval));
      && c == cb.(current := current, updated := true, tsFlush := c.tsFlush) && ValidConfig(f.cfg)
      && Update(cb, current) == if Due(cb, current) then Flush(f) else FlushResult(c, [])
  {
    hide Flush, NextFlush, TimeDiff;
  }

  lemma UpdateInv(cb: Cb, current: u32)
    requires Inv(cb)
    ensures Inv(Update(cb, current).cb) && Update(cb, current).cb.cfg == cb.cfg
  {
    var c := Clocked(cb, current);
    assert Inv(c);
    var f := c.(tsFlush := NextFlush(c.tsFlush, current, c.cfg.interval));
    assert Inv(f);
    FlushInv(f);
    hide Inv, Flush, TimeDiff, NextFlush, Off, SendWindow;
  }

  // ---------------------------------------------------------------- runs

  datatype Call =
    | CallSend(msg: seq<byte>)
    | CallRecv(len: int)
    | CallInput(data: seq<byte>)
    | CallFlush
    | CallUpdate(current: u32)

  function Apply(cb: Cb, call: Call): Cb
    requires ValidConfig(cb.cfg)
  {
    match call
    case CallSend(msg) => UserSend(cb, msg).cb
    case CallRecv(len) => UserRecv(cb, len).cb
    case CallInput(data) => Input(cb, data).cb
    case CallFlush => Flush(cb).cb
    case CallUpdate(current) => Update(cb, current).cb
  }

  ghost predicate IsRun(run: seq<Cb>, calls: seq<Call>) {
    && |run| == |calls| + 1
    && (forall i :: 0 <= i < |calls| ==> StepAt(run, calls, i))
  }

  ghost predicate StepAt(run: seq<Cb>, calls: seq<Call>, i: nat)
    requires i + 1 < |run| && i < |calls|
  {
    ValidConfig(run[i].cfg) && run[i + 1] == Apply(run[i], calls[i])
  }

  lemma ApplyInv(cb: Cb, call: Call)
    requires Inv(cb)
    ensures Inv(Apply(cb, call))
  {
    hide Inv, UserSend, UserRecv, Input, Flush, Update;
    match call
    case CallSend(msg) => UserSendInv(cb, msg);
    case CallRecv(len) => UserRecvInv(cb, len);
    case CallInput(data) => InputInv(cb, data);
    case CallFlush => FlushInv(cb);
    case CallUpdate(current) => UpdateInv(cb, current);
  }

  /** No call touches the settings. */
  lemma ApplyConfig(cb: Cb, call: Call)
    requires Inv(cb)
    ensures Apply(cb, call).cfg == cb.cfg
  {
    hide Inv, Input, Flush, Update, Sender.Send, Receiver.Recv;
    match call
    case CallSend(msg) =>
    case CallRecv(len) =>
    case CallInput(data) => InputInv(cb, data);
    case CallFlush => FlushInv(cb);
    case CallUpdate(current) => UpdateInv(cb, current);
  }

  /** Every state of every run that starts from a created control block satisfies the invariant. */
  lemma {:induction false} RunInv(run: seq<Cb>, calls: seq<Call>, n: nat, cfg: Config, rcvWnd: u32, minrto: int)
    requires IsRun(run, calls) && n <= |calls|
    requires ValidConfig(cfg) && 0 < rcvWnd < HALF && 0 < minrto <= 200 && run[0] == Create(cfg, rcvWnd, minrto)
    ensures Inv(run[n])
  {
    if n == 0 {
      CreateInv(cfg, rcvWnd, minrto);
    } else {
      RunInv(run, calls, n - 1, cfg, rcvWnd, minrto);
      assert StepAt(run, calls, n - 1);
      hide Inv, Apply;
      ApplyInv(run[n - 1], calls[n - 1]);
    }
  }
}
