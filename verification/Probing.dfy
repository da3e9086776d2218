/** Window probes: while the peer's window is closed a probe is sent at growing intervals, of 7 seconds
    up to 2 minutes. */
module Probing {
  import opened Serial
  import opened Wire
  import opened Control
  import ControlInvariant
  import Sender
  import Receiver
  import RoundTrip
  import Congestion

  ghost predicate Spaced(p: Probe) {
    p.wait == 0 || 7000 <= p.wait <= 120000
  }

  /** A flush flags a probe only when the window is closed and the probe time has come; each time it sets
      the timer, the next probe lies one interval ahead, and the interval never shrinks while the window
      stays closed. */
  lemma ProbeBackoff(p: Probe, rmtWnd: u32, current: u32)
    requires Spaced(p)
    ensures var q := ProbeTimer(p, rmtWnd, current);
      && Spaced(q) && q.tell == p.tell && (q.wait == 0 <==> rmtWnd != 0)
      && (rmtWnd != 0 ==> q == Probe(p.ask, p.tell, 0, 0))
      && (rmtWnd == 0 ==> q.wait >= p.wait && (p.wait == 0 ==> q.wait == 7000 && q.ask == p.ask))
      && (q.ask && !p.ask ==> rmtWnd == 0 && p.wait > 0 && TimeDiff(current, p.ts) >= 0)
      && (rmtWnd == 0 && (p.wait == 0 || TimeDiff(current, p.ts) >= 0) ==> TimeDiff(q.ts, current) == q.wait)
      && (rmtWnd == 0 && p.wait > 0 && TimeDiff(current, p.ts) >= 0 ==>
          q.ask && q.wait == Min(p.wait + p.wait / 2, 120000))
      && (rmtWnd == 0 && p.wait > 0 && TimeDiff(current, p.ts) < 0 ==> q == p)
  {
    Ahead(current, PROBE_INIT);
    Ahead(current, Min(p.wait + p.wait / 2, PROBE_LIMIT));
    hide TimeDiff;
  }

  lemma Ahead(current: u32, wait: nat)
    requires wait <= PROBE_LIMIT
    ensures TimeDiff(Wrap(current + wait), current) == wait
  {}

  /** A receive that makes room in a full queue has the window announced; no other receive touches the probes. */
  lemma ReceiveReopens(cb: Cb, len: int)
    requires ControlInvariant.Inv(cb)
    ensures var r := UserRecv(cb, len).cb;
      r.probe == cb.probe.(tell := cb.probe.tell || (|cb.rcv.queue| == cb.rcv.wnd && |r.rcv.queue| < r.rcv.wnd))
  {
    Receiver.RecvTells(cb.rcv, len);
    Receiver.RecvWindow(cb.rcv, len);
    hide Receiver.Recv, Sender.Inv, Receiver.Inv;
  }

  lemma {:induction false} OnSegmentsSpaced(cb: Cb, segs: seq<WireSeg>)
    ensures OnSegments(cb, segs).probe.wait == cb.probe.wait && OnSegments(cb, segs).cfg == cb.cfg
    decreases |segs|
  {
    hide RoundTrip.UpdateAck, Receiver.OnPush, Sender.ParseUna, Sender.ParseAck, Sender.ShrinkBuf, TimeDiff;
    if segs != [] { OnSegmentsSpaced(OnSegment(cb, segs[0]), segs[1..]); }
  }

  lemma FlushSpaced(cb: Cb)
    requires ValidConfig(cb.cfg) && Spaced(cb.probe)
    ensures Spaced(Flush(cb).cb.probe)
  {
    ProbeBackoff(cb.probe, cb.rmtWnd, cb.current);
    hide ProbeTimer, Sender.Admit, Sender.Sent, Sender.TransmitAll, Congestion.AfterFlush, ReachedDeadLink;
  }

  /** Every call of every run keeps the interval at 0 or between its bounds. */
  lemma ApplySpaced(cb: Cb, call: ControlInvariant.Call)
    requires ValidConfig(cb.cfg) && Spaced(cb.probe)
    ensures Spaced(ControlInvariant.Apply(cb, call).probe)
  {
    match call
    case CallSend(msg) => hide Sender.Send;
    case CallRecv(len) => hide Receiver.Recv;
    case CallInput(data) =>
      OnSegmentsSpaced(cb, Parse(cb.cfg.conv, data).segs);
      hide OnSegments, Parse, HighestAck, Sender.ParseFastack, Congestion.OnAdvance, ToI32, TimeDiff;
    case CallFlush => FlushSpaced(cb);
    case CallUpdate(current) =>
      ControlInvariant.UpdateIs(cb, current);
      var c := Clocked(cb, current);
      FlushSpaced(c.(tsFlush := NextFlush(c.tsFlush, current, c.cfg.interval)));
      hide Flush, Update, Clocked, Due, NextFlush;
  }

  /** So it is in every state of every run. */
  lemma {:induction false} RunSpaced(run: seq<Cb>, calls: seq<ControlInvariant.Call>, n: nat, cfg: Config, rcvWnd: u32,
                                     minrto: int)
    requires ControlInvariant.IsRun(run, calls) && n <= |calls|
    requires ValidConfig(cfg) && 0 < rcvWnd < HALF && 0 < minrto <= 200 && run[0] == Create(cfg, rcvWnd, minrto)
    ensures Spaced(run[n].probe)
  {
    hide ControlInvariant.Apply, ValidConfig;
    if n > 0 {
      RunSpaced(run, calls, n - 1, cfg, rcvWnd, minrto);
      assert ControlInvariant.StepAt(run, calls, n - 1);
      ApplySpaced(run[n - 1], calls[n - 1]);
    }
  }
}
