/** The flush scheduler: where the next flush time stands, how densely flushes can follow each
    other, and why sleeping until the time `Check` returns is the same as polling. */
module Schedule {
  import opened Serial
  import opened Wire
  import opened Control
  import RoundTrip
  import ControlInvariant
  import Sender
  import Receiver

  // ---------------------------------------------------------------- one update

  /** After every update the flush time lies 1 to 10000 ms ahead, and at most one interval ahead
      of an update that flushed. */
  lemma UpdateAhead(cb: Cb, current: u32)
    requires ValidConfig(cb.cfg)
    ensures 0 < TimeDiff(Update(cb, current).cb.tsFlush, current) <= 10000
    ensures Due(cb, current) ==> TimeDiff(Update(cb, current).cb.tsFlush, current) <= cb.cfg.interval
  {
    var c := Clocked(cb, current);
    if Due(cb, current) {
      NextAhead(c.tsFlush, current, cb.cfg.interval);
      FlushKeepsTime(c.(tsFlush := NextFlush(c.tsFlush, current, cb.cfg.interval)));
    } else {
      DiffOpposite(current, c.tsFlush);
    }
    hide Flush, NextFlush, ToI32;
  }

  lemma NextAhead(tsFlush: u32, current: u32, interval: u32)
    requires 0 <= TimeDiff(current, tsFlush) < 10000 && 10 <= interval <= 5000
    ensures 0 < TimeDiff(NextFlush(tsFlush, current, interval), current) <= interval
  {
    NextAt(tsFlush, current, TimeDiff(current, tsFlush), interval);
    hide ToI32, Wrap, NextFlush;
  }

  lemma FlushKeepsTime(cb: Cb)
    requires ValidConfig(cb.cfg)
    ensures Flush(cb).cb.tsFlush == cb.tsFlush && Flush(cb).cb.updated == cb.updated
    ensures Flush(cb).cb.cfg == cb.cfg && Flush(cb).cb.current == cb.current
  {}

  lemma UpdateKeeps(cb: Cb, current: u32)
    requires ValidConfig(cb.cfg)
    ensures Update(cb, current).cb.updated && Update(cb, current).cb.cfg == cb.cfg
    ensures Update(cb, current).cb.current == current
  {
    var c := Clocked(cb, current);
    FlushKeepsTime(c.(tsFlush := NextFlush(c.tsFlush, current, cb.cfg.interval)));
    hide Flush, NextFlush, TimeDiff;
  }

  /** Sends, receives, inputs and direct flushes leave the schedule alone. */
  lemma OthersKeepSchedule(cb: Cb, call: ControlInvariant.Call)
    requires ValidConfig(cb.cfg) && !call.CallUpdate?
    ensures var c := ControlInvariant.Apply(cb, call);
      c.tsFlush == cb.tsFlush && c.updated == cb.updated && c.cfg == cb.cfg
  {
    match call
    case CallSend(msg) =>
    case CallRecv(len) =>
    case CallInput(data) => OnSegmentsKeep(cb, Parse(cb.cfg.conv, data).segs);
    case CallFlush => FlushKeepsTime(cb);
  }

  lemma {:induction false} OnSegmentsKeep(cb: Cb, segs: seq<WireSeg>)
    ensures var c := OnSegments(cb, segs); c.tsFlush == cb.tsFlush && c.updated == cb.updated && c.cfg == cb.cfg
    decreases |segs|
  {
    hide RoundTrip.UpdateAck, Receiver.OnPush, Sender.ParseUna, Sender.ParseAck, Sender.ShrinkBuf, TimeDiff;
    if segs != [] { OnSegmentsKeep(OnSegment(cb, segs[0]), segs[1..]); }
  }

  // ---------------------------------------------------------------- flushes over a run

  /** Updates at the non-decreasing times `t`, in milliseconds since an epoch; `cbs[i]` is the state
      just before update `i`, and between two updates anything but an update may happen. */
  ghost predicate Updates(cbs: seq<Cb>, t: seq<nat>)
    ensures Updates(cbs, t) ==> |cbs| == |t|
  {
    && |cbs| == |t|
    && (forall i :: 0 <= i < |t| ==> ValidConfig(cbs[i].cfg))
    && (forall i, j :: 0 <= i < j < |t| ==> t[i] <= t[j])
    && (forall i :: 0 <= i < |t| - 1 ==> Follows(cbs, t, i))
  }

  /** The schedule update `i` leaves is the one update `i + 1` finds. */
  ghost predicate Follows(cbs: seq<Cb>, t: seq<nat>, i: nat)
    requires i + 1 < |cbs| && i < |t| && ValidConfig(cbs[i].cfg)
  {
    var after, next := Update(cbs[i], Wrap(t[i])).cb, cbs[i + 1];
    next.tsFlush == after.tsFlush && next.updated == after.updated && next.cfg == after.cfg
  }

  ghost predicate Flushes(cbs: seq<Cb>, t: seq<nat>, i: nat)
    requires Updates(cbs, t) && i < |t|
  {
    Due(cbs[i], Wrap(t[i]))
  }

  /** The number of updates from `i` to `j` that flush. */
  ghost function FlushCount(cbs: seq<Cb>, t: seq<nat>, i: nat, j: nat): nat
    requires Updates(cbs, t) && i <= j < |t|
  {
    (if j == i then 0 else FlushCount(cbs, t, i, j - 1)) + if Flushes(cbs, t, j) then 1 else 0
  }

  /** The flush time after update `i` as an unbounded time. */
  ghost function Deadline(cbs: seq<Cb>, t: seq<nat>, i: nat): int
    requires Updates(cbs, t) && i < |t|
  {
    t[i] + TimeDiff(Update(cbs[i], Wrap(t[i])).cb.tsFlush, Wrap(t[i]))
  }

  /** From one update to the next the deadline never moves back; a flush happens only at or after
      it, and moves it on by at least the interval. */
  lemma DeadlineAdvances(cbs: seq<Cb>, t: seq<nat>, i: nat)
    requires Updates(cbs, t) && i + 1 < |t|
    ensures Deadline(cbs, t, i) <= Deadline(cbs, t, i + 1)
    ensures Flushes(cbs, t, i + 1) ==>
      t[i + 1] >= Deadline(cbs, t, i)
      && Deadline(cbs, t, i + 1) >= Deadline(cbs, t, i) + cbs[i + 1].cfg.interval
  {
    hide *;
    DeadlineIs(cbs, t, i);
    DeadlineIs(cbs, t, i + 1);
    DeadlineStep(cbs[i + 1], Deadline(cbs, t, i), t[i + 1]);
  }

  /** What the definitions say about update `i`. */
  lemma DeadlineIs(cbs: seq<Cb>, t: seq<nat>, i: nat)
    requires Updates(cbs, t) && i < |t|
    ensures ValidConfig(cbs[i].cfg)
    ensures Deadline(cbs, t, i) == t[i] + TimeDiff(Update(cbs[i], Wrap(t[i])).cb.tsFlush, Wrap(t[i]))
    ensures t[i] < Deadline(cbs, t, i) <= t[i] + 10000
    ensures Flushes(cbs, t, i) <==> Due(cbs[i], Wrap(t[i]))
    ensures i + 1 < |t| ==>
      t[i] <= t[i + 1] && cbs[i + 1].updated && cbs[i + 1].cfg == cbs[i].cfg &&
          cbs[i + 1].tsFlush == Wrap(Deadline(cbs, t, i))
  {
    UpdateAhead(cbs[i], Wrap(t[i]));
    UpdateKeeps(cbs[i], Wrap(t[i]));
    DeadlineWrap(Update(cbs[i], Wrap(t[i])).cb.tsFlush, t[i]);
    assert i + 1 < |t| ==> Follows(cbs, t, i);
    hide Update, ToI32, Wrap, Due, ValidConfig;
  }

  lemma DeadlineWrap(ts: u32, a: nat)
    ensures Wrap(a + TimeDiff(ts, Wrap(a))) == ts
  {
    hide ToI32, Wrap;
    WrapAdd(a, TimeDiff(ts, Wrap(a)));
    WrapDiff(ts, Wrap(a));
  }

  lemma DeadlineStep(cb: Cb, d: int, b: nat)
    requires ValidConfig(cb.cfg) && cb.updated && cb.tsFlush == Wrap(d) && 0 < d <= b + 10000
    ensures d <= b + TimeDiff(Update(cb, Wrap(b)).cb.tsFlush, Wrap(b))
    ensures Due(cb, Wrap(b)) ==>
      b >= d && b + TimeDiff(Update(cb, Wrap(b)).cb.tsFlush, Wrap(b)) >= d + cb.cfg.interval
  {
    var now := Wrap(b);
    var c := Clocked(cb, now);
    var f := c.(tsFlush := NextFlush(c.tsFlush, now, cb.cfg.interval));
    FlushKeepsTime(f);
    assert Update(cb, now).cb.tsFlush == if Due(cb, now) then f.tsFlush else c.tsFlush by {
      hide Flush, NextFlush, TimeDiff;
    }
    hide Flush, Update;
    StepArithmetic(d, b, cb.cfg.interval);
  }

  lemma StepArithmetic(d: int, b: nat, interval: u32)
    requires 0 < d <= b + 10000 && 10 <= interval <= 5000
    ensures var now := Wrap(b);
      var slap := TimeDiff(now, Wrap(d));
      var ts := if slap >= 10000 || slap < -10000 then now else Wrap(d);
      var due := TimeDiff(now, ts) >= 0;
      var next := if due then NextFlush(ts, now, interval) else ts;
      d <= b + TimeDiff(next, now) && (due ==> b >= d && b + TimeDiff(next, now) >= d + interval)
  {
    var now := Wrap(b);
    var slap := TimeDiff(now, Wrap(d));
    SlapBelow(b, d);
    assert TimeDiff(now, now) == 0;
    hide ToI32, Wrap, NextFlush;
    if slap >= 10000 || slap < -10000 {
      NextAt(now, now, 0, interval);
    } else if slap >= 0 {
      NextAt(Wrap(d), now, slap, interval);
    } else {
      DiffOpposite(now, Wrap(d));
    }
  }

  /** The clock's reading of the distance is the distance, or less when the clock has wrapped. */
  lemma SlapBelow(b: nat, d: int)
    requires 0 < d <= b + 10000
    ensures TimeDiff(Wrap(b), Wrap(d)) == b - d || b - d >= HALF
    ensures b - d < 0 ==> TimeDiff(Wrap(b), Wrap(d)) == b - d
  {
    if b - d < HALF { DiffExact(b, d); }
  }

  lemma NextAt(ts: u32, now: u32, slap: int, interval: u32)
    requires slap == TimeDiff(now, ts) && 0 <= slap < 10000 && 10 <= interval <= 5000
    ensures TimeDiff(NextFlush(ts, now, interval), now) == if slap < interval then interval - slap else interval
  {
    Shift(ts, now, slap, interval);
    DueIn(now, interval);
    hide ToI32, Wrap;
  }

  lemma Shift(ts: u32, now: u32, slap: int, interval: u32)
    requires slap == TimeDiff(now, ts) && 0 <= slap < 10000 && 10 <= interval <= 5000
    ensures TimeDiff(now, Wrap(ts + interval)) == slap - interval
    ensures TimeDiff(Wrap(ts + interval), now) == interval - slap
  {
    DiffOpposite(now, ts);
    DiffAdd(ts, now, interval);
    DiffOpposite(Wrap(ts + interval), now);
    hide TimeDiff, Wrap;
  }

  lemma DueIn(now: u32, interval: u32)
    requires interval <= 5000
    ensures TimeDiff(Wrap(now + interval), now) == interval
  {}

  /** `n` intervals, in milliseconds. */
  function Span(n: int, interval: int): int {
    n * interval
  }

  lemma OneMoreInterval(n: int, interval: int)
    ensures Span(n + 1, interval) == Span(n, interval) + interval && Span(0, interval) == 0
  {}

  lemma {:induction false} DeadlineAfterFlushes(cbs: seq<Cb>, t: seq<nat>, i: nat, j: nat)
    requires Updates(cbs, t) && i <= j < |t| && Flushes(cbs, t, i)
    ensures cbs[j].cfg == cbs[i].cfg
    ensures Deadline(cbs, t, j) >= Deadline(cbs, t, i) + Span(FlushCount(cbs, t, i, j) - 1, cbs[i].cfg.interval)
  {
    hide *;
    FlushCountStep(cbs, t, i, j);
    if i == j {
      OneMoreInterval(0, cbs[i].cfg.interval);
    } else {
      DeadlineAfterFlushes(cbs, t, i, j - 1);
      DeadlineAdvances(cbs, t, j - 1);
      DeadlineIs(cbs, t, j - 1);
      OneMoreInterval(FlushCount(cbs, t, i, j - 1) - 1, cbs[i].cfg.interval);
    }
  }

  lemma FlushCountStep(cbs: seq<Cb>, t: seq<nat>, i: nat, j: nat)
    requires Updates(cbs, t) && i <= j < |t|
    ensures FlushCount(cbs, t, i, j) ==
      (if j == i then 0 else FlushCount(cbs, t, i, j - 1)) + if Flushes(cbs, t, j) then 1 else 0
  {
    hide Flushes, Updates;
  }

  /** Any `n >= 2` flushes triggered by updates span more than `(n - 2)` intervals, whatever the gaps
      between the updates and through any number of clock wraps. */
  lemma FlushesSpread(cbs: seq<Cb>, t: seq<nat>, i: nat, j: nat)
    requires Updates(cbs, t) && i < j < |t| && Flushes(cbs, t, i) && Flushes(cbs, t, j)
    ensures t[j] - t[i] > Span(FlushCount(cbs, t, i, j) - 2, cbs[i].cfg.interval)
  {
    hide *;
    FlushCountStep(cbs, t, i, j);
    DeadlineIs(cbs, t, i);
    DeadlineAfterFlushes(cbs, t, i, j - 1);
    DeadlineAdvances(cbs, t, j - 1);
  }

  // ---------------------------------------------------------------- flushes over a run of calls

  /** A run of calls with a clock that does not go back: `clock[i]` is the unbounded time of call `i`,
      which an update reads modulo 2^32. */
  ghost predicate Timed(run: seq<Cb>, calls: seq<ControlInvariant.Call>, clock: seq<nat>) {
    && ControlInvariant.IsRun(run, calls) && |clock| == |calls|
    && (forall i, j :: 0 <= i < j < |clock| ==> clock[i] <= clock[j])
    && (forall i :: 0 <= i < |calls| && calls[i].CallUpdate? ==> calls[i].current == Wrap(clock[i]))
  }

  /** Call `i` is an update that flushes. */
  ghost predicate FlushesAt(run: seq<Cb>, calls: seq<ControlInvariant.Call>, i: nat)
    requires i < |run| && i < |calls|
  {
    calls[i].CallUpdate? && Due(run[i], calls[i].current)
  }

  ghost function FlushesWithin(run: seq<Cb>, calls: seq<ControlInvariant.Call>, i: nat, j: nat): nat
    requires i <= j < |calls| && j < |run|
  {
    (if j == i then 0 else FlushesWithin(run, calls, i, j - 1)) + if FlushesAt(run, calls, j) then 1 else 0
  }

  /** The updates among the calls from `i` to `j`, as the sequences the spreading of flushes is about. */
  lemma {:induction false} UpdatesOf(run: seq<Cb>, calls: seq<ControlInvariant.Call>, clock: seq<nat>, i: nat, j: nat)
      returns (cbs: seq<Cb>, t: seq<nat>)
    requires Timed(run, calls, clock) && i <= j < |calls| && FlushesAt(run, calls, i)
    ensures Updates(cbs, t) && t != [] && t[0] == clock[i] && cbs[0] == run[i] && t[|t| - 1] <= clock[j]
    ensures Flushes(cbs, t, 0) && FlushCount(cbs, t, 0, |t| - 1) == FlushesWithin(run, calls, i, j)
    ensures LeavesSchedule(cbs, t, run[j + 1])
    decreases j - i
  {
    hide *;
    TimedAt(run, calls, clock, j);
    WithinIs(run, calls, i, j);
    if i == j {
      cbs, t := [run[i]], [clock[i]];
      UpdatesOne(run[i], clock[i]);
    } else {
      TimedAt(run, calls, clock, j - 1);
      cbs, t := UpdatesOf(run, calls, clock, i, j - 1);
      if calls[j].CallUpdate? {
        UpdatesMore(cbs, t, run[j], clock[j]);
        cbs, t := cbs + [run[j]], t + [clock[j]];
      } else {
        QuietStep(cbs, t, run[j], calls[j]);
      }
    }
  }

  /** The schedule of the last update is the one `cb` stands with. */
  ghost predicate LeavesSchedule(cbs: seq<Cb>, t: seq<nat>, cb: Cb)
    requires Updates(cbs, t) && t != []
  {
    var after := Update(cbs[|t| - 1], Wrap(t[|t| - 1])).cb;
    cb.tsFlush == after.tsFlush && cb.updated == after.updated && cb.cfg == after.cfg
  }

  lemma TimedAt(run: seq<Cb>, calls: seq<ControlInvariant.Call>, clock: seq<nat>, j: nat)
    requires Timed(run, calls, clock) && j < |calls|
    ensures |run| == |calls| + 1 && |clock| == |calls|
    ensures ValidConfig(run[j].cfg) && run[j + 1] == ControlInvariant.Apply(run[j], calls[j])
    ensures calls[j].CallUpdate? ==> run[j + 1] == Update(run[j], Wrap(clock[j])).cb
    ensures FlushesAt(run, calls, j) <==> calls[j].CallUpdate? && Due(run[j], Wrap(clock[j]))
    ensures j > 0 ==> clock[j - 1] <= clock[j]
  {
    hide Due, Update, Flush, ValidConfig, Wrap;
    assert ControlInvariant.StepAt(run, calls, j);
  }

  lemma WithinIs(run: seq<Cb>, calls: seq<ControlInvariant.Call>, i: nat, j: nat)
    requires i <= j < |calls| && j < |run|
    ensures FlushesWithin(run, calls, i, j) ==
      (if j == i then 0 else FlushesWithin(run, calls, i, j - 1)) + if FlushesAt(run, calls, j) then 1 else 0
  {
    hide FlushesAt;
  }

  lemma UpdatesOne(cb: Cb, now: nat)
    requires ValidConfig(cb.cfg)
    ensures Updates([cb], [now]) && (Flushes([cb], [now], 0) <==> Due(cb, Wrap(now)))
    ensures FlushCount([cb], [now], 0, 0) == if Due(cb, Wrap(now)) then 1 else 0
    ensures LeavesSchedule([cb], [now], Update(cb, Wrap(now)).cb)
  {
    hide Due, Update, Wrap, ValidConfig;
  }

  lemma UpdatesMore(cbs: seq<Cb>, t: seq<nat>, cb: Cb, now: nat)
    requires Updates(cbs, t) && t != [] && LeavesSchedule(cbs, t, cb) && t[|t| - 1] <= now && ValidConfig(cb.cfg)
    ensures Updates(cbs + [cb], t + [now])
    ensures Flushes(cbs + [cb], t + [now], |t|) <==> Due(cb, Wrap(now))
    ensures Flushes(cbs, t, 0) ==> Flushes(cbs + [cb], t + [now], 0)
    ensures FlushCount(cbs + [cb], t + [now], 0, |t|) ==
            FlushCount(cbs, t, 0, |t| - 1) + if Due(cb, Wrap(now)) then 1 else 0
    ensures LeavesSchedule(cbs + [cb], t + [now], Update(cb, Wrap(now)).cb)
  {
    hide Due, Update, Wrap, ValidConfig;
    var dbs, u := cbs + [cb], t + [now];
    forall i | 0 <= i < |u| - 1 ensures ValidConfig(dbs[i].cfg) && Follows(dbs, u, i) {
      if i < |t| - 1 { assert Follows(cbs, t, i); }
    }
    CountSame(cbs, t, dbs, u, |t| - 1);
    FlushCountStep(dbs, u, 0, |t|);
    hide FlushCount;
  }

  lemma {:induction false} CountSame(cbs: seq<Cb>, t: seq<nat>, dbs: seq<Cb>, u: seq<nat>, j: nat)
    requires Updates(cbs, t) && Updates(dbs, u) && cbs <= dbs && t <= u && j < |t|
    ensures FlushCount(dbs, u, 0, j) == FlushCount(cbs, t, 0, j)
  {
    hide Due, Updates, Wrap;
    if j > 0 { CountSame(cbs, t, dbs, u, j - 1); }
  }

  lemma QuietStep(cbs: seq<Cb>, t: seq<nat>, cb: Cb, call: ControlInvariant.Call)
    requires Updates(cbs, t) && t != [] && LeavesSchedule(cbs, t, cb) && ValidConfig(cb.cfg) && !call.CallUpdate?
    ensures LeavesSchedule(cbs, t, ControlInvariant.Apply(cb, call))
  {
    OthersKeepSchedule(cb, call);
    hide Updates, Update, ControlInvariant.Apply, ValidConfig, Wrap;
  }

  /** Over every run with a clock that does not go back: the flushes that updates trigger between two of
      them, both included, are `n` in number only if more than `n - 2` intervals lie between. */
  lemma RunFlushesSpread(run: seq<Cb>, calls: seq<ControlInvariant.Call>, clock: seq<nat>, i: nat, j: nat)
    requires Timed(run, calls, clock) && i < j < |calls| && FlushesAt(run, calls, i) && FlushesAt(run, calls, j)
    ensures clock[j] - clock[i] > Span(FlushesWithin(run, calls, i, j) - 2, run[i].cfg.interval)
  {
    hide *;
    TimedAt(run, calls, clock, j);
    WithinIs(run, calls, i, j);
    TimedAt(run, calls, clock, j - 1);
    var cbs, t := UpdatesOf(run, calls, clock, i, j - 1);
    SpreadMore(cbs, t, run[j], clock[j]);
  }

  lemma SpreadMore(cbs: seq<Cb>, t: seq<nat>, cb: Cb, now: nat)
    requires Updates(cbs, t) && t != [] && LeavesSchedule(cbs, t, cb) && t[|t| - 1] <= now && ValidConfig(cb.cfg)
    requires Flushes(cbs, t, 0) && Due(cb, Wrap(now))
    ensures now - t[0] > Span(FlushCount(cbs, t, 0, |t| - 1) - 1, cbs[0].cfg.interval)
  {
    hide *;
    UpdatesMore(cbs, t, cb, now);
    var dbs, u := cbs + [cb], t + [now];
    assert u[0] == t[0] && u[|t|] == now && dbs[0] == cbs[0];
    FlushesSpread(dbs, u, 0, |t|);
  }

  // ---------------------------------------------------------------- check

  lemma {:induction false} SoonestSpec(buf: seq<Sender.Seg>, current: u32, least: int)
    requires least > 0
    ensures Soonest(buf, current, least) <= least
    ensures Soonest(buf, current, least) > 0 ==>
      forall i :: 0 <= i < |buf| ==> Soonest(buf, current, least) <= TimeDiff(buf[i].resendts, current)
  {
    hide TimeDiff;
    if buf != [] && TimeDiff(buf[0].resendts, current) > 0 {
      SoonestSpec(buf[1..], current, Min(TimeDiff(buf[0].resendts, current), least));
    }
  }

  /** The time returned lies at most one interval ahead; no update before it flushes, none before it
      changes anything but the clock, and no segment in flight comes due before it. */
  lemma CheckSound(cb: Cb, current: u32, d: nat)
    requires ValidConfig(cb.cfg) && d < Off(current, Check(cb, current))
    ensures Off(current, Check(cb, current)) <= cb.cfg.interval
    ensures !Due(cb, Wrap(current + d))
    ensures Update(cb, Wrap(current + d)) == FlushResult(cb.(current := Wrap(current + d)), [])
    ensures forall i :: 0 <= i < |cb.snd.buf| ==> TimeDiff(Wrap(current + d), cb.snd.buf[i].resendts) < 0
  {
    hide *;
    var wait := CheckIs(cb, current);
    OffWrap(current, wait);
    Before(current, cb.tsFlush, d);
    NotDue(cb, Wrap(current + d));
    forall i | 0 <= i < |cb.snd.buf| ensures TimeDiff(Wrap(current + d), cb.snd.buf[i].resendts) < 0 {
      Before(current, cb.snd.buf[i].resendts, d);
    }
  }

  /** A time other than the present one is the present plus the least of the distances to the flush
      time, to every resend time, and the interval. */
  lemma CheckIs(cb: Cb, current: u32) returns (wait: nat)
    requires ValidConfig(cb.cfg) && 0 < Off(current, Check(cb, current))
    ensures Check(cb, current) == Wrap(current + wait) && 0 < wait <= cb.cfg.interval < 0x1_0000_0000
    ensures cb.updated && wait <= TimeDiff(cb.tsFlush, current) <= 10000
    ensures forall i :: 0 <= i < |cb.snd.buf| ==> wait <= TimeDiff(cb.snd.buf[i].resendts, current)
    ensures wait == cb.cfg.interval || wait == TimeDiff(cb.tsFlush, current)
            || wait == Soonest(cb.snd.buf, current, 0x7FFF_FFFF) < cb.cfg.interval
  {
    var packet := Soonest(cb.snd.buf, current, 0x7FFF_FFFF);
    SoonestSpec(cb.snd.buf, current, 0x7FFF_FFFF);
    OffSelf(current, current);
    hide Soonest, Off, TimeDiff, Wrap;
    DiffOpposite(current, cb.tsFlush);
    wait := Min(Min(packet, TimeDiff(cb.tsFlush, current)), cb.cfg.interval);
  }

  /** The segment's resend time is `diff` ahead of `current`. */
  predicate ResendsIn(g: Sender.Seg, current: u32, diff: int) {
    TimeDiff(g.resendts, current) == diff
  }

  lemma {:induction false} SoonestFrom(buf: seq<Sender.Seg>, current: u32, least: int)
    ensures Soonest(buf, current, least) == least
            || exists i :: 0 <= i < |buf| && ResendsIn(buf[i], current, Soonest(buf, current, least))
  {
    hide TimeDiff;
    if buf != [] {
      var diff := TimeDiff(buf[0].resendts, current);
      assert ResendsIn(buf[0], current, diff);
      if diff > 0 {
        SoonestFrom(buf[1..], current, Min(diff, least));
        assert forall i :: 0 <= i < |buf| - 1 ==> buf[1..][i] == buf[i + 1];
      }
    }
  }

  lemma CheckNow(cb: Cb, current: u32)
    requires ValidConfig(cb.cfg) && Off(current, Check(cb, current)) == 0 && !Due(cb, current)
    ensures exists i :: 0 <= i < |cb.snd.buf| && TimeDiff(cb.snd.buf[i].resendts, current) <= 0
  {
    hide *;
    SoonestFrom(cb.snd.buf, current, 0x7FFF_FFFF);
    if Soonest(cb.snd.buf, current, 0x7FFF_FFFF) > 0 { CheckAhead(cb, current); }
    forall i | 0 <= i < |cb.snd.buf| { ResendsMeans(cb.snd.buf[i], current); }
  }

  lemma ResendsMeans(g: Sender.Seg, current: u32)
    ensures forall diff :: ResendsIn(g, current, diff) <==> TimeDiff(g.resendts, current) == diff
  {
    hide TimeDiff;
  }

  lemma CheckAhead(cb: Cb, current: u32)
    requires ValidConfig(cb.cfg) && !Due(cb, current) && Soonest(cb.snd.buf, current, 0x7FFF_FFFF) > 0
    ensures Off(current, Check(cb, current)) > 0
  {
    assert TimeDiff(current, current) == 0;
    hide Soonest, Off, TimeDiff, Wrap;
    DiffOpposite(current, cb.tsFlush);
    var packet := Soonest(cb.snd.buf, current, 0x7FFF_FFFF);
    OffWrap(current, Min(Min(packet, TimeDiff(cb.tsFlush, current)), cb.cfg.interval));
  }

  lemma CheckThen(cb: Cb, current: u32)
    requires ValidConfig(cb.cfg) && 0 < Off(current, Check(cb, current))
    ensures var w := Off(current, Check(cb, current));
      w == cb.cfg.interval || cb.tsFlush == Wrap(current + w)
      || exists i :: 0 <= i < |cb.snd.buf| && cb.snd.buf[i].resendts == Wrap(current + w)
  {
    hide *;
    var wait := CheckIs(cb, current);
    OffWrap(current, wait);
    WrapDiff(cb.tsFlush, current);
    SoonestFrom(cb.snd.buf, current, 0x7FFF_FFFF);
    forall i | 0 <= i < |cb.snd.buf| { ResendsAt(cb.snd.buf[i], current); }
  }

  lemma ResendsAt(g: Sender.Seg, current: u32)
    ensures forall diff :: ResendsIn(g, current, diff) ==> Wrap(current + diff) == g.resendts
  {
    WrapDiff(g.resendts, current);
    hide TimeDiff, Wrap;
  }

  lemma DueAtFlushTime(cb: Cb)
    ensures Due(cb, cb.tsFlush)
  {}

  /** The time returned is not early: it is the present exactly when an update would flush or a segment's
      resend time is not ahead, and otherwise it is a whole interval away unless one of them comes due at it. */
  lemma CheckTight(cb: Cb, current: u32)
    requires ValidConfig(cb.cfg)
    ensures var w := Off(current, Check(cb, current));
      && (w == 0 <==>
            Due(cb, current) || exists i :: 0 <= i < |cb.snd.buf| && TimeDiff(cb.snd.buf[i].resendts, current) <= 0)
      && (w > 0 ==>
            w == cb.cfg.interval || Due(cb, Wrap(current + w))
            || exists i :: 0 <= i < |cb.snd.buf| && cb.snd.buf[i].resendts == Wrap(current + w))
  {
    hide *;
    if Off(current, Check(cb, current)) > 0 {
      var wait := CheckIs(cb, current);
      CheckSound(cb, current, 0);
      CheckThen(cb, current);
      DueAtFlushTime(cb);
    } else if !Due(cb, current) {
      CheckNow(cb, current);
    }
  }

  /** An update at most 10 seconds before the flush time only sets the clock. */
  lemma NotDue(cb: Cb, now: u32)
    requires ValidConfig(cb.cfg) && cb.updated && -10000 <= TimeDiff(now, cb.tsFlush) < 0
    ensures !Due(cb, now) && Update(cb, now) == FlushResult(cb.(current := now), [])
  {
    hide TimeDiff, Flush, NextFlush;
  }

  lemma Before(current: u32, ts: u32, d: nat)
    requires d < TimeDiff(ts, current)
    ensures TimeDiff(Wrap(current + d), ts) == d - TimeDiff(ts, current)
  {
    DiffOpposite(ts, current);
    DiffAdd(current, ts, d);
    hide TimeDiff, Wrap;
  }

  /** Updates at every millisecond from `current` on, `n` of them. */
  function Poll(cb: Cb, current: u32, n: nat): Cb
    requires ValidConfig(cb.cfg)
    ensures Poll(cb, current, n).cfg == cb.cfg
  {
    if n == 0 then cb
    else
      UpdateKeeps(Poll(cb, current, n - 1), Wrap(current + n - 1));
      Update(Poll(cb, current, n - 1), Wrap(current + n - 1)).cb
  }

  /** Sleeping until the time returned is equivalent to polling every tick: the polls emit nothing,
      and an update afterwards, at any time, does exactly what it would have done without them. */
  lemma {:induction false} PollIsSleep(cb: Cb, current: u32, n: nat, later: u32)
    requires ValidConfig(cb.cfg) && n <= Off(current, Check(cb, current))
    ensures Poll(cb, current, n) == cb.(current := Poll(cb, current, n).current)
    ensures n > 0 ==> Update(Poll(cb, current, n - 1), Wrap(current + n - 1)).emitted == []
    ensures Update(Poll(cb, current, n), later) == Update(cb, later)
  {
    hide *;
    PollStep(cb, current, n);
    if n > 0 {
      PollIsSleep(cb, current, n - 1, Wrap(current + n - 1));
      CheckSound(cb, current, n - 1);
      UpdateForgets(cb, Wrap(current + n - 1), later);
    }
  }

  lemma PollStep(cb: Cb, current: u32, n: nat)
    requires ValidConfig(cb.cfg)
    ensures Poll(cb, current, n) == if n == 0 then cb else Update(Poll(cb, current, n - 1), Wrap(current + n - 1)).cb
  {
    hide Update, Wrap, ValidConfig;
  }

  lemma UpdateForgets(cb: Cb, x: u32, later: u32)
    requires ValidConfig(cb.cfg)
    ensures Update(cb.(current := x), later) == Update(cb, later)
  {
    assert Clocked(cb.(current := x), later) == Clocked(cb, later);
    hide Clocked, Flush, TimeDiff, NextFlush;
  }
}
