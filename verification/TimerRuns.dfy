/** Which timers are scheduled: what every call and every alarm does to them, and that none is lost. */
module TimerRuns {
  import opened Serial
  import opened Timers
  import Lists

  /** The timer at `addr` is alive, is `t`, and waits for its expiration. */
  predicate Scheduled(q: Queue, addr: nat, t: Timer) {
    addr in q.store && q.store[addr] == t && Entry(t.expiration, addr) in q.timers
  }

  // ---------------------------------------------------------------- single calls

  /** Creating a timer schedules nothing; the new timer has a number no other timer had, and awaits its
      hand-over. */
  lemma CreateExactly(q: Queue, addr: nat, when: int, delta: nat, repeats: bool, batch: set<nat>, running: bool)
    requires Inv(q, batch, running)
    ensures var r := Perform(q, Create(addr, when, delta, repeats));
      && (forall a, t :: Scheduled(r, a, t) <==> Scheduled(q, a, t))
      && (addr in q.store ==> r == q)
      && (addr !in q.store ==>
            && addr in r.store && r.store == q.store[addr := Timer(when, delta, repeats, r.store[addr].sequence)]
            && (forall a :: a in q.store ==> q.store[a].sequence < r.store[addr].sequence)
            && q.created < r.created && r.pending == q.pending + {addr} && r.alarm == q.alarm)
  {
    hide Sorted, Owned, AlarmOk;
  }

  /** Handing a pending timer to the loop schedules exactly it; the descriptor is set anew exactly when the
      timer is earlier than all others. */
  lemma HandExactly(q: Queue, addr: nat, at: int, batch: set<nat>, running: bool)
    requires Inv(q, batch, running) && addr in q.pending
    ensures var r := Perform(q, Hand(addr, at));
      && addr in q.store && r.store == q.store && r.pending == q.pending - {addr}
      && (forall a, t :: Scheduled(r, a, t) <==> Scheduled(q, a, t) || (a == addr && t == q.store[addr]))
      && r.alarm == if forall e :: e in q.timers ==> q.store[addr].expiration < e.when
                    then Armed(q.store[addr].expiration, at) else q.alarm
  {
    hide *;
    InvParts(q, batch, running);
    PendingOutside(q, addr, batch);
    PendingAlive(q, addr, batch);
    AddIs(q, addr, at);
    EnterInv(q, addr, batch);
    EarliestBefore(q, q.store[addr].expiration);
    HandIs(q, addr, at);
  }

  lemma PendingAlive(q: Queue, addr: nat, batch: set<nat>)
    requires Owned(q, batch) && addr in q.pending
    ensures addr in q.store
  {
    hide Addrs;
  }

  lemma HandIs(q: Queue, addr: nat, at: int)
    requires addr in q.pending && addr in q.store
    requires var r, t := AddInLoop(q, addr, at), Enter(q, addr);
      && r == t.(pending := q.pending - {addr}, alarm := r.alarm) && r.store == q.store
      && forall e :: e in t.timers <==> e in q.timers || e == Entry(q.store[addr].expiration, addr)
    requires Earliest(q, q.store[addr].expiration) ==> forall e :: e in q.timers ==> q.store[addr].expiration < e.when
    requires !Earliest(q, q.store[addr].expiration) ==>
      q.timers != [] && q.timers[0].when <= q.store[addr].expiration
    requires AddInLoop(q, addr, at).alarm == if Earliest(q, q.store[addr].expiration)
                                             then Armed(q.store[addr].expiration, at) else q.alarm
    ensures var r := Perform(q, Hand(addr, at));
      && r.store == q.store && r.pending == q.pending - {addr}
      && (forall a, t :: Scheduled(r, a, t) <==> Scheduled(q, a, t) || (a == addr && t == q.store[addr]))
      && r.alarm == if forall e :: e in q.timers ==> q.store[addr].expiration < e.when
                    then Armed(q.store[addr].expiration, at) else q.alarm
  {
    hide AddInLoop, Enter, Earliest;
    assert q.timers != [] ==> q.timers[0] in q.timers;
  }

  /** Cancelling takes exactly the timer it names, under its address and its number, from the schedule. */
  lemma CancelExactly(q: Queue, id: Id, batch: set<nat>, running: bool)
    requires Inv(q, batch, running)
    ensures var r := Perform(q, Cancel(id));
      && (forall a, t :: Scheduled(r, a, t) <==> Scheduled(q, a, t) && !(a == id.addr && t.sequence == id.sequence))
      && (forall a :: a in r.store <==> a in q.store && !(a == id.addr && Scheduled(q, a, q.store[a])
                                                           && q.store[a].sequence == id.sequence))
      && r.pending == q.pending && r.alarm == q.alarm
  {
    hide *;
    InvParts(q, batch, running);
    CancelIs(q, id);
    if id in q.active && id.addr in q.store {
      EraseSpec(q.timers, Entry(q.store[id.addr].expiration, id.addr));
      CancelledIs(q, id);
    } else {
      NotCancelledIs(q, id);
    }
  }

  lemma CancelledIs(q: Queue, id: Id)
    requires Agree(q) && id in q.active && id.addr in q.store
    requires var r := CancelInLoop(q, id);
      && r == q.(timers := r.timers, active := q.active - {id}, store := q.store - {id.addr})
      && forall x :: x in r.timers <==> x in q.timers && x != Entry(q.store[id.addr].expiration, id.addr)
    ensures var r := Perform(q, Cancel(id));
      && (forall a, t :: Scheduled(r, a, t) <==> Scheduled(q, a, t) && !(a == id.addr && t.sequence == id.sequence))
      && (forall a :: a in r.store <==> a in q.store && !(a == id.addr && Scheduled(q, a, q.store[a])
                                                           && q.store[a].sequence == id.sequence))
      && r.pending == q.pending && r.alarm == q.alarm
  {
    hide CancelInLoop;
  }

  lemma NotCancelledIs(q: Queue, id: Id)
    requires Agree(q) && !(id in q.active && id.addr in q.store)
    requires CancelInLoop(q, id) == q.(canceling := CancelInLoop(q, id).canceling)
    ensures var r := Perform(q, Cancel(id));
      && (forall a, t :: Scheduled(r, a, t) <==> Scheduled(q, a, t) && !(a == id.addr && t.sequence == id.sequence))
      && (forall a :: a in r.store <==> a in q.store && !(a == id.addr && Scheduled(q, a, q.store[a])
                                                           && q.store[a].sequence == id.sequence))
      && r.pending == q.pending && r.alarm == q.alarm
  {
    hide CancelInLoop;
  }

  // ---------------------------------------------------------------- an alarm

  /** The number was given out and its timer is no more. */
  ghost predicate Gone(q: Queue, n: nat) {
    n <= q.created && forall a :: a in q.store ==> q.store[a].sequence != n
  }

  lemma PerformGone(q: Queue, op: Op, n: nat, batch: set<nat>, running: bool)
    requires Inv(q, batch, running) && Gone(q, n)
    ensures Gone(Perform(q, op), n)
  {
    hide Inv, Insert, Erase, Less, Earliest;
  }

  lemma {:induction false} OpsGone(q: Queue, ops: seq<Op>, n: nat, batch: set<nat>, running: bool)
    requires Inv(q, batch, running) && Gone(q, n)
    ensures Gone(PerformAll(q, ops), n)
    decreases |ops|
  {
    hide Inv, Gone, Perform;
    if ops != [] {
      PerformGone(q, ops[0], n, batch, running);
      PerformInv(q, ops[0], batch, running);
      OpsGone(Perform(q, ops[0]), ops[1..], n, batch, running);
    }
  }

  /** One call keeps a scheduled timer unless it cancels it; a cancelled one is gone for good. */
  lemma PerformStays(q: Queue, op: Op, batch: set<nat>, running: bool, a: nat, t: Timer)
    requires Inv(q, batch, running) && Scheduled(q, a, t)
    ensures op != Cancel(Id(a, t.sequence)) ==> Scheduled(Perform(q, op), a, t)
    ensures op == Cancel(Id(a, t.sequence)) ==> Gone(Perform(q, op), t.sequence)
  {
    match op
    case Create(addr, when, delta, repeats) =>
      CreateExactly(q, addr, when, delta, repeats, batch, running);
      hide Perform, Scheduled, Inv;
    case Hand(addr, at) =>
      if addr in q.pending { HandExactly(q, addr, at, batch, running); }
      hide Inv, Scheduled, Enter;
    case Cancel(id) =>
      CancelExactly(q, id, batch, running);
      CreatedSame(q, id);
      hide CancelInLoop, Sorted, Agree, Owned, AlarmOk;
  }

  lemma CreatedSame(q: Queue, id: Id)
    ensures var r := CancelInLoop(q, id);
      r.created == q.created && forall a :: a in r.store ==> a in q.store && r.store[a] == q.store[a]
  {
    hide Erase;
  }

  lemma {:induction false} OpsExactly(q: Queue, ops: seq<Op>, batch: set<nat>, running: bool, a: nat, t: Timer)
    requires Inv(q, batch, running) && Scheduled(q, a, t)
    ensures Cancel(Id(a, t.sequence)) !in ops ==> Scheduled(PerformAll(q, ops), a, t)
    ensures Cancel(Id(a, t.sequence)) in ops ==> Gone(PerformAll(q, ops), t.sequence)
    decreases |ops|
  {
    hide Inv, Gone, Perform, Scheduled;
    if ops != [] {
      var r := Perform(q, ops[0]);
      PerformStays(q, ops[0], batch, running, a, t);
      PerformInv(q, ops[0], batch, running);
      Lists.HeadTail(ops);
      if ops[0] == Cancel(Id(a, t.sequence)) {
        OpsGone(r, ops[1..], t.sequence, batch, running);
      } else {
        OpsExactly(r, ops[1..], batch, running, a, t);
      }
    }
  }

  /** Whatever the callbacks of a batch do: a timer that was not due stays scheduled exactly if none of them
      cancels it. */
  lemma FireExactly(q: Queue, now: int, ops: seq<Op>, at: int, a: nat, t: Timer)
    requires Quiescent(q) && now > 0 && Scheduled(q, a, t) && t.expiration > now
    ensures Scheduled(HandleRead(q, now, ops, at), a, t) <==> Cancel(Id(a, t.sequence)) !in ops
  {
    hide *;
    QuiescentParts(q);
    var batch, b := Batch(q, now), Begin(q, now);
    BeginInv(q, now);
    BeginKeeps(q, now, a, t);
    var u := PerformAll(b, ops);
    OpsExactly(b, ops, Addrs(batch), true, a, t);
    CallbacksInv(b, ops, Addrs(batch), true);
    CallingOff(u, Addrs(batch));
    var c := u.(calling := false);
    SettleAllInv(c, batch, now);
    HandleReadIs(q, now, ops, at);
    RearmKeeps(SettleAll(c, batch, now), at, a, t);
    SettleKeeps(u, c, SettleAll(c, batch, now), batch, a, t);
  }

  lemma BeginKeeps(q: Queue, now: int, a: nat, t: Timer)
    requires Inv(q, {}, false) && Scheduled(q, a, t) && t.expiration > now
    ensures Scheduled(Begin(q, now), a, t) && a !in Addrs(Batch(q, now))
  {
    InvParts(q, {}, false);
    ExpiredExactly(q, now);
    BeginParts(q, now);
    BeginIs(q, now);
    hide Sorted, Owned, Numbered, AlarmOk, Inv, ExpiredCount, Begin, GetExpired, Batch, Ids;
  }

  lemma RearmKeeps(q: Queue, at: int, a: nat, t: Timer)
    ensures Scheduled(Rearm(q, at), a, t) <==> Scheduled(q, a, t)
  {}

  lemma SettleKeeps(u: Queue, c: Queue, d: Queue, batch: seq<Entry>, a: nat, t: Timer)
    requires Inv(u, Addrs(batch), true) && Inv(d, {}, true) && c == u.(calling := false) && a !in Addrs(batch)
    requires d.pending == c.pending && (a in d.store <==> a in c.store) && (a in c.store ==> d.store[a] == c.store[a])
    ensures Scheduled(u, a, t) ==> Scheduled(d, a, t)
    ensures Gone(u, t.sequence) ==> !Scheduled(d, a, t)
  {
    hide Sorted, Numbered, AlarmOk;
  }

  /** After an alarm the descriptor is set for exactly the earliest timer, if its expiration is a valid time, and
      otherwise left as the callbacks left it. */
  lemma FireArms(q: Queue, now: int, ops: seq<Op>, at: int)
    requires Quiescent(q) && now > 0
    ensures var r := HandleRead(q, now, ops, at);
      && (r.timers != [] && r.timers[0].when > 0 ==>
            r.alarm == Armed(r.timers[0].when, at) && forall e :: e in r.timers ==> r.timers[0].when <= e.when)
      && (r.timers == [] || r.timers[0].when <= 0 ==> r.alarm == PerformAll(Begin(q, now), ops).alarm)
  {
    HandleReadInv(q, now, ops, at);
    QuiescentParts(HandleRead(q, now, ops, at));
    InvParts(HandleRead(q, now, ops, at), {}, false);
    FirstEarliest(HandleRead(q, now, ops, at).timers);
    HandleReadIs(q, now, ops, at);
    SettleAlarm(PerformAll(Begin(q, now), ops).(calling := false), Batch(q, now), now);
    hide HandleRead, PerformAll, Begin, SettleAll, Batch, Inv, Sorted, Quiescent;
  }

  lemma {:induction false} SettleAlarm(q: Queue, batch: seq<Entry>, now: int)
    ensures SettleAll(q, batch, now).alarm == q.alarm
    decreases |batch|
  {
    hide Insert;
    if batch != [] { SettleAlarm(Settle(q, batch[0].addr, now), batch[1..], now); }
  }

  // ---------------------------------------------------------------- runs

  /** The event takes the timer from the schedule: it cancels it, or its expiration has come. */
  predicate Takes(x: Event, a: nat, t: Timer) {
    match x
    case Do(op) => op == Cancel(Id(a, t.sequence))
    case Fire(now, ops, at) => now >= t.expiration || Cancel(Id(a, t.sequence)) in ops
  }

  /** A scheduled timer stays so through every event that does not take it. */
  lemma {:induction false} NotLost(xs: seq<Event>, n: nat, a: nat, t: Timer)
    requires forall i :: 0 <= i < |xs| && xs[i].Fire? ==> xs[i].now > 0
    requires n <= |xs| && Scheduled(ReactAll(xs[..n]), a, t)
    requires forall i :: n <= i < |xs| ==> !Takes(xs[i], a, t)
    ensures Scheduled(ReactAll(xs), a, t)
    decreases |xs|
  {
    hide Scheduled, React, Quiescent, Perform;
    if n == |xs| {
      assert xs[..n] == xs;
    } else {
      var before, x := xs[..|xs| - 1], xs[|xs| - 1];
      assert before[..n] == xs[..n];
      NotLost(before, n, a, t);
      AlwaysQuiescent(before);
      ReactStays(ReactAll(before), x, a, t);
    }
  }

  lemma ReactStays(q: Queue, x: Event, a: nat, t: Timer)
    requires Quiescent(q) && (x.Fire? ==> x.now > 0) && Scheduled(q, a, t) && !Takes(x, a, t)
    ensures Scheduled(React(q, x), a, t)
  {
    QuiescentParts(q);
    hide Scheduled, Quiescent, Perform, Inv, HandleRead;
    match x
    case Do(op) => PerformStays(q, op, {}, false, a, t);
    case Fire(now, ops, at) => FireExactly(q, now, ops, at, a, t);
  }

  /** A timer created and not yet handed to the loop. */
  predicate Awaits(q: Queue, addr: nat, t: Timer) {
    addr in q.pending && addr in q.store && q.store[addr] == t
  }

  lemma PerformAwaits(q: Queue, op: Op, batch: set<nat>, running: bool, a: nat, t: Timer)
    requires Inv(q, batch, running) && Awaits(q, a, t) && !(op.Hand? && op.addr == a)
    ensures Awaits(Perform(q, op), a, t)
  {
    InvParts(q, batch, running);
    PendingOutside(q, a, batch);
    if op.Cancel? { ActiveScheduled(q, op.id); }
    hide Inv, Agree, Owned, Sorted, Insert, Erase, Earliest;
  }

  lemma ActiveScheduled(q: Queue, id: Id)
    requires Agree(q)
    ensures id in q.active ==> id.addr in Addrs(q.timers)
  {
    if id in q.active { InAddrs(q.timers, Entry(q.store[id.addr].expiration, id.addr)); }
    hide Addrs;
  }

  lemma {:induction false} OpsAwait(q: Queue, ops: seq<Op>, batch: set<nat>, running: bool, a: nat, t: Timer)
    requires Inv(q, batch, running) && Awaits(q, a, t) && forall op :: op in ops ==> !(op.Hand? && op.addr == a)
    ensures Awaits(PerformAll(q, ops), a, t)
    decreases |ops|
  {
    hide Inv, Perform, Awaits;
    if ops != [] {
      PerformInv(q, ops[0], batch, running);
      PerformAwaits(q, ops[0], batch, running, a, t);
      OpsAwait(Perform(q, ops[0]), ops[1..], batch, running, a, t);
    }
  }

  /** The event hands the timer at `a` to the loop. */
  predicate Hands(x: Event, a: nat) {
    match x
    case Do(op) => op.Hand? && op.addr == a
    case Fire(now, ops, at) => exists op :: op in ops && op.Hand? && op.addr == a
  }

  lemma FireAwaits(q: Queue, now: int, ops: seq<Op>, at: int, a: nat, t: Timer)
    requires Quiescent(q) && now > 0 && Awaits(q, a, t) && forall op :: op in ops ==> !(op.Hand? && op.addr == a)
    ensures Awaits(HandleRead(q, now, ops, at), a, t)
  {
    hide *;
    QuiescentParts(q);
    var batch, b := Batch(q, now), Begin(q, now);
    BeginInv(q, now);
    BeginAwaits(q, now, a, t);
    OpsAwait(b, ops, Addrs(batch), true, a, t);
    var u := PerformAll(b, ops);
    CallbacksInv(b, ops, Addrs(batch), true);
    CallingOff(u, Addrs(batch));
    var c := u.(calling := false);
    SettleAllInv(c, batch, now);
    HandleReadIs(q, now, ops, at);
    SettleAwaits(u, c, SettleAll(c, batch, now), batch, at, a, t);
  }

  lemma BeginAwaits(q: Queue, now: int, a: nat, t: Timer)
    requires Awaits(q, a, t)
    ensures Awaits(Begin(q, now), a, t)
  {
    hide ExpiredCount, Ids;
  }

  lemma SettleAwaits(u: Queue, c: Queue, d: Queue, batch: seq<Entry>, at: int, a: nat, t: Timer)
    requires Inv(u, Addrs(batch), true) && c == u.(calling := false) && Awaits(u, a, t) && d.pending == c.pending
    requires forall x :: x !in Addrs(batch) ==>
      (x in d.store <==> x in c.store) && (x in c.store ==> d.store[x] == c.store[x])
    ensures Awaits(Rearm(d, at), a, t)
  {
    hide Sorted, Agree, Numbered, AlarmOk, Addrs;
  }

  lemma {:induction false} StillAwaits(xs: seq<Event>, n: nat, a: nat, t: Timer)
    requires forall i :: 0 <= i < |xs| && xs[i].Fire? ==> xs[i].now > 0
    requires n <= |xs| && Awaits(ReactAll(xs[..n]), a, t) && forall i :: n <= i < |xs| ==> !Hands(xs[i], a)
    ensures Awaits(ReactAll(xs), a, t)
    decreases |xs|
  {
    hide Awaits, React, Quiescent, Perform;
    if n == |xs| {
      assert xs[..n] == xs;
    } else {
      var before, x := xs[..|xs| - 1], xs[|xs| - 1];
      assert before[..n] == xs[..n];
      StillAwaits(before, n, a, t);
      AlwaysQuiescent(before);
      ReactAwaits(ReactAll(before), x, a, t);
    }
  }

  lemma ReactAwaits(q: Queue, x: Event, a: nat, t: Timer)
    requires Quiescent(q) && (x.Fire? ==> x.now > 0) && Awaits(q, a, t) && !Hands(x, a)
    ensures Awaits(React(q, x), a, t)
  {
    QuiescentParts(q);
    hide Awaits, Quiescent, Perform, Inv, HandleRead;
    match x
    case Do(op) => PerformAwaits(q, op, {}, false, a, t);
    case Fire(now, ops, at) => FireAwaits(q, now, ops, at, a, t);
  }

  /** Over every run: a timer created at a free address and later handed to the loop is scheduled then, with the
      expiration, the interval and the repetition it was created with. */
  lemma CreatedThenScheduled(xs: seq<Event>, m: nat, n: nat, a: nat, when: int, delta: nat, repeats: bool, at: int)
    requires forall i :: 0 <= i < |xs| && xs[i].Fire? ==> xs[i].now > 0
    requires m < n < |xs| && xs[m] == Do(Create(a, when, delta, repeats)) && xs[n] == Do(Hand(a, at))
    requires a !in ReactAll(xs[..m]).store && forall i :: m < i < n ==> !Hands(xs[i], a)
    ensures exists sequence :: Scheduled(ReactAll(xs[..n + 1]), a, Timer(when, delta, repeats, sequence))
  {
    var q, u := ReactAll(xs[..m]), ReactAll(xs[..n]);
    AlwaysQuiescent(xs[..m]);
    QuiescentParts(q);
    CreateExactly(q, a, when, delta, repeats, {}, false);
    ReactNext(xs, m);
    var r := ReactAll(xs[..m + 1]);
    var t := r.store[a];
    assert xs[..n][..m + 1] == xs[..m + 1];
    StillAwaits(xs[..n], m + 1, a, t);
    AlwaysQuiescent(xs[..n]);
    QuiescentParts(u);
    HandExactly(u, a, at, {}, false);
    ReactNext(xs, n);
    assert Scheduled(ReactAll(xs[..n + 1]), a, Timer(when, delta, repeats, t.sequence));
    hide ReactAll, Perform, Quiescent, Inv, Scheduled;
  }

  lemma ReactNext(xs: seq<Event>, n: nat)
    requires n < |xs| && xs[n].Do?
    ensures ReactAll(xs[..n + 1]) == Perform(ReactAll(xs[..n]), xs[n].op)
  {
    assert xs[..n + 1][..n] == xs[..n];
    hide Perform;
  }

  /** Over every run: a scheduled timer that is not cancelled is run by the first alarm at or after its
      expiration. */
  lemma RunsWhenDue(xs: seq<Event>, n: nat, a: nat, t: Timer, now: int)
    requires forall i :: 0 <= i < |xs| && xs[i].Fire? ==> xs[i].now > 0
    requires n <= |xs| && Scheduled(ReactAll(xs[..n]), a, t) && now >= t.expiration
    requires forall i :: n <= i < |xs| ==> !Takes(xs[i], a, t)
    ensures Entry(t.expiration, a) in Batch(ReactAll(xs), now)
  {
    NotLost(xs, n, a, t);
    AlwaysQuiescent(xs);
    QuiescentParts(ReactAll(xs));
    InvParts(ReactAll(xs), {}, false);
    ExpiredExactly(ReactAll(xs), now);
    hide ReactAll, Batch, Quiescent, Inv, Sorted;
  }
}
