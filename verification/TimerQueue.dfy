/** The timer queue as the event loop runs it. A timer is read, restarted or freed only through its
    address, and every access proves that the timer is still alive. */
module TimerQueue {
  import opened Timers
  import Lists

  class TimerQueue {
    var store: map<nat, Timer>
    var timers: seq<Entry>
    var activeTimers: set<Id>
    var callingExpiredTimers: bool
    var cancelingTimers: set<Id>
    var pending: set<nat>
    var created: nat
    var alarm: Alarm

    ghost function State(): Queue
      reads this
    {
      Queue(store, timers, activeTimers, callingExpiredTimers, cancelingTimers, pending, created, alarm)
    }

    constructor ()
      ensures State() == EMPTY && Quiescent(State())
    {
      store, timers, activeTimers, callingExpiredTimers := map[], [], {}, false;
      cancelingTimers, pending, created, alarm := {}, {}, 0, Unarmed;
    }

    // -------------------------------------------------------------- timers in memory

    method New(addr: nat, when: int, delta: nat, repeats: bool)
      modifies this
      ensures State() == Timers.New(old(State()), addr, when, delta, repeats)
    {
      if addr !in store {
        created := created + 1;
        store := store[addr := Timer(when, delta, repeats, created)];
        pending := pending + {addr};
      }
    }

    method Delete(addr: nat)
      requires addr in store
      modifies this`store
      ensures store == old(store) - {addr}
    {
      store := store - {addr};
    }

    /** The next expiration of a repeating timer; any other gets the invalid time. */
    method Restart(addr: nat, now: int)
      requires addr in store
      modifies this`store
      ensures old(store[addr]).repeats ==> State() == Restarted(old(State()), addr, now)
      ensures !old(store[addr]).repeats ==>
        State() == old(State()).(store := old(store)[addr := old(store[addr]).(expiration := INVALID)])
    {
      if store[addr].repeats {
        store := store[addr := store[addr].(expiration := now + store[addr].delta)];
      } else {
        store := store[addr := store[addr].(expiration := INVALID)];
      }
    }

    // -------------------------------------------------------------- the two indexes

    method LowerBound(e: Entry) returns (k: nat)
      ensures k == Timers.LowerBound(timers, e)
    {
      k := 0;
      assert timers[0..] == timers;
      while k < |timers| && Less(timers[k], e)
        invariant k <= |timers|
        invariant Timers.LowerBound(timers, e) == k + Timers.LowerBound(timers[k..], e)
      {
        Lists.SplitAt(timers, k);
        k := k + 1;
      }
      if k < |timers| { Lists.SplitAt(timers, k); }
    }

    /** Enters a timer in both indexes; says whether it became the earliest. */
    method Insert(addr: nat) returns (earliestChanged: bool)
      requires addr in store
      modifies this`timers, this`activeTimers
      ensures State() == Enter(old(State()), addr)
      ensures earliestChanged <==> Earliest(old(State()), store[addr].expiration)
    {
      hide Less;
      var when := store[addr].expiration;
      earliestChanged := timers == [] || when < timers[0].when;
      var e := Entry(when, addr);
      var k := LowerBound(e);
      if !(k < |timers| && timers[k] == e) {
        timers := timers[..k] + [e] + timers[k..];
      }
      activeTimers := activeTimers + {Id(addr, store[addr].sequence)};
    }

    method AddTimerInLoop(addr: nat, at: int)
      modifies this
      ensures State() == AddInLoop(old(State()), addr, at)
    {
      hide Timers.Insert, Less;
      if addr in pending && addr in store {
        pending := pending - {addr};
        var earliestChanged := Insert(addr);
        if earliestChanged { alarm := Armed(store[addr].expiration, at); }
      }
    }

    method CancelInLoop(id: Id, ghost batch: set<nat>, ghost running: bool)
      requires Inv(State(), batch, running)
      modifies this
      ensures State() == Timers.CancelInLoop(old(State()), id)
    {
      hide *;
      ghost var before := State();
      StateIs();
      if id in activeTimers {
        CancelReady(before, id, batch, running);
        Forget(id);
      } else {
        CancelNotes(before, id);
        if callingExpiredTimers { Note(id); }
      }
    }

    lemma StateIs()
      ensures State().store == store && State().timers == timers && State().active == activeTimers
      ensures State().calling == callingExpiredTimers && State().canceling == cancelingTimers
    {}

    /** Takes a timer out of both indexes and frees it. */
    method Forget(id: Id)
      requires id.addr in store && Sorted(timers) && Entry(store[id.addr].expiration, id.addr) in timers
      modifies this`timers, this`activeTimers, this`store
      ensures var q, e := old(State()), Entry(old(store)[id.addr].expiration, id.addr);
        State() == q.(timers := Erase(q.timers, e), active := q.active - {id}, store := q.store - {id.addr})
    {
      hide Less, Sorted, Erase;
      var e := Entry(store[id.addr].expiration, id.addr);
      EraseIs(timers, e);
      var k := LowerBound(e);
      timers, activeTimers := timers[..k] + timers[k + 1..], activeTimers - {id};
      Delete(id.addr);
    }

    method Note(id: Id)
      modifies this`cancelingTimers
      ensures State() == old(State()).(canceling := old(State()).canceling + {id})
    {
      cancelingTimers := cancelingTimers + {id};
    }

    method Perform(op: Op, ghost batch: set<nat>, ghost running: bool)
      requires Inv(State(), batch, running)
      modifies this
      ensures State() == Timers.Perform(old(State()), op)
    {
      hide Inv, Timers.New, AddInLoop, Timers.CancelInLoop;
      match op
      case Create(addr, when, delta, repeats) => New(addr, when, delta, repeats);
      case Hand(addr, at) => AddTimerInLoop(addr, at);
      case Cancel(id) => CancelInLoop(id, batch, running);
    }

    /** What one callback does. */
    method Run(script: seq<Op>, ghost batch: set<nat>)
      requires Inv(State(), batch, true)
      modifies this
      ensures State() == PerformAll(old(State()), script) && Inv(State(), batch, true)
      ensures callingExpiredTimers == old(callingExpiredTimers)
    {
      hide Inv, Timers.Perform;
      ghost var before := State();
      var i := 0;
      assert script[0..] == script;
      while i < |script|
        invariant 0 <= i <= |script| && Inv(State(), batch, true) && callingExpiredTimers == old(callingExpiredTimers)
        invariant PerformAll(State(), script[i..]) == PerformAll(before, script)
      {
        Lists.SplitAt(script, i);
        PerformInv(State(), script[i], batch, true);
        Perform(script[i], batch, true);
        i := i + 1;
      }
    }

    // -------------------------------------------------------------- expiry

    /** Takes all expired timers out of both indexes. No timer lies at the highest address, so the
        sentry of the search stands behind every timer that expires at `now`. */
    method GetExpired(now: int) returns (expired: seq<Entry>)
      requires Quiescent(State()) && now >= 0
      modifies this`timers, this`activeTimers
      ensures expired == Batch(old(State()), now) && State() == Timers.GetExpired(old(State()), now)
    {
      hide Quiescent, Ids, ExpiredCount;
      ghost var before := State();
      var end := 0;
      assert timers[0..] == timers;
      while end < |timers| && timers[end].when <= now
        invariant end <= |timers| && State() == before
        invariant ExpiredCount(timers, now) == end + ExpiredCount(timers[end..], now)
      {
        Lists.SplitAt(timers, end);
        ExpiredStep(timers[end..], now);
        end := end + 1;
      }
      if end < |timers| { Lists.SplitAt(timers, end); }
      ExpiredStep(timers[end..], now);
      expired := timers[..end];
      RemoveActive(expired);
      timers := timers[end..];
    }

    /** Takes the expired timers out of the index for cancelling, each of which is still there. */
    method RemoveActive(expired: seq<Entry>)
      requires Quiescent(State()) && expired <= timers
      modifies this`activeTimers
      ensures activeTimers == old(activeTimers) - Ids(store, expired)
    {
      hide Quiescent, Ids;
      ghost var before := State();
      var i := 0;
      NoIds(store);
      while i < |expired|
        invariant 0 <= i <= |expired| && State() == before.(active := activeTimers)
        invariant activeTimers == before.active - Ids(before.store, expired[..i])
      {
        BatchAgrees(before, expired, i);
        assert Id(expired[i].addr, store[expired[i].addr].sequence) in activeTimers;
        activeTimers := activeTimers - {Id(expired[i].addr, store[expired[i].addr].sequence)};
        i := i + 1;
      }
      assert expired[..i] == expired;
    }

    /** Restarts or frees every timer of the batch, then sets the descriptor again. */
    method Reset(expired: seq<Entry>, now: int, at: int)
      requires Inv(State(), Addrs(expired), true) && DistinctAddrs(expired) && now > 0
      modifies this
      ensures State() == Rearm(SettleAll(old(State()), expired, now), at)
    {
      hide Inv, Settle, Addrs, DistinctAddrs, Enter, Restarted;
      ghost var before := State();
      var i := 0;
      assert expired[0..] == expired;
      while i < |expired|
        invariant 0 <= i <= |expired|
        invariant Inv(State(), Addrs(expired[i..]), true) && DistinctAddrs(expired[i..])
        invariant SettleAll(State(), expired[i..], now) == SettleAll(before, expired, now)
      {
        Lists.SplitAt(expired, i);
        SettleOne(expired[i].addr, now, expired[i..]);
        i := i + 1;
      }
      if timers != [] && timers[0].when > 0 {
        alarm := Armed(timers[0].when, at);
      }
    }

    method SettleOne(addr: nat, now: int, ghost batch: seq<Entry>)
      requires batch != [] && addr == batch[0].addr && DistinctAddrs(batch) && Inv(State(), Addrs(batch), true) &&
          now > 0
      modifies this`store, this`timers, this`activeTimers
      ensures State() == Settle(old(State()), addr, now)
      ensures Inv(State(), Addrs(batch[1..]), true) && DistinctAddrs(batch[1..])
    {
      hide Inv, Addrs, DistinctAddrs, Enter, Restarted, Settle;
      ghost var before := State();
      InAddrs(batch, batch[0]);
      RestAddrs(batch);
      BatchAlive(State(), addr, Addrs(batch));
      SettleInv(State(), addr, now, Addrs(batch));
      SettleIs(State(), addr, now);
      if store[addr].repeats && Id(addr, store[addr].sequence) !in cancelingTimers {
        Restart(addr, now);
        RestartedAlive(before, addr, now);
        var earliestChanged := Insert(addr);
      } else {
        Delete(addr);
      }
    }

    /** The alarm; `scripts` is what the callbacks of the batch do, one script for each. */
    method HandleRead(now: int, scripts: seq<seq<Op>>, at: int)
      requires Quiescent(State()) && now > 0 && |scripts| == |Batch(State(), now)|
      modifies this
      ensures State() == Timers.HandleRead(old(State()), now, Lists.Concat(scripts), at) && Quiescent(State())
    {
      hide *;
      ghost var before := State();
      HandleReadInv(before, now, Lists.Concat(scripts), at);
      HandleReadIs(before, now, Lists.Concat(scripts), at);
      QuiescentParts(before);
      BeginInv(before, now);
      var expired := Prepare(now);
      ghost var begun, batch := State(), Addrs(expired);
      var i := 0;
      assert scripts[0..] == scripts;
      while i < |expired|
        invariant 0 <= i <= |expired| == |scripts|
        invariant Inv(State(), batch, true)
        invariant PerformAll(State(), Lists.Concat(scripts[i..])) == PerformAll(begun, Lists.Concat(scripts))
      {
        InAddrs(expired, expired[i]);
        BatchAlive(State(), expired[i].addr, batch);
        AliveIs();
        assert expired[i].addr in store;
        Lists.SplitAt(scripts, i);
        ScriptsStep(State(), scripts[i..]);
        Run(scripts[i], batch);
        i := i + 1;
      }
      ScriptsDone(State(), scripts[i..]);
      CallingOff(State(), batch);
      EndCalling();
      Reset(expired, now, at);
    }

    lemma AliveIs()
      ensures State().store == store
    {}

    /** From the firing of the descriptor to the first callback. */
    method Prepare(now: int) returns (expired: seq<Entry>)
      requires Quiescent(State()) && now > 0
      modifies this
      ensures expired == Batch(old(State()), now) && State() == Begin(old(State()), now)
    {
      hide Quiescent, ExpiredCount, Ids;
      expired := GetExpired(now);
      alarm := Unarmed;
      callingExpiredTimers := true;
      cancelingTimers := {};
    }

    method EndCalling()
      modifies this`callingExpiredTimers
      ensures State() == old(State()).(calling := false)
    {
      callingExpiredTimers := false;
    }
  }

  /** The lower bound of an entry that is there is its place. */
  lemma EraseIs(s: seq<Entry>, e: Entry)
    requires Sorted(s) && e in s
    ensures var k := Timers.LowerBound(s, e); k < |s| && s[k] == e && Erase(s, e) == s[..k] + s[k + 1..]
  {
    var k := Timers.LowerBound(s, e);
    hide Timers.LowerBound;
    if k == |s| || s[k] != e {
      if k < |s| {
        LessTotal(s[k], e);
        AboveBound(s, e, k);
      }
      NotIn(s, e, k);
    }
  }

  lemma CancelReady(q: Queue, id: Id, batch: set<nat>, running: bool)
    requires Inv(q, batch, running) && id in q.active
    ensures id.addr in q.store && Entry(q.store[id.addr].expiration, id.addr) in q.timers && Sorted(q.timers)
    ensures Timers.CancelInLoop(q, id) == q.(timers := Erase(q.timers, Entry(q.store[id.addr].expiration, id.addr)),
                                             active := q.active - {id}, store := q.store - {id.addr})
  {
    hide Sorted, Owned, Numbered, AlarmOk, Erase;
  }

  lemma CancelNotes(q: Queue, id: Id)
    requires id !in q.active
    ensures Timers.CancelInLoop(q, id) == if q.calling then q.(canceling := q.canceling + {id}) else q
  {
    hide Erase;
  }

  lemma ExpiredStep(s: seq<Entry>, now: int)
    ensures ExpiredCount(s, now) == if s == [] || s[0].when > now then 0 else 1 + ExpiredCount(s[1..], now)
  {}

  lemma NoIds(store: map<nat, Timer>)
    ensures Ids(store, []) == {}
  {}

  /** Each expired timer is alive and still in the index for cancelling when its turn comes. */
  lemma BatchAgrees(q: Queue, expired: seq<Entry>, i: nat)
    requires Quiescent(q) && expired <= q.timers && i < |expired|
    ensures expired[i].addr in q.store
    ensures var id := Id(expired[i].addr, q.store[expired[i].addr].sequence);
      id in q.active && id !in Ids(q.store, expired[..i])
      && Ids(q.store, expired[..i + 1]) == Ids(q.store, expired[..i]) + {id}
  {
    assert Agree(q) && Sorted(q.timers) by { hide Agree, Sorted, Owned, Numbered, AlarmOk; }
    SortedDistinct(q.timers);
    hide Sorted, Owned, Numbered, AlarmOk, Quiescent;
    var e := expired[i];
    assert e == q.timers[i];
    var id := Id(e.addr, q.store[e.addr].sequence);
    assert expired[..i + 1] == expired[..i] + [e];
    forall f | f in expired[..i] ensures f.addr != e.addr {
      var j :| 0 <= j < i && expired[j] == f;
      assert f == q.timers[j];
      DifferentAddrs(q, f, e);
    }
  }

  lemma RestartedAlive(q: Queue, addr: nat, now: int)
    requires addr in q.store
    ensures addr in Restarted(q, addr, now).store
  {}

  lemma {:induction false} PerformAppend(q: Queue, a: seq<Op>, b: seq<Op>)
    ensures PerformAll(q, a + b) == PerformAll(PerformAll(q, a), b)
    decreases |a|
  {
    hide Perform;
    if a == [] {
      Lists.Empty(b);
    } else {
      Lists.JoinTail(a, b);
      PerformAppend(Perform(q, a[0]), a[1..], b);
    }
  }

  lemma ScriptsStep(q: Queue, scripts: seq<seq<Op>>)
    requires scripts != []
    ensures PerformAll(q, Lists.Concat(scripts)) == PerformAll(PerformAll(q, scripts[0]), Lists.Concat(scripts[1..]))
  {
    PerformAppend(q, scripts[0], Lists.Concat(scripts[1..]));
    hide PerformAll;
  }

  lemma ScriptsDone(q: Queue, scripts: seq<seq<Op>>)
    requires scripts == []
    ensures PerformAll(q, Lists.Concat(scripts)) == q
  {}
}
