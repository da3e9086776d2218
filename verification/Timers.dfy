/** The timer queue of an event loop as a function of its state and the calls made on it: two indexes
    over one set of owned timers, with callbacks that add and cancel timers while a batch of expired
    ones is being run. Times are microseconds; a timer's address may be reused once it is freed. */
module Timers {
  import opened Serial
  import Lists

  /** `delta` is the repeat interval in microseconds; an interval below one microsecond repeats with 0. */
  datatype Timer = Timer(expiration: int, delta: nat, repeats: bool, sequence: nat)

  datatype Entry = Entry(when: int, addr: nat)

  datatype Id = Id(addr: nat, sequence: nat)

  /** The timer descriptor: the expiration it was last set for and the time it was set. */
  datatype Alarm = Unarmed | Armed(requested: int, at: int)

  /** `store` is the memory of all timers alive, `timers` the index by expiration, `active` the index
      for cancelling; `pending` are timers created but not yet handed to the loop thread. */
  datatype Queue = Queue(store: map<nat, Timer>, timers: seq<Entry>, active: set<Id>, calling: bool,
                         canceling: set<Id>, pending: set<nat>, created: nat, alarm: Alarm)

  /** A time stamp that stands for no time. */
  const INVALID := 0

  const EMPTY := Queue(map[], [], {}, false, {}, {}, 0, Unarmed)

  // ---------------------------------------------------------------- the ordered index

  predicate Less(a: Entry, b: Entry) {
    a.when < b.when || (a.when == b.when && a.addr < b.addr)
  }

  /** The position of the first entry not less than `e`. */
  function LowerBound(s: seq<Entry>, e: Entry): (k: nat)
    ensures k <= |s| && (k < |s| ==> !Less(s[k], e))
    ensures forall i :: 0 <= i < k ==> Less(s[i], e)
  {
    if s == [] || !Less(s[0], e) then 0
    else
      var k := LowerBound(s[1..], e);
      assert forall i :: 1 <= i < 1 + k ==> s[i] == s[1..][i - 1];
      1 + k
  }

  function Insert(s: seq<Entry>, e: Entry): seq<Entry> {
    var k := LowerBound(s, e);
    if k < |s| && s[k] == e then s else s[..k] + [e] + s[k..]
  }

  function Erase(s: seq<Entry>, e: Entry): seq<Entry> {
    var k := LowerBound(s, e);
    if k < |s| && s[k] == e then s[..k] + s[k + 1..] else s
  }

  ghost predicate Sorted(s: seq<Entry>) {
    forall i, j :: 0 <= i < j < |s| ==> Less(s[i], s[j])
  }

  lemma LessTransitive(a: Entry, b: Entry, c: Entry)
    requires Less(a, b) && Less(b, c)
    ensures Less(a, c)
  {}

  lemma LessTotal(a: Entry, b: Entry)
    requires !Less(a, b) && a != b
    ensures Less(b, a)
  {}

  /** Everything from the lower bound on lies above an entry that is not there. */
  lemma AboveBound(s: seq<Entry>, e: Entry, k: nat)
    requires Sorted(s) && k < |s| && Less(e, s[k])
    ensures forall i :: k <= i < |s| ==> Less(e, s[i])
  {
    hide Less;
    forall i | k < i < |s| ensures Less(e, s[i]) { LessTransitive(e, s[k], s[i]); }
  }

  lemma SpliceSorted(s: seq<Entry>, e: Entry, k: nat)
    requires Sorted(s) && k <= |s|
    requires (forall i :: 0 <= i < k ==> Less(s[i], e)) && (forall i :: k <= i < |s| ==> Less(e, s[i]))
    ensures Sorted(s[..k] + [e] + s[k..])
  {
    hide Less;
    var r := s[..k] + [e] + s[k..];
    assert forall i :: 0 <= i < |r| ==> r[i] == if i < k then s[i] else if i == k then e else s[i - 1];
  }

  lemma InsertSpec(s: seq<Entry>, e: Entry)
    requires Sorted(s)
    ensures Sorted(Insert(s, e)) && forall x :: x in Insert(s, e) <==> x in s || x == e
  {
    var k := LowerBound(s, e);
    hide Less, Sorted, LowerBound;
    Lists.Halves(s, k);
    if k < |s| && s[k] == e {
    } else {
      if k < |s| {
        LessTotal(s[k], e);
        AboveBound(s, e, k);
      }
      SpliceSorted(s, e, k);
      Lists.SpliceContents(s, e, k);
    }
  }

  lemma RemoveSorted(s: seq<Entry>, k: nat)
    requires Sorted(s) && k < |s|
    ensures Sorted(s[..k] + s[k + 1..])
    ensures forall x :: x in s[..k] + s[k + 1..] <==> x in s && x != s[k]
  {
    LessStrict(s);
    hide Less;
    var r := s[..k] + s[k + 1..];
    assert forall i :: 0 <= i < |r| ==> r[i] == if i < k then s[i] else s[i + 1];
    assert forall i :: 0 <= i < |s| && i != k ==> s[i] == if i < k then r[i] else r[i - 1];
  }

  lemma EraseSpec(s: seq<Entry>, e: Entry)
    requires Sorted(s)
    ensures Sorted(Erase(s, e)) && forall x :: x in Erase(s, e) <==> x in s && x != e
    ensures e in s ==> |Erase(s, e)| == |s| - 1
  {
    var k := LowerBound(s, e);
    hide LowerBound;
    if k < |s| && s[k] == e {
      hide Less, Sorted;
      RemoveSorted(s, k);
    } else {
      if k < |s| {
        LessTotal(s[k], e);
        AboveBound(s, e, k);
      }
      NotIn(s, e, k);
    }
  }

  lemma NotIn(s: seq<Entry>, e: Entry, k: nat)
    requires k <= |s|
    requires (forall i :: 0 <= i < k ==> Less(s[i], e)) && (forall i :: k <= i < |s| ==> Less(e, s[i]))
    ensures e !in s
  {}

  lemma LessStrict(s: seq<Entry>)
    requires Sorted(s)
    ensures forall i, j :: 0 <= i < j < |s| ==> s[i] != s[j]
  {}

  // ---------------------------------------------------------------- calls

  /** The part of adding a timer that any thread may do: allocate it. The allocator never returns an
      address in use. */
  function New(q: Queue, addr: nat, when: int, delta: nat, repeats: bool): Queue {
    if addr in q.store then q
    else q.(store := q.store[addr := Timer(when, delta, repeats, q.created + 1)], created := q.created + 1,
            pending := q.pending + {addr})
  }

  function Enter(q: Queue, addr: nat): Queue
    requires addr in q.store
  {
    q.(timers := Insert(q.timers, Entry(q.store[addr].expiration, addr)),
       active := q.active + {Id(addr, q.store[addr].sequence)})
  }

  /** Whether a timer becomes the earliest one. */
  predicate Earliest(q: Queue, when: int) {
    q.timers == [] || when < q.timers[0].when
  }

  /** A pending timer arrives at the loop thread, at clock time `at`. */
  function AddInLoop(q: Queue, addr: nat, at: int): Queue {
    if addr !in q.pending || addr !in q.store then q
    else
      var when := q.store[addr].expiration;
      Enter(q, addr).(pending := q.pending - {addr}, alarm := if Earliest(q, when) then Armed(when, at) else q.alarm)
  }

  function CancelInLoop(q: Queue, id: Id): Queue {
    if id in q.active && id.addr in q.store then
      q.(timers := Erase(q.timers, Entry(q.store[id.addr].expiration, id.addr)), active := q.active - {id},
         store := q.store - {id.addr})
    else if q.calling then q.(canceling := q.canceling + {id})
    else q
  }

  datatype Op = Create(addr: nat, when: int, delta: nat, repeats: bool) | Hand(addr: nat, at: int) | Cancel(id: Id)

  function Perform(q: Queue, op: Op): Queue {
    match op
    case Create(addr, when, delta, repeats) => New(q, addr, when, delta, repeats)
    case Hand(addr, at) => AddInLoop(q, addr, at)
    case Cancel(id) => CancelInLoop(q, id)
  }

  function PerformAll(q: Queue, ops: seq<Op>): Queue
    decreases |ops|
  {
    if ops == [] then q else PerformAll(Perform(q, ops[0]), ops[1..])
  }

  // ---------------------------------------------------------------- expiry

  /** How many entries at the head have expired. */
  function ExpiredCount(s: seq<Entry>, now: int): (k: nat)
    ensures k <= |s|
  {
    if s == [] || s[0].when > now then 0 else 1 + ExpiredCount(s[1..], now)
  }

  function Ids(store: map<nat, Timer>, entries: seq<Entry>): set<Id> {
    set e | e in entries && e.addr in store :: Id(e.addr, store[e.addr].sequence)
  }

  /** Takes the expired timers out of both indexes. */
  function GetExpired(q: Queue, now: int): Queue {
    var k := ExpiredCount(q.timers, now);
    q.(timers := q.timers[k..], active := q.active - Ids(q.store, q.timers[..k]))
  }

  /** After the callbacks: a timer of the batch is restarted and re-entered, or freed. */
  function Settle(q: Queue, addr: nat, now: int): Queue {
    if addr !in q.store then q
    else
      var t := q.store[addr];
      if t.repeats && Id(addr, t.sequence) !in q.canceling
      then Enter(q.(store := q.store[addr := t.(expiration := now + t.delta)]), addr)
      else q.(store := q.store - {addr})
  }

  function SettleAll(q: Queue, batch: seq<Entry>, now: int): Queue
    decreases |batch|
  {
    if batch == [] then q else SettleAll(Settle(q, batch[0].addr, now), batch[1..], now)
  }

  /** Sets the descriptor for the earliest timer, if its expiration is a valid time. */
  function Rearm(q: Queue, at: int): Queue {
    if q.timers != [] && q.timers[0].when > 0 then q.(alarm := Armed(q.timers[0].when, at)) else q
  }

  function Batch(q: Queue, now: int): seq<Entry> {
    q.timers[..ExpiredCount(q.timers, now)]
  }

  /** The descriptor has fired; the batch is out of the indexes and its callbacks may run. */
  function Begin(q: Queue, now: int): Queue {
    GetExpired(q.(alarm := Unarmed), now).(calling := true, canceling := {})
  }

  /** The alarm: `ops` is everything the callbacks of the batch do, in order; `at` is the clock when
      the descriptor is set again. */
  function HandleRead(q: Queue, now: int, ops: seq<Op>, at: int): Queue {
    var batch := Batch(q, now);
    var after := PerformAll(Begin(q, now), ops).(calling := false);
    Rearm(SettleAll(after, batch, now), at)
  }

  // ---------------------------------------------------------------- invariant

  function Addrs(entries: seq<Entry>): set<nat> {
    set e | e in entries :: e.addr
  }

  /** Both indexes hold the same timers, each under its current expiration and its own number. */
  ghost predicate Agree(q: Queue) {
    && (forall e :: e in q.timers ==>
          e.addr in q.store && q.store[e.addr].expiration == e.when && Id(e.addr, q.store[e.addr].sequence) in q.active)
    && (forall id :: id in q.active ==>
          id.addr in q.store && q.store[id.addr].sequence == id.sequence
          && Entry(q.store[id.addr].expiration, id.addr) in q.timers)
  }

  /** Every timer alive is owned once: by the indexes, by the thread that is adding it, or by the batch. */
  ghost predicate Owned(q: Queue, batch: set<nat>) {
    && (forall a :: a in q.store <==> a in Addrs(q.timers) || a in q.pending || a in batch)
    && Addrs(q.timers) !! q.pending && Addrs(q.timers) !! batch && q.pending !! batch
  }

  /** Numbers are given out once. */
  ghost predicate Numbered(q: Queue) {
    && (forall a :: a in q.store ==> 0 < q.store[a].sequence <= q.created)
    && (forall a, b :: a in q.store && b in q.store && q.store[a].sequence == q.store[b].sequence ==> a == b)
  }

  /** The descriptor is set for the earliest timer or before; while a batch runs this is promised only
      for timers without a valid expiration, the others are looked at when the batch ends. */
  ghost predicate AlarmOk(q: Queue, running: bool) {
    forall e :: e in q.timers && (running ==> e.when <= 0) ==> q.alarm.Armed? && q.alarm.requested <= e.when
  }

  ghost predicate Inv(q: Queue, batch: set<nat>, running: bool) {
    Sorted(q.timers) && Agree(q) && Owned(q, batch) && Numbered(q) && AlarmOk(q, running)
  }

  /** Between two events of the loop. */
  ghost predicate Quiescent(q: Queue) {
    Inv(q, {}, false) && !q.calling
  }

  /** No timer is entered under two expirations. */
  lemma DifferentAddrs(q: Queue, e: Entry, f: Entry)
    requires Agree(q) && e in q.timers && f in q.timers && e != f
    ensures e.addr != f.addr
  {}

  // ---------------------------------------------------------------- single calls

  lemma NewInv(q: Queue, addr: nat, when: int, delta: nat, repeats: bool, batch: set<nat>, running: bool)
    requires Inv(q, batch, running)
    ensures Inv(New(q, addr, when, delta, repeats), batch, running)
  {
    if addr !in q.store {
      var r := New(q, addr, when, delta, repeats);
      hide Less;
      assert Addrs(r.timers) == Addrs(q.timers);
    }
  }

  lemma EnterInv(q: Queue, addr: nat, batch: set<nat>)
    requires Sorted(q.timers) && Agree(q) && Numbered(q) && addr in q.store && addr !in Addrs(q.timers)
    ensures var r := Enter(q, addr);
      && Sorted(r.timers) && Agree(r) && Numbered(r) && Addrs(r.timers) == Addrs(q.timers) + {addr}
      && forall e :: e in r.timers <==> e in q.timers || e == Entry(q.store[addr].expiration, addr)
  {
    var e := Entry(q.store[addr].expiration, addr);
    InsertSpec(q.timers, e);
    hide Less, Insert, Sorted;
    var r := Enter(q, addr);
    forall id | id in r.active
      ensures id.addr in r.store && r.store[id.addr].sequence == id.sequence
              && Entry(r.store[id.addr].expiration, id.addr) in r.timers
    {
      if id in q.active {}
    }
  }

  lemma AddInv(q: Queue, addr: nat, at: int, batch: set<nat>, running: bool)
    requires Inv(q, batch, running)
    ensures Inv(AddInLoop(q, addr, at), batch, running)
  {
    hide *;
    InvParts(q, batch, running);
    AddIs(q, addr, at);
    if addr in q.pending && addr in q.store {
      PendingOutside(q, addr, batch);
      EnterInv(q, addr, batch);
      var r, when := AddInLoop(q, addr, at), q.store[addr].expiration;
      AddOwned(q, r, addr, batch);
      EarliestBefore(q, when);
      AddAlarm(q, r, addr, at, running);
      InvIs(r, batch, running);
    }
  }

  lemma AddIs(q: Queue, addr: nat, at: int)
    ensures var r := AddInLoop(q, addr, at);
      if addr in q.pending && addr in q.store then
        var t, when := Enter(q, addr), q.store[addr].expiration;
        && r == t.(pending := q.pending - {addr}, alarm := if Earliest(q, when) then Armed(when, at) else q.alarm)
        && Agree(r) == Agree(t) && Sorted(r.timers) == Sorted(t.timers) && Numbered(r) == Numbered(t) &&
            r.store == q.store
      else r == q
  {
    hide Insert, Sorted, Earliest;
  }

  lemma PendingOutside(q: Queue, addr: nat, batch: set<nat>)
    requires Owned(q, batch) && addr in q.pending
    ensures addr !in Addrs(q.timers)
  {
    hide Addrs;
  }

  lemma AddOwned(q: Queue, r: Queue, addr: nat, batch: set<nat>)
    requires Owned(q, batch) && addr in q.pending && r.store == q.store && r.pending == q.pending - {addr}
    requires Addrs(r.timers) == Addrs(q.timers) + {addr}
    ensures Owned(r, batch)
  {
    hide Addrs;
  }

  lemma AddAlarm(q: Queue, r: Queue, addr: nat, at: int, running: bool)
    requires AlarmOk(q, running) && addr in q.store
    requires var when := q.store[addr].expiration;
      && (Earliest(q, when) ==> forall e :: e in q.timers ==> when < e.when)
      && (!Earliest(q, when) ==> q.timers != [] && q.timers[0].when <= when)
      && r.alarm == (if Earliest(q, when) then Armed(when, at) else q.alarm)
      && forall e :: e in r.timers <==> e in q.timers || e == Entry(when, addr)
    ensures AlarmOk(r, running)
  {
    hide Earliest;
    assert q.timers != [] ==> q.timers[0] in q.timers;
  }

  lemma EarliestBefore(q: Queue, when: int)
    requires Sorted(q.timers)
    ensures Earliest(q, when) ==> forall e :: e in q.timers ==> when < e.when
    ensures !Earliest(q, when) ==> q.timers != [] && q.timers[0].when <= when
  {}

  lemma CancelInv(q: Queue, id: Id, batch: set<nat>, running: bool)
    requires Inv(q, batch, running)
    ensures Inv(CancelInLoop(q, id), batch, running)
  {
    hide *;
    InvParts(q, batch, running);
    CancelIs(q, id);
    if id in q.active && id.addr in q.store {
      var e := Entry(q.store[id.addr].expiration, id.addr);
      EraseSpec(q.timers, e);
      var r := CancelInLoop(q, id);
      CancelAgree(q, r, id, e);
      CancelOwned(q, r, id, e, batch);
      CancelRest(q, r, id, running);
      InvIs(r, batch, running);
    } else {
      CancelNote(q, CancelInLoop(q, id), batch, running);
    }
  }

  lemma CancelIs(q: Queue, id: Id)
    ensures var r := CancelInLoop(q, id);
      if id in q.active && id.addr in q.store then
        r == q.(timers := Erase(q.timers, Entry(q.store[id.addr].expiration, id.addr)), active := q.active - {id},
                store := q.store - {id.addr})
      else r == q.(canceling := r.canceling)
  {
    hide Erase;
  }

  lemma CancelNote(q: Queue, r: Queue, batch: set<nat>, running: bool)
    requires Inv(q, batch, running) && r == q.(canceling := r.canceling)
    ensures Inv(r, batch, running)
  {
    hide Sorted, Addrs;
  }

  lemma CancelAgree(q: Queue, r: Queue, id: Id, e: Entry)
    requires Agree(q) && id in q.active && id.addr in q.store && e == Entry(q.store[id.addr].expiration, id.addr)
    requires r.active == q.active - {id} && r.store == q.store - {id.addr}
    requires forall x :: x in r.timers <==> x in q.timers && x != e
    ensures Agree(r)
  {}

  lemma CancelOwned(q: Queue, r: Queue, id: Id, e: Entry, batch: set<nat>)
    requires Agree(q) && Owned(q, batch) && id in q.active && id.addr in q.store
    requires e == Entry(q.store[id.addr].expiration, id.addr) && r.pending == q.pending &&
        r.store == q.store - {id.addr}
    requires forall x :: x in r.timers <==> x in q.timers && x != e
    ensures Owned(r, batch)
  {
    assert e in q.timers;
    assert forall x :: x in q.timers && x.addr == e.addr ==> x == e;
    hide Agree;
    assert Addrs(r.timers) == Addrs(q.timers) - {id.addr};
    assert e.addr in Addrs(q.timers);
    hide Addrs;
  }

  lemma CancelRest(q: Queue, r: Queue, id: Id, running: bool)
    requires Numbered(q) && AlarmOk(q, running) && r.created == q.created && r.alarm == q.alarm
    requires r.store == q.store - {id.addr} && forall x :: x in r.timers ==> x in q.timers
    ensures Numbered(r) && AlarmOk(r, running)
  {}

  lemma PerformInv(q: Queue, op: Op, batch: set<nat>, running: bool)
    requires Inv(q, batch, running)
    ensures Inv(Perform(q, op), batch, running) && Perform(q, op).calling == q.calling
  {
    hide Inv;
    match op
    case Create(addr, when, delta, repeats) => NewInv(q, addr, when, delta, repeats, batch, running);
    case Hand(addr, at) => AddInv(q, addr, at, batch, running);
    case Cancel(id) => CancelInv(q, id, batch, running);
  }

  // ---------------------------------------------------------------- a batch

  lemma {:induction false} ExpiredSpec(s: seq<Entry>, now: int)
    requires Sorted(s)
    ensures var k := ExpiredCount(s, now);
      && (forall i :: 0 <= i < k ==> s[i].when <= now) && (forall i :: k <= i < |s| ==> s[i].when > now)
  {
    if s != [] && s[0].when <= now {
      ExpiredSpec(s[1..], now);
      assert forall i :: 1 <= i < |s| ==> s[i] == s[1..][i - 1];
    }
  }

  /** Exactly the timers whose expiration is not after `now` are taken out. */
  lemma ExpiredExactly(q: Queue, now: int)
    requires Sorted(q.timers)
    ensures forall e :: e in Batch(q, now) <==> e in q.timers && e.when <= now
    ensures forall e :: e in GetExpired(q, now).timers <==> e in q.timers && e.when > now
    ensures Batch(q, now) + GetExpired(q, now).timers == q.timers
  {
    ExpiredSpec(q.timers, now);
    hide Sorted, ExpiredCount, Ids;
    Lists.Halves(q.timers, ExpiredCount(q.timers, now));
    ExpiredHalves(q.timers, ExpiredCount(q.timers, now), now);
  }

  lemma ExpiredHalves(s: seq<Entry>, k: nat, now: int)
    requires k <= |s| && (forall i :: 0 <= i < k ==> s[i].when <= now) && (forall i :: k <= i < |s| ==> s[i].when > now)
    ensures forall e :: e in s[..k] <==> e in s && e.when <= now
    ensures forall e :: e in s[k..] <==> e in s && e.when > now
  {
    Lists.HalvesContents(s, k);
  }

  lemma BeginInv(q: Queue, now: int)
    requires Inv(q, {}, false) && now >= 0
    ensures Inv(Begin(q, now), Addrs(Batch(q, now)), true) && DistinctAddrs(Batch(q, now))
    ensures Begin(q, now).store == q.store && forall e :: e in Batch(q, now) ==> e.addr in q.store
  {
    hide *;
    InvParts(q, {}, false);
    ExpiredExactly(q, now);
    var r, batch := Begin(q, now), Batch(q, now);
    BeginParts(q, now);
    SortedCut(q.timers, |batch|);
    AddrsDistinct(q, batch);
    BeginAgree(q, r, batch);
    BeginOwned(q, r, batch);
    BeginRest(q, r, now);
    InvIs(r, Addrs(batch), true);
  }

  lemma BeginParts(q: Queue, now: int)
    ensures var r, batch := Begin(q, now), Batch(q, now);
      && |batch| <= |q.timers| && batch == q.timers[..|batch|] &&
          r.timers == q.timers[|batch|..] == GetExpired(q, now).timers
      && r == q.(timers := r.timers, active := q.active - Ids(q.store, batch), calling := true,
          canceling := {}, alarm := Unarmed)
  {
    hide ExpiredCount, Ids;
  }

  lemma BeginOwned(q: Queue, r: Queue, batch: seq<Entry>)
    requires Agree(q) && Owned(q, {}) && r.store == q.store && r.pending == q.pending
    requires forall e :: e in q.timers <==> e in batch || e in r.timers
    requires forall e :: !(e in batch && e in r.timers)
    ensures Owned(r, Addrs(batch)) && forall e :: e in batch ==> e.addr in q.store
  {
    assert Addrs(q.timers) == Addrs(batch) + Addrs(r.timers);
    assert Addrs(r.timers) !! Addrs(batch) by {
      forall e, f | e in batch && f in r.timers ensures e.addr != f.addr {
        DifferentAddrs(q, e, f);
      }
    }
    assert forall e :: e in batch ==> e.addr in Addrs(batch);
    hide Agree, Addrs;
  }

  lemma BeginRest(q: Queue, r: Queue, now: int)
    requires Numbered(q) && r.store == q.store && r.created == q.created && now >= 0
    requires forall e :: e in r.timers ==> e.when > now
    ensures Numbered(r) && AlarmOk(r, true)
  {}

  lemma SortedCut(s: seq<Entry>, k: nat)
    requires Sorted(s) && k <= |s|
    ensures Sorted(s[k..]) && Distinct(s[..k])
  {
    hide Less;
    assert forall i, j :: 0 <= i < j < |s| ==> s[i] != s[j] by { LessStrict(s); }
  }

  ghost predicate Distinct(s: seq<Entry>) {
    forall i, j :: 0 <= i < j < |s| ==> s[i] != s[j]
  }

  ghost predicate DistinctAddrs(s: seq<Entry>) {
    forall i, j :: 0 <= i < j < |s| ==> s[i].addr != s[j].addr
  }

  lemma AddrsDistinct(q: Queue, s: seq<Entry>)
    requires Agree(q) && Distinct(s) && forall e :: e in s ==> e in q.timers
    ensures DistinctAddrs(s)
  {
    forall i, j | 0 <= i < j < |s| ensures s[i].addr != s[j].addr {
      DifferentAddrs(q, s[i], s[j]);
    }
  }

  lemma BeginAgree(q: Queue, r: Queue, batch: seq<Entry>)
    requires Agree(q) && r.store == q.store && r.active == q.active - Ids(q.store, batch)
    requires forall e :: e in q.timers <==> e in batch || e in r.timers
    requires forall e :: !(e in batch && e in r.timers)
    ensures Agree(r)
  {
    forall e | e in r.timers ensures Id(e.addr, q.store[e.addr].sequence) in r.active {
      forall f | f in batch ensures f.addr != e.addr {
        DifferentAddrs(q, e, f);
      }
    }
    forall id | id in r.active ensures Entry(q.store[id.addr].expiration, id.addr) in r.timers {
      var e := Entry(q.store[id.addr].expiration, id.addr);
      assert e in batch ==> id in Ids(q.store, batch);
    }
  }

  /** The callbacks of a batch, whatever they do, keep the invariant, do not touch the timers of the
      batch, and record every cancellation of one of them. */
  lemma {:induction false} CallbacksInv(q: Queue, ops: seq<Op>, batch: set<nat>, running: bool)
    requires Inv(q, batch, running)
    ensures Inv(PerformAll(q, ops), batch, running) && PerformAll(q, ops).calling == q.calling
    ensures q.calling ==> forall a :: a in batch && a in q.store ==>
      && a in PerformAll(q, ops).store && PerformAll(q, ops).store[a] == q.store[a]
      && forall n :: Id(a, n) in PerformAll(q, ops).canceling <==> Id(a, n) in q.canceling || Cancel(Id(a, n)) in ops
    decreases |ops|
  {
    hide Inv, Perform;
    if ops != [] {
      PerformInv(q, ops[0], batch, running);
      PerformKeeps(q, ops[0], batch, running);
      var r := Perform(q, ops[0]);
      CallbacksInv(r, ops[1..], batch, running);
      assert ops == [ops[0]] + ops[1..];
    }
  }

  lemma PerformKeeps(q: Queue, op: Op, batch: set<nat>, running: bool)
    requires Inv(q, batch, running)
    ensures q.calling ==> forall a :: a in batch && a in q.store ==>
      && a in Perform(q, op).store && Perform(q, op).store[a] == q.store[a]
      && forall n :: Id(a, n) in Perform(q, op).canceling <==> Id(a, n) in q.canceling || op == Cancel(Id(a, n))
  {
    hide Less, Sorted, Insert, Erase, Numbered, AlarmOk;
  }

  /** One timer of the batch is restarted or freed. */
  lemma SettleInv(q: Queue, addr: nat, now: int, batch: set<nat>)
    requires Inv(q, batch, true) && addr in batch && now > 0
    ensures Inv(Settle(q, addr, now), batch - {addr}, true) && Settle(q, addr, now).canceling == q.canceling
    ensures forall a :: a != addr && a in q.store ==>
        a in Settle(q, addr, now).store && Settle(q, addr, now).store[a] == q.store[a]
    ensures forall a :: a != addr && a !in q.store ==> a !in Settle(q, addr, now).store
  {
    hide *;
    SettleIs(q, addr, now);
    BatchAlive(q, addr, batch);
    var t := q.store[addr];
    if t.repeats && Id(addr, t.sequence) !in q.canceling {
      RestartInv(q, addr, now, batch);
    } else {
      FreeInv(q, addr, batch);
    }
  }

  /** No timer of the batch is freed while the callbacks run. */
  lemma BatchAlive(q: Queue, addr: nat, batch: set<nat>)
    requires Inv(q, batch, true) && addr in batch
    ensures addr in q.store
  {
    hide Sorted, Agree, Numbered, AlarmOk;
  }

  lemma InvParts(q: Queue, batch: set<nat>, running: bool)
    requires Inv(q, batch, running)
    ensures Sorted(q.timers) && Agree(q) && Owned(q, batch) && Numbered(q) && AlarmOk(q, running)
  {
    hide Sorted, Agree, Owned, Numbered, AlarmOk;
  }

  lemma InvIs(q: Queue, batch: set<nat>, running: bool)
    requires Sorted(q.timers) && Agree(q) && Owned(q, batch) && Numbered(q) && AlarmOk(q, running)
    ensures Inv(q, batch, running)
  {
    hide Sorted, Agree, Owned, Numbered, AlarmOk;
  }

  function Restarted(q: Queue, addr: nat, now: int): Queue
    requires addr in q.store
  {
    q.(store := q.store[addr := q.store[addr].(expiration := now + q.store[addr].delta)])
  }

  lemma SettleIs(q: Queue, addr: nat, now: int)
    ensures Settle(q, addr, now) ==
      if addr !in q.store then q
      else if q.store[addr].repeats && Id(addr, q.store[addr].sequence) !in q.canceling then
          Enter(Restarted(q, addr, now), addr)
      else q.(store := q.store - {addr})
    ensures Settle(q, addr, now).canceling == q.canceling && Settle(q, addr, now).calling == q.calling
    ensures forall a :: a != addr && a in q.store ==>
        a in Settle(q, addr, now).store && Settle(q, addr, now).store[a] == q.store[a]
    ensures forall a :: a != addr && a !in q.store ==> a !in Settle(q, addr, now).store
  {
    hide Insert;
  }

  lemma RestartInv(q: Queue, addr: nat, now: int, batch: set<nat>)
    requires Inv(q, batch, true) && addr in batch && addr in q.store && now > 0
    ensures Inv(Enter(Restarted(q, addr, now), addr), batch - {addr}, true)
  {
    hide *;
    var u := Restarted(q, addr, now);
    InvParts(q, batch, true);
    RestartedAgree(q, addr, now, batch);
    RestartedOwned(q, addr, now, batch);
    RestartedLater(q, addr, now);
    EnterInv(u, addr, batch);
    EnterRestarted(u, addr, batch);
    InvIs(Enter(u, addr), batch - {addr}, true);
  }

  lemma RestartedAgree(q: Queue, addr: nat, now: int, batch: set<nat>)
    requires Agree(q) && Numbered(q) && Owned(q, batch) && addr in batch && addr in q.store
    ensures var u := Restarted(q, addr, now); Agree(u) && Numbered(u) && addr !in Addrs(u.timers)
  {
    assert forall e :: e in q.timers ==> e.addr in Addrs(q.timers);
    assert forall id :: id in q.active ==> id.addr in Addrs(q.timers) by {
      forall id | id in q.active ensures id.addr in Addrs(q.timers) {
        assert Entry(q.store[id.addr].expiration, id.addr) in q.timers;
      }
    }
    hide Addrs;
  }

  lemma RestartedOwned(q: Queue, addr: nat, now: int, batch: set<nat>)
    requires Sorted(q.timers) && Owned(q, batch) && AlarmOk(q, true) && addr in q.store
    ensures var u := Restarted(q, addr, now);
      Owned(u, batch) && AlarmOk(u, true) && Sorted(u.timers) && addr in u.store
  {
    hide Sorted;
  }

  lemma EnterRestarted(u: Queue, addr: nat, batch: set<nat>)
    requires Owned(u, batch) && AlarmOk(u, true) && addr in u.store && addr in batch && u.store[addr].expiration > 0
    requires var r := Enter(u, addr);
      && Addrs(r.timers) == Addrs(u.timers) + {addr}
      && forall e :: e in r.timers <==> e in u.timers || e == Entry(u.store[addr].expiration, addr)
    ensures Owned(Enter(u, addr), batch - {addr}) && AlarmOk(Enter(u, addr), true)
  {
    hide Insert, Addrs;
  }

  lemma RestartedLater(q: Queue, addr: nat, now: int)
    requires addr in q.store && now > 0
    ensures addr in Restarted(q, addr, now).store && Restarted(q, addr, now).store[addr].expiration > 0
  {}

  lemma FreeInv(q: Queue, addr: nat, batch: set<nat>)
    requires Inv(q, batch, true) && addr in batch
    ensures Inv(q.(store := q.store - {addr}), batch - {addr}, true)
  {
    hide Less, Sorted;
  }

  /** What becomes of one timer of a batch: restarted `delta` after `now`, or freed. */
  ghost predicate Settled(q: Queue, r: Queue, addr: nat, now: int)
    requires addr in q.store
  {
    var t := q.store[addr];
    if t.repeats && Id(addr, t.sequence) !in q.canceling
    then addr in r.store && r.store[addr] == t.(expiration := now + t.delta)
    else addr !in r.store
  }

  lemma {:induction false} SettleAllInv(q: Queue, batch: seq<Entry>, now: int)
    requires Inv(q, Addrs(batch), true) && DistinctAddrs(batch) && now > 0
    ensures var r := SettleAll(q, batch, now);
      && Inv(r, {}, true) && r.calling == q.calling && r.pending == q.pending
      && (forall e :: e in batch ==> e.addr in q.store && Settled(q, r, e.addr, now))
      && forall a :: a !in Addrs(batch) ==>
          (a in r.store <==> a in q.store) && (a in q.store ==> r.store[a] == q.store[a])
    decreases |batch|
  {
    hide *;
    SettleAllIs(q, batch, now);
    if batch != [] {
      var a, rest := batch[0].addr, batch[1..];
      RestAddrs(batch);
      InAddrs(batch, batch[0]);
      SettleInv(q, a, now, Addrs(batch));
      SettleIs(q, a, now);
      SettlePending(q, a, now);
      BatchAlive(q, a, Addrs(batch));
      SettledFirst(q, a, now, Addrs(batch));
      var u := Settle(q, a, now);
      SettleAllInv(u, rest, now);
      var r := SettleAll(u, rest, now);
      forall e | e in batch ensures e.addr in q.store && Settled(q, r, e.addr, now) {
        if e.addr == a {
          SettledThrough(q, u, r, a, now);
        } else {
          InRest(batch, e);
          SettledSame(q, u, r, e.addr, now);
        }
      }
    }
  }

  lemma SettleAllIs(q: Queue, batch: seq<Entry>, now: int)
    ensures SettleAll(q, batch, now) ==
      if batch == [] then q else SettleAll(Settle(q, batch[0].addr, now), batch[1..], now)
    ensures batch == [] ==> Addrs(batch) == {}
  {
    hide Settle;
  }

  lemma InRest(batch: seq<Entry>, e: Entry)
    requires e in batch && e.addr != batch[0].addr
    ensures e in batch[1..]
  {
    assert batch == [batch[0]] + batch[1..];
  }

  lemma SettledThrough(q: Queue, u: Queue, r: Queue, addr: nat, now: int)
    requires addr in q.store && Settled(q, u, addr, now)
    requires (addr in r.store <==> addr in u.store) && (addr in u.store ==> r.store[addr] == u.store[addr])
    ensures Settled(q, r, addr, now)
  {}

  lemma SettledSame(q: Queue, u: Queue, r: Queue, addr: nat, now: int)
    requires addr in q.store && addr in u.store && u.store[addr] == q.store[addr] && u.canceling == q.canceling
    requires Settled(u, r, addr, now)
    ensures Settled(q, r, addr, now)
  {}

  lemma InAddrs(s: seq<Entry>, e: Entry)
    requires e in s
    ensures e.addr in Addrs(s)
  {}

  lemma RestAddrs(batch: seq<Entry>)
    requires batch != [] && DistinctAddrs(batch)
    ensures Addrs(batch[1..]) == Addrs(batch) - {batch[0].addr} && DistinctAddrs(batch[1..])
  {
    assert batch == [batch[0]] + batch[1..];
    assert forall e :: e in batch[1..] ==> e.addr != batch[0].addr by {
      forall i | 0 <= i < |batch| - 1 ensures batch[1..][i].addr != batch[0].addr {
        assert batch[1..][i] == batch[i + 1];
      }
    }
  }

  lemma SettlePending(q: Queue, addr: nat, now: int)
    ensures Settle(q, addr, now).pending == q.pending
  {
    hide Insert;
  }

  lemma SettledFirst(q: Queue, addr: nat, now: int, batch: set<nat>)
    requires addr in q.store
    ensures Settled(q, Settle(q, addr, now), addr, now)
  {
    hide Insert;
  }

  lemma RearmInv(q: Queue, at: int)
    requires Inv(q, {}, true)
    ensures Inv(Rearm(q, at), {}, false)
  {
    hide Less;
    assert forall i :: 0 < i < |q.timers| ==> q.timers[0].when <= q.timers[i].when by { FirstEarliest(q.timers); }
  }

  lemma FirstEarliest(s: seq<Entry>)
    requires Sorted(s)
    ensures forall i :: 0 < i < |s| ==> s[0].when <= s[i].when
  {
    assert forall i :: 0 < i < |s| ==> Less(s[0], s[i]);
  }

  /** What a batch does with one of its timers: it is entered again, `delta` after `now`, if it repeats
      and no callback cancelled it, and freed otherwise. */
  ghost predicate BatchEnd(q: Queue, ops: seq<Op>, r: Queue, addr: nat, now: int)
    requires addr in q.store
  {
    var t := q.store[addr];
    var id := Id(addr, t.sequence);
    if t.repeats && Cancel(id) !in ops
    then id in r.active && addr in r.store && r.store[addr] == t.(expiration := now + t.delta)
         && Entry(now + t.delta, addr) in r.timers
    else addr !in r.store && id !in r.active
  }

  /** An alarm, with any callbacks, leads from one quiescent state to another. */
  lemma HandleReadInv(q: Queue, now: int, ops: seq<Op>, at: int)
    requires Quiescent(q) && now > 0
    ensures Quiescent(HandleRead(q, now, ops, at))
    ensures forall e :: e in Batch(q, now) ==>
        e.addr in q.store && BatchEnd(q, ops, HandleRead(q, now, ops, at), e.addr, now)
  {
    hide *;
    QuiescentParts(q);
    var batch, b := Batch(q, now), Begin(q, now);
    BeginInv(q, now);
    BeginIs(q, now);
    CallbacksInv(b, ops, Addrs(batch), true);
    var c := PerformAll(b, ops).(calling := false);
    CallingOff(PerformAll(b, ops), Addrs(batch));
    SettleAllInv(c, batch, now);
    var d := SettleAll(c, batch, now);
    RearmInv(d, at);
    HandleReadIs(q, now, ops, at);
    QuiescentIs(Rearm(d, at));
    forall e | e in batch
      ensures e.addr in q.store && BatchEnd(q, ops, Rearm(d, at), e.addr, now)
    {
      InAddrs(batch, e);
      BatchEnds(q, ops, c, d, e.addr, now, at);
    }
  }

  lemma BatchEnds(q: Queue, ops: seq<Op>, c: Queue, d: Queue, addr: nat, now: int, at: int)
    requires addr in q.store && addr in c.store && c.store[addr] == q.store[addr] && addr !in d.pending
    requires forall n :: Id(addr, n) in c.canceling <==> Cancel(Id(addr, n)) in ops
    requires Settled(c, d, addr, now) && Inv(d, {}, true)
    ensures BatchEnd(q, ops, Rearm(d, at), addr, now)
  {
    hide Sorted, Numbered, AlarmOk;
  }

  lemma QuiescentParts(q: Queue)
    requires Quiescent(q)
    ensures Inv(q, {}, false) && !q.calling
  {
    hide Inv;
  }

  lemma QuiescentIs(q: Queue)
    requires Inv(q, {}, false) && !q.calling
    ensures Quiescent(q)
  {
    hide Inv;
  }

  lemma BeginIs(q: Queue, now: int)
    ensures Begin(q, now).calling && Begin(q, now).canceling == {} && Begin(q, now).store == q.store
  {
    hide ExpiredCount;
  }

  lemma CallingOff(q: Queue, batch: set<nat>)
    requires Inv(q, batch, true)
    ensures Inv(q.(calling := false), batch, true) && q.pending !! batch
  {
    hide Sorted;
  }

  lemma HandleReadIs(q: Queue, now: int, ops: seq<Op>, at: int)
    ensures var c := PerformAll(Begin(q, now), ops).(calling := false);
      var d := SettleAll(c, Batch(q, now), now);
      HandleRead(q, now, ops, at) == Rearm(d, at) && Rearm(d, at).calling == d.calling
  {
    hide PerformAll, Begin, SettleAll, Batch;
  }

  // ---------------------------------------------------------------- sizes, deadline, runs

  lemma {:induction false} IdsSize(q: Queue, s: seq<Entry>)
    requires DistinctAddrs(s) && forall e :: e in s ==> e.addr in q.store
    ensures |Ids(q.store, s)| == |s|
  {
    if s == [] {
      assert Ids(q.store, s) == {};
    } else {
      var n := |s| - 1;
      var last, init := s[n], s[..n];
      assert s == init + [last];
      IdsSize(q, init);
      var id := Id(last.addr, q.store[last.addr].sequence);
      assert id !in Ids(q.store, init);
      assert Ids(q.store, s) == Ids(q.store, init) + {id};
    }
  }

  /** The two indexes always have the same size. */
  lemma SameSize(q: Queue, batch: set<nat>, running: bool)
    requires Inv(q, batch, running)
    ensures |q.timers| == |q.active|
  {
    SortedDistinct(q.timers);
    AddrsDistinct(q, q.timers);
    IdsSize(q, q.timers);
    hide Sorted, Owned, Numbered, AlarmOk, Distinct, DistinctAddrs;
    assert Ids(q.store, q.timers) == q.active by {
      forall id | id in q.active ensures id in Ids(q.store, q.timers) {
        assert Entry(q.store[id.addr].expiration, id.addr) in q.timers;
      }
    }
  }

  lemma SortedDistinct(s: seq<Entry>)
    requires Sorted(s)
    ensures Distinct(s)
  {
    LessStrict(s);
    hide Less;
  }

  /** The time the descriptor fires: it is never set less than 100 microseconds ahead. */
  function Deadline(alarm: Alarm): int
    requires alarm.Armed?
  {
    Max(alarm.requested, alarm.at + 100)
  }

  /** Between events the descriptor is set, and fires no later than the earliest timer expires, apart
      from the 100 microseconds. */
  lemma FiresInTime(q: Queue, e: Entry)
    requires Quiescent(q) && e in q.timers
    ensures q.alarm.Armed? && Deadline(q.alarm) <= Max(e.when, q.alarm.at + 100)
  {
    hide Sorted, Agree, Owned, Numbered;
  }

  datatype Event = Do(op: Op) | Fire(now: int, ops: seq<Op>, at: int)

  function React(q: Queue, x: Event): Queue {
    match x
    case Do(op) => Perform(q, op)
    case Fire(now, ops, at) => HandleRead(q, now, ops, at)
  }

  function ReactAll(xs: seq<Event>): Queue
    decreases |xs|
  {
    if xs == [] then EMPTY else React(ReactAll(xs[..|xs| - 1]), xs[|xs| - 1])
  }

  /** After any events, with callbacks that do anything, the queue is consistent. */
  lemma {:induction false} AlwaysQuiescent(xs: seq<Event>)
    requires forall i :: 0 <= i < |xs| && xs[i].Fire? ==> xs[i].now > 0
    ensures Quiescent(ReactAll(xs))
    decreases |xs|
  {
    hide Quiescent, Perform, HandleRead;
    if xs == [] {
      EmptyQuiescent();
    } else {
      var n := |xs| - 1;
      AlwaysQuiescent(xs[..n]);
      var q := ReactAll(xs[..n]);
      match xs[n]
      case Do(op) => PerformQuiescent(q, op);
      case Fire(now, ops, at) => HandleReadInv(q, now, ops, at);
    }
  }

  lemma EmptyQuiescent()
    ensures Quiescent(EMPTY)
  {}

  lemma PerformQuiescent(q: Queue, op: Op)
    requires Quiescent(q)
    ensures Quiescent(Perform(q, op))
  {
    hide Inv, Perform;
    PerformInv(q, op, {}, false);
  }
}
