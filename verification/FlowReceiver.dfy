/** The receiver's steps in a flow: taking in a data segment, handing messages to the user, and
    announcing acknowledgements. */
module FlowReceiver {
  import opened Serial
  import opened Wire
  import opened Receiver
  import opened Fragmentation
  import opened Flow
  import Sender
  import FlowSender

  /** A received segment carries the fragment of its number, and its number was sent. */
  ghost predicate KeyOk(f: Flow, x: WireSeg) {
    ReceivedKey(f, x.sn) < Next(f) && Matches(Sequence(f), ReceivedKey(f, x.sn), x.frg, x.data)
  }

  ghost predicate QueueOk(f: Flow) {
    forall i :: 0 <= i < |f.rcv.queue| ==>
      Matches(Sequence(f), Taken(f) + i, f.rcv.queue[i].frg, f.rcv.queue[i].data)
  }

  /** The receive side while a call is at work, before the hand-over loop has drained the buffer. */
  ghost predicate Working(f: Flow) {
    && Consistent(f.rcv) && f.delivered <= f.accepted && Expected(f) <= Next(f) && f.rcv.nxt == Wrap(Expected(f))
    && QueueOk(f) && (forall x :: x in f.rcv.buf ==> KeyOk(f, x))
  }

  lemma WorkingOf(f: Flow)
    requires Receiver.Inv(f.rcv) && ReceiverOk(f)
    ensures Working(f)
  {
    hide InOrder, Contiguous, Matches, Next, Expected, Taken, Sequence, ReceivedKey, Wrap;
  }

  lemma WorkingDone(f: Flow)
    requires Working(f)
    ensures ReceiverOk(f)
  {
    hide InOrder, Contiguous, Matches, Next, Expected, Taken, Sequence, ReceivedKey, Wrap, Consistent;
    assert forall i :: 0 <= i < |f.rcv.buf| ==> KeyOk(f, f.rcv.buf[i]);
  }

  /** A step of the receiver that loses nothing it held keeps the flow valid. */
  lemma ReceiverStep(f: Flow, g: Flow, limit: int)
    requires Valid(f, limit) && Receiver.Inv(g.rcv) && ReceiverOk(g)
    requires g == f.(delivered := g.delivered, rcv := g.rcv, ackKeys := g.ackKeys)
    requires Expected(f) <= Expected(g) && (forall k :: Held(f, k) ==> Held(g, k))
    requires |g.ackKeys| == |g.rcv.acks|
    requires forall i :: 0 <= i < |g.ackKeys| ==> AckedOk(g, g.rcv.acks[i].sn, g.ackKeys[i])
    ensures Valid(g, limit) && Grows(f, g)
  {
    hide *;
    FlowSender.ValidParts(f, limit);
    ReceiverStepSender(f, g);
    ReceiverStepGrows(f, g);
    NetGrows(f, g);
    ReceiverStepAcks(f, g);
    FlowSender.ValidIs(f, g, limit);
  }

  lemma ReceiverStepSender(f: Flow, g: Flow)
    requires SenderOk(f) && g == f.(delivered := g.delivered, rcv := g.rcv, ackKeys := g.ackKeys)
    ensures SenderOk(g) && Sequence(g) == Sequence(f) && Next(g) == Next(f)
    ensures forall k :: Flying(g, k) <==> Flying(f, k)
  {
    hide Off, Stream, Wrap, Matches;
    assert forall sn :: SentKey(g, sn) == SentKey(f, sn);
  }

  lemma ReceiverStepGrows(f: Flow, g: Flow)
    requires g.mss == f.mss && Sequence(g) == Sequence(f) && Next(g) == Next(f) && Expected(f) <= Expected(g)
    requires forall k :: Held(f, k) ==> Held(g, k)
    ensures Grows(f, g)
  {
    hide Sequence, Next, Expected, Held;
  }

  lemma ReceiverStepAcks(f: Flow, g: Flow)
    requires AcksOk(f) && Next(g) == Next(f) && (forall k :: Flying(g, k) <==> Flying(f, k))
    requires forall k :: Held(f, k) ==> Held(g, k)
    requires |g.ackKeys| == |g.rcv.acks|
    requires forall i :: 0 <= i < |g.ackKeys| ==> AckedOk(g, g.rcv.acks[i].sn, g.ackKeys[i])
    ensures AcksOk(g)
  {
    hide Held, Flying, Next, Sequence, Expected, AckedOk;
  }

  // ---------------------------------------------------------------- hand-over

  /** The hand-over loop keeps every number: what it moves to the queue are exactly the next ones. */
  lemma Move(m: Flow) returns (e: Flow)
    requires Working(m)
    ensures e == m.(rcv := MoveReady(m.rcv))
    ensures Receiver.Inv(e.rcv) && ReceiverOk(e) && Expected(m) <= Expected(e)
    ensures forall k :: Held(m, k) ==> Held(e, k)
  {
    hide *;
    e := m.(rcv := MoveReady(m.rcv));
    MoveFacts(m);
    MoveReadyInv(m.rcv);
    var a := Ready(m.rcv.buf, m.rcv.nxt, m.rcv.wnd - m.rcv.nque);
    MoveExpected(m, e, a);
    MoveBuffer(m, e, a);
    MoveQueue(m, e, a);
    MoveHeld(m, e, a);
    MoveWorking(m, e);
    WorkingDone(e);
  }

  lemma MoveFacts(m: Flow)
    requires Working(m)
    ensures Consistent(m.rcv)
    ensures var a, e := Ready(m.rcv.buf, m.rcv.nxt, m.rcv.wnd - m.rcv.nque), MoveReady(m.rcv);
      && e.queue == m.rcv.queue + m.rcv.buf[..a] && e.buf == m.rcv.buf[a..] && e.nxt == Wrap(m.rcv.nxt + a)
      && e.acks == m.rcv.acks && e.wnd == m.rcv.wnd
      && (forall i :: 0 <= i < |m.rcv.buf| ==> i <= Off(m.rcv.nxt, m.rcv.buf[i].sn))
      && (forall i :: 0 <= i < a ==> Off(m.rcv.nxt, m.rcv.buf[i].sn) == i)
  {
    hide *;
    assert Consistent(m.rcv) by { WorkingConsistent(m); }
    BufferSmall(m.rcv);
    MoveReadyIs(m.rcv);
    ReadySpec(m.rcv.buf, m.rcv.nxt, m.rcv.wnd - m.rcv.nque);
    var a := Ready(m.rcv.buf, m.rcv.nxt, m.rcv.wnd - m.rcv.nque);
    forall i | 0 <= i < a ensures Off(m.rcv.nxt, m.rcv.buf[i].sn) == i { OffWrap(m.rcv.nxt, i); }
  }

  lemma WorkingConsistent(m: Flow)
    requires Working(m)
    ensures Consistent(m.rcv)
  {
    hide Consistent;
  }

  lemma BufferSmall(r: Rcv)
    requires Consistent(r)
    ensures |r.buf| <= r.wnd < HALF
    ensures forall i :: 0 <= i < |r.buf| ==> i <= Off(r.nxt, r.buf[i].sn)
  {
    OrderBound(r.nxt, r.wnd, r.buf);
    hide Off, InOrder, Contiguous;
  }

  lemma MoveReadyIs(r: Rcv)
    ensures var a, e := Ready(r.buf, r.nxt, r.wnd - r.nque), MoveReady(r);
      && e.queue == r.queue + r.buf[..a] && e.buf == r.buf[a..] && e.nxt == Wrap(r.nxt + a)
      && e.acks == r.acks && e.wnd == r.wnd
  {
    hide Wrap;
  }

  lemma MoveExpected(m: Flow, e: Flow, a: nat)
    requires Working(m) && e == m.(rcv := e.rcv) && a <= |m.rcv.buf|
    requires e.rcv.queue == m.rcv.queue + m.rcv.buf[..a] && e.rcv.nxt == Wrap(m.rcv.nxt + a)
    requires forall i :: 0 <= i < a ==> Off(m.rcv.nxt, m.rcv.buf[i].sn) == i
    ensures Expected(e) == Expected(m) + a <= Next(e) == Next(m) && Taken(e) == Taken(m)
    ensures e.rcv.nxt == Wrap(Expected(e)) && Sequence(e) == Sequence(m)
  {
    WrapAdd(Expected(m), a);
    hide Off, Wrap, Stream, Consistent, QueueOk;
    if a > 0 {
      assert KeyOk(m, m.rcv.buf[a - 1]);
    }
  }

  lemma MoveBuffer(m: Flow, e: Flow, a: nat)
    requires Working(m) && e == m.(rcv := e.rcv) && a <= |m.rcv.buf|
    requires e.rcv.buf == m.rcv.buf[a..] && e.rcv.nxt == Wrap(m.rcv.nxt + a) && Expected(e) == Expected(m) + a
    requires forall i :: 0 <= i < |m.rcv.buf| ==> i <= Off(m.rcv.nxt, m.rcv.buf[i].sn)
    ensures forall i :: a <= i < |m.rcv.buf| ==> ReceivedKey(e, m.rcv.buf[i].sn) == ReceivedKey(m, m.rcv.buf[i].sn)
    ensures forall x :: x in e.rcv.buf ==> KeyOk(e, x)
  {
    hide Off, Wrap, Consistent, QueueOk, Expected, Matches;
    forall i | a <= i < |m.rcv.buf| ensures ReceivedKey(e, m.rcv.buf[i].sn) == ReceivedKey(m, m.rcv.buf[i].sn) {
      OffAdvance(m.rcv.nxt, a, m.rcv.buf[i].sn);
    }
    forall x | x in e.rcv.buf ensures KeyOk(e, x) {
      var i :| 0 <= i < |e.rcv.buf| && e.rcv.buf[i] == x;
      assert m.rcv.buf[a + i] == x && x in m.rcv.buf;
      assert KeyOk(m, x);
    }
  }

  lemma MoveQueue(m: Flow, e: Flow, a: nat)
    requires Working(m) && e == m.(rcv := e.rcv) && a <= |m.rcv.buf|
    requires e.rcv.queue == m.rcv.queue + m.rcv.buf[..a]
    requires forall i :: 0 <= i < a ==> Off(m.rcv.nxt, m.rcv.buf[i].sn) == i
    ensures QueueOk(e)
  {
    hide Off, Wrap, Consistent, Stream, Next, Matches;
    var n := |m.rcv.queue|;
    assert Taken(e) == Taken(m) && Sequence(e) == Sequence(m);
    forall i | 0 <= i < |e.rcv.queue|
      ensures Matches(Sequence(e), Taken(e) + i, e.rcv.queue[i].frg, e.rcv.queue[i].data)
    {
      if i < n {
        assert e.rcv.queue[i] == m.rcv.queue[i];
      } else {
        var x := m.rcv.buf[i - n];
        assert e.rcv.queue[i] == x && x in m.rcv.buf;
        assert KeyOk(m, x);
      }
    }
  }

  lemma MoveHeld(m: Flow, e: Flow, a: nat)
    requires a <= |m.rcv.buf| && e.rcv.buf == m.rcv.buf[a..] && Expected(e) == Expected(m) + a
    requires forall i :: 0 <= i < a ==> Off(m.rcv.nxt, m.rcv.buf[i].sn) == i
    requires forall i :: a <= i < |m.rcv.buf| ==> ReceivedKey(e, m.rcv.buf[i].sn) == ReceivedKey(m, m.rcv.buf[i].sn)
    ensures forall k :: Held(m, k) ==> Held(e, k)
  {
    hide Off, Expected;
    forall k: nat | Held(m, k) ensures Held(e, k) {
      if k >= Expected(e) {
        var i :| 0 <= i < |m.rcv.buf| && ReceivedKey(m, m.rcv.buf[i].sn) == k;
        assert i >= a;
        assert e.rcv.buf[i - a] == m.rcv.buf[i];
      }
    }
  }

  lemma MoveWorking(m: Flow, e: Flow)
    requires Working(m) && e == m.(rcv := e.rcv) && Receiver.Inv(e.rcv)
    requires Expected(e) <= Next(e) && e.rcv.nxt == Wrap(Expected(e)) && QueueOk(e)
    requires forall x :: x in e.rcv.buf ==> KeyOk(e, x)
    ensures Working(e)
  {
    hide InOrder, Contiguous, QueueOk, KeyOk, Next, Expected, Wrap;
  }

  // ---------------------------------------------------------------- arrival

  /** The half-range assumption on a data segment when its turn comes: it is at most half the circle
      behind the end of the receive window, with which it is compared. */
  ghost predicate PushLive(f: Flow, t: Tag) {
    Expected(f) + f.rcv.wnd <= t.key + HALF
  }

  /** A segment the receiver does not hold always meets it. */
  lemma MissingIsLive(f: Flow, limit: int, t: Tag)
    requires Valid(f, limit) && !Held(f, t.key)
    ensures PushLive(f, t)
  {
    ArrivalFacts(f, limit);
    hide Valid, Expected;
  }

  ghost predicate Acknowledges(r: Rcv, s: WireSeg) {
    TimeDiff(s.sn, Wrap(r.nxt + r.wnd)) < 0
  }

  /** The comparisons of the engine decide by the unbounded number. */
  lemma ArrivalCases(f: Flow, limit: int, s: WireSeg, t: Tag)
    requires Valid(f, limit) && s.sn == Wrap(t.key) && t.key < Next(f) && PushLive(f, t)
    ensures Acknowledges(f.rcv, s) <==> t.key < Expected(f) + f.rcv.wnd
    ensures t.key < Expected(f) + f.rcv.wnd ==> (TimeDiff(s.sn, f.rcv.nxt) >= 0 <==> t.key >= Expected(f))
    ensures Expected(f) <= t.key < Expected(f) + f.rcv.wnd ==>
      Off(f.rcv.nxt, s.sn) < f.rcv.wnd && ReceivedKey(f, s.sn) == t.key
  {
    hide *;
    FirstInWindow(f, limit);
    ArrivalFacts(f, limit);
    PushLiveIs(f, t);
    AcknowledgesIs(f.rcv, s);
    ArrivalNumbers(Expected(f), f.rcv.wnd, t.key);
    KeyOfOffset(f, s.sn);
  }

  lemma PushLiveIs(f: Flow, t: Tag)
    requires PushLive(f, t)
    ensures Expected(f) + f.rcv.wnd <= t.key + HALF
  {
    hide Expected;
  }

  lemma AcknowledgesIs(r: Rcv, s: WireSeg)
    ensures Acknowledges(r, s) <==> TimeDiff(s.sn, Wrap(r.nxt + r.wnd)) < 0
  {
    hide TimeDiff, Wrap;
  }

  lemma KeyOfOffset(f: Flow, sn: u32)
    ensures ReceivedKey(f, sn) == Expected(f) + Off(f.rcv.nxt, sn)
  {
    hide Expected, Off;
  }

  lemma ArrivalNumbers(e: nat, wnd: u32, key: nat)
    requires 0 < wnd < HALF && e + wnd <= key + HALF && key < e + wnd + HALF
    ensures TimeDiff(Wrap(key), Wrap(Wrap(e) + wnd)) < 0 <==> key < e + wnd
    ensures key < e + wnd ==> (TimeDiff(Wrap(key), Wrap(e)) >= 0 <==> key >= e)
    ensures e <= key < e + wnd ==> Off(Wrap(e), Wrap(key)) == key - e
  {
    hide TimeDiff, Wrap, Off;
    WrapAdd(e, wnd);
    DiffExact(key, e + wnd);
    if key < e + wnd { DiffExact(key, e); }
    if e <= key < e + wnd {
      WrapAdd(e, key - e);
      OffWrap(Wrap(e), key - e);
    }
  }

  lemma ArrivalFacts(f: Flow, limit: int)
    requires Valid(f, limit)
    ensures f.rcv.nxt == Wrap(Expected(f)) && 0 < f.rcv.wnd < HALF && limit < HALF
  {
    hide Stream, Off, InOrder, Contiguous, SenderOk, AcksOk, NetOk, Sender.Inv, Next;
  }

  lemma Push(f: Flow, limit: int, s: WireSeg, t: Tag) returns (g: Flow)
    requires Valid(f, limit) && s.sn == Wrap(t.key) && t.key < Next(f) && Matches(Sequence(f), t.key, s.frg, s.data)
    requires PushLive(f, t)
    ensures g == f.(rcv := OnPush(f.rcv, s), ackKeys := if Acknowledges(f.rcv, s) then f.ackKeys + [t.key]
        else f.ackKeys)
    ensures Valid(g, limit) && Grows(f, g)
  {
    hide *;
    ArrivalCases(f, limit, s, t);
    OnPushCases(f.rcv, s);
    FlowSender.ValidParts(f, limit);
    var e := f.(rcv := f.rcv.(acks := f.rcv.acks + [Ack(s.sn, s.ts)]));
    if !Acknowledges(f.rcv, s) {
      g := f;
      GrowsSelf(f);
    } else if t.key < Expected(f) {
      g := e.(ackKeys := f.ackKeys + [t.key]);
      AckedSame(f, g);
      HeldBelow(g, t.key);
      Acknowledge(f, g, limit, s, t.key);
    } else {
      AckedSame(f, e);
      var h := Take(f, e, limit, s, t);
      g := h.(ackKeys := f.ackKeys + [t.key]);
      AckedSame(h, g);
      Acknowledge(f, g, limit, s, t.key);
    }
  }

  lemma HeldBelow(f: Flow, k: nat)
    requires k < Expected(f)
    ensures Held(f, k)
  {
    hide Expected;
  }

  lemma GrowsSelf(f: Flow)
    ensures Grows(f, f)
  {
    hide Sequence, Next, Expected, Held;
  }

  lemma OnPushCases(r: Rcv, s: WireSeg)
    ensures !Acknowledges(r, s) ==> OnPush(r, s) == r
    ensures Acknowledges(r, s) && TimeDiff(s.sn, r.nxt) < 0 ==> OnPush(r, s) == r.(acks := r.acks + [Ack(s.sn, s.ts)])
    ensures Acknowledges(r, s) && TimeDiff(s.sn, r.nxt) >= 0 ==>
      OnPush(r, s) == MoveReady(Inserted(r.(acks := r.acks + [Ack(s.sn, s.ts)]), s))
  {
    hide TimeDiff, Wrap, MoveReady, Inserted;
  }

  /** Adding to the acknowledgement list changes nothing that is held. */
  lemma AckedSame(f: Flow, e: Flow)
    requires e == f.(rcv := f.rcv.(acks := e.rcv.acks), ackKeys := e.ackKeys) && Receiver.Inv(f.rcv) && ReceiverOk(f)
    ensures Receiver.Inv(e.rcv) && ReceiverOk(e) && Expected(e) == Expected(f) && Taken(e) == Taken(f)
    ensures Next(e) == Next(f) && Sequence(e) == Sequence(f) && (forall sn :: ReceivedKey(e, sn) == ReceivedKey(f, sn))
    ensures forall k :: Held(e, k) <==> Held(f, k)
  {
    hide Off, Stream, InOrder, Contiguous, Wrap;
  }

  /** The receiver now holds `key`, which it is about to acknowledge. */
  lemma Acknowledge(f: Flow, g: Flow, limit: int, s: WireSeg, key: nat)
    requires Valid(f, limit) && Receiver.Inv(g.rcv) && ReceiverOk(g)
    requires g == f.(rcv := g.rcv, ackKeys := f.ackKeys + [key]) && g.rcv.acks == f.rcv.acks + [Ack(s.sn, s.ts)]
    requires Expected(f) <= Expected(g) && (forall k :: Held(f, k) ==> Held(g, k))
    requires s.sn == Wrap(key) && Held(g, key)
    ensures Valid(g, limit) && Grows(f, g)
  {
    assert AcksOk(f) by { hide AcksOk; }
    hide Valid, Receiver.Inv, ReceiverOk, Held, Expected, Wrap, Next, Flying;
    assert forall i :: 0 <= i < |f.ackKeys| ==> AckedOk(f, f.rcv.acks[i].sn, f.ackKeys[i]);
    ReceiverStep(f, g, limit);
  }

  /** A new number inside the window is buffered, or handed over at once with what it completes. */
  lemma Take(f: Flow, e: Flow, limit: int, s: WireSeg, t: Tag) returns (h: Flow)
    requires Valid(f, limit) && e == f.(rcv := f.rcv.(acks := e.rcv.acks)) && Receiver.Inv(e.rcv) && ReceiverOk(e)
    requires Expected(e) == Expected(f) && Next(e) == Next(f) && Sequence(e) == Sequence(f)
    requires (forall sn :: ReceivedKey(e, sn) == ReceivedKey(f, sn)) && (forall k :: Held(e, k) <==> Held(f, k))
    requires Off(f.rcv.nxt, s.sn) < f.rcv.wnd && ReceivedKey(f, s.sn) == t.key < Next(f)
    requires Matches(Sequence(f), t.key, s.frg, s.data)
    ensures h == f.(rcv := MoveReady(Inserted(e.rcv, s)))
    ensures Receiver.Inv(h.rcv) && ReceiverOk(h) && h.rcv.acks == e.rcv.acks
    ensures Expected(f) <= Expected(h) && (forall k :: Held(f, k) ==> Held(h, k)) && Held(h, t.key)
  {
    hide *;
    WorkingOf(e);
    assert Receiver.Inv(e.rcv) ==> Consistent(e.rcv) by { InvConsistent(e.rcv); }
    InsertInv(e.rcv, s);
    var m := e.(rcv := Inserted(e.rcv, s));
    assert KeyOk(e, s) by { KeyIs(e, s); }
    InsertWorking(e, m, s);
    h := Move(m);
    MoveReadyAcks(m.rcv);
  }

  lemma InvConsistent(r: Rcv)
    ensures Receiver.Inv(r) ==> Consistent(r)
  {
    hide Consistent;
  }

  lemma MoveReadyAcks(r: Rcv)
    ensures MoveReady(r).acks == r.acks
  {}

  lemma KeyIs(f: Flow, x: WireSeg)
    ensures KeyOk(f, x) <==> ReceivedKey(f, x.sn) < Next(f) && Matches(Sequence(f), ReceivedKey(f, x.sn), x.frg, x.data)
  {
    hide ReceivedKey, Next, Matches, Sequence;
  }

  /** Inserting a segment changes no number and keeps everything that was buffered. */
  lemma InsertWorking(e: Flow, m: Flow, s: WireSeg)
    requires Working(e) && m == e.(rcv := Inserted(e.rcv, s)) && Consistent(m.rcv)
    requires Off(e.rcv.nxt, s.sn) < e.rcv.wnd && KeyOk(e, s)
    ensures Working(m) && m.rcv.acks == e.rcv.acks && Expected(m) == Expected(e)
    ensures (forall k :: Held(e, k) ==> Held(m, k)) && Held(m, ReceivedKey(e, s.sn))
  {
    hide *;
    WorkingConsistent(e);
    InsertedIs(e.rcv, s);
    InsertedKeys(e, m);
    InsertedWorking(e, m, s);
    InsertedHeld(e, m, s);
  }

  lemma InsertedIs(r: Rcv, s: WireSeg)
    requires Consistent(r) && Off(r.nxt, s.sn) < r.wnd
    ensures var t := Inserted(r, s);
      && t == r.(buf := t.buf, nbuf := t.nbuf)
      && (forall x :: x in r.buf ==> x in t.buf) && (forall x :: x in t.buf ==> x in r.buf || x == s)
      && exists x :: x in t.buf && x.sn == s.sn
  {
    InsertSpec(r.nxt, r.wnd, r.buf, s);
    hide Off, InOrder, Contiguous, InsertFromTail, Wrap;
    var t := Inserted(r, s);
    if Present(r.buf, s.sn) {
      var i :| 0 <= i < |r.buf| && r.buf[i].sn == s.sn;
      assert r.buf[i] in t.buf;
    } else {
      assert s in t.buf;
    }
  }

  lemma InsertedKeys(e: Flow, m: Flow)
    requires m == e.(rcv := m.rcv) && m.rcv == e.rcv.(buf := m.rcv.buf, nbuf := m.rcv.nbuf)
    ensures Expected(m) == Expected(e) && Taken(m) == Taken(e) && Next(m) == Next(e) && Sequence(m) == Sequence(e)
    ensures forall sn :: ReceivedKey(m, sn) == ReceivedKey(e, sn)
  {
    hide Off, Stream;
  }

  lemma InsertedWorking(e: Flow, m: Flow, s: WireSeg)
    requires Working(e) && Consistent(m.rcv) && KeyOk(e, s)
    requires m == e.(rcv := m.rcv) && m.rcv == e.rcv.(buf := m.rcv.buf, nbuf := m.rcv.nbuf)
    requires Expected(m) == Expected(e) && Taken(m) == Taken(e) && Next(m) == Next(e) && Sequence(m) == Sequence(e)
    requires forall sn :: ReceivedKey(m, sn) == ReceivedKey(e, sn)
    requires forall x :: x in m.rcv.buf ==> x in e.rcv.buf || x == s
    ensures Working(m)
  {
    hide Consistent, Expected, Taken, Next, Sequence, ReceivedKey, Matches, Wrap;
  }

  lemma InsertedHeld(e: Flow, m: Flow, s: WireSeg)
    requires Expected(m) == Expected(e) && (forall sn :: ReceivedKey(m, sn) == ReceivedKey(e, sn))
    requires forall x :: x in e.rcv.buf ==> x in m.rcv.buf
    requires exists x :: x in m.rcv.buf && x.sn == s.sn
    ensures (forall k :: Held(e, k) ==> Held(m, k)) && Held(m, ReceivedKey(e, s.sn))
  {
    hide Expected, ReceivedKey;
    forall k: nat | Held(e, k) ensures Held(m, k) {
      if k >= Expected(e) {
        var i :| 0 <= i < |e.rcv.buf| && ReceivedKey(e, e.rcv.buf[i].sn) == k;
        assert e.rcv.buf[i] in m.rcv.buf;
        var j :| 0 <= j < |m.rcv.buf| && m.rcv.buf[j] == e.rcv.buf[i];
      }
    }
    var x :| x in m.rcv.buf && x.sn == s.sn;
    var j :| 0 <= j < |m.rcv.buf| && m.rcv.buf[j] == x;
    assert ReceivedKey(m, m.rcv.buf[j].sn) == ReceivedKey(e, s.sn);
  }

  // ---------------------------------------------------------------- the user

  /** The queue begins with the fragments of the next message not yet delivered. */
  ghost predicate AtMessage(f: Flow, msg: seq<byte>)
    ensures AtMessage(f, msg) ==> 0 < f.mss && |msg| <= 127 * f.mss
  {
    && |f.delivered| < |f.accepted| && msg == f.accepted[|f.delivered|] && |msg| <= 127 * f.mss && 0 < f.mss
    && forall i :: 0 <= i < |f.rcv.queue| && i < |MessageFragments(msg, f.mss)| ==>
         Carries(f.rcv.queue[i], MessageFragments(msg, f.mss)[i])
  }

  lemma NextMessage(f: Flow, limit: int) returns (msg: seq<byte>)
    requires Valid(f, limit) && f.rcv.queue != []
    ensures AtMessage(f, msg)
    ensures Stream(f.delivered + [msg], f.mss) == Stream(f.delivered, f.mss) + MessageFragments(msg, f.mss)
    ensures f.delivered + [msg] <= f.accepted
  {
    hide *;
    FlowSender.ValidParts(f, limit);
    MoreAccepted(f);
    msg := f.accepted[|f.delivered|];
    StreamNext(f.delivered, f.accepted, f.mss);
    StreamAppend(f.delivered, msg, f.mss);
    FragmentsOfIs(msg, f.mss);
    SequenceIs(f);
    QueueCarries(f, msg);
    AtMessageIs(f, msg);
    assert f.delivered + [msg] <= f.accepted;
  }

  /** A received segment lies beyond the fragments of the delivered messages. */
  lemma MoreAccepted(f: Flow)
    requires SenderOk(f) && ReceiverOk(f) && f.rcv.queue != []
    ensures f.delivered <= f.accepted && |f.delivered| < |f.accepted| && f.mss > 0
    ensures |f.accepted[|f.delivered|]| <= 127 * f.mss
  {
    hide Off, Stream, Wrap, Matches;
    if |f.delivered| == |f.accepted| {
      SameStream(f);
    }
  }

  lemma SameStream(f: Flow)
    requires f.delivered <= f.accepted && |f.delivered| == |f.accepted|
    ensures Taken(f) == |Sequence(f)|
  {
    assert f.delivered == f.accepted;
    hide Stream;
  }

  lemma FragmentsOfIs(msg: seq<byte>, mss: nat)
    requires 0 < mss && |msg| <= 127 * mss
    ensures FragmentsOf(msg, mss) == MessageFragments(msg, mss)
  {
    hide MessageFragments;
  }

  lemma SequenceIs(f: Flow)
    ensures Sequence(f) == Stream(f.accepted, f.mss)
  {
    hide Stream;
  }

  lemma AtMessageIs(f: Flow, msg: seq<byte>)
    requires |f.delivered| < |f.accepted| && msg == f.accepted[|f.delivered|] && |msg| <= 127 * f.mss && 0 < f.mss
    requires forall i :: 0 <= i < |f.rcv.queue| && i < |MessageFragments(msg, f.mss)| ==>
         Carries(f.rcv.queue[i], MessageFragments(msg, f.mss)[i])
    ensures AtMessage(f, msg)
  {
    hide Carries, MessageFragments;
  }

  lemma QueueCarries(f: Flow, msg: seq<byte>)
    requires ReceiverOk(f) && 0 < f.mss && |msg| <= 127 * f.mss
    requires Stream(f.delivered, f.mss) + MessageFragments(msg, f.mss) <= Sequence(f)
    ensures forall i :: 0 <= i < |f.rcv.queue| && i < |MessageFragments(msg, f.mss)| ==>
         Carries(f.rcv.queue[i], MessageFragments(msg, f.mss)[i])
  {
    hide Stream, MessageFragments, ReceivedKey, Next, Expected;
    var frags := MessageFragments(msg, f.mss);
    forall i | 0 <= i < |f.rcv.queue| && i < |frags| ensures Carries(f.rcv.queue[i], frags[i]) {
      assert Matches(Sequence(f), Taken(f) + i, f.rcv.queue[i].frg, f.rcv.queue[i].data);
      assert (Stream(f.delivered, f.mss) + frags)[Taken(f) + i] == frags[i];
    }
  }

  /** The message at the head can be read exactly when all its fragments are queued, and what is
      read then is that message. */
  lemma Readable(f: Flow, limit: int, msg: seq<byte>)
    requires Valid(f, limit) && AtMessage(f, msg) && f.rcv.queue != []
    ensures PeekSize(f.rcv) >= 0 <==> |MessageFragments(msg, f.mss)| <= |f.rcv.queue|
    ensures PeekSize(f.rcv) >= 0 ==>
      && PeekSize(f.rcv) == |msg| && MergeCount(f.rcv.queue) == |MessageFragments(msg, f.mss)|
      && Payload(f.rcv.queue[..MergeCount(f.rcv.queue)]) == msg
  {
    var frags := MessageFragments(msg, f.mss);
    assert f.rcv.nque == |f.rcv.queue| by { hide SenderOk, ReceiverOk, AcksOk, NetOk, Sender.Inv, InOrder, Contiguous; }
    assert Carries(f.rcv.queue[0], frags[0]);
    hide Valid, Stream;
    if |frags| <= |f.rcv.queue| {
      Reassembly(f.rcv, msg, f.mss);
    } else {
      assert f.rcv.queue[0].frg == |frags| - 1;
    }
  }

  /** A queue of 127 or more segments always has a complete message at its head, so a full receive
      queue cannot wedge: every receive window is at least 128. */
  lemma NoWedge(f: Flow, limit: int)
    requires Valid(f, limit) && |f.rcv.queue| >= 127
    ensures PeekSize(f.rcv) >= 0
  {
    var msg := NextMessage(f, limit);
    Readable(f, limit, msg);
    assert |MessageFragments(msg, f.mss)| < Sender.MAX_FRAGMENTS;
    hide *;
  }

  /** A receive call delivers the next accepted message or nothing. */
  lemma UserReceives(f: Flow, limit: int, len: int) returns (g: Flow)
    requires Valid(f, limit)
    ensures var r := Recv(f.rcv, len);
      g == f.(rcv := r.rcv, delivered := if r.code >= 0 && len >= 0 then f.delivered + [r.data] else f.delivered)
    ensures Valid(g, limit) && Grows(f, g)
  {
    hide *;
    FlowSender.ValidParts(f, limit);
    RecvCases(f.rcv, len);
    var r := Recv(f.rcv, len);
    if r.code < 0 || len < 0 {
      g := f;
      GrowsSelf(f);
    } else {
      var msg := NextMessage(f, limit);
      Readable(f, limit, msg);
      var k := MergeCount(f.rcv.queue);
      WorkingOf(f);
      var taken := f.rcv.(queue := f.rcv.queue[k..], nque := Wrap(f.rcv.nque - k));
      var h := f.(rcv := taken, delivered := f.delivered + [msg]);
      TakeMessage(f, h, msg, k);
      g := Move(h);
      HeldThrough(f, h, g);
      MoveReadyAcks(taken);
      SameAcks(f, g, limit);
      ReceiverStep(f, g, limit);
    }
  }

  lemma HeldThrough(f: Flow, h: Flow, g: Flow)
    requires forall k :: Held(f, k) ==> Held(h, k)
    requires forall k :: Held(h, k) ==> Held(g, k)
    ensures forall k :: Held(f, k) ==> Held(g, k)
  {}

  lemma SameAcks(f: Flow, g: Flow, limit: int)
    requires Valid(f, limit) && g.ackKeys == f.ackKeys && g.rcv.acks == f.rcv.acks &&
        (forall k :: Held(f, k) ==> Held(g, k))
    ensures |g.ackKeys| == |g.rcv.acks|
    ensures forall i :: 0 <= i < |g.ackKeys| ==> AckedOk(g, g.rcv.acks[i].sn, g.ackKeys[i])
  {
    assert AcksOk(f) by { hide AcksOk; }
    hide Valid, Held, Next, Flying, Wrap;
    assert forall i :: 0 <= i < |f.ackKeys| ==> AckedOk(f, f.rcv.acks[i].sn, f.ackKeys[i]);
  }

  lemma RecvCases(r: Rcv, len: int)
    requires Receiver.Inv(r)
    ensures var x := Recv(r, len);
      && (x.code < 0 || len < 0 ==> x.rcv == r)
      && (x.code >= 0 && len >= 0 ==>
            && r.queue != [] && PeekSize(r) >= 0
            && var k := MergeCount(r.queue);
               && x.data == Payload(r.queue[..k])
               && x.rcv == MoveReady(r.(queue := r.queue[k..], nque := Wrap(r.nque - k))))
  {
    if len < 0 { PeekChangesNothing(r, len); }
    hide MoveReady, Receiver.Inv, PeekSize, Payload, Wrap;
  }

  /** Removing the merged fragments leaves the queue at the next message. */
  lemma TakeMessage(f: Flow, h: Flow, msg: seq<byte>, k: nat)
    requires Working(f) && h == f.(rcv := h.rcv, delivered := f.delivered + [msg]) && f.delivered + [msg] <= f.accepted
    requires k <= |f.rcv.queue| && h.rcv == f.rcv.(queue := f.rcv.queue[k..], nque := Wrap(f.rcv.nque - k))
    requires 0 < f.mss && |msg| <= 127 * f.mss && k == |MessageFragments(msg, f.mss)|
    requires Stream(f.delivered + [msg], f.mss) == Stream(f.delivered, f.mss) + MessageFragments(msg, f.mss)
    ensures Working(h) && Expected(h) == Expected(f) && (forall j :: Held(f, j) ==> Held(h, j))
  {
    hide Off, Stream, MessageFragments, InOrder, Contiguous, Matches, Wrap, KeyOk;
    assert Taken(h) == Taken(f) + k && Sequence(h) == Sequence(f) && Next(h) == Next(f) && Expected(h) == Expected(f);
    assert forall sn :: ReceivedKey(h, sn) == ReceivedKey(f, sn);
    assert forall x :: KeyOk(f, x) ==> KeyOk(h, x) by { KeySame(f, h); }
    assert QueueOk(h) by {
      forall i | 0 <= i < |h.rcv.queue| ensures Matches(Sequence(h), Taken(h) + i, h.rcv.queue[i].frg,
          h.rcv.queue[i].data) {
        assert Matches(Sequence(f), Taken(f) + (k + i), f.rcv.queue[k + i].frg, f.rcv.queue[k + i].data);
      }
    }
    assert Consistent(h.rcv) by { ContiguousSuffix(f.rcv.nxt, f.rcv.queue, k); }
  }

  lemma KeySame(f: Flow, h: Flow)
    requires Next(h) == Next(f) && Sequence(h) == Sequence(f) && (forall sn :: ReceivedKey(h, sn) == ReceivedKey(f, sn))
    ensures forall x :: KeyOk(f, x) ==> KeyOk(h, x)
  {
    hide ReceivedKey, Next, Sequence, Matches;
  }

  lemma ContiguousSuffix(nxt: u32, queue: seq<WireSeg>, k: nat)
    requires Contiguous(nxt, queue) && k <= |queue|
    ensures Contiguous(nxt, queue[k..])
  {
    hide Wrap;
    assert forall i :: 0 <= i < |queue[k..]| ==>
        queue[k..][i] == queue[k + i] && queue[k + i].sn == Wrap(nxt - |queue| + (k + i));
  }

  // ---------------------------------------------------------------- announcing

  /** A flush announces every listed acknowledgement and empties the list. */
  lemma Announce(f: Flow, limit: int) returns (g: Flow)
    requires Valid(f, limit)
    ensures g == f.(rcv := f.rcv.(acks := []), ackKeys := [])
    ensures Valid(g, limit) && Grows(f, g) && Expected(g) == Expected(f)
    ensures forall k :: Held(f, k) ==> Held(g, k)
  {
    hide *;
    g := f.(rcv := f.rcv.(acks := []), ackKeys := []);
    FlowSender.ValidParts(f, limit);
    AckedSame(f, g);
    ReceiverStep(f, g, limit);
  }
}
