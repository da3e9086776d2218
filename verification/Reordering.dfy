/** Reordering confluence: the receiver ends in the same state whatever the order in which
    a set of segments arrives, and however often each of them is repeated. */
module Reordering {
  import opened Serial
  import opened Wire
  import opened Receiver

  function Feed(r: Rcv, arrivals: seq<WireSeg>): Rcv
    decreases |arrivals|
  {
    if arrivals == [] then r
    else ParseData(Feed(r, arrivals[..|arrivals| - 1]), arrivals[|arrivals| - 1])
  }

  /** One segment per number, all inside the window of `r`. */
  ghost predicate FixedSet(r: Rcv, segs: set<WireSeg>) {
    && (forall s :: s in segs ==> Off(r.nxt, s.sn) < r.wnd)
    && (forall s, t :: s in segs && t in segs && s.sn == t.sn ==> s == t)
  }

  /** What the receiver holds once all of `segs` have arrived: a number it had keeps its first segment. */
  ghost function Known(r: Rcv, segs: set<WireSeg>): set<WireSeg> {
    (set s | s in r.buf) + (set s | s in segs && !Present(r.buf, s.sn))
  }

  ghost predicate HasOffset(base: u32, known: set<WireSeg>, o: nat) {
    exists s :: s in known && Off(base, s.sn) == o
  }

  /** `adv` is the smaller of the contiguous run in `known` and the free queue slots. */
  ghost predicate IsAdvance(r: Rcv, known: set<WireSeg>, adv: nat) {
    && |r.queue| + adv <= r.wnd
    && (forall o :: 0 <= o < adv ==> HasOffset(r.nxt, known, o))
    && (|r.queue| + adv == r.wnd || !HasOffset(r.nxt, known, adv))
  }

  /** `e` is `r` after `adv` of the known segments went to the queue; the rest stayed buffered. */
  ghost predicate Moved(r: Rcv, known: set<WireSeg>, adv: nat, e: Rcv) {
    && Consistent(e) && e.wnd == r.wnd && e.acks == r.acks && e.nxt == Wrap(r.nxt + adv)
    && |e.queue| == |r.queue| + adv && r.queue <= e.queue
    && (forall j :: |r.queue| <= j < |e.queue| ==>
          e.queue[j] in known && Off(r.nxt, e.queue[j].sn) == j - |r.queue|)
    && (forall s :: s in e.buf <==> s in known && Off(r.nxt, s.sn) >= adv)
  }

  ghost predicate Arrived(r: Rcv, known: set<WireSeg>, adv: nat, e: Rcv) {
    Moved(r, known, adv, e) && Drained(e)
  }

  lemma KnownFixed(r: Rcv, segs: set<WireSeg>)
    requires Inv(r) && FixedSet(r, segs)
    ensures FixedSet(r, Known(r, segs))
  {
    hide Off, Contiguous;
    forall s, t | s in Known(r, segs) && t in Known(r, segs) && s.sn == t.sn ensures s == t {
      if s in r.buf && t in r.buf {
        var i :| 0 <= i < |r.buf| && r.buf[i] == s;
        var j :| 0 <= j < |r.buf| && r.buf[j] == t;
        assert i == j;
      }
    }
  }

  lemma ArrivedAdvance(r: Rcv, known: set<WireSeg>, adv: nat, e: Rcv)
    requires Arrived(r, known, adv, e)
    ensures IsAdvance(r, known, adv)
  {
    hide Off, Wrap, Contiguous;
    forall o | 0 <= o < adv ensures HasOffset(r.nxt, known, o) {
      assert e.queue[|r.queue| + o] in known;
    }
    if |e.queue| < r.wnd && HasOffset(r.nxt, known, adv) {
      var s :| s in known && Off(r.nxt, s.sn) == adv;
      OffAdvance(r.nxt, adv, s.sn);
      assert s in e.buf;
      OrderBound(e.nxt, e.wnd, e.buf);
      OffSelf(e.nxt, s.sn);
      assert false;
    }
  }

  lemma InsertContents(r: Rcv, known0: set<WireSeg>, known: set<WireSeg>, seg: WireSeg, adv0: nat, e: Rcv)
    requires FixedSet(r, known) && known0 <= known <= known0 + {seg}
    requires e.wnd < HALF && InOrder(e.nxt, e.wnd, e.buf) && Off(e.nxt, seg.sn) < e.wnd
    requires forall s :: s in e.buf <==> s in known0 && Off(r.nxt, s.sn) >= adv0
    requires adv0 <= Off(r.nxt, seg.sn)
    requires exists t :: t in known && t.sn == seg.sn
    ensures forall x :: x in InsertFromTail(e.buf, seg) <==> x in known && Off(r.nxt, x.sn) >= adv0
  {
    hide Off, InsertFromTail, InOrder;
    InsertSpec(e.nxt, e.wnd, e.buf, seg);
    var t :| t in known && t.sn == seg.sn;
    if Present(e.buf, seg.sn) {
      var i :| 0 <= i < |e.buf| && e.buf[i].sn == seg.sn;
      assert e.buf[i] in e.buf;
      assert e.buf[i] == t;
    } else {
      assert forall i :: 0 <= i < |e.buf| ==> e.buf[i] != t;
      assert t == seg;
    }
  }

  /** Where the buffered segments stand relative to `r`. */
  ghost predicate BufferedAt(r: Rcv, known: set<WireSeg>, adv0: nat, m: Rcv, i: nat)
    requires i < |m.buf|
  {
    && m.buf[i] in known && Off(r.nxt, m.buf[i].sn) >= adv0 + i
    && (i < Ready(m.buf, m.nxt, m.wnd - m.nque) ==> Off(r.nxt, m.buf[i].sn) == adv0 + i)
  }

  lemma BufferedOffsets(r: Rcv, known: set<WireSeg>, adv0: nat, m: Rcv)
    requires Moved(r, known, adv0, m)
    ensures forall i :: 0 <= i < |m.buf| ==> BufferedAt(r, known, adv0, m, i)
  {
    hide Off, Wrap, Contiguous, InOrder, Ready, BufferedAt;
    OrderBound(m.nxt, m.wnd, m.buf);
    ReadySpec(m.buf, m.nxt, m.wnd - m.nque);
    forall i | 0 <= i < |m.buf| ensures BufferedAt(r, known, adv0, m, i) {
      assert m.buf[i] in m.buf;
      BufferedOne(r, known, adv0, m, i);
    }
  }

  lemma BufferedOne(r: Rcv, known: set<WireSeg>, adv0: nat, m: Rcv, i: nat)
    requires i < |m.buf| && m.nxt == Wrap(r.nxt + adv0) && m.buf[i] in known && adv0 <= Off(r.nxt, m.buf[i].sn)
    requires i <= Off(m.nxt, m.buf[i].sn)
    requires i < Ready(m.buf, m.nxt, m.wnd - m.nque) ==> m.buf[i].sn == Wrap(m.nxt + i)
    ensures BufferedAt(r, known, adv0, m, i)
  {
    OffBelow(m.nxt, m.buf[i].sn);
    hide Off, Wrap, Ready;
    OffAdvance(r.nxt, adv0, m.buf[i].sn);
    OffWrap(m.nxt, i);
  }

  lemma OffBelow(base: u32, sn: u32)
    ensures Off(base, sn) < 0x1_0000_0000
  {}

  /** The hand-over loop turns a state with ready segments left into one that has arrived. */
  lemma MoveArrived(r: Rcv, known: set<WireSeg>, adv0: nat, m: Rcv) returns (adv: nat)
    requires Moved(r, known, adv0, m)
    ensures Arrived(r, known, adv, MoveReady(m))
  {
    hide Off, Wrap, Contiguous, InOrder, Ready;
    var a := Ready(m.buf, m.nxt, m.wnd - m.nque);
    adv := adv0 + a;
    var e := MoveReady(m);
    assert Inv(e) by { MoveReadyInv(m); }
    assert e.nxt == Wrap(r.nxt + adv) by { WrapAdd(r.nxt + adv0, a); }
    BufferedOffsets(r, known, adv0, m);
    MovedQueue(r, known, adv0, m, a, e.queue);
    MovedBuffer(r, known, adv0, m, a);
    hide Consistent;
  }

  lemma MovedQueue(r: Rcv, known: set<WireSeg>, adv0: nat, m: Rcv, a: nat, queue: seq<WireSeg>)
    requires Moved(r, known, adv0, m) && a == Ready(m.buf, m.nxt, m.wnd - m.nque)
    requires queue == m.queue + m.buf[..a]
    requires forall i :: 0 <= i < |m.buf| ==> BufferedAt(r, known, adv0, m, i)
    ensures |queue| == |r.queue| + adv0 + a && r.queue <= queue
    ensures forall j :: |r.queue| <= j < |queue| ==> queue[j] in known && Off(r.nxt, queue[j].sn) == j - |r.queue|
  {
    hide Off, Consistent, Ready;
    forall j | |r.queue| <= j < |queue| ensures queue[j] in known && Off(r.nxt, queue[j].sn) == j - |r.queue| {
      if j >= |m.queue| {
        assert BufferedAt(r, known, adv0, m, j - |m.queue|);
      }
    }
  }

  lemma MovedBuffer(r: Rcv, known: set<WireSeg>, adv0: nat, m: Rcv, a: nat)
    requires Moved(r, known, adv0, m) && a == Ready(m.buf, m.nxt, m.wnd - m.nque)
    requires forall i :: 0 <= i < |m.buf| ==> BufferedAt(r, known, adv0, m, i)
    ensures forall s :: s in m.buf[a..] <==> s in known && Off(r.nxt, s.sn) >= adv0 + a
  {
    hide Off, Consistent, Ready;
    forall s ensures s in m.buf[a..] <==> s in known && Off(r.nxt, s.sn) >= adv0 + a {
      if s in m.buf[a..] {
        var i :| 0 <= i < |m.buf[a..]| && m.buf[a..][i] == s;
        assert BufferedAt(r, known, adv0, m, a + i);
      }
      if s in m.buf && Off(r.nxt, s.sn) >= adv0 + a {
        var i :| 0 <= i < |m.buf| && m.buf[i] == s;
        assert BufferedAt(r, known, adv0, m, i);
        assert m.buf[a..][i - a] == s;
      }
    }
  }

  /** One more arrival after `segs`. */
  lemma OneMore(r: Rcv, segs: set<WireSeg>, seg: WireSeg, adv0: nat, e: Rcv) returns (adv: nat)
    requires Inv(r) && FixedSet(r, segs + {seg}) && Arrived(r, Known(r, segs), adv0, e)
    ensures Arrived(r, Known(r, segs + {seg}), adv, ParseData(e, seg))
  {
    hide *;
    var known0, known := Known(r, segs), Known(r, segs + {seg});
    KnownFixed(r, segs + {seg});
    KnownGrows(r, segs, seg);
    ArrivedBounds(r, known0, adv0, e);
    if Off(r.nxt, seg.sn) < adv0 {
      StaleArrival(r, known0, known, seg, adv0, e);
      adv := adv0;
    } else {
      OffAdvance(r.nxt, adv0, seg.sn);
      WindowOf(r, segs, seg);
      InWindowMoves(e, seg);
      InsertMoved(r, known0, known, seg, adv0, e);
      adv := MoveArrived(r, known, adv0, Inserted(e, seg));
    }
  }

  lemma KnownGrows(r: Rcv, segs: set<WireSeg>, seg: WireSeg)
    ensures Known(r, segs) <= Known(r, segs + {seg}) <= Known(r, segs) + {seg}
    ensures exists t :: t in Known(r, segs + {seg}) && t.sn == seg.sn
  {
    if Present(r.buf, seg.sn) {
      var i :| 0 <= i < |r.buf| && r.buf[i].sn == seg.sn;
      assert r.buf[i] in Known(r, segs + {seg});
    } else {
      assert seg in Known(r, segs + {seg});
    }
  }

  lemma ArrivedBounds(r: Rcv, known: set<WireSeg>, adv: nat, e: Rcv)
    requires Arrived(r, known, adv, e)
    ensures Moved(r, known, adv, e) && Consistent(e) && e.nxt == Wrap(r.nxt + adv) && e.wnd == r.wnd < HALF
    ensures InOrder(e.nxt, e.wnd, e.buf) && forall s :: s in e.buf <==> s in known && Off(r.nxt, s.sn) >= adv
  {
    hide Off, Wrap, InOrder, Contiguous;
  }

  lemma WindowOf(r: Rcv, segs: set<WireSeg>, seg: WireSeg)
    requires FixedSet(r, segs + {seg})
    ensures Off(r.nxt, seg.sn) < r.wnd
  {
    hide Off;
  }

  lemma InWindowMoves(e: Rcv, seg: WireSeg)
    requires 0 < e.wnd < HALF && Off(e.nxt, seg.sn) < e.wnd
    ensures ParseData(e, seg) == MoveReady(Inserted(e, seg))
  {
    WindowTest(e.nxt, e.wnd, seg.sn);
    hide Off, Wrap, TimeDiff, MoveReady, Inserted;
  }

  lemma InsertMoved(r: Rcv, known0: set<WireSeg>, known: set<WireSeg>, seg: WireSeg, adv0: nat, e: Rcv)
    requires FixedSet(r, known) && known0 <= known <= known0 + {seg} && Moved(r, known0, adv0, e)
    requires Off(e.nxt, seg.sn) < e.wnd && adv0 <= Off(r.nxt, seg.sn)
    requires exists t :: t in known && t.sn == seg.sn
    ensures Moved(r, known, adv0, Inserted(e, seg))
  {
    assert forall x :: x in InsertFromTail(e.buf, seg) <==> x in known && Off(r.nxt, x.sn) >= adv0 by {
      hide FixedSet, Off, Wrap, InOrder, Contiguous, InsertFromTail;
      InsertContents(r, known0, known, seg, adv0, e);
    }
    InsertInv(e, seg);
    hide FixedSet, Off, Wrap, Consistent, InsertFromTail;
  }

  lemma StaleArrival(r: Rcv, known0: set<WireSeg>, known: set<WireSeg>, seg: WireSeg, adv0: nat, e: Rcv)
    requires FixedSet(r, known) && known0 <= known <= known0 + {seg} && Arrived(r, known0, adv0, e)
    requires Off(r.nxt, seg.sn) < adv0 && r.wnd < HALF
    ensures Arrived(r, known, adv0, e) && ParseData(e, seg) == e
  {
    WindowTest(e.nxt, e.wnd, seg.sn);
    OffBehind(r.nxt, adv0, seg.sn);
    hide Off, Wrap, TimeDiff, Contiguous, InOrder, MoveReady, Inserted;
    var held := e.queue[|r.queue| + Off(r.nxt, seg.sn)];
    assert held in known0;
    OffInjective(r.nxt, held.sn, seg.sn);
    assert seg in known ==> seg == held;
  }

  /** A number less than half a circle behind the base is outside any window. */
  lemma OffBehind(base: u32, a: nat, sn: u32)
    requires Off(base, sn) < a <= HALF
    ensures Off(Wrap(base + a), sn) >= HALF
  {}

  lemma {:induction false} FeedArrived(r: Rcv, arrivals: seq<WireSeg>) returns (adv: nat)
    requires Inv(r) && FixedSet(r, set s | s in arrivals)
    ensures Arrived(r, Known(r, set s | s in arrivals), adv, Feed(r, arrivals))
    decreases |arrivals|
  {
    hide Off, Contiguous, InOrder, ParseData;
    var segs := set s | s in arrivals;
    if arrivals == [] {
      adv := 0;
      assert Known(r, segs) == set s | s in r.buf;
      InWindow(r);
    } else {
      var n := |arrivals| - 1;
      var before, seg := arrivals[..n], arrivals[n];
      var segs0 := set s | s in before;
      assert arrivals == before + [seg];
      assert segs == segs0 + {seg};
      var adv0 := FeedArrived(r, before);
      adv := OneMore(r, segs0, seg, adv0, Feed(r, before));
    }
  }

  lemma InWindow(r: Rcv)
    requires Inv(r)
    ensures forall s :: s in r.buf ==> Off(r.nxt, s.sn) < r.wnd
  {
    hide Off, Contiguous;
  }

  /** Ordered buffers with the same segments are equal. */
  lemma {:induction false} OrderUnique(base: u32, wnd: int, p: seq<WireSeg>, q: seq<WireSeg>)
    requires InOrder(base, wnd, p) && InOrder(base, wnd, q)
    requires forall s :: s in p <==> s in q
    ensures p == q
  {
    hide Off, InOrder;
    if q != [] { assert q[0] in p; }
    if p != [] {
      assert p[0] in q;
      SameHead(base, wnd, p, q);
      TailContents(base, wnd, p);
      TailContents(base, wnd, q);
      TailOrder(base, wnd, p);
      TailOrder(base, wnd, q);
      OrderUnique(base, wnd, p[1..], q[1..]);
      assert p == [p[0]] + p[1..] && q == [q[0]] + q[1..];
    }
  }

  lemma TailOrder(base: u32, wnd: int, p: seq<WireSeg>)
    requires InOrder(base, wnd, p) && p != []
    ensures InOrder(base, wnd, p[1..])
  {
    hide Off;
  }

  lemma SameHead(base: u32, wnd: int, p: seq<WireSeg>, q: seq<WireSeg>)
    requires InOrder(base, wnd, p) && InOrder(base, wnd, q) && p != [] && q != [] && p[0] in q && q[0] in p
    ensures p[0] == q[0]
  {
    hide Off;
    var j :| 0 <= j < |q| && q[j] == p[0];
    var i :| 0 <= i < |p| && p[i] == q[0];
    assert i == 0 && j == 0;
  }

  lemma TailContents(base: u32, wnd: int, p: seq<WireSeg>)
    requires InOrder(base, wnd, p) && p != []
    ensures forall s :: s in p[1..] <==> s in p && s != p[0]
  {
    hide Off;
    assert p == [p[0]] + p[1..];
    assert forall k :: 0 < k < |p| ==> p[k].sn != p[0].sn;
    assert forall k :: 0 <= k < |p[1..]| ==> p[1..][k] == p[k + 1];
  }

  lemma AdvanceUnique(r: Rcv, known: set<WireSeg>, a: nat, b: nat)
    requires IsAdvance(r, known, a) && IsAdvance(r, known, b)
    ensures a == b
  {
    hide HasOffset;
  }

  lemma ArrivedUnique(r: Rcv, known: set<WireSeg>, a: nat, e: Rcv, b: nat, f: Rcv)
    requires FixedSet(r, known) && Arrived(r, known, a, e) && Arrived(r, known, b, f)
    ensures e == f
  {
    assert a == b by {
      ArrivedAdvance(r, known, a, e);
      ArrivedAdvance(r, known, b, f);
      AdvanceUnique(r, known, a, b);
    }
    hide Off, Wrap, Contiguous, InOrder;
    forall i | 0 <= i < |e.queue| ensures e.queue[i] == f.queue[i] {
      if i >= |r.queue| {
        OffInjective(r.nxt, e.queue[i].sn, f.queue[i].sn);
      }
    }
    OrderUnique(e.nxt, e.wnd, e.buf, f.buf);
  }

  /** Any two arrival orders of the same segments, with any repetitions, end in the same state. */
  lemma Confluence(r: Rcv, first: seq<WireSeg>, second: seq<WireSeg>)
    requires Inv(r) && FixedSet(r, set s | s in first)
    requires forall s :: s in first <==> s in second
    ensures Feed(r, first) == Feed(r, second)
  {
    hide Arrived, Inv, Feed;
    var segs := set s | s in first;
    assert segs == set s | s in second;
    KnownFixed(r, segs);
    var a := FeedArrived(r, first);
    var b := FeedArrived(r, second);
    ArrivedUnique(r, Known(r, segs), a, Feed(r, first), b, Feed(r, second));
  }

  /** And `nxt` has advanced by the smaller of the contiguous run and the free queue slots. */
  lemma FeedAdvance(r: Rcv, arrivals: seq<WireSeg>, adv: nat)
    requires Inv(r) && FixedSet(r, set s | s in arrivals)
    requires IsAdvance(r, Known(r, set s | s in arrivals), adv)
    ensures Feed(r, arrivals).nxt == Wrap(r.nxt + adv)
    ensures |Feed(r, arrivals).queue| == |r.queue| + adv
  {
    hide Feed, Off, Wrap, Inv, IsAdvance;
    var segs := set s | s in arrivals;
    var a := FeedArrived(r, arrivals);
    ArrivedAdvance(r, Known(r, segs), a, Feed(r, arrivals));
    AdvanceUnique(r, Known(r, segs), a, adv);
  }
}
