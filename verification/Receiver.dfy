/** The receiving half of a control block: reordering in `buf`, hand-over to `queue`,
    reassembly of messages, and the list of acknowledgements still to be sent. */
module Receiver {
  import opened Serial
  import opened Wire
  import Lists

  datatype Ack = Ack(sn: u32, ts: u32)

  /** `wnd` is the receive window; `nque` and `nbuf` are the engine's own queue counters. */
  datatype Rcv = Rcv(nxt: u32, wnd: u32, queue: seq<WireSeg>, buf: seq<WireSeg>, nque: u32, nbuf: u32,
                     acks: seq<Ack>)

  // ---------------------------------------------------------------- operations

  /** Searches from the tail for the place of `seg`; a repeated number leaves the buffer alone. */
  function InsertFromTail(buf: seq<WireSeg>, seg: WireSeg): seq<WireSeg> {
    if buf == [] then [seg]
    else
      var last := buf[|buf| - 1];
      if last.sn == seg.sn then buf
      else if TimeDiff(seg.sn, last.sn) > 0 then buf + [seg]
      else InsertFromTail(buf[..|buf| - 1], seg) + [last]
  }

  /** How many segments at the head of `buf` carry the next expected numbers, at most `room` of them. */
  function Ready(buf: seq<WireSeg>, nxt: u32, room: int): (a: nat)
    ensures a <= |buf| && (a <= room || a == 0)
  {
    if buf != [] && buf[0].sn == nxt && room > 0 then 1 + Ready(buf[1..], Wrap(nxt + 1), room - 1) else 0
  }

  /** Moves what is ready from `buf` to `queue`. */
  function MoveReady(r: Rcv): Rcv {
    var a := Ready(r.buf, r.nxt, r.wnd - r.nque);
    r.(nxt := Wrap(r.nxt + a), queue := r.queue + r.buf[..a], buf := r.buf[a..],
       nque := Wrap(r.nque + a), nbuf := Wrap(r.nbuf - a))
  }

  function Inserted(r: Rcv, seg: WireSeg): Rcv {
    var buf := InsertFromTail(r.buf, seg);
    r.(buf := buf, nbuf := if |buf| == |r.buf| then r.nbuf else Wrap(r.nbuf + 1))
  }

  function ParseData(r: Rcv, seg: WireSeg): Rcv {
    if TimeDiff(seg.sn, Wrap(r.nxt + r.wnd)) >= 0 || TimeDiff(seg.sn, r.nxt) < 0 then r
    else MoveReady(Inserted(r, seg))
  }

  /** A data segment arrives: it is acknowledged unless beyond the window, even when already received. */
  function OnPush(r: Rcv, seg: WireSeg): Rcv {
    if TimeDiff(seg.sn, Wrap(r.nxt + r.wnd)) >= 0 then r
    else
      var acked := r.(acks := r.acks + [Ack(seg.sn, seg.ts)]);
      if TimeDiff(seg.sn, r.nxt) >= 0 then ParseData(acked, seg) else acked
  }

  /** The number of segments merged into the message at the head: up to the first `frg == 0`. */
  function MergeCount(queue: seq<WireSeg>): (k: nat)
    ensures k <= |queue|
    ensures forall i :: 0 <= i < k - 1 ==> queue[i].frg != 0
    ensures k < |queue| ==> k > 0 && queue[k - 1].frg == 0
    ensures queue != [] ==> k > 0
  {
    if queue == [] then 0
    else if queue[0].frg == 0 then 1
    else
      var rest := MergeCount(queue[1..]);
      assert forall i :: 1 <= i < 1 + rest ==> queue[i] == queue[1..][i - 1];
      1 + rest
  }

  function Payload(segs: seq<WireSeg>): seq<byte> {
    if segs == [] then [] else segs[0].data + Payload(segs[1..])
  }

  function PeekSize(r: Rcv): int {
    if r.queue == [] then -1
    else if r.queue[0].frg == 0 then |r.queue[0].data|
    else if r.nque < r.queue[0].frg as int + 1 then -1
    else |Payload(r.queue[..MergeCount(r.queue)])|
  }

  /** `tell` asks for the window to be announced to the peer. */
  datatype RecvResult = RecvResult(rcv: Rcv, tell: bool, code: int, data: seq<byte>)

  /** A negative `len` only looks at the message, without removing it. */
  function Recv(r: Rcv, len: int): RecvResult {
    var size := PeekSize(r);
    if r.queue == [] then RecvResult(r, false, -1, [])
    else if size < 0 then RecvResult(r, false, -2, [])
    else if size > (if len < 0 then -len else len) then RecvResult(r, false, -3, [])
    else
      var k := MergeCount(r.queue);
      var data := Payload(r.queue[..k]);
      var taken := if len < 0 then r else r.(queue := r.queue[k..], nque := Wrap(r.nque - k));
      var moved := MoveReady(taken);
      RecvResult(moved, r.nque >= r.wnd && moved.nque < moved.wnd, |data|, data)
  }

  // ---------------------------------------------------------------- invariant

  /** Strictly increasing numbers, all less than `wnd` ahead of `base`. */
  ghost predicate InOrder(base: u32, wnd: int, buf: seq<WireSeg>) {
    && (forall i :: 0 <= i < |buf| ==> Off(base, buf[i].sn) < wnd)
    && (forall i, j :: 0 <= i < j < |buf| ==> Off(base, buf[i].sn) < Off(base, buf[j].sn))
  }

  /** Nothing that could be handed over is left in the reordering buffer. */
  ghost predicate Drained(r: Rcv) {
    r.buf == [] || r.buf[0].sn != r.nxt || r.nque >= r.wnd
  }

  ghost predicate Consistent(r: Rcv) {
    && 0 < r.wnd < HALF
    && r.nque == |r.queue| <= r.wnd
    && r.nbuf == |r.buf|
    && InOrder(r.nxt, r.wnd, r.buf)
    && Contiguous(r.nxt, r.queue)
  }

  /** The receive side between two calls: `queue` is contiguous and ends just before `nxt`. */
  ghost predicate Inv(r: Rcv) {
    Consistent(r) && Drained(r)
  }

  lemma {:induction false} OrderBound(base: u32, wnd: int, buf: seq<WireSeg>)
    requires InOrder(base, wnd, buf)
    ensures forall i :: 0 <= i < |buf| ==> i <= Off(base, buf[i].sn)
    ensures |buf| <= Max(wnd, 0)
  {
    hide Off;
    if buf != [] {
      var n := |buf| - 1;
      OrderBound(base, wnd, buf[..n]);
      assert n > 0 ==> Off(base, buf[..n][n - 1].sn) < Off(base, buf[n].sn);
    }
  }

  ghost predicate Present(buf: seq<WireSeg>, sn: u32) {
    exists i :: 0 <= i < |buf| && buf[i].sn == sn
  }

  lemma InitOrder(base: u32, wnd: int, buf: seq<WireSeg>)
    requires InOrder(base, wnd, buf) && buf != []
    ensures InOrder(base, wnd, buf[..|buf| - 1]) && Off(base, buf[|buf| - 1].sn) < wnd
    ensures forall i :: 0 <= i < |buf| - 1 ==> Off(base, buf[i].sn) < Off(base, buf[|buf| - 1].sn)
  {
    hide Off;
  }

  function Splice(buf: seq<WireSeg>, k: nat, seg: WireSeg): seq<WireSeg>
    requires k <= |buf|
  {
    buf[..k] + [seg] + buf[k..]
  }

  lemma SpliceLast(init: seq<WireSeg>, last: WireSeg, seg: WireSeg, k: nat)
    requires k <= |init|
    ensures Splice(init, k, seg) + [last] == Splice(init + [last], k, seg)
    ensures Splice(init + [last], |init| + 1, seg) == init + [last] + [seg]
  {}

  /** The insertion keeps what it had and puts a new number between the lower and the higher ones. */
  lemma {:induction false} InsertPlace(base: u32, wnd: int, buf: seq<WireSeg>, seg: WireSeg) returns (k: nat)
    requires wnd < HALF && InOrder(base, wnd, buf) && Off(base, seg.sn) < wnd
    ensures k <= |buf|
    ensures forall i :: 0 <= i < k ==> Off(base, buf[i].sn) < Off(base, seg.sn) || buf[i].sn == seg.sn
    ensures forall i :: k <= i < |buf| ==> Off(base, buf[i].sn) > Off(base, seg.sn)
    ensures InsertFromTail(buf, seg) ==
      if k > 0 && buf[k - 1].sn == seg.sn then buf else Splice(buf, k, seg)
  {
    hide Off, TimeDiff, InOrder;
    k := |buf|;
    if buf != [] {
      var n := |buf| - 1;
      var last, init := buf[n], buf[..n];
      hide Splice;
      InitOrder(base, wnd, buf);
      assert buf == init + [last];
      SpliceLast(init, last, seg, 0);
      DiffOff(base, seg.sn, last.sn);
      if Off(base, seg.sn) == Off(base, last.sn) { OffInjective(base, seg.sn, last.sn); }
      if TimeDiff(seg.sn, last.sn) < 0 {
        k := InsertPlace(base, wnd, init, seg);
        SpliceLast(init, last, seg, k);
      }
    }
  }

  lemma SpliceOrder(base: u32, wnd: int, buf: seq<WireSeg>, k: nat, seg: WireSeg)
    requires InOrder(base, wnd, buf) && Off(base, seg.sn) < wnd && k <= |buf|
    requires forall i :: 0 <= i < k ==> Off(base, buf[i].sn) < Off(base, seg.sn)
    requires forall i :: k <= i < |buf| ==> Off(base, buf[i].sn) > Off(base, seg.sn)
    ensures InOrder(base, wnd, Splice(buf, k, seg))
  {
    hide Off;
    var res := Splice(buf, k, seg);
    assert forall i :: 0 <= i < |res| ==> res[i] == if i < k then buf[i] else if i == k then seg else buf[i - 1];
  }

  lemma InsertSpec(base: u32, wnd: int, buf: seq<WireSeg>, seg: WireSeg)
    requires wnd < HALF && InOrder(base, wnd, buf) && Off(base, seg.sn) < wnd
    ensures InOrder(base, wnd, InsertFromTail(buf, seg))
    ensures Present(buf, seg.sn) ==> InsertFromTail(buf, seg) == buf
    ensures !Present(buf, seg.sn) ==> |InsertFromTail(buf, seg)| == |buf| + 1
    ensures !Present(buf, seg.sn) ==> forall x :: x in InsertFromTail(buf, seg) <==> x in buf || x == seg
  {
    hide Off, InsertFromTail, InOrder;
    var k := InsertPlace(base, wnd, buf, seg);
    if !(k > 0 && buf[k - 1].sn == seg.sn) {
      PlaceFree(base, wnd, buf, seg, k);
      SpliceOrder(base, wnd, buf, k, seg);
      Lists.SpliceContents(buf, seg, k);
    }
  }

  lemma PlaceFree(base: u32, wnd: int, buf: seq<WireSeg>, seg: WireSeg, k: nat)
    requires InOrder(base, wnd, buf) && k <= |buf|
    requires forall i :: 0 <= i < k ==> Off(base, buf[i].sn) < Off(base, seg.sn) || buf[i].sn == seg.sn
    requires forall i :: k <= i < |buf| ==> Off(base, buf[i].sn) > Off(base, seg.sn)
    requires !(k > 0 && buf[k - 1].sn == seg.sn)
    ensures !Present(buf, seg.sn)
    ensures forall i :: 0 <= i < k ==> Off(base, buf[i].sn) < Off(base, seg.sn)
  {
    hide Off;
    assert forall i :: 0 <= i < k - 1 ==> Off(base, buf[i].sn) < Off(base, buf[k - 1].sn);
  }

  lemma {:induction false} ReadySpec(buf: seq<WireSeg>, nxt: u32, room: int)
    ensures var a := Ready(buf, nxt, room);
      && (forall i :: 0 <= i < a ==> buf[i].sn == Wrap(nxt + i))
      && (a == |buf| || a >= room || buf[a].sn != Wrap(nxt + a))
  {
    hide Wrap;
    var a := Ready(buf, nxt, room);
    if a > 0 {
      ReadySpec(buf[1..], Wrap(nxt + 1), room - 1);
      forall i | 1 <= i < a ensures buf[i].sn == Wrap(nxt + i) {
        assert buf[i] == buf[1..][i - 1];
        WrapAdd(nxt + 1, i - 1);
      }
      WrapAdd(nxt + 1, a - 1);
      assert a < |buf| ==> buf[a] == buf[1..][a - 1];
    }
  }

  lemma MoveReadyOrder(base: u32, wnd: int, buf: seq<WireSeg>, a: nat)
    requires InOrder(base, wnd, buf) && a <= |buf| && wnd < HALF
    ensures InOrder(Wrap(base + a), wnd, buf[a..])
  {
    OrderBound(base, wnd, buf);
    hide Off, Wrap;
    var rest := buf[a..];
    forall i | 0 <= i < |rest| ensures Off(Wrap(base + a), rest[i].sn) == Off(base, buf[a + i].sn) - a {
      assert rest[i] == buf[a + i];
      OffAdvance(base, a, buf[a + i].sn);
    }
  }

  /** `queue` is a contiguous run of numbers ending just before `nxt`. */
  ghost predicate Contiguous(nxt: u32, queue: seq<WireSeg>) {
    forall i :: 0 <= i < |queue| ==> queue[i].sn == Wrap(nxt - |queue| + i)
  }

  lemma ContiguousAppend(nxt: u32, queue: seq<WireSeg>, more: seq<WireSeg>)
    requires Contiguous(nxt, queue)
    requires forall i :: 0 <= i < |more| ==> more[i].sn == Wrap(nxt + i)
    ensures Contiguous(Wrap(nxt + |more|), queue + more)
  {
    hide Wrap;
    var all := queue + more;
    forall i | 0 <= i < |all| ensures all[i].sn == Wrap(Wrap(nxt + |more|) - |all| + i) {
      WrapAdd(nxt + |more|, i - |all|);
      assert nxt + |more| + (i - |all|) == nxt - |queue| + i;
    }
  }

  lemma MoveReadyInv(r: Rcv)
    requires Consistent(r)
    ensures Inv(MoveReady(r))
  {
    hide Off, InOrder, Contiguous, Ready, Wrap;
    var a := Ready(r.buf, r.nxt, r.wnd - r.nque);
    assert |r.buf| < HALF by { OrderBound(r.nxt, r.wnd, r.buf); }
    assert InOrder(Wrap(r.nxt + a), r.wnd, r.buf[a..]) by { MoveReadyOrder(r.nxt, r.wnd, r.buf, a); }
    assert Contiguous(Wrap(r.nxt + a), r.queue + r.buf[..a]) by {
      ReadySpec(r.buf, r.nxt, r.wnd - r.nque);
      ContiguousAppend(r.nxt, r.queue, r.buf[..a]);
    }
    assert r.buf[a..] == [] || r.buf[a..][0].sn != Wrap(r.nxt + a) || r.nque + a >= r.wnd by {
      ReadySpec(r.buf, r.nxt, r.wnd - r.nque);
    }
  }

  lemma InsertInv(r: Rcv, seg: WireSeg)
    requires Consistent(r) && Off(r.nxt, seg.sn) < r.wnd
    ensures Consistent(Inserted(r, seg))
  {
    InsertSpec(r.nxt, r.wnd, r.buf, seg);
    OrderBound(r.nxt, r.wnd, InsertFromTail(r.buf, seg));
    hide Off;
  }

  /** Every segment number, from any peer, keeps the receive side consistent. */
  lemma ParseDataInv(r: Rcv, seg: WireSeg)
    requires Inv(r)
    ensures Inv(ParseData(r, seg))
  {
    hide Off, Wrap, TimeDiff, MoveReady, Inserted;
    WindowTest(r.nxt, r.wnd, seg.sn);
    if Off(r.nxt, seg.sn) < r.wnd {
      InsertInv(r, seg);
      MoveReadyInv(Inserted(r, seg));
    }
  }

  lemma OnPushInv(r: Rcv, seg: WireSeg)
    requires Inv(r)
    ensures Inv(OnPush(r, seg))
  {
    hide Off, Wrap, TimeDiff, ParseData;
    var acked := r.(acks := r.acks + [Ack(seg.sn, seg.ts)]);
    ParseDataInv(acked, seg);
  }

  lemma RecvInv(r: Rcv, len: int)
    requires Inv(r)
    ensures Inv(Recv(r, len).rcv)
  {
    hide Off, MoveReady;
    var k := MergeCount(r.queue);
    var taken := if len < 0 then r else r.(queue := r.queue[k..], nque := Wrap(r.nque - k));
    MoveReadyInv(taken);
  }

  /** The size announced before a message is read is the size of what is then merged. */
  lemma RecvMatchesPeek(r: Rcv, len: int)
    requires r.nque == |r.queue|
    ensures Recv(r, len).code >= 0 <==> 0 <= PeekSize(r) <= (if len < 0 then -len else len)
    ensures Recv(r, len).code >= 0 ==> Recv(r, len).code == |Recv(r, len).data| == PeekSize(r)
  {
    hide MoveReady, Wrap;
    if r.queue != [] && r.queue[0].frg == 0 {
      var one := r.queue[..MergeCount(r.queue)];
      assert one == [r.queue[0]];
      assert Payload(one) == one[0].data + Payload(one[1..]);
    }
  }

  /** The codes of a receive: -1 when nothing is queued, -2 when the message at the head is not complete, that
      is, when it still counts more fragments than are queued, -3 when it is longer than the buffer; then
      nothing changes. */
  lemma RecvCodes(r: Rcv, len: int)
    requires r.nque == |r.queue|
    ensures Recv(r, len).code == -1 <==> r.queue == []
    ensures Recv(r, len).code == -2 <==> r.queue != [] && |r.queue| <= r.queue[0].frg
    ensures Recv(r, len).code == -3 <==>
      r.queue != [] && |r.queue| > r.queue[0].frg && PeekSize(r) > (if len < 0 then -len else len)
    ensures PeekSize(r) == -1 <==> r.queue == [] || |r.queue| <= r.queue[0].frg
    ensures Recv(r, len).code < 0 ==> Recv(r, len).rcv == r && Recv(r, len).data == [] && Recv(r, len).code >= -3
  {
    hide MoveReady, Wrap, MergeCount, Payload;
  }

  /** A receive asks for an announcement exactly when the queue filled its window before and does not now. */
  lemma RecvTells(r: Rcv, len: int)
    requires Inv(r)
    ensures Recv(r, len).tell <==> |r.queue| == r.wnd && |Recv(r, len).rcv.queue| < r.wnd
  {
    RecvInv(r, len);
    RecvWindow(r, len);
    hide Recv, InOrder, Contiguous;
  }

  lemma RecvWindow(r: Rcv, len: int)
    ensures Recv(r, len).rcv.wnd == r.wnd
    ensures Recv(r, len).tell ==> r.nque >= r.wnd && Recv(r, len).rcv.nque < r.wnd
    ensures !Recv(r, len).tell && Recv(r, len).rcv != r ==> r.nque < r.wnd || Recv(r, len).rcv.nque >= r.wnd
  {
    hide PeekSize, Payload, MergeCount, Ready, Wrap;
  }

  /** Looking at the head message changes nothing. */
  lemma PeekChangesNothing(r: Rcv, len: int)
    requires Inv(r) && len < 0
    ensures Recv(r, len).rcv == r && !Recv(r, len).tell
  {
    ReadySpec(r.buf, r.nxt, r.wnd - r.nque);
    hide Off, Contiguous, InOrder, Payload;
    assert Ready(r.buf, r.nxt, r.wnd - r.nque) == 0;
  }
}
