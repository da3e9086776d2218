/** The control block as the engine keeps it: fields updated in place, lists walked element by
    element, an acknowledgement list that grows by doubling and an output buffer written byte by byte.
    Every method is tied to the function of module Control that specifies it. */
module Kcp {
  import opened Serial
  import opened Wire
  import opened Control
  import Sender
  import Receiver
  import RoundTrip
  import Congestion
  import FlushWire
  import ControlInvariant
  import Lists

  /** The pairs (sn, ts) stored flat in the acknowledgement list. */
  function Pairs(flat: seq<u32>): (r: seq<Receiver.Ack>)
    requires |flat| % 2 == 0
    ensures |r| == |flat| / 2
  {
    if flat == [] then [] else Pairs(flat[..|flat| - 2]) + [Receiver.Ack(flat[|flat| - 2], flat[|flat| - 1])]
  }

  lemma {:induction false} PairsAt(flat: seq<u32>, i: nat)
    requires |flat| % 2 == 0 && 2 * i < |flat|
    ensures Pairs(flat)[i] == Receiver.Ack(flat[2 * i], flat[2 * i + 1])
  {
    if 2 * i < |flat| - 2 { PairsAt(flat[..|flat| - 2], i); }
  }

  lemma PairsAppend(flat: seq<u32>, sn: u32, ts: u32)
    requires |flat| % 2 == 0
    ensures Pairs(flat + [sn, ts]) == Pairs(flat) + [Receiver.Ack(sn, ts)]
  {}

  class Kcp {
    const cfg: Config
    const mss: u32
    const rcvWnd: u32
    const minrto: int
    const buffer: array<byte>

    var sndUna: u32
    var sndNxt: u32
    var rcvNxt: u32
    var sndQueue: seq<Sender.Frag>
    var sndBuf: seq<Sender.Seg>
    var rcvQueue: seq<WireSeg>
    var rcvBuf: seq<WireSeg>
    var nsndQue: u32
    var nsndBuf: u32
    var nrcvQue: u32
    var nrcvBuf: u32
    var acklist: array<u32>
    var ackcount: nat
    var srtt: int
    var rttval: int
    var rto: int
    var cwnd: u32
    var incr: u32
    var ssthresh: u32
    var rmtWnd: u32
    var askSend: bool
    var askTell: bool
    var tsProbe: u32
    var probeWait: u32
    var current: u32
    var tsFlush: u32
    var updated: bool
    var xmit: u32
    var dead: bool
    /** What the output callback was given so far. */
    var wire: seq<seq<byte>>

    // -------------------------------------------------------------- the abstract value

    ghost function Snd(): Sender.Snd
      reads this`sndUna, this`sndNxt, this`sndQueue, this`sndBuf, this`nsndQue, this`nsndBuf
    {
      Sender.Snd(sndUna, sndNxt, sndQueue, sndBuf, nsndQue, nsndBuf)
    }

    ghost function Acks(): seq<Receiver.Ack>
      requires 2 * ackcount <= acklist.Length
      reads this`acklist, this`ackcount, acklist
    {
      Pairs(acklist[..2 * ackcount])
    }

    ghost function Rcv(): Receiver.Rcv
      requires 2 * ackcount <= acklist.Length
      reads this`rcvNxt, this`rcvQueue, this`rcvBuf, this`nrcvQue, this`nrcvBuf, this`acklist, this`ackcount, acklist
    {
      Receiver.Rcv(rcvNxt, rcvWnd, rcvQueue, rcvBuf, nrcvQue, nrcvBuf, Acks())
    }

    ghost function Rtt(): RoundTrip.Rtt
      reads this`srtt, this`rttval, this`rto
    {
      RoundTrip.Rtt(srtt, rttval, rto, minrto)
    }

    ghost function Cong(): Congestion.Cong
      reads this`cwnd, this`incr, this`ssthresh
    {
      Congestion.Cong(cwnd, incr, ssthresh)
    }

    ghost function Prober(): Probe
      reads this`askSend, this`askTell, this`tsProbe, this`probeWait
    {
      Probe(askSend, askTell, tsProbe, probeWait)
    }

    /** Everything but what was output. */
    ghost function State(): Cb
      requires 2 * ackcount <= acklist.Length
      reads this`sndUna, this`sndNxt, this`sndQueue, this`sndBuf, this`nsndQue, this`nsndBuf
      reads this`rcvNxt, this`rcvQueue, this`rcvBuf, this`nrcvQue, this`nrcvBuf, this`acklist, this`ackcount, acklist
      reads this`srtt, this`rttval, this`rto, this`cwnd, this`incr, this`ssthresh
      reads this`askSend, this`askTell, this`tsProbe, this`probeWait, this`rmtWnd
      reads this`current, this`tsFlush, this`updated, this`xmit, this`dead
    {
      Cb(cfg, Snd(), Rcv(), Rtt(), Cong(), Prober(), rmtWnd, current, tsFlush, updated, xmit, dead)
    }

    /** The memory the engine owns: room for three segments of the largest size in the output buffer. */
    ghost predicate Allocated()
      reads this`acklist, this`ackcount
      ensures Allocated() ==> 2 * ackcount <= acklist.Length && ValidConfig(cfg)
    {
      && ValidConfig(cfg) && 0 < mss == cfg.mtu - OVERHEAD
      && buffer.Length == (cfg.mtu + OVERHEAD) * 3 && buffer as object != acklist as object
      && 2 * ackcount <= acklist.Length && acklist.Length % 2 == 0
    }

    ghost predicate Valid()
      reads this, acklist
      ensures Valid() ==> Allocated() && ControlInvariant.Inv(State())
      ensures Allocated() && ControlInvariant.Inv(State()) ==> Valid()
    {
      Allocated() && ControlInvariant.Inv(State())
    }

    constructor (settings: Config, wnd: u32, rtoMin: int)
      requires ValidConfig(settings) && 0 < wnd < HALF && 0 < rtoMin <= 200
      ensures Valid() && fresh(buffer) && fresh(acklist)
      ensures State() == Create(settings, wnd, rtoMin) && wire == []
    {
      cfg, mss, rcvWnd, minrto := settings, settings.mtu - OVERHEAD, wnd, rtoMin;
      buffer := new byte[(settings.mtu + OVERHEAD) * 3];
      acklist, ackcount := new u32[0], 0;
      sndUna, sndNxt, rcvNxt := 0, 0, 0;
      sndQueue, sndBuf, rcvQueue, rcvBuf := [], [], [], [];
      nsndQue, nsndBuf, nrcvQue, nrcvBuf := 0, 0, 0, 0;
      srtt, rttval, rto := 0, 0, 200;
      cwnd, incr, ssthresh, rmtWnd := 0, 0, 2, 128;
      askSend, askTell, tsProbe, probeWait := false, false, 0, 0;
      current, tsFlush, updated, xmit, dead := 0, settings.interval, false, 0, false;
      wire := [];
      new;
      assert State() == Create(settings, wnd, rtoMin);
      ControlInvariant.CreateInv(settings, wnd, rtoMin);
    }

    // -------------------------------------------------------------- send

    /** Cuts `msg` into fragments at the end of the send queue. */
    method Fragment(msg: seq<byte>) returns (code: int)
      requires mss > 0
      modifies this`sndQueue, this`nsndQue
      ensures Sender.SendResult(Snd(), code) == Sender.Enqueue(old(Snd()), mss, cfg.stream, msg)
    {
      hide Sender.Fragments, Wrap;
      var count := if |msg| <= mss then 1 else (|msg| + mss - 1) / mss;
      assert count == Sender.FragmentCount(|msg|, mss);
      hide Sender.FragmentCount;
      if count >= Sender.MAX_FRAGMENTS { return -2; }
      var rest, i := msg, 0;
      ghost var queue0, nque0 := sndQueue, nsndQue;
      while i < count
        invariant 0 <= i <= count
        invariant sndQueue + Sender.Fragments(rest, count - i, mss, cfg.stream) ==
                  queue0 + Sender.Fragments(msg, count, mss, cfg.stream)
        invariant nsndQue == Wrap(nque0 + i)
      {
        var size := if |rest| > mss then mss else |rest|;
        var f := Sender.Frag(if cfg.stream then 0 else count - i - 1, rest[..size]);
        FragmentStep(sndQueue, f, rest, count - i, mss, cfg.stream);
        WrapAdd(nque0 + i, 1);
        sndQueue := sndQueue + [f];
        nsndQue := Wrap(nsndQue + 1);
        rest := rest[size..];
        i := i + 1;
      }
      FragmentNone(rest, mss, cfg.stream);
      code := 0;
    }

    /** In stream mode the last fragment of the queue takes what it has room for. */
    method ExtendTail(msg: seq<byte>) returns (rest: seq<byte>)
      modifies this`sndQueue
      ensures Snd() == Sender.Extended(old(Snd()), mss, msg)
      ensures rest == msg[Sender.Extend(old(Snd()), mss, |msg|)..]
    {
      rest := msg;
      if sndQueue != [] {
        var n := |sndQueue| - 1;
        var tail := sndQueue[n];
        if |tail.data| < mss {
          var capacity := mss - |tail.data|;
          var extend := if |msg| < capacity then |msg| else capacity;
          sndQueue := sndQueue[..n] + [Sender.Frag(0, tail.data + msg[..extend])];
          rest := msg[extend..];
        }
      }
    }

    /** `len` is the length the caller passes; a negative one is refused. */
    method Send(data: seq<byte>, len: int) returns (code: int)
      requires Valid() && len <= |data|
      modifies this`sndQueue, this`nsndQue
      ensures Valid()
      ensures len < 0 ==> code == -1 && State() == old(State())
      ensures len >= 0 ==> SendOutcome(State(), code) == UserSend(old(State()), data[..len])
    {
      if len < 0 { return -1; }
      hide Sender.Enqueue, Sender.Extended, Sender.Extend, ControlInvariant.Inv, Rcv, Rtt, Cong, Prober, Snd,
          ValidConfig, Sender.Send, UserSend;
      ghost var before := State();
      var msg := data[..len];
      var rest := msg;
      if cfg.stream {
        rest := ExtendTail(msg);
      }
      if cfg.stream && |rest| == 0 {
        code := 0;
      } else {
        code := Fragment(rest);
      }
      assert State() == before.(snd := Snd());
      SendIs(before, Snd(), code, mss, msg, rest);
    }

    // -------------------------------------------------------------- receive

    /** Moves available data from the reordering buffer to the queue. */
    method MoveData()
      requires Allocated()
      modifies this`rcvQueue, this`rcvBuf, this`rcvNxt, this`nrcvQue, this`nrcvBuf
      ensures Rcv() == Receiver.MoveReady(old(Rcv()))
    {
      hide Wrap, Acks, ValidConfig, Receiver.MoveReady;
      ghost var before := Rcv();
      while rcvBuf != []
        invariant Receiver.MoveReady(Rcv()) == Receiver.MoveReady(before)
        decreases |rcvBuf|
      {
        MoveOne(Rcv());
        if rcvBuf[0].sn == rcvNxt && nrcvQue < rcvWnd {
          rcvQueue := rcvQueue + [rcvBuf[0]];
          rcvBuf := rcvBuf[1..];
          nrcvBuf := Wrap(nrcvBuf - 1);
          nrcvQue := Wrap(nrcvQue + 1);
          rcvNxt := Wrap(rcvNxt + 1);
        } else {
          return;
        }
      }
      MoveNone(Rcv());
    }

    method PeekSize() returns (length: int)
      ensures length == Receiver.PeekSize(Receiver.Rcv(rcvNxt, rcvWnd, rcvQueue, rcvBuf, nrcvQue, nrcvBuf, []))
    {
      if rcvQueue == [] { return -1; }
      if rcvQueue[0].frg == 0 { return |rcvQueue[0].data|; }
      if nrcvQue < rcvQueue[0].frg as int + 1 { return -1; }
      length := 0;
      var i := 0;
      while i < |rcvQueue|
        invariant 0 <= i <= |rcvQueue|
        invariant length == |Receiver.Payload(rcvQueue[..i])|
        invariant forall j :: 0 <= j < i ==> rcvQueue[j].frg != 0
      {
        PayloadStep(rcvQueue, i);
        length := length + |rcvQueue[i].data|;
        i := i + 1;
        if rcvQueue[i - 1].frg == 0 { break; }
      }
      MergedAll(rcvQueue, i);
    }

    /** Copies the fragments of the head message, and removes them unless `peek`. */
    method Merge(peek: bool) returns (data: seq<byte>)
      modifies this`rcvQueue, this`nrcvQue
      ensures var k := Receiver.MergeCount(old(rcvQueue));
        && data == Receiver.Payload(old(rcvQueue)[..k])
        && rcvQueue == (if peek then old(rcvQueue) else old(rcvQueue)[k..])
        && nrcvQue == (if peek then old(nrcvQue) else Wrap(old(nrcvQue) - k))
    {
      hide Wrap, Receiver.Payload;
      var queue, i := rcvQueue, 0;
      data := [];
      PayloadNone(queue);
      while i < |queue|
        invariant 0 <= i <= |queue|
        invariant data == Receiver.Payload(queue[..i])
        invariant rcvQueue == (if peek then queue else queue[i..])
        invariant nrcvQue == (if peek then old(nrcvQue) else Wrap(old(nrcvQue) - i))
        invariant forall j :: 0 <= j < i ==> queue[j].frg != 0
      {
        PayloadStep(queue, i);
        data := data + queue[i].data;
        i := i + 1;
        if !peek {
          rcvQueue := rcvQueue[1..];
          WrapAdd(old(nrcvQue) - (i - 1), -1);
          nrcvQue := Wrap(nrcvQue - 1);
        }
        if queue[i - 1].frg == 0 { break; }
      }
      MergedAll(queue, i);
    }

    /** Merges the head message and hands over what the freed slots allow. */
    method MergeAndMove(peek: bool) returns (data: seq<byte>)
      requires Allocated()
      modifies this`rcvQueue, this`rcvBuf, this`rcvNxt, this`nrcvQue, this`nrcvBuf
      ensures data == Receiver.Payload(old(rcvQueue)[..Receiver.MergeCount(old(rcvQueue))])
      ensures Rcv() == Receiver.MoveReady(Taken(old(Rcv()), peek))
    {
      hide Wrap, Acks, ValidConfig, Receiver.MoveReady, Receiver.Payload, Receiver.MergeCount;
      data := Merge(peek);
      assert Rcv() == Taken(old(Rcv()), peek);
      MoveData();
    }

    method TakeMessage(peek: bool) returns (data: seq<byte>)
      requires Allocated()
      modifies this`rcvQueue, this`rcvBuf, this`rcvNxt, this`nrcvQue, this`nrcvBuf, this`askTell
      ensures data == Receiver.Payload(old(Rcv()).queue[..Receiver.MergeCount(old(Rcv()).queue)])
      ensures Rcv() == Receiver.MoveReady(Taken(old(Rcv()), peek))
      ensures Prober() == Reopened(old(Prober()), old(Rcv()), Rcv())
    {
      hide Acks, ValidConfig, Receiver.MoveReady, Receiver.Payload, Receiver.MergeCount, Taken;
      var recover := nrcvQue >= rcvWnd;
      data := MergeAndMove(peek);
      if nrcvQue < rcvWnd && recover {
        askTell := true;
      }
    }

    /** Whether the head message can be read into `len` bytes: 0, or the error code. */
    method Readable(len: int) returns (code: int)
      requires Allocated()
      ensures code == ReadableCode(Rcv(), len)
    {
      hide Wrap, Acks, ValidConfig, Receiver.PeekSize;
      PeekIgnoresAcks(Rcv());
      if rcvQueue == [] { return -1; }
      var size := PeekSize();
      if size < 0 { return -2; }
      if size > (if len < 0 then -len else len) { return -3; }
      code := 0;
    }

    method Recv(len: int) returns (code: int, data: seq<byte>)
      requires Valid()
      modifies this`rcvQueue, this`rcvBuf, this`rcvNxt, this`nrcvQue, this`nrcvBuf, this`askTell
      ensures Valid()
      ensures RecvOutcome(State(), code, data) == UserRecv(old(State()), len)
    {
      hide Wrap, Acks, Snd, Rtt, Cong, Prober, ValidConfig, Receiver.MoveReady, Receiver.Payload, Receiver.MergeCount,
        ControlInvariant.Inv, Taken, UserRecv, ReadableCode, Reopened, Rcv;
      ghost var before := State();
      RecvIs(before, len);
      data := [];
      code := Readable(len);
      if code == 0 {
        data := TakeMessage(len < 0);
        code := |data|;
      }
    }

    // -------------------------------------------------------------- acknowledgements

    method UpdateAck(rtt: int)
      modifies this`srtt, this`rttval, this`rto
      ensures Rtt() == RoundTrip.UpdateAck(old(Rtt()), cfg.interval, rtt)
    {
      hide ToI32, Wrap, Quotient;
      if srtt == 0 {
        srtt := rtt;
        rttval := Quotient(rtt, 2);
      } else {
        var delta := ToI32(rtt - srtt);
        if delta < 0 { delta := -delta; }
        rttval := ToI32(Quotient(ToI32(3 * rttval) + delta, 4));
        srtt := ToI32(Quotient(ToI32(ToI32(7 * srtt) + rtt), 8));
        if srtt < 1 { srtt := 1; }
      }
      var later := ToI32(srtt + Max(cfg.interval, Wrap(4 * rttval)));
      rto := Bound(Wrap(minrto), Wrap(later), RoundTrip.RTO_MAX);
    }

    method ShrinkBuf()
      modifies this`sndUna
      ensures Snd() == Sender.ShrinkBuf(old(Snd()))
    {
      if sndBuf != [] {
        sndUna := sndBuf[0].sn;
      } else {
        sndUna := sndNxt;
      }
    }

    method ParseAck(sn: u32)
      modifies this`sndBuf, this`nsndBuf
      ensures Snd() == Sender.ParseAck(old(Snd()), sn)
    {
      hide TimeDiff, Wrap, Sender.WithoutSn;
      if TimeDiff(sn, sndUna) < 0 || TimeDiff(sn, sndNxt) >= 0 { return; }
      var i := 0;
      while i < |sndBuf|
        invariant 0 <= i <= |sndBuf|
        invariant sndBuf == old(sndBuf) && nsndBuf == old(nsndBuf)
        invariant Sender.WithoutSn(sndBuf, sn) == sndBuf[..i] + Sender.WithoutSn(sndBuf[i..], sn)
      {
        WithoutStep(sndBuf, i, sn);
        if sn == sndBuf[i].sn {
          sndBuf := sndBuf[..i] + sndBuf[i + 1..];
          nsndBuf := Wrap(nsndBuf - 1);
          return;
        }
        if TimeDiff(sn, sndBuf[i].sn) < 0 { return; }
        i := i + 1;
      }
      WithoutNone(sndBuf, sn);
    }

    method ParseUna(una: u32)
      modifies this`sndBuf, this`nsndBuf
      ensures Snd() == Sender.ParseUna(old(Snd()), una)
    {
      hide TimeDiff, Wrap, Sender.ParseUna;
      while sndBuf != []
        invariant Sender.ParseUna(Snd(), una) == Sender.ParseUna(old(Snd()), una)
        decreases |sndBuf|
      {
        UnaStep(Snd(), una);
        if TimeDiff(una, sndBuf[0].sn) > 0 {
          sndBuf := sndBuf[1..];
          nsndBuf := Wrap(nsndBuf - 1);
        } else {
          return;
        }
      }
      UnaStep(Snd(), una);
    }

    method ParseFastack(sn: u32)
      modifies this`sndBuf
      ensures Snd() == Sender.ParseFastack(old(Snd()), sn)
    {
      if TimeDiff(sn, sndUna) < 0 || TimeDiff(sn, sndNxt) >= 0 { return; }
      CountSkipped(sn);
      hide TimeDiff, Sender.Skipped;
    }

    method CountSkipped(sn: u32)
      modifies this`sndBuf
      ensures sndBuf == Sender.Skipped(old(sndBuf), sn)
    {
      hide *;
      ghost var before := sndBuf;
      var i := 0;
      SkippedStart(sndBuf, sn);
      while i < |sndBuf|
        invariant 0 <= i <= |sndBuf|
        invariant SkippedFrom(sndBuf, i, sn) == Sender.Skipped(before, sn)
      {
        if TimeDiff(sn, sndBuf[i].sn) < 0 {
          SkippedStop(sndBuf, i, sn);
          return;
        }
        if sn != sndBuf[i].sn {
          SkippedCount(sndBuf, i, sn);
          var g := sndBuf[i];
          sndBuf := sndBuf[i := g.(fastack := Wrap(g.fastack + 1))];
        } else {
          SkippedSame(sndBuf, i, sn);
        }
        i := i + 1;
      }
      SkippedNone(sndBuf, i, sn);
    }

    /** A new list with room for `newsize` pairs, found by doubling from 8, that holds the old ones. */
    method Grown(newsize: nat) returns (grown: array<u32>)
      requires Allocated() && newsize > ackcount
      ensures fresh(grown) && grown.Length >= 2 * newsize && grown.Length % 2 == 0
      ensures grown[..2 * ackcount] == acklist[..2 * ackcount]
    {
      hide ValidConfig;
      var newblock := 8;
      while newblock < newsize
        invariant newblock >= 8
        decreases newsize - newblock
      {
        newblock := newblock * 2;
      }
      grown := new u32[newblock * 2];
      var x := 0;
      while x < ackcount
        invariant 0 <= x <= ackcount
        invariant forall j :: 0 <= j < 2 * x ==> grown[j] == acklist[j]
      {
        grown[x * 2] := acklist[x * 2];
        grown[x * 2 + 1] := acklist[x * 2 + 1];
        x := x + 1;
      }
    }

    /** Appends to the acknowledgement list, which doubles when it is full. */
    method AckPush(sn: u32, ts: u32)
      requires Allocated()
      modifies this`acklist, this`ackcount, acklist
      ensures Allocated() && (acklist == old(acklist) || fresh(acklist))
      ensures Acks() == old(Acks()) + [Receiver.Ack(sn, ts)]
    {
      hide ValidConfig, Pairs;
      ghost var before := acklist[..2 * ackcount];
      if 2 * (ackcount + 1) > acklist.Length {
        acklist := Grown(ackcount + 1);
      }
      acklist[ackcount * 2] := sn;
      acklist[ackcount * 2 + 1] := ts;
      ackcount := ackcount + 1;
      assert acklist[..2 * ackcount] == before + [sn, ts];
      PairsAppend(before, sn, ts);
    }

    // -------------------------------------------------------------- input

    /** Places a data segment by a search from the tail, then hands over what is available. */
    method ParseData(seg: WireSeg)
      requires Allocated()
      modifies this`rcvQueue, this`rcvBuf, this`rcvNxt, this`nrcvQue, this`nrcvBuf
      ensures Rcv() == Receiver.ParseData(old(Rcv()), seg)
    {
      hide *;
      ghost var before := Rcv();
      ParseDataIs(before, seg);
      RcvIs();
      if TimeDiff(seg.sn, Wrap(rcvNxt + rcvWnd)) >= 0 || TimeDiff(seg.sn, rcvNxt) < 0 { return; }
      Place(seg);
      MoveData();
    }

    lemma RcvIs()
      requires 2 * ackcount <= acklist.Length
      ensures Rcv().nxt == rcvNxt && Rcv().wnd == rcvWnd
    {
      hide Acks;
    }

    /** Puts a segment in its place in the reordering buffer, unless its number is there already. */
    method Place(seg: WireSeg)
      requires Allocated()
      modifies this`rcvBuf, this`nrcvBuf
      ensures Rcv() == Receiver.Inserted(old(Rcv()), seg)
    {
      hide Wrap, Acks, ValidConfig, Receiver.InsertFromTail;
      var p, repeated := FindPlace(seg);
      if !repeated {
        rcvBuf := rcvBuf[..p] + [seg] + rcvBuf[p..];
        nrcvBuf := Wrap(nrcvBuf + 1);
      }
      InsertedIs(old(Rcv()), Rcv(), seg);
    }

    /** The search from the tail. */
    method FindPlace(seg: WireSeg) returns (p: nat, repeated: bool)
      ensures p <= |rcvBuf|
      ensures Receiver.InsertFromTail(rcvBuf, seg) == if repeated then rcvBuf else rcvBuf[..p] + [seg] + rcvBuf[p..]
    {
      hide *;
      p, repeated := |rcvBuf|, false;
      InsertStart(rcvBuf, seg);
      while p > 0
        invariant p <= |rcvBuf|
        invariant InsertFrom(rcvBuf, p, seg) == Receiver.InsertFromTail(rcvBuf, seg)
        invariant !repeated
      {
        if rcvBuf[p - 1].sn == seg.sn {
          InsertRepeated(rcvBuf, p, seg);
          repeated := true;
          return;
        }
        if TimeDiff(seg.sn, rcvBuf[p - 1].sn) > 0 {
          InsertBehind(rcvBuf, p, seg);
          return;
        }
        InsertBefore(rcvBuf, p, seg);
        p := p - 1;
      }
      InsertFirst(rcvBuf, seg);
    }

    /** A data segment is acknowledged unless beyond the window, and buffered unless already received. */
    method TakeIn(s: WireSeg)
      requires Allocated()
      modifies this`rcvQueue, this`rcvBuf, this`rcvNxt, this`nrcvQue, this`nrcvBuf, this`acklist, this`ackcount, acklist
      ensures Allocated() && (acklist == old(acklist) || fresh(acklist))
      ensures Rcv() == Receiver.OnPush(old(Rcv()), s)
    {
      hide TimeDiff, Wrap, Acks, ValidConfig, Receiver.ParseData;
      if TimeDiff(s.sn, Wrap(rcvNxt + rcvWnd)) < 0 {
        AckPush(s.sn, s.ts);
        if TimeDiff(s.sn, rcvNxt) >= 0 {
          ParseData(s);
        }
      }
    }

    /** What every accepted segment does first. */
    method OnHeader(s: WireSeg)
      requires Allocated()
      modifies this`rmtWnd, this`sndUna, this`sndBuf, this`nsndBuf
      ensures State() == old(State()).(rmtWnd := s.wnd,
          snd := Sender.ShrinkBuf(Sender.ParseUna(old(State()).snd, s.una)))
    {
      hide ValidConfig, Rcv, Rtt, Cong, Prober, Snd, Sender.ParseUna, Sender.ShrinkBuf;
      rmtWnd := s.wnd;
      ParseUna(s.una);
      ShrinkBuf();
    }

    method OnAck(sn: u32, ts: u32)
      requires Allocated()
      modifies this`sndUna, this`sndBuf, this`nsndBuf, this`srtt, this`rttval, this`rto
      ensures State() == Acked(old(State()), sn, ts)
    {
      hide *;
      ghost var before := State();
      StateIs();
      if TimeDiff(current, ts) >= 0 {
        SampleRtt(TimeDiff(current, ts));
      }
      DropAcked(sn);
      AckedIs(before, sn, ts);
    }

    method SampleRtt(rtt: int)
      requires Allocated()
      modifies this`srtt, this`rttval, this`rto
      ensures State() == old(State()).(rtt := RoundTrip.UpdateAck(old(State()).rtt, cfg.interval, rtt))
    {
      hide ValidConfig, Snd, Rtt, Rcv, Cong, Prober, RoundTrip.UpdateAck;
      UpdateAck(rtt);
    }

    method DropAcked(sn: u32)
      requires Allocated()
      modifies this`sndUna, this`sndBuf, this`nsndBuf
      ensures State() == old(State()).(snd := Sender.ShrinkBuf(Sender.ParseAck(old(State()).snd, sn)))
    {
      hide ValidConfig, Snd, Rtt, Rcv, Cong, Prober, Sender.ParseAck, Sender.ShrinkBuf;
      ParseAck(sn);
      ShrinkBuf();
    }

    method OnPush(s: WireSeg)
      requires Allocated()
      modifies this`rcvQueue, this`rcvBuf, this`rcvNxt, this`nrcvQue, this`nrcvBuf, this`acklist, this`ackcount, acklist
      ensures Allocated() && (acklist == old(acklist) || fresh(acklist))
      ensures State() == old(State()).(rcv := Receiver.OnPush(old(State()).rcv, s))
    {
      hide ValidConfig, Snd, Rtt, Rcv, Cong, Prober, Receiver.OnPush;
      TakeIn(s);
    }

    /** The effect of one accepted segment. */
    method OnSegment(s: WireSeg)
      requires Allocated()
      modifies this`rmtWnd, this`sndUna, this`sndBuf, this`nsndBuf, this`srtt, this`rttval, this`rto, this`askTell
      modifies this`rcvQueue, this`rcvBuf, this`rcvNxt, this`nrcvQue, this`nrcvBuf, this`acklist, this`ackcount, acklist
      ensures Allocated() && (acklist == old(acklist) || fresh(acklist))
      ensures State() == Control.OnSegment(old(State()), s)
    {
      hide *;
      ghost var before := State();
      OnSegmentIs(before, s);
      OnHeader(s);
      if s.cmd == CMD_ACK {
        OnAck(s.sn, s.ts);
      } else if s.cmd == CMD_PUSH {
        OnPush(s);
      } else if s.cmd == CMD_WASK {
        OnAsk();
      }
    }

    method OnAsk()
      requires Allocated()
      modifies this`askTell
      ensures State() == old(State()).(probe := old(State()).probe.(tell := true))
    {
      hide ValidConfig, Snd, Rtt, Rcv, Cong;
      askTell := true;
    }

    /** The header loop: segment after segment takes effect until the bytes run out or one is refused. */
    method ParseDatagram(data: seq<byte>) returns (code: int, flag: bool, maxack: u32)
      requires Allocated()
      modifies this`rmtWnd, this`sndUna, this`sndBuf, this`nsndBuf, this`srtt, this`rttval, this`rto, this`askTell
      modifies this`rcvQueue, this`rcvBuf, this`rcvNxt, this`nrcvQue, this`nrcvBuf, this`acklist, this`ackcount, acklist
      ensures Allocated() && (acklist == old(acklist) || fresh(acklist))
      ensures code == Parse(cfg.conv, data).code
      ensures State() == OnSegments(old(State()), Parse(cfg.conv, data).segs)
      ensures (if flag then Highest.Ack(maxack) else NoAck) == HighestAck(NoAck, Parse(cfg.conv, data).segs)
    {
      hide *;
      ghost var before, all := State(), Parse(cfg.conv, data);
      var pos := 0;
      code, flag, maxack := 0, false, 0;
      assert data[pos..] == data;
      RemainingStart(before, NoAck, all);
      while |data| - pos >= 24
        invariant 0 <= pos <= |data| && code == 0
        invariant Allocated() && (acklist == old(acklist) || fresh(acklist))
        invariant Remaining(before, State(), NoAck, if flag then Highest.Ack(maxack)
            else NoAck, all, Parse(cfg.conv, data[pos..]))
        decreases |data| - pos
      {
        ParseStep(cfg.conv, data, pos);
        var conv := Decode32(data[pos..]);
        if conv != cfg.conv {
          code := -1;
          break;
        }
        var h := DecodeHeader(data[pos..]);
        if |data| - pos - 24 < h.len || ToI32(h.len) < 0 {
          code := -2;
          break;
        }
        if h.cmd != 81 && h.cmd != 82 && h.cmd != 83 && h.cmd != 84 {
          code := -3;
          break;
        }
        var s := WireSeg(h.conv, h.cmd, h.frg, h.wnd, h.ts, h.sn, h.una, data[pos + 24..pos + 24 + h.len]);
        RemainingStep(before, State(), NoAck, if flag then Highest.Ack(maxack) else NoAck, all, s,
                      Parse(cfg.conv, data[pos + Size(s)..]));
        OnSegment(s);
        if h.cmd == 82 {
          if !flag {
            flag, maxack := true, s.sn;
          } else if TimeDiff(s.sn, maxack) > 0 {
            maxack := s.sn;
          }
        }
        pos := pos + 24 + h.len;
      }
      if code == 0 { ParseStop(cfg.conv, data, pos); }
      RemainingDone(before, State(), NoAck, if flag then Highest.Ack(maxack) else NoAck, all,
                    Parse(cfg.conv, data[pos..]));
    }

    /** The congestion window grows when the flight has moved on. */
    method Advance()
      requires mss > 0
      modifies this`cwnd, this`incr
      ensures Cong() == Congestion.OnAdvance(old(Cong()), rmtWnd, mss)
    {
      hide Wrap, Congestion.Bytes;
      if cwnd < rmtWnd {
        if cwnd < ssthresh {
          cwnd := Wrap(cwnd + 1);
          incr := Wrap(incr + mss);
        } else {
          if incr < mss { incr := mss; }
          incr := Wrap(incr + Wrap(Congestion.Bytes(mss, mss)) / incr + mss / 16);
          if Wrap(Congestion.Bytes(Wrap(cwnd + 1), mss)) <= incr {
            cwnd := Wrap(cwnd + 1);
          }
        }
        ClampWindow();
      }
    }

    method ClampWindow()
      modifies this`cwnd, this`incr
      ensures Cong() == Congestion.Clamp(old(Cong()), rmtWnd, mss)
    {
      hide Wrap, Congestion.Bytes;
      if cwnd > rmtWnd {
        cwnd := rmtWnd;
        incr := Wrap(Congestion.Bytes(rmtWnd, mss));
      }
    }

    /** After the last segment: skipped segments are counted, and the window may grow. */
    method FinishInput(una: u32, flag: bool, maxack: u32)
      requires Allocated()
      modifies this`sndBuf, this`cwnd, this`incr
      ensures State() == Finish(old(State()), una, if flag then Highest.Ack(maxack) else NoAck)
    {
      hide *;
      ghost var before := State();
      StateIs();
      MssIs();
      if flag { SkipAcks(maxack); }
      AdvanceFrom(una);
      FinishIs(before, una, if flag then Highest.Ack(maxack) else NoAck);
    }

    method SkipAcks(maxack: u32)
      requires Allocated()
      modifies this`sndBuf
      ensures State() == old(State()).(snd := Sender.ParseFastack(old(State()).snd, maxack))
    {
      hide Rcv, Rtt, Cong, Prober, Sender.ParseFastack, ValidConfig;
      ParseFastack(maxack);
    }

    method AdvanceFrom(una: u32)
      requires Allocated() && mss == Mss(cfg)
      modifies this`cwnd, this`incr
      ensures var b := old(State());
        State() == b.(cong := if TimeDiff(b.snd.una, una) > 0 then Congestion.OnAdvance(b.cong, b.rmtWnd, Mss(b.cfg))
                              else b.cong)
    {
      hide TimeDiff, Rcv, Rtt, Prober, Congestion.OnAdvance, ValidConfig, Mss;
      if TimeDiff(sndUna, una) > 0 { Advance(); }
    }

    lemma StateIs()
      requires 2 * ackcount <= acklist.Length
      ensures State().cfg == cfg && State().snd.una == sndUna && State().snd.nxt == sndNxt && State().updated == updated
      ensures State().current == current && State().tsFlush == tsFlush && State().snd.buf == sndBuf
    {
      hide Acks, Rtt, Cong, Prober;
    }

    /** Any bytes may be input. */
    method Input(data: seq<byte>) returns (code: int)
      requires Valid()
      modifies this`rmtWnd, this`sndUna, this`sndBuf, this`nsndBuf, this`srtt, this`rttval, this`rto, this`askTell
      modifies this`rcvQueue, this`rcvBuf, this`rcvNxt, this`nrcvQue, this`nrcvBuf, this`acklist, this`ackcount, acklist
      modifies this`cwnd, this`incr
      ensures Valid() && (acklist == old(acklist) || fresh(acklist))
      ensures InputResult(State(), code) == Control.Input(old(State()), data)
    {
      hide *;
      ghost var before := State();
      InputIs(before, data);
      StateIs();
      var una := sndUna;
      if ToI32(|data|) < 24 { return -1; }
      var flag, maxack;
      code, flag, maxack := ParseDatagram(data);
      if code == 0 {
        FinishInput(una, flag, maxack);
      }
    }

    // -------------------------------------------------------------- the output buffer

    method Encode8u(p: nat, c: byte) returns (q: nat)
      requires p + 1 <= buffer.Length
      modifies buffer
      ensures q == p + 1 && buffer[..q] == old(buffer[..p]) + [c]
    {
      buffer[p] := c;
      q := p + 1;
    }

    method Encode16u(p: nat, w: u16) returns (q: nat)
      requires p + 2 <= buffer.Length
      modifies buffer
      ensures q == p + 2 && buffer[..q] == old(buffer[..p]) + Encode16(w)
    {
      buffer[p] := w % 256;
      buffer[p + 1] := w / 256;
      q := p + 2;
    }

    method Encode32u(p: nat, l: u32) returns (q: nat)
      requires p + 4 <= buffer.Length
      modifies buffer
      ensures q == p + 4 && buffer[..q] == old(buffer[..p]) + Encode32(l)
    {
      buffer[p] := l % 256;
      buffer[p + 1] := l / 256 % 256;
      buffer[p + 2] := l / 65536 % 256;
      buffer[p + 3] := l / 16777216;
      q := p + 4;
    }

    method EncodeHead(p: nat, h: Header) returns (q: nat)
      requires p + OVERHEAD <= buffer.Length
      modifies buffer
      ensures q == p + OVERHEAD && buffer[..q] == old(buffer[..p]) + EncodeHeader(h)
    {
      hide Encode16, Encode32;
      q := Encode32u(p, h.conv);
      q := Encode8u(q, h.cmd);
      q := Encode8u(q, h.frg);
      q := Encode16u(q, h.wnd);
      q := Encode32u(q, h.ts);
      q := Encode32u(q, h.sn);
      q := Encode32u(q, h.una);
      q := Encode32u(q, h.len);
    }

    method Copy(p: nat, data: seq<byte>) returns (q: nat)
      requires p + |data| <= buffer.Length
      modifies buffer
      ensures q == p + |data| && buffer[..q] == old(buffer[..p]) + data
    {
      var i := 0;
      while i < |data|
        invariant 0 <= i <= |data|
        invariant buffer[..p + i] == old(buffer[..p]) + data[..i]
      {
        buffer[p + i] := data[i];
        i := i + 1;
      }
      q := p + |data|;
    }

    method EncodeSeg(p: nat, s: WireSeg) returns (q: nat)
      requires p + Size(s) <= buffer.Length && Sized(s)
      modifies buffer
      ensures q == p + Size(s) && buffer[..q] == old(buffer[..p]) + Encode(s)
    {
      hide EncodeHeader;
      q := EncodeHead(p, HeaderOf(s));
      q := Copy(q, s.data);
    }

    /** The output callback, which is not called for nothing. */
    method Output(size: nat)
      requires size <= buffer.Length
      modifies this`wire
      ensures wire == old(wire) + if size == 0 then [] else [buffer[..size]]
    {
      if size != 0 { wire := wire + [buffer[..size]]; }
    }

    /** The buffer holds the encoding of what waits, and the datagrams before it have been output. */
    ghost predicate Buffered(before: seq<seq<byte>>, o: FlushWire.Out, ptr: nat)
      reads this`wire, buffer
    {
      && AllSized(o.cur) && GroupsSized(o.groups)
      && ptr == TotalSize(o.cur) <= cfg.mtu && ptr <= buffer.Length && buffer[..ptr] == EncodeAll(o.cur)
      && wire == before + FlushWire.Datagrams(o.groups)
    }

    /** Appends one segment, handing the buffer over first when the segment does not fit behind it. */
    method EmitSeg(ptr: nat, s: WireSeg, ghost before: seq<seq<byte>>, ghost o: FlushWire.Out) returns (next: nat)
      requires Allocated() && Buffered(before, o, ptr) && Sized(s) && Size(s) <= cfg.mtu
      modifies this`wire, buffer
      ensures Buffered(before, FlushWire.Emit(cfg.mtu, o, s), next)
    {
      hide Encode, Pairs, TotalSize, EncodeAll;
      next := ptr;
      EncodeOne(o.cur, s);
      ClosedWire(before, o);
      if next + Size(s) > cfg.mtu {
        Output(next);
        next := 0;
      }
      next := EncodeSeg(next, s);
    }

    /** The last datagram of a flush. */
    method FlushRest(ptr: nat, ghost before: seq<seq<byte>>, ghost o: FlushWire.Out)
      requires Buffered(before, o, ptr)
      modifies this`wire
      ensures GroupsSized(FlushWire.Closed(o))
      ensures wire == before + FlushWire.Datagrams(FlushWire.Closed(o))
    {
      hide EncodeAll;
      ClosedWire(before, o);
      Output(ptr);
    }

    // -------------------------------------------------------------- flush

    function WndUnused(): u32
      reads this`nrcvQue
    {
      if nrcvQue < rcvWnd then rcvWnd - nrcvQue else 0
    }

    /** A segment without data; `wnd` is cut to 16 bits on the wire. */
    function ControlSegment(cmd: byte, sn: u32, ts: u32): WireSeg
      reads this`nrcvQue, this`rcvNxt
    {
      WireSeg(cfg.conv, cmd, 0, WndUnused() % 0x1_0000, ts, sn, rcvNxt, [])
    }

    /** The wire form of the pending acknowledgement number `i`. */
    lemma AckSegAt(segs: seq<WireSeg>, i: nat)
      requires Allocated() && segs == AckSegs(State(), Acks()) && i < ackcount
      ensures |segs| == |Acks()| == ackcount
      ensures Acks()[i] == Receiver.Ack(acklist[2 * i], acklist[2 * i + 1])
      ensures segs[i] == ControlSegment(CMD_ACK, acklist[2 * i], acklist[2 * i + 1])
    {
      hide Snd, Rtt, Cong, Prober, ValidConfig;
      PairsAt(acklist[..2 * ackcount], i);
    }

    /** Emits the pending acknowledgements; `sn` and `ts` keep those of the last one. */
    method FlushAcks(ghost before: seq<seq<byte>>) returns (ptr: nat, sn: u32, ts: u32)
      requires Allocated() && Buffered(before, FlushWire.Out([], []), 0)
      modifies this`wire, buffer
      ensures Buffered(before, FlushWire.EmitAll(cfg.mtu, AckSegs(State(), Acks())), ptr)
      ensures Receiver.Ack(sn, ts) == LastAck(Acks())
    {
      hide *;
      ghost var segs := AckSegs(State(), Acks());
      AckSegsLength(segs);
      FlushWire.EmitNothing(cfg.mtu);
      var i := 0;
      ptr, sn, ts := 0, 0, 0;
      LastAckOf(Acks()[..0]);
      while i < ackcount
        invariant Allocated() && 0 <= i <= ackcount == |segs| == |Acks()|
        invariant segs == AckSegs(State(), Acks())
        invariant Buffered(before, FlushWire.EmitAll(cfg.mtu, segs[..i]), ptr)
        invariant Receiver.Ack(sn, ts) == LastAck(Acks()[..i])
      {
        ptr, sn, ts := FlushAck(i, ptr, before, segs);
        LastAckOf(Acks()[..i + 1]);
        i := i + 1;
      }
      assert segs[..i] == segs && Acks()[..i] == Acks();
    }

    /** Emits the pending acknowledgement number `i`. */
    method FlushAck(i: nat, ptr0: nat, ghost before: seq<seq<byte>>, ghost segs: seq<WireSeg>)
      returns (ptr: nat, sn: u32, ts: u32)
      requires Allocated() && segs == AckSegs(State(), Acks()) && i < ackcount == |segs| == |Acks()|
      requires Buffered(before, FlushWire.EmitAll(cfg.mtu, segs[..i]), ptr0)
      modifies this`wire, buffer
      ensures Buffered(before, FlushWire.EmitAll(cfg.mtu, segs[..i + 1]), ptr) && Receiver.Ack(sn, ts) == Acks()[i]
    {
      hide Pairs, Acks, State, FlushWire.Emit, TotalSize, ValidConfig, EncodeAll, AckSegs;
      AckSegAt(segs, i);
      sn, ts := acklist[2 * i], acklist[2 * i + 1];
      assert segs[..i + 1][..i] == segs[..i];
      ptr := EmitSeg(ptr0, ControlSegment(CMD_ACK, sn, ts), before, FlushWire.EmitAll(cfg.mtu, segs[..i]));
    }

    lemma AckSegsLength(segs: seq<WireSeg>)
      requires Allocated() && segs == AckSegs(State(), Acks())
      ensures |segs| == |Acks()| == ackcount
    {
      hide State, ValidConfig, Pairs;
    }

    /** Schedules and flags a window probe while the peer's window is closed. */
    method ProbeWindow()
      modifies this`tsProbe, this`probeWait, this`askSend
      ensures Prober() == ProbeTimer(old(Prober()), rmtWnd, current)
    {
      hide TimeDiff;
      if rmtWnd == 0 {
        if probeWait == 0 {
          probeWait := PROBE_INIT;
          tsProbe := Wrap(current + probeWait);
        } else if TimeDiff(current, tsProbe) >= 0 {
          if probeWait < PROBE_INIT { probeWait := PROBE_INIT; }
          probeWait := Wrap(probeWait + probeWait / 2);
          if probeWait > PROBE_LIMIT { probeWait := PROBE_LIMIT; }
          tsProbe := Wrap(current + probeWait);
          askSend := true;
        }
      } else {
        tsProbe := 0;
        probeWait := 0;
      }
    }

    /** Emits the flagged window probes and clears the flags. */
    method FlushProbes(ptr0: nat, sn: u32, ts: u32, ghost before: seq<seq<byte>>, ghost segs: seq<WireSeg>)
      returns (ptr: nat)
      requires Allocated() && Buffered(before, FlushWire.EmitAll(cfg.mtu, segs), ptr0)
      modifies this`wire, this`askSend, this`askTell, buffer
      ensures Prober() == old(Prober()).(ask := false, tell := false)
      ensures Buffered(before, FlushWire.EmitAll(cfg.mtu, segs +
        (if old(askSend) then [ControlSegment(CMD_WASK, sn, ts)] else [])
        + (if old(askTell) then [ControlSegment(CMD_WINS, sn, ts)] else [])), ptr)
    {
      hide FlushWire.EmitAll, TotalSize, ValidConfig, EncodeAll, Buffered;
      ptr := ptr0;
      ghost var out := segs;
      assert out + [] == out;
      if askSend {
        EmitNext(cfg.mtu, out, ControlSegment(CMD_WASK, sn, ts));
        ptr := EmitSeg(ptr, ControlSegment(CMD_WASK, sn, ts), before, FlushWire.EmitAll(cfg.mtu, out));
        out := out + [ControlSegment(CMD_WASK, sn, ts)];
      }
      assert out + [] == out;
      if askTell {
        EmitNext(cfg.mtu, out, ControlSegment(CMD_WINS, sn, ts));
        ptr := EmitSeg(ptr, ControlSegment(CMD_WINS, sn, ts), before, FlushWire.EmitAll(cfg.mtu, out));
      }
      askSend, askTell := false, false;
    }

    /** Moves segments from the queue to the flight while the window has room. */
    method Admit(window: u32, wnd: u32, ghost c: Sender.Tx)
      requires c.current == current && c.wnd == wnd && c.ack == rcvNxt && c.rxRto == Wrap(rto)
      modifies this`sndQueue, this`sndBuf, this`nsndQue, this`nsndBuf, this`sndNxt
      ensures Snd() == Sender.Admit(old(Snd()), window, c)
    {
      hide TimeDiff, Wrap, Sender.Admit;
      while TimeDiff(sndNxt, Wrap(sndUna + window)) < 0
        invariant Sender.Admit(Snd(), window, c) == Sender.Admit(old(Snd()), window, c)
        decreases |sndQueue|
      {
        AdmitTurn(Snd(), window, c);
        if sndQueue == [] { break; }
        var f := sndQueue[0];
        sndQueue := sndQueue[1..];
        sndBuf := sndBuf + [Sender.Seg(f.frg, f.data, wnd, current, sndNxt, rcvNxt, current, Wrap(rto), 0, 0)];
        nsndQue := Wrap(nsndQue - 1);
        nsndBuf := Wrap(nsndBuf + 1);
        sndNxt := Wrap(sndNxt + 1);
      }
      AdmitTurn(Snd(), window, c);
    }

    /** Decides on segment `i` of the flight and, when it is due, stamps it. */
    method Judge(i: nat, wnd: u32, resent: u32, rtomin: u32, ghost c: Sender.Tx)
      returns (needsend: bool, late: bool, fast: bool)
      requires i < |sndBuf|
      requires c == Sender.Tx(current, wnd, rcvNxt, Wrap(rto), resent, rtomin, cfg.nodelay)
      modifies this`sndBuf
      ensures sndBuf == old(sndBuf)[i := Sender.Transmit(old(sndBuf)[i], c)]
      ensures needsend <==> Sender.Judge(old(sndBuf)[i], c) != Sender.Idle
      ensures late <==> Sender.Judge(old(sndBuf)[i], c) == Sender.Timeout
      ensures fast <==> Sender.Judge(old(sndBuf)[i], c) == Sender.Fast
    {
      hide TimeDiff, Wrap;
      needsend, late, fast := false, false, false;
      var g := sndBuf[i];
      if g.xmit == 0 {
        needsend := true;
        g := g.(xmit := Wrap(g.xmit + 1), rto := Wrap(rto), resendts := Wrap(current + Wrap(rto) + rtomin));
      } else if TimeDiff(current, g.resendts) >= 0 {
        needsend, late := true, true;
        var grown := Wrap(g.rto + if cfg.nodelay then Wrap(rto) / 2 else Wrap(rto));
        g := g.(xmit := Wrap(g.xmit + 1), rto := grown, resendts := Wrap(current + grown));
      } else if g.fastack >= resent {
        needsend, fast := true, true;
        g := g.(xmit := Wrap(g.xmit + 1), fastack := 0, resendts := Wrap(current + g.rto));
      }
      if needsend {
        g := g.(ts := current, wnd := wnd, una := rcvNxt);
      }
      sndBuf := sndBuf[i := g];
    }

    /** One turn of the transmission loop. */
    method FlushOne(i: nat, ptr0: nat, wnd: u32, resent: u32, rtomin: u32, ghost c: Sender.Tx,
                    ghost before: seq<seq<byte>>, ghost segs: seq<WireSeg>) returns (ptr: nat, late: bool, fast: bool)
      requires Allocated() && Buffered(before, FlushWire.EmitAll(cfg.mtu, segs), ptr0)
      requires i < |sndBuf| && |sndBuf[i].data| <= mss
      requires c == Sender.Tx(current, wnd, rcvNxt, Wrap(rto), resent, rtomin, cfg.nodelay)
      modifies this`sndBuf, this`xmit, this`dead, this`wire, buffer
      ensures sndBuf == old(sndBuf)[i := Sender.Transmit(old(sndBuf)[i], c)]
      ensures late <==> Sender.Judge(old(sndBuf)[i], c) == Sender.Timeout
      ensures fast <==> Sender.Judge(old(sndBuf)[i], c) == Sender.Fast
      ensures xmit == if late then Wrap(old(xmit) + 1) else old(xmit)
      ensures dead == (old(dead) || ReachedDeadLink(cfg.deadLink, Sender.Sent([old(sndBuf)[i]], c)))
      ensures Buffered(before, FlushWire.EmitAll(cfg.mtu, segs + ToWires(cfg.conv, Sender.Sent([old(sndBuf)[i]], c))),
          ptr)
    {
      hide FlushWire.EmitAll, TotalSize, EncodeAll, Buffered, Wrap, Sender.Judge, Sender.Transmit, Sender.Sent,
          ValidConfig;
      var needsend;
      SentOne(cfg.conv, cfg.deadLink, sndBuf[i], c);
      TransmitKeeps(sndBuf[i], c);
      needsend, late, fast := Judge(i, wnd, resent, rtomin, c);
      if late { xmit := Wrap(xmit + 1); }
      ptr := ptr0;
      assert segs + [] == segs;
      if needsend {
        var s := Sender.ToWire(cfg.conv, sndBuf[i]);
        EmitNext(cfg.mtu, segs, s);
        MssFits(s);
        ptr := EmitSeg(ptr, s, before, FlushWire.EmitAll(cfg.mtu, segs));
        if sndBuf[i].xmit >= cfg.deadLink { dead := true; }
      }
    }

    lemma MssFits(s: WireSeg)
      requires Allocated() && |s.data| <= mss
      ensures Sized(s) && Size(s) <= cfg.mtu
    {}

    /** Transmits everything that is due in the flight. */
    method FlushData(ptr0: nat, wnd: u32, resent: u32, rtomin: u32, ghost c: Sender.Tx, ghost before: seq<seq<byte>>,
                     ghost segs: seq<WireSeg>) returns (ptr: nat, change: nat, lost: bool)
      requires Allocated() && Buffered(before, FlushWire.EmitAll(cfg.mtu, segs), ptr0)
      requires forall i :: 0 <= i < |sndBuf| ==> |sndBuf[i].data| <= mss
      requires c == Sender.Tx(current, wnd, rcvNxt, Wrap(rto), resent, rtomin, cfg.nodelay)
      modifies this`sndBuf, this`xmit, this`dead, this`wire, buffer
      ensures sndBuf == Sender.TransmitAll(old(sndBuf), c)
      ensures change == Sender.CountOf(old(sndBuf), c, Sender.Fast)
      ensures lost <==> Sender.CountOf(old(sndBuf), c, Sender.Timeout) > 0
      ensures xmit == Wrap(old(xmit) + Sender.CountOf(old(sndBuf), c, Sender.Timeout))
      ensures dead == (old(dead) || ReachedDeadLink(cfg.deadLink, Sender.Sent(old(sndBuf), c)))
      ensures Buffered(before, FlushWire.EmitAll(cfg.mtu, segs + ToWires(cfg.conv, Sender.Sent(old(sndBuf), c))), ptr)
    {
      hide *;
      ghost var flight, xmit0, dead0 := sndBuf, xmit, dead;
      ghost var out := segs;
      var i := 0;
      ptr, change, lost := ptr0, 0, false;
      ProgressStart(cfg.conv, cfg.deadLink, flight, c, segs, xmit0, dead0);
      while i < |sndBuf|
        invariant Allocated() && 0 <= i <= |sndBuf| == |flight|
        invariant c == Sender.Tx(current, wnd, rcvNxt, Wrap(rto), resent, rtomin, cfg.nodelay)
        invariant sndBuf[i..] == flight[i..] && forall j :: i <= j < |sndBuf| ==> |sndBuf[j].data| <= mss
        invariant Buffered(before, FlushWire.EmitAll(cfg.mtu, out), ptr)
        invariant Progress(cfg.conv, cfg.deadLink, flight, i, c, segs, xmit0, dead0, sndBuf[..i], out, change, lost,
            xmit, dead)
      {
        var late, fast;
        ghost var sent, done := ToWires(cfg.conv, Sender.Sent([sndBuf[i]], c)), sndBuf;
        assert sndBuf[i] == sndBuf[i..][0] == flight[i];
        ProgressStep(cfg.conv, cfg.deadLink, flight, i, c, segs, xmit0, dead0, sndBuf[..i], out, change, lost, xmit,
            dead);
        ptr, late, fast := FlushOne(i, ptr, wnd, resent, rtomin, c, before, out);
        if late { lost := true; }
        if fast { change := change + 1; }
        out := out + sent;
        assert sndBuf[..i + 1] == done[..i] + [sndBuf[i]];
        assert sndBuf[i + 1..] == done[i..][1..] == flight[i..][1..] == flight[i + 1..];
        i := i + 1;
      }
      assert sndBuf[..i] == sndBuf;
      ProgressDone(cfg.conv, cfg.deadLink, flight, c, segs, xmit0, dead0, sndBuf, out, change, lost, xmit, dead);
    }

    /** The ends of the congestion window after a flush. */
    method AdjustWindow(change: nat, lost: bool, window: u32, resent: u32)
      modifies this`cwnd, this`incr, this`ssthresh
      ensures Cong() == Congestion.AfterFlush(old(Cong()), change > 0, lost, Sender.InFlight(Snd()), window, resent,
          mss)
    {
      hide Wrap, Congestion.Bytes;
      if change > 0 {
        var inflight := (sndNxt - sndUna) % 0x1_0000_0000;
        ssthresh := Max(inflight / 2, Congestion.THRESH_MIN);
        cwnd := Wrap(ssthresh + resent);
        incr := Wrap(Congestion.Bytes(cwnd, mss));
      }
      if lost {
        ssthresh := Max(window / 2, Congestion.THRESH_MIN);
        cwnd := 1;
        incr := mss;
      }
      if cwnd < 1 {
        cwnd := 1;
        incr := mss;
      }
    }

    method DropAcks()
      requires Allocated()
      modifies this`ackcount
      ensures Allocated() && State() == old(State()).(rcv := old(State()).rcv.(acks := []))
    {
      hide Snd, Rtt, Cong, Prober, ValidConfig;
      ackcount := 0;
    }

    method UpdateProbe()
      requires Allocated()
      modifies this`tsProbe, this`probeWait, this`askSend
      ensures State() == old(State()).(probe := ProbeTimer(old(State()).probe, old(State()).rmtWnd,
          old(State()).current))
    {
      hide Snd, Rtt, Cong, Rcv, ValidConfig, ProbeTimer;
      ProbeWindow();
    }

    /** Emits the flagged window probes, numbered and timed like the last acknowledgement. */
    method SendProbes(ptr0: nat, sn: u32, ts: u32, ghost before: seq<seq<byte>>, ghost cb: Cb) returns (ptr: nat)
      requires Allocated() && Receiver.Ack(sn, ts) == LastAck(cb.rcv.acks)
      requires State() == cb.(rcv := cb.rcv.(acks := []), probe := ProbeTimer(cb.probe, cb.rmtWnd, cb.current))
      requires Buffered(before, FlushWire.EmitAll(cfg.mtu, AckSegs(cb, cb.rcv.acks)), ptr0)
      modifies this`wire, this`askSend, this`askTell, buffer
      ensures State() == Announced(cb)
      ensures Buffered(before, FlushWire.EmitAll(cfg.mtu, ControlSegs(cb)), ptr)
    {
      hide Snd, Rtt, Cong, Acks, ValidConfig, Buffered, FlushWire.EmitAll, ControlSegs, AckSegs, ProbeTimer;
      ControlSegsIs(cb, AckSegs(cb, cb.rcv.acks), ControlSegment(CMD_WASK, sn, ts), ControlSegment(CMD_WINS, sn, ts));
      ptr := FlushProbes(ptr0, sn, ts, before, AckSegs(cb, cb.rcv.acks));
    }

    /** Acknowledgements and window probes. */
    method FlushControl(ghost before: seq<seq<byte>>) returns (ptr: nat)
      requires Allocated() && Buffered(before, FlushWire.Out([], []), 0)
      modifies this`wire, this`ackcount, this`tsProbe, this`probeWait, this`askSend, this`askTell, buffer
      ensures Allocated() && State() == Announced(old(State()))
      ensures Buffered(before, FlushWire.EmitAll(cfg.mtu, ControlSegs(old(State()))), ptr)
    {
      hide *;
      ghost var cb := State();
      var sn, ts;
      AcksIs();
      ptr, sn, ts := FlushAcks(before);
      DropAcks();
      UpdateProbe();
      ptr := SendProbes(ptr, sn, ts, before, cb);
    }

    lemma AcksIs()
      requires 2 * ackcount <= acklist.Length
      ensures State().rcv.acks == Acks()
    {
      hide Acks, Snd, Rtt, Cong, Prober;
    }

    method AdmitAll(window: u32, wnd: u32)
      requires Allocated() && wnd == WndUnused() && ControlInvariant.Fitting(Snd(), mss)
      modifies this`sndQueue, this`sndBuf, this`nsndQue, this`nsndBuf, this`sndNxt
      ensures State() == old(State()).(snd := Sender.Admit(old(State()).snd, window, TxOf(old(State()))))
      ensures TxOf(State()) == TxOf(old(State())) && ControlInvariant.Fitting(Snd(), mss)
    {
      hide Acks, Rtt, Cong, Prober, Rcv, ValidConfig, Sender.Admit, ControlInvariant.Fitting, TxOf, WndUnused;
      TxIs();
      ghost var c := TxOf(State());
      ControlInvariant.AdmitFitting(Snd(), window, c, mss);
      Admit(window, wnd, c);
      TxIs();
    }

    method TransmitAll(ptr0: nat, wnd: u32, resent: u32, rtomin: u32,
        ghost before: seq<seq<byte>>, ghost segs: seq<WireSeg>)
      returns (ptr: nat, change: nat, lost: bool)
      requires Allocated() && Buffered(before, FlushWire.EmitAll(cfg.mtu, segs), ptr0)
      requires ControlInvariant.Fitting(Snd(), mss)
      requires TxOf(State()) == Sender.Tx(current, wnd, rcvNxt, Wrap(rto), resent, rtomin, cfg.nodelay)
      modifies this`sndBuf, this`xmit, this`dead, this`wire, buffer
      ensures var cb := old(State());
        var c := TxOf(cb);
        && State() == Transmitted(cb, cb.snd, c)
        && change == Sender.CountOf(cb.snd.buf, c, Sender.Fast)
        && (lost <==> Sender.CountOf(cb.snd.buf, c, Sender.Timeout) > 0)
        && Buffered(before, FlushWire.EmitAll(cfg.mtu, segs + ToWires(cfg.conv, Sender.Sent(cb.snd.buf, c))), ptr)
    {
      hide Acks, Rtt, Cong, Prober, Rcv, ValidConfig, Buffered, FlushWire.EmitAll, Sender.Sent, Sender.CountOf, TxOf,
        Sender.TransmitAll, ReachedDeadLink, ToWires, Wrap;
      ptr, change, lost := FlushData(ptr0, wnd, resent, rtomin, TxOf(State()), before, segs);
    }

    /** Admission and transmission. */
    method FlushFlight(ptr0: nat, window: u32, resent: u32, ghost before: seq<seq<byte>>, ghost segs: seq<WireSeg>)
      returns (ptr: nat, change: nat, lost: bool)
      requires Allocated() && Buffered(before, FlushWire.EmitAll(cfg.mtu, segs), ptr0)
      requires ControlInvariant.Fitting(Snd(), mss)
      requires resent == if cfg.fastresend > 0 then cfg.fastresend else 0xFFFF_FFFF
      modifies this`sndQueue, this`sndBuf, this`nsndQue, this`nsndBuf, this`sndNxt, this`xmit, this`dead, this`wire,
          buffer
      ensures var cb := old(State());
        var c := TxOf(cb);
        var a := Sender.Admit(cb.snd, window, c);
        && State() == Transmitted(cb.(snd := a), a, c)
        && change == Sender.CountOf(a.buf, c, Sender.Fast) && (lost <==> Sender.CountOf(a.buf, c, Sender.Timeout) > 0)
        && Buffered(before, FlushWire.EmitAll(cfg.mtu, segs + ToWires(cfg.conv, Sender.Sent(a.buf, c))), ptr)
    {
      hide *;
      var wnd := WndUnused();
      var rtomin := if cfg.nodelay then 0 else Wrap(rto) / 8;
      AdmitAll(window, wnd);
      TxIs();
      ptr, change, lost := TransmitAll(ptr0, wnd, resent, rtomin, before, segs);
    }

    lemma TxIs()
      requires 2 * ackcount <= acklist.Length
      ensures TxOf(State()) == Sender.Tx(current, WndUnused(), rcvNxt, Wrap(rto),
        if cfg.fastresend > 0 then cfg.fastresend else 0xFFFF_FFFF,
        if cfg.nodelay then 0 else Wrap(rto) / 8, cfg.nodelay)
    {
      hide Acks, Snd, Cong, Prober, Wrap;
    }

    method CloseFlush(change: nat, lost: bool, window: u32, resent: u32)
      requires Allocated()
      modifies this`cwnd, this`incr, this`ssthresh
      ensures State() == old(State()).(cong := Congestion.AfterFlush(old(State()).cong, change > 0, lost,
                           Sender.InFlight(old(State()).snd), window, resent, mss))
    {
      hide Snd, Rtt, Prober, Rcv, ValidConfig, Congestion.AfterFlush, Sender.InFlight;
      AdjustWindow(change, lost, window, resent);
    }

    lemma WindowIs(window: u32)
      requires 2 * ackcount <= acklist.Length
      requires var w := Min(cfg.sndWnd, rmtWnd); window == if cfg.nocwnd then w else Min(cwnd, w)
      ensures window == SendWindow(State())
      ensures State().cfg == cfg && State().snd == Snd() && State().updated == updated
    {
      hide Snd, Rtt, Prober, Rcv;
    }

    /** A flush hands the datagrams of its specification to the output callback, in order, and never
        writes past the output buffer. */
    method Flush()
      requires Valid()
      modifies this`sndQueue, this`sndBuf, this`nsndQue, this`nsndBuf, this`sndNxt, this`xmit, this`dead, this`wire,
          buffer
      modifies this`ackcount, this`tsProbe, this`probeWait, this`askSend, this`askTell, this`cwnd, this`incr,
          this`ssthresh
      ensures Valid() && State() == Control.Flush(old(State())).cb
      ensures GroupsSized(Pack(cfg.mtu, [], Control.Flush(old(State())).emitted))
      ensures wire == old(wire) + FlushWire.Datagrams(Pack(cfg.mtu, [], Control.Flush(old(State())).emitted))
    {
      hide *;
      ghost var cb, before := State(), wire;
      StateIs();
      if !updated {
        FlushIdle(cb);
        assert before + [] == before;
        return;
      }
      EmptyBuffer(before);
      var ptr := FlushControl(before);
      var window := if cfg.sndWnd <= rmtWnd then cfg.sndWnd else rmtWnd;
      if !cfg.nocwnd && cwnd <= window { window := cwnd; }
      var resent := if cfg.fastresend > 0 then cfg.fastresend else 0xFFFF_FFFF;
      SmallerWindow(window);
      AnnouncedIs(cb);
      FlushIs(cb);
      WindowIs(window);
      FittingOf(cb, Snd());
      MssIs();
      var change, lost;
      ptr, change, lost := FlushFlight(ptr, window, resent, before, ControlSegs(cb));
      FlushRest(ptr, before, FlushWire.EmitAll(cfg.mtu, Control.Flush(cb).emitted));
      CloseFlush(change, lost, window, resent);
      FlushWire.PackIsEmit(cfg.mtu, Control.Flush(cb).emitted);
      ControlInvariant.FlushInv(cb);
    }

    lemma SmallerWindow(window: u32)
      requires var w := if cfg.sndWnd <= rmtWnd then cfg.sndWnd else rmtWnd;
        window == if !cfg.nocwnd && cwnd <= w then cwnd else w
      ensures var w := Min(cfg.sndWnd, rmtWnd); window == if cfg.nocwnd then w else Min(cwnd, w)
    {}

    lemma MssIs()
      requires Allocated()
      ensures mss == Mss(cfg)
    {
      hide ValidConfig;
    }

    lemma EmptyBuffer(before: seq<seq<byte>>)
      requires wire == before && Allocated()
      ensures Buffered(before, FlushWire.Out([], []), 0)
      ensures FlushWire.EmitAll(cfg.mtu, []) == FlushWire.Out([], [])
    {
      assert before + [] == before;
    }

    // -------------------------------------------------------------- clock

    /** Sets the clock; a flush time more than 10 seconds off is taken to be now. */
    method SetClock(now: u32) returns (slap: int)
      requires Allocated()
      modifies this`current, this`updated, this`tsFlush
      ensures State() == Clocked(old(State()), now) && slap == TimeDiff(now, tsFlush)
    {
      hide TimeDiff, Snd, Rcv, Rtt, Cong, Prober, ValidConfig;
      current := now;
      if !updated {
        updated := true;
        tsFlush := current;
      }
      slap := TimeDiff(current, tsFlush);
      if slap >= 10000 || slap < -10000 {
        tsFlush := current;
        slap := 0;
        NoDiff(now);
      }
    }

    method SetFlush()
      requires Allocated()
      modifies this`tsFlush
      ensures State() == old(State()).(tsFlush := NextFlush(old(State()).tsFlush, current, cfg.interval))
    {
      hide TimeDiff, Snd, Rcv, Rtt, Cong, Prober, ValidConfig, Wrap;
      tsFlush := Wrap(tsFlush + cfg.interval);
      if TimeDiff(current, tsFlush) >= 0 {
        tsFlush := Wrap(current + cfg.interval);
      }
    }

    method Update(now: u32)
      requires Valid()
      modifies this`sndQueue, this`sndBuf, this`nsndQue, this`nsndBuf, this`sndNxt, this`xmit, this`dead, this`wire,
          buffer
      modifies this`ackcount, this`tsProbe, this`probeWait, this`askSend, this`askTell, this`cwnd, this`incr,
          this`ssthresh
      modifies this`current, this`updated, this`tsFlush
      ensures Valid() && State() == Control.Update(old(State()), now).cb
      ensures GroupsSized(Pack(cfg.mtu, [], Control.Update(old(State()), now).emitted))
      ensures wire == old(wire) + FlushWire.Datagrams(Pack(cfg.mtu, [], Control.Update(old(State()), now).emitted))
    {
      hide *;
      ghost var cb, before := State(), wire;
      UpdateIs(cb, now);
      StateIs();
      var slap := SetClock(now);
      StateIs();
      if slap >= 0 {
        SetFlush();
        Flush();
      } else {
        NothingOut(cfg.mtu);
        assert before + [] == before;
      }
    }

    /** When to call `Update` next. */
    method Check(now: u32) returns (next: u32)
      requires Valid()
      ensures next == Control.Check(State(), now)
    {
      hide TimeDiff, Rcv, Rtt, Cong, Prober, ControlInvariant.Inv, Soonest;
      if !updated { return now; }
      var ts := tsFlush;
      if TimeDiff(now, ts) >= 10000 || TimeDiff(now, ts) < -10000 { ts := now; }
      if TimeDiff(now, ts) >= 0 { return now; }
      var tmFlush, tmPacket, i := TimeDiff(ts, now), 0x7FFF_FFFF, 0;
      assert sndBuf[0..] == sndBuf;
      while i < |sndBuf|
        invariant 0 <= i <= |sndBuf| && tmPacket > 0
        invariant Soonest(sndBuf, now, 0x7FFF_FFFF) == Soonest(sndBuf[i..], now, tmPacket)
      {
        SoonestStep(sndBuf, i, now, tmPacket);
        var diff := TimeDiff(sndBuf[i].resendts, now);
        if diff <= 0 { return now; }
        if diff < tmPacket { tmPacket := diff; }
        i := i + 1;
      }
      SoonestNone(sndBuf[i..], now, tmPacket);
      var minimal := if tmPacket < tmFlush then tmPacket else tmFlush;
      if minimal >= cfg.interval { minimal := cfg.interval; }
      next := Wrap(now + minimal);
    }
  }

  lemma NoDiff(now: u32)
    ensures TimeDiff(now, now) == 0
  {}

  lemma NothingOut(mtu: nat)
    ensures Pack(mtu, [], []) == [] && FlushWire.Datagrams([]) == [] && GroupsSized([])
  {}

  lemma UpdateIs(cb: Cb, now: u32)
    requires ControlInvariant.Inv(cb)
    ensures var c := Clocked(cb, now);
      var f := c.(tsFlush := NextFlush(c.tsFlush, now, c.cfg.interval));
      && c.cfg == cb.cfg && c.current == now && ControlInvariant.Inv(c) && ControlInvariant.Inv(f)
      && Control.Update(cb, now) == if TimeDiff(now, c.tsFlush) >= 0 then Control.Flush(f) else FlushResult(c, [])
  {
    ControlInvariant.UpdateIs(cb, now);
    hide Clocked, Control.Update, Control.Flush, NextFlush, TimeDiff, Sender.Inv, Receiver.Inv,
        ControlInvariant.Fitting;
  }

  lemma SoonestStep(buf: seq<Sender.Seg>, i: nat, now: u32, least: int)
    requires i < |buf|
    ensures var diff := TimeDiff(buf[i].resendts, now);
      Soonest(buf[i..], now, least) == if diff <= 0 then diff else Soonest(buf[i + 1..], now, Min(diff, least))
  {
    assert buf[i..][1..] == buf[i + 1..] && buf[i..][0] == buf[i];
    hide TimeDiff;
  }

  lemma SoonestNone(buf: seq<Sender.Seg>, now: u32, least: int)
    requires buf == []
    ensures Soonest(buf, now, least) == least
  {}

  lemma FlushIdle(cb: Cb)
    requires ControlInvariant.Inv(cb) && !cb.updated
    ensures Control.Flush(cb) == FlushResult(cb, []) && Pack(cb.cfg.mtu, [], []) == [] && FlushWire.Datagrams([]) == []
    ensures GroupsSized([])
  {
    hide ControlInvariant.Inv;
  }

  lemma FittingOf(cb: Cb, snd: Sender.Snd)
    requires ControlInvariant.Inv(cb) && snd == cb.snd
    ensures ControlInvariant.Fitting(snd, Mss(cb.cfg))
  {
    hide ControlInvariant.Fitting, Sender.Inv, Receiver.Inv;
  }

  lemma AnnouncedIs(cb: Cb)
    ensures var d := Announced(cb);
      && d.snd == cb.snd && d.cfg == cb.cfg && SendWindow(d) == SendWindow(cb) && TxOf(d) == TxOf(cb)
  {
    hide ProbeTimer, Wrap;
  }

  /** A flush is its three parts. */
  lemma FlushIs(cb: Cb)
    requires ControlInvariant.Inv(cb) && cb.updated
    ensures var c, window := TxOf(cb), SendWindow(cb);
      var a := Sender.Admit(cb.snd, window, c);
      var t := Transmitted(Announced(cb).(snd := a), a, c);
      && Control.Flush(cb).emitted == ControlSegs(cb) + ToWires(cb.cfg.conv, Sender.Sent(a.buf, c))
      && Control.Flush(cb).cb == t.(cong := Congestion.AfterFlush(t.cong, Sender.CountOf(a.buf, c, Sender.Fast) > 0,
           Sender.CountOf(a.buf, c, Sender.Timeout) > 0, Sender.InFlight(t.snd), window, c.resent, Mss(cb.cfg)))
      && c.resent == if cb.cfg.fastresend > 0 then cb.cfg.fastresend else 0xFFFF_FFFF
  {
    hide ControlInvariant.Inv, ProbeTimer, Wrap, Sender.Admit, Sender.Sent, Sender.CountOf, Sender.TransmitAll, Off,
      ReachedDeadLink, Congestion.AfterFlush, ToWires, AckSegs, ProbeSegs;
  }

  /** What the first half of a flush leaves: nothing more to announce. */
  function Announced(cb: Cb): Cb {
    cb.(rcv := cb.rcv.(acks := []), probe := ProbeTimer(cb.probe, cb.rmtWnd, cb.current).(ask := false, tell := false))
  }

  function ControlSegs(cb: Cb): seq<WireSeg> {
    AckSegs(cb, cb.rcv.acks) + ProbeSegs(cb, ProbeTimer(cb.probe, cb.rmtWnd, cb.current))
  }

  lemma LastAckOf(acks: seq<Receiver.Ack>)
    ensures LastAck(acks) == if acks == [] then Receiver.Ack(0, 0) else acks[|acks| - 1]
  {}

  lemma FinishIs(cb: Cb, una: u32, h: Highest)
    requires ValidConfig(cb.cfg)
    ensures var c := if h == NoAck then cb else cb.(snd := Sender.ParseFastack(cb.snd, h.sn));
      Finish(cb, una, h) ==
        c.(cong := if TimeDiff(c.snd.una, una) > 0 then Congestion.OnAdvance(c.cong, c.rmtWnd, Mss(c.cfg)) else c.cong)
  {
    hide Sender.ParseFastack, Congestion.OnAdvance, TimeDiff, Mss;
  }

  lemma ControlSegsIs(cb: Cb, acks: seq<WireSeg>, ask: WireSeg, tell: WireSeg)
    requires acks == AckSegs(cb, cb.rcv.acks)
    requires ask == ControlSeg(cb, CMD_WASK, LastAck(cb.rcv.acks).sn, LastAck(cb.rcv.acks).ts)
    requires tell == ControlSeg(cb, CMD_WINS, LastAck(cb.rcv.acks).sn, LastAck(cb.rcv.acks).ts)
    ensures var p := ProbeTimer(cb.probe, cb.rmtWnd, cb.current);
      ControlSegs(cb) == acks + (if p.ask then [ask] else []) + (if p.tell then [tell] else [])
  {
    hide ProbeTimer, Unused, AckSegs;
  }

  /** What the second half leaves, but for the congestion window: the admitted segments, the due ones stamped. */
  function Transmitted(cb: Cb, a: Sender.Snd, c: Sender.Tx): Cb {
    cb.(snd := a.(buf := Sender.TransmitAll(a.buf, c)),
        xmit := Wrap(cb.xmit + Sender.CountOf(a.buf, c, Sender.Timeout)),
        dead := cb.dead || ReachedDeadLink(cb.cfg.deadLink, Sender.Sent(a.buf, c)))
  }

  /** The transmission loop after `i` segments. */
  ghost predicate Progress(conv: u32, deadLink: u32, flight: seq<Sender.Seg>, i: nat, c: Sender.Tx, segs: seq<WireSeg>,
                           xmit0: u32, dead0: bool, done: seq<Sender.Seg>, out: seq<WireSeg>, change: nat, lost: bool,
                           xmit: u32, dead: bool)
    requires i <= |flight|
  {
    && done == Sender.TransmitAll(flight[..i], c)
    && out == segs + ToWires(conv, Sender.Sent(flight[..i], c))
    && change == Sender.CountOf(flight[..i], c, Sender.Fast)
    && (lost <==> Sender.CountOf(flight[..i], c, Sender.Timeout) > 0)
    && xmit == Wrap(xmit0 + Sender.CountOf(flight[..i], c, Sender.Timeout))
    && dead == (dead0 || ReachedDeadLink(deadLink, Sender.Sent(flight[..i], c)))
  }

  lemma ProgressStart(conv: u32, deadLink: u32, flight: seq<Sender.Seg>, c: Sender.Tx, segs: seq<WireSeg>, xmit0: u32,
      dead0: bool)
    ensures Progress(conv, deadLink, flight, 0, c, segs, xmit0, dead0, flight[..0], segs, 0, false, xmit0, dead0)
  {
    assert flight[..0] == [] && segs + [] == segs;
  }

  lemma ProgressDone(conv: u32, deadLink: u32, flight: seq<Sender.Seg>, c: Sender.Tx, segs: seq<WireSeg>, xmit0: u32,
                     dead0: bool, done: seq<Sender.Seg>, out: seq<WireSeg>, change: nat, lost: bool,
                     xmit: u32, dead: bool)
    requires Progress(conv, deadLink, flight, |flight|, c, segs, xmit0, dead0, done, out, change, lost, xmit, dead)
    ensures done == Sender.TransmitAll(flight, c) && out == segs + ToWires(conv, Sender.Sent(flight, c))
    ensures change == Sender.CountOf(flight, c, Sender.Fast)
    ensures lost <==> Sender.CountOf(flight, c, Sender.Timeout) > 0
    ensures xmit == Wrap(xmit0 + Sender.CountOf(flight, c, Sender.Timeout))
    ensures dead == (dead0 || ReachedDeadLink(deadLink, Sender.Sent(flight, c)))
  {
    assert flight[..|flight|] == flight;
    hide Sender.TransmitAll, Sender.Sent, Sender.CountOf, ReachedDeadLink, ToWires, Wrap;
  }

  /** One more segment. */
  lemma ProgressStep(conv: u32, deadLink: u32, flight: seq<Sender.Seg>, i: nat, c: Sender.Tx, segs: seq<WireSeg>,
                     xmit0: u32, dead0: bool, done: seq<Sender.Seg>, out: seq<WireSeg>, change: nat, lost: bool,
                     xmit: u32, dead: bool)
    requires i < |flight|
    requires Progress(conv, deadLink, flight, i, c, segs, xmit0, dead0, done, out, change, lost, xmit, dead)
    ensures var v, one := Sender.Judge(flight[i], c), Sender.Sent([flight[i]], c);
      Progress(conv, deadLink, flight, i + 1, c, segs, xmit0, dead0, done + [Sender.Transmit(flight[i], c)],
               out + ToWires(conv, one), if v == Sender.Fast then change + 1 else change, lost || v == Sender.Timeout,
               if v == Sender.Timeout then Wrap(xmit + 1) else xmit, dead || ReachedDeadLink(deadLink, one))
  {
    hide *;
    var a, one := flight[..i], [flight[i]];
    assert flight[..i + 1] == a + one;
    SentAppend(a, one, c);
    SentSingle(flight[i], c);
    WiresAppend(conv, Sender.Sent(a, c), Sender.Sent(one, c));
    DeadAppend(deadLink, Sender.Sent(a, c), Sender.Sent(one, c));
    WrapAdd(xmit0 + Sender.CountOf(a, c, Sender.Timeout), 1);
    ProgressIs(conv, deadLink, flight, i, c, segs, xmit0, dead0, done, out, change, lost, xmit, dead);
    var v := Sender.Judge(flight[i], c);
    assert segs + ToWires(conv, Sender.Sent(a, c)) + ToWires(conv, Sender.Sent(one, c))
        == segs + (ToWires(conv, Sender.Sent(a, c)) + ToWires(conv, Sender.Sent(one, c)));
    ProgressIs(conv, deadLink, flight, i + 1, c, segs, xmit0, dead0, done + [Sender.Transmit(flight[i], c)],
               out + ToWires(conv, Sender.Sent(one, c)), if v == Sender.Fast then change + 1 else change,
               lost || v == Sender.Timeout, if v == Sender.Timeout then Wrap(xmit + 1) else xmit,
               dead || ReachedDeadLink(deadLink, Sender.Sent(one, c)));
  }

  lemma ProgressIs(conv: u32, deadLink: u32, flight: seq<Sender.Seg>, i: nat, c: Sender.Tx, segs: seq<WireSeg>,
                   xmit0: u32, dead0: bool, done: seq<Sender.Seg>, out: seq<WireSeg>, change: nat, lost: bool,
                   xmit: u32, dead: bool)
    requires i <= |flight|
    ensures Progress(conv, deadLink, flight, i, c, segs, xmit0, dead0, done, out, change, lost, xmit, dead) <==>
      && done == Sender.TransmitAll(flight[..i], c)
      && out == segs + ToWires(conv, Sender.Sent(flight[..i], c))
      && change == Sender.CountOf(flight[..i], c, Sender.Fast)
      && (lost <==> Sender.CountOf(flight[..i], c, Sender.Timeout) > 0)
      && xmit == Wrap(xmit0 + Sender.CountOf(flight[..i], c, Sender.Timeout))
      && dead == (dead0 || ReachedDeadLink(deadLink, Sender.Sent(flight[..i], c)))
  {
    hide Sender.TransmitAll, Sender.Sent, Sender.CountOf, ReachedDeadLink, ToWires, Wrap;
  }

  lemma {:induction false} SentAppend(a: seq<Sender.Seg>, b: seq<Sender.Seg>, c: Sender.Tx)
    ensures Sender.Sent(a + b, c) == Sender.Sent(a, c) + Sender.Sent(b, c)
    ensures Sender.TransmitAll(a + b, c) == Sender.TransmitAll(a, c) + Sender.TransmitAll(b, c)
    ensures forall v :: Sender.CountOf(a + b, c, v) == Sender.CountOf(a, c, v) + Sender.CountOf(b, c, v)
  {
    hide *;
    if a == [] {
      SentNone(c);
      Lists.Empty(b);
      Lists.Empty(Sender.Sent(b, c));
      Lists.Empty(Sender.TransmitAll(b, c));
    } else {
      Lists.JoinTail(a, b);
      SentHead(a + b, c);
      SentHead(a, c);
      SentAppend(a[1..], b, c);
      Lists.Associative(if Sender.Judge(a[0], c) != Sender.Idle then [Sender.Transmit(a[0], c)] else [],
                        Sender.Sent(a[1..], c), Sender.Sent(b, c));
      Lists.Associative([Sender.Transmit(a[0], c)], Sender.TransmitAll(a[1..], c), Sender.TransmitAll(b, c));
    }
  }

  lemma SentNone(c: Sender.Tx)
    ensures Sender.Sent([], c) == [] && Sender.TransmitAll([], c) == [] && forall v :: Sender.CountOf([], c, v) == 0
  {}

  lemma SentHead(a: seq<Sender.Seg>, c: Sender.Tx)
    requires a != []
    ensures Sender.Sent(a, c) == (if Sender.Judge(a[0], c) != Sender.Idle then [Sender.Transmit(a[0], c)] else []) +
        Sender.Sent(a[1..], c)
    ensures Sender.TransmitAll(a, c) == [Sender.Transmit(a[0], c)] + Sender.TransmitAll(a[1..], c)
    ensures forall v ::
        Sender.CountOf(a, c, v) == (if Sender.Judge(a[0], c) == v then 1 else 0) + Sender.CountOf(a[1..], c, v)
  {
    hide Sender.Judge, Sender.Transmit;
  }

  lemma SentSingle(g: Sender.Seg, c: Sender.Tx)
    ensures Sender.TransmitAll([g], c) == [Sender.Transmit(g, c)]
    ensures forall v :: Sender.CountOf([g], c, v) == if Sender.Judge(g, c) == v then 1 else 0
    ensures Sender.Sent([g], c) == if Sender.Judge(g, c) != Sender.Idle then [Sender.Transmit(g, c)] else []
  {
    hide Sender.Judge, Sender.Transmit;
    assert [g][1..] == [];
  }

  lemma WiresAppend(conv: u32, a: seq<Sender.Seg>, b: seq<Sender.Seg>)
    ensures ToWires(conv, a + b) == ToWires(conv, a) + ToWires(conv, b)
  {}

  lemma DeadAppend(deadLink: u32, a: seq<Sender.Seg>, b: seq<Sender.Seg>)
    ensures ReachedDeadLink(deadLink, a + b) <==> ReachedDeadLink(deadLink, a) || ReachedDeadLink(deadLink, b)
  {
    if ReachedDeadLink(deadLink, a) {
      var i :| 0 <= i < |a| && a[i].xmit >= deadLink;
      assert (a + b)[i] == a[i];
    }
    if ReachedDeadLink(deadLink, b) {
      var i :| 0 <= i < |b| && b[i].xmit >= deadLink;
      assert (a + b)[|a| + i] == b[i];
    }
  }

  /** What one segment adds to the wire, and to the verdict on the link. */
  lemma SentOne(conv: u32, deadLink: u32, g: Sender.Seg, c: Sender.Tx)
    ensures var one := Sender.Sent([g], c);
      && ToWires(conv, one) == (if Sender.Judge(g, c) != Sender.Idle then
          [Sender.ToWire(conv, Sender.Transmit(g, c))] else [])
      && (ReachedDeadLink(deadLink, one) <==>
          Sender.Judge(g, c) != Sender.Idle && Sender.Transmit(g, c).xmit >= deadLink)
  {
    SentSingle(g, c);
    hide Sender.Judge, Sender.Transmit, Sender.Sent;
  }

  lemma TransmitKeeps(g: Sender.Seg, c: Sender.Tx)
    ensures Sender.Transmit(g, c).data == g.data
  {
    hide Sender.Judge, Sender.Backoff, Wrap;
  }

  ghost predicate GroupsSized(groups: seq<seq<WireSeg>>) {
    forall i :: 0 <= i < |groups| ==> AllSized(groups[i])
  }

  /** The encoding of a buffer with one more segment, and of a fresh one. */
  lemma EncodeOne(cur: seq<WireSeg>, s: WireSeg)
    requires AllSized(cur) && Sized(s)
    ensures AllSized(cur + [s]) && AllSized([s])
    ensures EncodeAll(cur + [s]) == EncodeAll(cur) + Encode(s) && TotalSize(cur + [s]) == TotalSize(cur) + Size(s)
    ensures EncodeAll([s]) == Encode(s) && TotalSize([s]) == Size(s)
  {
    hide Encode;
    assert EncodeAll([s]) == Encode(s) + EncodeAll([s][1..]);
    assert TotalSize([s]) == Size(s) + TotalSize([s][1..]);
    EncodeAllAppend(cur, [s]);
    FlushWire.TotalSizeAppend(cur, s);
  }

  lemma {:induction false} DatagramsAppend(groups: seq<seq<WireSeg>>, g: seq<WireSeg>)
    requires GroupsSized(groups) && AllSized(g)
    ensures GroupsSized(groups + [g])
    ensures FlushWire.Datagrams(groups + [g]) == FlushWire.Datagrams(groups) + [EncodeAll(g)]
  {
    hide EncodeAll, AllSized;
    if groups == [] {
      assert groups + [g] == [g];
    } else {
      assert (groups + [g])[1..] == groups[1..] + [g];
      DatagramsAppend(groups[1..], g);
    }
  }

  /** Handing the buffer over closes its datagram. */
  lemma ClosedWire(before: seq<seq<byte>>, o: FlushWire.Out)
    requires AllSized(o.cur) && GroupsSized(o.groups)
    ensures GroupsSized(FlushWire.Closed(o))
    ensures before + FlushWire.Datagrams(FlushWire.Closed(o)) ==
      before + FlushWire.Datagrams(o.groups) + if TotalSize(o.cur) == 0 then [] else [EncodeAll(o.cur)]
  {
    DatagramsAppend(o.groups, o.cur);
    assert o.cur != [] ==> TotalSize(o.cur) >= Size(o.cur[0]);
    assert o.groups + [] == o.groups;
    hide EncodeAll, FlushWire.Datagrams;
  }

  /** The effect of an acknowledgement beyond that of its header. */
  function Acked(cb: Cb, sn: u32, ts: u32): Cb {
    cb.(snd := Sender.ShrinkBuf(Sender.ParseAck(cb.snd, sn)),
        rtt := if TimeDiff(cb.current, ts) >= 0
               then RoundTrip.UpdateAck(cb.rtt, cb.cfg.interval, TimeDiff(cb.current, ts)) else cb.rtt)
  }

  lemma AckedIs(cb: Cb, sn: u32, ts: u32)
    ensures var c := if TimeDiff(cb.current, ts) >= 0
                     then cb.(rtt := RoundTrip.UpdateAck(cb.rtt, cb.cfg.interval, TimeDiff(cb.current, ts))) else cb;
      Acked(cb, sn, ts) == c.(snd := Sender.ShrinkBuf(Sender.ParseAck(c.snd, sn)))
  {
    hide Sender.ShrinkBuf, Sender.ParseAck, RoundTrip.UpdateAck, TimeDiff;
  }

  /** A window that reopens is to be announced. */
  function Reopened(p: Probe, before: Receiver.Rcv, after: Receiver.Rcv): Probe {
    p.(tell := p.tell || (before.nque >= before.wnd && after.nque < after.wnd))
  }

  function ReadableCode(r: Receiver.Rcv, len: int): int {
    var size := Receiver.PeekSize(r);
    if r.queue == [] then -1 else if size < 0 then -2 else if size > (if len < 0 then -len else len) then -3 else 0
  }

  /** The receive side without its head message, unless that was only looked at. */
  function Taken(r: Receiver.Rcv, peek: bool): Receiver.Rcv {
    var k := Receiver.MergeCount(r.queue);
    if peek then r else r.(queue := r.queue[k..], nque := Wrap(r.nque - k))
  }

  lemma RecvIs(before: Cb, len: int)
    requires ControlInvariant.Inv(before)
    ensures ControlInvariant.Inv(UserRecv(before, len).cb)
    ensures var r := before.rcv;
      var moved := Receiver.MoveReady(Taken(r, len < 0));
      var data := Receiver.Payload(r.queue[..Receiver.MergeCount(r.queue)]);
      UserRecv(before, len) ==
         if ReadableCode(r, len) != 0 then RecvOutcome(before, ReadableCode(r, len), [])
         else RecvOutcome(before.(rcv := moved, probe := Reopened(before.probe, r, moved)), |data|, data)
  {
    ControlInvariant.UserRecvInv(before, len);
    hide Wrap, Receiver.Ready, Receiver.PeekSize, Receiver.Payload, Receiver.MergeCount, ControlInvariant.Inv;
  }

  lemma MoveOne(r: Receiver.Rcv)
    requires r.buf != []
    ensures r.buf[0].sn == r.nxt && r.nque < r.wnd ==>
      Receiver.MoveReady(r) == Receiver.MoveReady(r.(queue := r.queue + [r.buf[0]], buf := r.buf[1..],
                                                     nxt := Wrap(r.nxt + 1), nque := Wrap(r.nque + 1),
                                                     nbuf := Wrap(r.nbuf - 1)))
    ensures !(r.buf[0].sn == r.nxt && r.nque < r.wnd) ==> Receiver.MoveReady(r) == r
  {
    hide *;
    MoveReadyIs(r);
    if r.buf[0].sn == r.nxt && r.nque < r.wnd {
      var t := r.(queue := r.queue + [r.buf[0]], buf := r.buf[1..], nxt := Wrap(r.nxt + 1), nque := Wrap(r.nque + 1),
                  nbuf := Wrap(r.nbuf - 1));
      MoveReadyIs(t);
      ReadyOne(r.buf, r.nxt, r.wnd - r.nque);
      WrapSmall(r.nque + 1);
      MovedOn(r, t, Receiver.Ready(t.buf, t.nxt, t.wnd - t.nque));
    } else {
      ReadyNone(r.buf, r.nxt, r.wnd - r.nque);
      MovedNone(r);
    }
  }

  /** The receive side with the first `a` buffered segments handed over. */
  ghost function Moved(r: Receiver.Rcv, a: nat): Receiver.Rcv
    requires a <= |r.buf|
  {
    r.(nxt := Wrap(r.nxt + a), queue := r.queue + r.buf[..a], buf := r.buf[a..], nque := Wrap(r.nque + a),
       nbuf := Wrap(r.nbuf - a))
  }

  /** Moving one segment and then `b` is moving `1 + b`. */
  lemma MovedOn(r: Receiver.Rcv, t: Receiver.Rcv, b: int)
    requires r.buf != [] && 0 <= b <= |t.buf|
    requires t == r.(queue := r.queue + [r.buf[0]], buf := r.buf[1..], nxt := Wrap(r.nxt + 1), nque := Wrap(r.nque + 1),
                     nbuf := Wrap(r.nbuf - 1))
    ensures Moved(r, 1 + b) == Moved(t, b)
  {
    hide Wrap;
    WrapAdd(r.nxt + 1, b);
    WrapAdd(r.nque + 1, b);
    WrapAdd(r.nbuf - 1, -b);
    Lists.ShiftOne(r.queue, r.buf, b);
  }

  lemma MovedNone(r: Receiver.Rcv)
    ensures Moved(r, 0) == r
  {
    Lists.Empty(r.queue);
  }

  lemma WrapSmall(x: nat)
    ensures x < 0x1_0000_0000 ==> Wrap(x) == x
  {}

  lemma MoveReadyIs(r: Receiver.Rcv)
    ensures var a := Receiver.Ready(r.buf, r.nxt, r.wnd - r.nque);
      a <= |r.buf| && Receiver.MoveReady(r) == Moved(r, a)
  {
    hide Wrap, Receiver.Ready;
  }

  lemma ReadyOne(buf: seq<WireSeg>, nxt: u32, room: int)
    requires buf != [] && buf[0].sn == nxt && room > 0
    ensures Receiver.Ready(buf, nxt, room) == 1 + Receiver.Ready(buf[1..], Wrap(nxt + 1), room - 1)
  {
    hide Wrap;
  }

  lemma ReadyNone(buf: seq<WireSeg>, nxt: u32, room: int)
    requires buf != [] && !(buf[0].sn == nxt && room > 0)
    ensures Receiver.Ready(buf, nxt, room) == 0
  {}

  lemma MoveNone(r: Receiver.Rcv)
    requires r.buf == []
    ensures Receiver.MoveReady(r) == r
  {
    hide Wrap;
  }

  lemma {:induction false} PayloadAppend(a: seq<WireSeg>, b: seq<WireSeg>)
    ensures Receiver.Payload(a + b) == Receiver.Payload(a) + Receiver.Payload(b)
  {
    if a == [] {
      assert a + b == b;
    } else {
      assert (a + b)[1..] == a[1..] + b;
      PayloadAppend(a[1..], b);
    }
  }

  lemma PayloadStep(queue: seq<WireSeg>, i: nat)
    requires i < |queue|
    ensures Receiver.Payload(queue[..i + 1]) == Receiver.Payload(queue[..i]) + queue[i].data
  {
    PayloadAppend(queue[..i], [queue[i]]);
    assert queue[..i] + [queue[i]] == queue[..i + 1];
    assert Receiver.Payload([queue[i]]) == queue[i].data + Receiver.Payload([queue[i]][1..]);
  }

  lemma PayloadNone(queue: seq<WireSeg>)
    ensures Receiver.Payload(queue[..0]) == []
  {}

  /** The scan for the first `frg == 0` ends where the merge ends. */
  lemma MergedAll(queue: seq<WireSeg>, i: nat)
    requires i <= |queue| && (queue == [] || i > 0) && forall j :: 0 <= j < i - 1 ==> queue[j].frg != 0
    requires i == |queue| || queue[i - 1].frg == 0
    ensures Receiver.MergeCount(queue) == i
  {}

  lemma PeekIgnoresAcks(r: Receiver.Rcv)
    ensures Receiver.PeekSize(r.(acks := [])) == Receiver.PeekSize(r)
  {
    hide Receiver.Payload, Receiver.MergeCount;
  }

  lemma SendIs(before: Cb, snd: Sender.Snd, code: int, mss: u32, msg: seq<byte>, rest: seq<byte>)
    requires ControlInvariant.Inv(before) && mss == Mss(before.cfg)
    requires rest == if before.cfg.stream then msg[Sender.Extend(before.snd, mss, |msg|)..] else msg
    requires Sender.SendResult(snd, code) ==
      if before.cfg.stream && |rest| == 0 then Sender.SendResult(Sender.Extended(before.snd, mss, msg), 0)
      else Sender.Enqueue(if before.cfg.stream then Sender.Extended(before.snd, mss, msg) else before.snd, mss,
                          before.cfg.stream, rest)
    ensures ControlInvariant.Inv(before.(snd := snd)) && SendOutcome(before.(snd := snd), code) == UserSend(before, msg)
  {
    hide Sender.Enqueue, Sender.Extended, Sender.Extend, ControlInvariant.Inv;
    assert Sender.SendResult(snd, code) == Sender.Send(before.snd, mss, before.cfg.stream, msg);
    hide Sender.Send;
    ControlInvariant.UserSendInv(before, msg);
  }

  lemma FragmentStep(queue: seq<Sender.Frag>, f: Sender.Frag, rest: seq<byte>, count: nat, mss: nat, stream: bool)
    requires 0 < count < Sender.MAX_FRAGMENTS
    requires var size := if |rest| > mss then mss else |rest|;
      f == Sender.Frag(if stream then 0 else count - 1, rest[..size])
    ensures var size := if |rest| > mss then mss else |rest|;
      queue + Sender.Fragments(rest, count, mss, stream) ==
      queue + [f] + Sender.Fragments(rest[size..], count - 1, mss, stream)
  {}

  lemma FragmentNone(rest: seq<byte>, mss: nat, stream: bool)
    ensures Sender.Fragments(rest, 0, mss, stream) == []
  {}

  lemma WithoutStep(buf: seq<Sender.Seg>, i: nat, sn: u32)
    requires i < |buf| && Sender.WithoutSn(buf, sn) == buf[..i] + Sender.WithoutSn(buf[i..], sn)
    ensures sn == buf[i].sn ==> Sender.WithoutSn(buf, sn) == buf[..i] + buf[i + 1..]
    ensures sn != buf[i].sn && TimeDiff(sn, buf[i].sn) < 0 ==> Sender.WithoutSn(buf, sn) == buf
    ensures sn != buf[i].sn && TimeDiff(sn, buf[i].sn) >= 0 ==>
      Sender.WithoutSn(buf, sn) == buf[..i + 1] + Sender.WithoutSn(buf[i + 1..], sn)
  {
    hide *;
    WithoutHead(buf[i..], sn);
    Lists.SplitAt(buf, i);
    Lists.Associative(buf[..i], [buf[i]], Sender.WithoutSn(buf[i + 1..], sn));
  }

  lemma WithoutHead(buf: seq<Sender.Seg>, sn: u32)
    requires buf != []
    ensures Sender.WithoutSn(buf, sn) ==
      if sn == buf[0].sn then buf[1..] else if TimeDiff(sn, buf[0].sn) < 0 then buf
      else [buf[0]] + Sender.WithoutSn(buf[1..], sn)
  {
    hide TimeDiff;
  }

  lemma WithoutNone(buf: seq<Sender.Seg>, sn: u32)
    requires Sender.WithoutSn(buf, sn) == buf[..|buf|] + Sender.WithoutSn(buf[|buf|..], sn)
    ensures Sender.WithoutSn(buf, sn) == buf
  {
    hide TimeDiff;
  }

  lemma UnaStep(s: Sender.Snd, una: u32)
    ensures s.buf != [] && TimeDiff(una, s.buf[0].sn) > 0 ==>
      Sender.ParseUna(s, una) == Sender.ParseUna(s.(buf := s.buf[1..], nbuf := Wrap(s.nbuf - 1)), una)
    ensures s.buf == [] || TimeDiff(una, s.buf[0].sn) <= 0 ==> Sender.ParseUna(s, una) == s
  {
    hide TimeDiff, Wrap;
    if s.buf != [] && TimeDiff(una, s.buf[0].sn) > 0 {
      var k: int := Sender.BelowUna(s.buf[1..], una);
      WrapAdd(s.nbuf - 1, -k);
      assert s.buf[1..][k..] == s.buf[1 + k..];
    }
  }

  /** The scan from segment `i` on. */
  ghost function SkippedFrom(buf: seq<Sender.Seg>, i: nat, sn: u32): seq<Sender.Seg>
    requires i <= |buf|
  {
    buf[..i] + Sender.Skipped(buf[i..], sn)
  }

  lemma SkippedStart(buf: seq<Sender.Seg>, sn: u32)
    ensures SkippedFrom(buf, 0, sn) == Sender.Skipped(buf, sn)
  {
    hide Sender.Skipped;
    assert buf[0..] == buf;
  }

  lemma SkippedStop(buf: seq<Sender.Seg>, i: nat, sn: u32)
    requires i < |buf| && TimeDiff(sn, buf[i].sn) < 0
    ensures SkippedFrom(buf, i, sn) == buf
  {
    hide *;
    SkippedHead(buf[i..], sn);
    Lists.SplitAt(buf, i);
    SkippedFromIs(buf, i, sn);
  }

  lemma SkippedSame(buf: seq<Sender.Seg>, i: nat, sn: u32)
    requires i < |buf| && TimeDiff(sn, buf[i].sn) >= 0 && sn == buf[i].sn
    ensures SkippedFrom(buf, i, sn) == SkippedFrom(buf, i + 1, sn)
  {
    hide *;
    SkippedHead(buf[i..], sn);
    Lists.SplitAt(buf, i);
    SkippedFromIs(buf, i, sn);
    SkippedFromIs(buf, i + 1, sn);
    Lists.Associative(buf[..i], [buf[i]], Sender.Skipped(buf[i + 1..], sn));
  }

  lemma SkippedCount(buf: seq<Sender.Seg>, i: nat, sn: u32)
    requires i < |buf| && TimeDiff(sn, buf[i].sn) >= 0 && sn != buf[i].sn
    ensures SkippedFrom(buf, i, sn) ==
            SkippedFrom(buf[i := buf[i].(fastack := Wrap(buf[i].fastack + 1))], i + 1, sn)
  {
    hide *;
    var g := buf[i].(fastack := Wrap(buf[i].fastack + 1));
    SkippedHead(buf[i..], sn);
    Lists.SplitAt(buf, i);
    SkippedFromIs(buf, i, sn);
    SkippedFromIs(buf[i := g], i + 1, sn);
    SkippedNext(buf, i, g, sn);
  }

  lemma SkippedFromIs(buf: seq<Sender.Seg>, i: nat, sn: u32)
    requires i <= |buf|
    ensures SkippedFrom(buf, i, sn) == buf[..i] + Sender.Skipped(buf[i..], sn)
  {
    hide Sender.Skipped;
  }

  lemma SkippedNext(buf: seq<Sender.Seg>, i: nat, g: Sender.Seg, sn: u32)
    requires i < |buf|
    ensures var next := buf[i := g];
      next[..i + 1] + Sender.Skipped(next[i + 1..], sn) == buf[..i] + ([g] + Sender.Skipped(buf[i + 1..], sn))
  {
    hide *;
    Lists.UpdateAt(buf, i, g);
    Lists.Associative(buf[..i], [g], Sender.Skipped(buf[i + 1..], sn));
  }

  lemma SkippedHead(buf: seq<Sender.Seg>, sn: u32)
    requires buf != []
    ensures Sender.Skipped(buf, sn) ==
      if TimeDiff(sn, buf[0].sn) < 0 then buf
      else
        [if sn != buf[0].sn then buf[0].(fastack := Wrap(buf[0].fastack + 1)) else buf[0]]
        + Sender.Skipped(buf[1..], sn)
  {
    hide TimeDiff, Wrap;
  }

  lemma SkippedNone(buf: seq<Sender.Seg>, i: nat, sn: u32)
    requires i == |buf|
    ensures SkippedFrom(buf, i, sn) == buf
  {
    hide TimeDiff;
  }

  /** The search from place `p` down, with what lies behind it. */
  ghost function InsertFrom(buf: seq<WireSeg>, p: nat, seg: WireSeg): seq<WireSeg>
    requires p <= |buf|
  {
    Receiver.InsertFromTail(buf[..p], seg) + buf[p..]
  }

  lemma InsertFromIs(buf: seq<WireSeg>, p: nat, seg: WireSeg)
    requires p <= |buf|
    ensures InsertFrom(buf, p, seg) == Receiver.InsertFromTail(buf[..p], seg) + buf[p..]
  {
    hide Receiver.InsertFromTail;
  }

  lemma InsertStart(buf: seq<WireSeg>, seg: WireSeg)
    ensures InsertFrom(buf, |buf|, seg) == Receiver.InsertFromTail(buf, seg)
  {
    hide Receiver.InsertFromTail;
    assert buf[..|buf|] == buf;
  }

  lemma InsertLast(buf: seq<WireSeg>, p: nat, seg: WireSeg)
    requires 0 < p <= |buf|
    ensures Receiver.InsertFromTail(buf[..p], seg) ==
      (if buf[p - 1].sn == seg.sn then buf[..p]
       else if TimeDiff(seg.sn, buf[p - 1].sn) > 0 then buf[..p] + [seg]
       else Receiver.InsertFromTail(buf[..p - 1], seg) + [buf[p - 1]])
  {
    hide TimeDiff;
    assert buf[..p][..p - 1] == buf[..p - 1] && buf[..p][p - 1] == buf[p - 1];
  }

  lemma InsertRepeated(buf: seq<WireSeg>, p: nat, seg: WireSeg)
    requires 0 < p <= |buf| && buf[p - 1].sn == seg.sn
    ensures InsertFrom(buf, p, seg) == buf
  {
    hide *;
    InsertFromIs(buf, p, seg);
    InsertLast(buf, p, seg);
    Lists.Halves(buf, p);
  }

  lemma InsertBehind(buf: seq<WireSeg>, p: nat, seg: WireSeg)
    requires 0 < p <= |buf| && buf[p - 1].sn != seg.sn && TimeDiff(seg.sn, buf[p - 1].sn) > 0
    ensures InsertFrom(buf, p, seg) == buf[..p] + [seg] + buf[p..]
  {
    hide *;
    InsertFromIs(buf, p, seg);
    InsertLast(buf, p, seg);
  }

  lemma InsertBefore(buf: seq<WireSeg>, p: nat, seg: WireSeg)
    requires 0 < p <= |buf| && buf[p - 1].sn != seg.sn && TimeDiff(seg.sn, buf[p - 1].sn) <= 0
    ensures InsertFrom(buf, p - 1, seg) == InsertFrom(buf, p, seg)
  {
    hide *;
    InsertFromIs(buf, p, seg);
    InsertFromIs(buf, p - 1, seg);
    InsertLast(buf, p, seg);
    Lists.SplitAt(buf, p - 1);
    Lists.Associative(Receiver.InsertFromTail(buf[..p - 1], seg), [buf[p - 1]], buf[p..]);
  }

  lemma OnSegmentIs(cb: Cb, s: WireSeg)
    ensures var snd := Sender.ShrinkBuf(Sender.ParseUna(cb.snd, s.una));
      var c := cb.(rmtWnd := s.wnd, snd := snd);
      Control.OnSegment(cb, s) ==
        if s.cmd == CMD_ACK then Acked(c, s.sn, s.ts)
        else if s.cmd == CMD_PUSH then c.(rcv := Receiver.OnPush(cb.rcv, s))
        else if s.cmd == CMD_WASK then c.(probe := cb.probe.(tell := true))
        else c
  {
    hide TimeDiff, Sender.ParseUna, Sender.ParseAck, Sender.ShrinkBuf, Receiver.OnPush, RoundTrip.UpdateAck;
  }

  lemma InsertedIs(r: Receiver.Rcv, t: Receiver.Rcv, seg: WireSeg)
    requires t == r.(buf := Receiver.InsertFromTail(r.buf, seg), nbuf := if t.buf == r.buf then r.nbuf
        else Wrap(r.nbuf + 1))
    requires t.buf == r.buf || |t.buf| == |r.buf| + 1
    ensures t == Receiver.Inserted(r, seg)
  {
    hide Wrap, Receiver.InsertFromTail;
  }

  lemma InsertFirst(buf: seq<WireSeg>, seg: WireSeg)
    ensures InsertFrom(buf, 0, seg) == buf[..0] + [seg] + buf[0..]
  {
    assert Receiver.InsertFromTail(buf[..0], seg) == [seg];
  }

  lemma ParseDataIs(r: Receiver.Rcv, seg: WireSeg)
    ensures Receiver.ParseData(r, seg) ==
      if TimeDiff(seg.sn, Wrap(r.nxt + r.wnd)) >= 0 || TimeDiff(seg.sn, r.nxt) < 0 then r
      else Receiver.MoveReady(Receiver.Inserted(r, seg))
  {
    hide TimeDiff, Wrap, Receiver.MoveReady, Receiver.Inserted;
  }

  /** What is left to parse, applied to the state reached, gives the same as everything from the start. */
  ghost predicate Remaining(before: Cb, now: Cb, h0: Highest, h: Highest, all: Parsed, rest: Parsed) {
    && OnSegments(now, rest.segs) == OnSegments(before, all.segs)
    && HighestAck(h, rest.segs) == HighestAck(h0, all.segs) && rest.code == all.code
  }

  lemma RemainingStart(before: Cb, h0: Highest, all: Parsed)
    ensures Remaining(before, before, h0, h0, all, all)
  {
    hide OnSegments, HighestAck;
  }

  lemma RemainingStep(before: Cb, now: Cb, h0: Highest, h: Highest, all: Parsed, s: WireSeg, rest: Parsed)
    requires Remaining(before, now, h0, h, all, Parsed([s] + rest.segs, rest.code))
    ensures Remaining(before, Control.OnSegment(now, s), h0, OnAck(h, s), all, rest)
    ensures OnAck(h, s) == if s.cmd != CMD_ACK then h
                           else if h == NoAck || TimeDiff(s.sn, h.sn) > 0 then Highest.Ack(s.sn) else h
  {
    hide Control.OnSegment, TimeDiff;
    assert ([s] + rest.segs)[1..] == rest.segs;
  }

  lemma RemainingDone(before: Cb, now: Cb, h0: Highest, h: Highest, all: Parsed, rest: Parsed)
    requires Remaining(before, now, h0, h, all, rest) && rest.segs == []
    ensures now == OnSegments(before, all.segs) && h == HighestAck(h0, all.segs) && rest.code == all.code
  {
    hide Control.OnSegment;
  }

  /** One turn of the header loop. */
  lemma ParseStep(conv: u32, data: seq<byte>, pos: nat)
    requires pos + 24 <= |data|
    ensures OVERHEAD == 24 && CMD_PUSH == 81 && CMD_ACK == 82 && CMD_WASK == 83 && CMD_WINS == 84
    ensures var p := data[pos..];
      var h := DecodeHeader(p);
      && |p| >= 24 && h.conv == Decode32(p)
      && (h.conv != conv ==> Parse(conv, p) == Parsed([], -1))
      && (h.conv == conv && (|p| - 24 < h.len || ToI32(h.len) < 0) ==> Parse(conv, p) == Parsed([], -2))
      && (h.conv == conv && !(|p| - 24 < h.len || ToI32(h.len) < 0) ==>
            if !ValidCmd(h.cmd) then Parse(conv, p) == Parsed([], -3) else
            pos + 24 + h.len <= |data| &&
            var s := WireSeg(h.conv, h.cmd, h.frg, h.wnd, h.ts, h.sn, h.una, data[pos + 24..pos + 24 + h.len]);
            Size(s) == 24 + h.len &&
            var rest := Parse(conv, data[pos + Size(s)..]); Parse(conv, p) == Parsed([s] + rest.segs, rest.code))
    ensures ValidCmd(DecodeHeader(data[pos..]).cmd) <==>
      DecodeHeader(data[pos..]).cmd == 81 || DecodeHeader(data[pos..]).cmd == 82
      || DecodeHeader(data[pos..]).cmd == 83 || DecodeHeader(data[pos..]).cmd == 84
  {
    hide DecodeHeader, ToI32, Parse, ParseOne, Decode32;
    var p := data[pos..];
    var h := DecodeHeader(p);
    ConvOf(p);
    OneIs(conv, p);
    ParseIs(conv, p);
    if h.conv == conv && !(|p| - 24 < h.len || ToI32(h.len) < 0) {
      Lists.DropSlice(data, pos, 24, 24 + h.len);
    }
  }

  lemma ConvOf(p: seq<byte>)
    requires |p| >= 24
    ensures DecodeHeader(p).conv == Decode32(p)
  {
    hide Decode32, Decode16;
  }

  lemma OneIs(conv: u32, p: seq<byte>)
    requires |p| >= 24
    ensures var h := DecodeHeader(p);
      ParseOne(conv, p) ==
        if h.conv != conv then Parsed([], -1)
        else if |p| - 24 < h.len || ToI32(h.len) < 0 then Parsed([], -2)
        else if !ValidCmd(h.cmd) then Parsed([], -3)
        else Parsed([WireSeg(h.conv, h.cmd, h.frg, h.wnd, h.ts, h.sn, h.una, p[24..24 + h.len])], 0)
  {
    hide DecodeHeader, ToI32, ValidCmd;
  }

  lemma ParseIs(conv: u32, p: seq<byte>)
    requires |p| >= 24
    ensures ParseOne(conv, p).code != 0 ==> Parse(conv, p) == ParseOne(conv, p)
    ensures ParseOne(conv, p).code == 0 ==>
      var one := ParseOne(conv, p);
      var rest := Parse(conv, p[Size(one.segs[0])..]);
      Parse(conv, p) == Parsed(one.segs + rest.segs, rest.code)
  {
    hide ParseOne, Size;
  }

  lemma InputIs(cb: Cb, data: seq<byte>)
    requires ControlInvariant.Inv(cb)
    ensures ControlInvariant.Inv(Control.Input(cb, data).cb)
    ensures var p := Parse(cb.cfg.conv, data);
      var c := OnSegments(cb, p.segs);
      && ValidConfig(c.cfg)
      && Control.Input(cb, data) ==
         if ToI32(|data|) < 24 then InputResult(cb, -1)
         else if p.code != 0 then InputResult(c, p.code)
         else InputResult(Finish(c, cb.snd.una, HighestAck(NoAck, p.segs)), 0)
  {
    ControlInvariant.InputInv(cb, data);
    OnSegmentsConfig(cb, Parse(cb.cfg.conv, data).segs);
    hide ControlInvariant.Inv, OnSegments, Finish, HighestAck, Parse, ToI32;
  }

  lemma ParseStop(conv: u32, data: seq<byte>, pos: nat)
    requires pos <= |data| < pos + 24
    ensures Parse(conv, data[pos..]) == Parsed([], 0)
  {}

  lemma EmitNext(mtu: nat, segs: seq<WireSeg>, s: WireSeg)
    ensures FlushWire.EmitAll(mtu, segs + [s]) == FlushWire.Emit(mtu, FlushWire.EmitAll(mtu, segs), s)
  {
    assert (segs + [s])[..|segs|] == segs;
    hide FlushWire.Emit;
  }

  /** One turn of the admission loop. */
  lemma AdmitTurn(s: Sender.Snd, window: u32, c: Sender.Tx)
    ensures TimeDiff(s.nxt, Wrap(s.una + window)) >= 0 || s.queue == [] ==> Sender.Admit(s, window, c) == s
    ensures TimeDiff(s.nxt, Wrap(s.una + window)) < 0 && s.queue != [] ==>
      var g := Sender.Seg(s.queue[0].frg, s.queue[0].data, c.wnd, c.current, s.nxt, c.ack, c.current, c.rxRto, 0, 0);
      Sender.Admit(s, window, c) ==
      Sender.Admit(s.(queue := s.queue[1..], buf := s.buf + [g], nque := Wrap(s.nque - 1), nbuf := Wrap(s.nbuf + 1),
                      nxt := Wrap(s.nxt + 1)), window, c)
  {
    hide TimeDiff, Wrap;
  }
}
