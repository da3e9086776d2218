/** What a flush puts on the wire: datagrams of 1 to `mtu` bytes which, read back with the header
    loop of the input routine, give exactly the pending acknowledgements, the window probes and the
    transmitted segments. */
module FlushWire {
  import opened Serial
  import opened Wire
  import opened Control
  import Sender
  import ControlInvariant
  import Congestion
  import Lists

  /** The datagrams of a flush, as handed to the output callback. */
  function Datagrams(groups: seq<seq<WireSeg>>): seq<seq<byte>>
    requires forall i :: 0 <= i < |groups| ==> AllSized(groups[i])
  {
    if groups == [] then [] else [EncodeAll(groups[0])] + Datagrams(groups[1..])
  }

  /** Reading a sequence of datagrams, in order. */
  function ReadBack(conv: u32, datagrams: seq<seq<byte>>): seq<WireSeg> {
    if datagrams == [] then [] else Parse(conv, datagrams[0]).segs + ReadBack(conv, datagrams[1..])
  }

  /** Every group is a datagram of at least one segment and at most `mtu` bytes. */
  ghost predicate WellPacked(mtu: nat, conv: u32, groups: seq<seq<WireSeg>>) {
    forall i :: 0 <= i < |groups| ==>
      groups[i] != [] && TotalSize(groups[i]) <= mtu && AllAcceptable(conv, groups[i])
  }

  ghost predicate Packable(mtu: nat, conv: u32, segs: seq<WireSeg>) {
    forall i :: 0 <= i < |segs| ==> Acceptable(conv, segs[i]) && Size(segs[i]) <= mtu
  }

  lemma {:induction false} TotalSizeAppend(a: seq<WireSeg>, s: WireSeg)
    ensures TotalSize(a + [s]) == TotalSize(a) + Size(s)
  {
    if a != [] {
      assert (a + [s])[1..] == a[1..] + [s];
      TotalSizeAppend(a[1..], s);
    }
  }

  lemma OneWellPacked(mtu: nat, conv: u32, cur: seq<WireSeg>)
    requires AllAcceptable(conv, cur) && TotalSize(cur) <= mtu
    ensures WellPacked(mtu, conv, if cur == [] then [] else [cur])
  {
    hide AllAcceptable, TotalSize;
  }

  lemma WellPackedJoin(mtu: nat, conv: u32, cur: seq<WireSeg>, tail: seq<seq<WireSeg>>)
    requires cur != [] && AllAcceptable(conv, cur) && TotalSize(cur) <= mtu && WellPacked(mtu, conv, tail)
    ensures WellPacked(mtu, conv, [cur] + tail)
  {
    hide AllAcceptable, TotalSize;
  }

  /** Packing loses, adds and reorders nothing, whatever is already buffered. */
  lemma {:induction false} PackSpec(mtu: nat, conv: u32, cur: seq<WireSeg>, segs: seq<WireSeg>)
    requires Packable(mtu, conv, segs) && AllAcceptable(conv, cur) && TotalSize(cur) <= mtu
    ensures Lists.Concat(Pack(mtu, cur, segs)) == cur + segs
    ensures WellPacked(mtu, conv, Pack(mtu, cur, segs))
    decreases |segs|
  {
    hide Acceptable, WellPacked;
    if segs == [] {
      Lists.ConcatOne(cur);
      Lists.Empty(cur);
      OneWellPacked(mtu, conv, cur);
    } else {
      var s, rest := segs[0], segs[1..];
      Lists.SplitAt(segs, 0);
      if TotalSize(cur) + Size(s) > mtu {
        assert TotalSize([s]) == Size(s) + TotalSize([]);
        assert cur != [];
        PackSpec(mtu, conv, [s], rest);
        var tail := Pack(mtu, [s], rest);
        hide *;
        PackFull(mtu, cur, segs);
        Lists.ConcatAppend([cur], tail);
        Lists.ConcatOne(cur);
        WellPackedJoin(mtu, conv, cur, tail);
      } else {
        TotalSizeAppend(cur, s);
        Lists.Associative(cur, [s], rest);
        PackSpec(mtu, conv, cur + [s], rest);
      }
    }
  }

  /** The first segment of the next datagram would not have fitted into this one. */
  ghost predicate Full(mtu: nat, groups: seq<seq<WireSeg>>, i: nat)
    requires i + 1 < |groups|
  {
    groups[i + 1] != [] && TotalSize(groups[i]) + Size(groups[i + 1][0]) > mtu
  }

  ghost predicate Greedy(mtu: nat, groups: seq<seq<WireSeg>>) {
    forall i :: 0 <= i < |groups| - 1 ==> Full(mtu, groups, i)
  }

  /** No datagram ends before it has to. */
  lemma {:induction false} PackGreedy(mtu: nat, cur: seq<WireSeg>, segs: seq<WireSeg>)
    ensures Greedy(mtu, Pack(mtu, cur, segs))
    ensures cur != [] ==> Pack(mtu, cur, segs) != [] && cur <= Pack(mtu, cur, segs)[0]
    decreases |segs|
  {
    hide TotalSize, Size, Greedy;
    if segs == [] {
      GreedyShort(mtu, Pack(mtu, cur, segs));
    } else if TotalSize(cur) + Size(segs[0]) > mtu {
      PackGreedy(mtu, [segs[0]], segs[1..]);
      var tail := Pack(mtu, [segs[0]], segs[1..]);
      GreedyJoin(mtu, cur, tail, segs[0]);
      Lists.Empty(tail);
    } else {
      PackGreedy(mtu, cur + [segs[0]], segs[1..]);
    }
  }

  lemma GreedyShort(mtu: nat, groups: seq<seq<WireSeg>>)
    requires |groups| <= 1
    ensures Greedy(mtu, groups)
  {}

  lemma GreedyJoin(mtu: nat, cur: seq<WireSeg>, tail: seq<seq<WireSeg>>, s: WireSeg)
    requires Greedy(mtu, tail) && tail != [] && [s] <= tail[0] && TotalSize(cur) + Size(s) > mtu
    ensures Greedy(mtu, [cur] + tail)
  {
    hide TotalSize, Size;
    var groups := [cur] + tail;
    forall i | 0 <= i < |groups| - 1 ensures Full(mtu, groups, i) {
      if i > 0 { assert Full(mtu, tail, i - 1); }
    }
  }

  lemma PackFull(mtu: nat, cur: seq<WireSeg>, segs: seq<WireSeg>)
    requires segs != [] && TotalSize(cur) + Size(segs[0]) > mtu
    ensures Pack(mtu, cur, segs) == (if cur == [] then [] else [cur]) + Pack(mtu, [segs[0]], segs[1..])
  {
    hide TotalSize;
  }

  /** The output buffer as the engine fills it: the datagrams already handed over, and the segments
      buffered for the next one. */
  datatype Out = Out(groups: seq<seq<WireSeg>>, cur: seq<WireSeg>)

  function Emit(mtu: nat, o: Out, s: WireSeg): Out {
    if TotalSize(o.cur) + Size(s) > mtu then Out(Closed(o), [s]) else o.(cur := o.cur + [s])
  }

  /** The buffer is handed over unless it is empty. */
  function Closed(o: Out): seq<seq<WireSeg>> {
    o.groups + if o.cur == [] then [] else [o.cur]
  }

  function EmitAll(mtu: nat, segs: seq<WireSeg>): Out
    decreases |segs|
  {
    if segs == [] then Out([], []) else Emit(mtu, EmitAll(mtu, segs[..|segs| - 1]), segs[|segs| - 1])
  }

  lemma EmitNothing(mtu: nat)
    ensures EmitAll(mtu, []) == Out([], [])
  {}

  /** Emitting one by one packs the segments the same way. */
  lemma {:induction false} EmitPacks(mtu: nat, a: seq<WireSeg>, b: seq<WireSeg>)
    ensures Pack(mtu, [], a + b) == EmitAll(mtu, a).groups + Pack(mtu, EmitAll(mtu, a).cur, b)
    decreases |a|
  {
    hide TotalSize, Size;
    if a == [] {
      assert a + b == b;
    } else {
      var n := |a| - 1;
      var o, rest := EmitAll(mtu, a[..n]), [a[n]] + b;
      assert a[..n] + rest == a + b;
      EmitPacks(mtu, a[..n], rest);
      assert rest[0] == a[n] && rest[1..] == b;
    }
  }

  lemma PackIsEmit(mtu: nat, segs: seq<WireSeg>)
    ensures Pack(mtu, [], segs) == Closed(EmitAll(mtu, segs))
  {
    EmitPacks(mtu, segs, []);
    assert segs + [] == segs;
    hide EmitAll, TotalSize;
  }

  lemma {:induction false} EncodedSize(segs: seq<WireSeg>)
    requires AllSized(segs)
    ensures |EncodeAll(segs)| == TotalSize(segs)
  {
    hide Encode;
    if segs != [] { EncodedSize(segs[1..]); }
  }

  lemma {:induction false} ReadBackPacked(mtu: nat, conv: u32, groups: seq<seq<WireSeg>>)
    requires WellPacked(mtu, conv, groups)
    ensures ReadBack(conv, Datagrams(groups)) == Lists.Concat(groups)
    ensures |Datagrams(groups)| == |groups|
    ensures forall i :: 0 <= i < |groups| ==> 1 <= |Datagrams(groups)[i]| <= mtu
  {
    hide Parse, Acceptable, EncodeAll;
    if groups != [] {
      ParseEncoded(conv, groups[0]);
      EncodedSize(groups[0]);
      assert TotalSize(groups[0]) >= OVERHEAD;
      ReadBackPacked(mtu, conv, groups[1..]);
      var ds := Datagrams(groups);
      assert ds[1..] == Datagrams(groups[1..]);
    }
  }

  lemma {:induction false} SentFits(conv: u32, mss: nat, buf: seq<Sender.Seg>, c: Sender.Tx)
    requires mss < HALF && forall i :: 0 <= i < |buf| ==> |buf[i].data| <= mss
    ensures Packable(OVERHEAD + mss, conv, ToWires(conv, Sender.Sent(buf, c)))
  {
    hide Sender.Judge, Sender.Backoff, Wrap;
    if buf != [] {
      SentFits(conv, mss, buf[1..], c);
      var sent, rest := Sender.Sent(buf, c), Sender.Sent(buf[1..], c);
      if Sender.Judge(buf[0], c) != Sender.Idle {
        assert sent == [Sender.Transmit(buf[0], c)] + rest;
        assert sent[1..] == rest;
      } else {
        assert sent == rest;
      }
    }
  }

  /** The flush/parse round trip: what the datagrams of one flush carry is, in this order, one
      acknowledgement per entry of the list, the flagged window probes, and the segments judged due. */
  lemma FlushReadBack(cb: Cb)
    requires ControlInvariant.Inv(cb) && cb.updated
    ensures WellPacked(cb.cfg.mtu, cb.cfg.conv, Pack(cb.cfg.mtu, [], Flush(cb).emitted))
    ensures var ds := Datagrams(Pack(cb.cfg.mtu, [], Flush(cb).emitted));
      && (forall i :: 0 <= i < |ds| ==> 1 <= |ds[i]| <= cb.cfg.mtu)
      && ReadBack(cb.cfg.conv, ds) ==
         AckSegs(cb, cb.rcv.acks)
         + ProbeSegs(cb, ProbeTimer(cb.probe, cb.rmtWnd, cb.current))
         + ToWires(cb.cfg.conv, Sender.Sent(Sender.Admit(cb.snd, SendWindow(cb), TxOf(cb)).buf, TxOf(cb)))
  {
    EmittedPackable(cb);
    hide ControlInvariant.Inv, Packable, Flush, Sender.Admit, Sender.Sent, ProbeTimer, Pack, WellPacked;
    var emitted := Flush(cb).emitted;
    assert emitted == AckSegs(cb, cb.rcv.acks) + ProbeSegs(cb, ProbeTimer(cb.probe, cb.rmtWnd, cb.current))
         + ToWires(cb.cfg.conv, Sender.Sent(Sender.Admit(cb.snd, SendWindow(cb), TxOf(cb)).buf, TxOf(cb))) by {
      EmittedIs(cb);
    }
    PackSpec(cb.cfg.mtu, cb.cfg.conv, [], emitted);
    ReadBackPacked(cb.cfg.mtu, cb.cfg.conv, Pack(cb.cfg.mtu, [], emitted));
    assert [] + emitted == emitted;
  }

  lemma EmittedIs(cb: Cb)
    requires ValidConfig(cb.cfg) && cb.updated
    ensures Flush(cb).emitted ==
      AckSegs(cb, cb.rcv.acks) + ProbeSegs(cb, ProbeTimer(cb.probe, cb.rmtWnd, cb.current))
      + ToWires(cb.cfg.conv, Sender.Sent(Sender.Admit(cb.snd, SendWindow(cb), TxOf(cb)).buf, TxOf(cb)))
  {
    hide Congestion.AfterFlush, Sender.Admit, Sender.Sent, ProbeTimer, ProbeSegs, ReachedDeadLink;
  }

  lemma PackableAppend(mtu: nat, conv: u32, a: seq<WireSeg>, b: seq<WireSeg>)
    requires Packable(mtu, conv, a) && Packable(mtu, conv, b)
    ensures Packable(mtu, conv, a + b)
  {
    hide Acceptable, Size;
  }

  lemma ControlPackable(cb: Cb, p: Probe)
    requires cb.cfg.mtu >= OVERHEAD
    ensures Packable(cb.cfg.mtu, cb.cfg.conv, AckSegs(cb, cb.rcv.acks))
    ensures Packable(cb.cfg.mtu, cb.cfg.conv, ProbeSegs(cb, p))
  {
    hide Unused;
  }

  lemma EmittedPackable(cb: Cb)
    requires ControlInvariant.Inv(cb) && cb.updated
    ensures Packable(cb.cfg.mtu, cb.cfg.conv, Flush(cb).emitted)
  {
    var c, mss: nat := TxOf(cb), Mss(cb.cfg);
    var p := ProbeTimer(cb.probe, cb.rmtWnd, cb.current);
    ControlInvariant.AdmitFitting(cb.snd, SendWindow(cb), c, mss);
    var buf := Sender.Admit(cb.snd, SendWindow(cb), c).buf;
    SentFits(cb.cfg.conv, mss, buf, c);
    EmittedIs(cb);
    ControlPackable(cb, p);
    hide *;
    var mtu, conv := cb.cfg.mtu, cb.cfg.conv;
    PackableAppend(mtu, conv, AckSegs(cb, cb.rcv.acks), ProbeSegs(cb, p));
    PackableAppend(mtu, conv, AckSegs(cb, cb.rcv.acks) + ProbeSegs(cb, p), ToWires(conv, Sender.Sent(buf, c)));
  }
}
