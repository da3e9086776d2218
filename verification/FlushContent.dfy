/** What the datagrams of a flush say, segment by segment: the acknowledgements, the window probes and the
    data that is due, each announcing the free places of the receive queue; and what a flush leaves behind. */
module FlushContent {
  import opened Serial
  import opened Wire
  import opened Control
  import opened Sender
  import ControlInvariant
  import FlushWire
  import InputEffect
  import Lists
  import Receiver
  import Transmission

  /** The datagrams a flush of `cb` hands to the output callback. */
  function Datagrams(cb: Cb): seq<seq<byte>>
    requires ControlInvariant.Inv(cb) && cb.updated
  {
    FlushWire.FlushReadBack(cb);
    FlushWire.Datagrams(Pack(cb.cfg.mtu, [], Flush(cb).emitted))
  }

  /** What is read back from them, in order. */
  function Said(cb: Cb): seq<WireSeg>
    requires ControlInvariant.Inv(cb) && cb.updated
  {
    FlushWire.ReadBack(cb.cfg.conv, Datagrams(cb))
  }

  // ---------------------------------------------------------------- what every segment announces

  /** The free places of the receive queue, as 16 bits on the wire. */
  function Free(r: Receiver.Rcv): u16 {
    (r.wnd - |r.queue|) % 0x1_0000
  }

  predicate Announces(x: WireSeg, cb: Cb) {
    x.conv == cb.cfg.conv && x.wnd == Free(cb.rcv) && x.una == cb.rcv.nxt
  }

  predicate AllAnnounce(segs: seq<WireSeg>, cb: Cb) {
    forall i :: 0 <= i < |segs| ==> Announces(segs[i], cb)
  }

  lemma UnusedIsFree(cb: Cb)
    requires ControlInvariant.Inv(cb)
    ensures Unused(cb.rcv) % 0x1_0000 == Free(cb.rcv) && TxOf(cb).wnd == Unused(cb.rcv) && TxOf(cb).ack == cb.rcv.nxt
    ensures TxOf(cb).current == cb.current
  {
    assert cb.rcv.nque == |cb.rcv.queue| <= cb.rcv.wnd by {
      hide Sender.Inv, ControlInvariant.Fitting, Receiver.InOrder, Receiver.Contiguous;
    }
  }

  lemma JoinAnnounce(a: seq<WireSeg>, b: seq<WireSeg>, cb: Cb)
    requires AllAnnounce(a, cb) && AllAnnounce(b, cb)
    ensures AllAnnounce(a + b, cb)
  {
    hide Announces;
  }

  // ---------------------------------------------------------------- acknowledgements and probes

  /** Command 82 is an acknowledgement, 83 and 84 are the window probe and its answer, 81 is data. */
  predicate Acknowledges(x: WireSeg, a: Receiver.Ack) {
    x.cmd == 82 && x.sn == a.sn && x.ts == a.ts && x.frg == 0 && x.data == []
  }

  /** A window probe is sent while one is still flagged, or the peer's window is closed and the probe time came. */
  predicate Asks(cb: Cb) {
    cb.probe.ask || (cb.rmtWnd == 0 && cb.probe.wait > 0 && TimeDiff(cb.current, cb.probe.ts) >= 0)
  }

  /** Window probes repeat the number and the time of the last acknowledgement before them. */
  predicate RepeatsLast(x: WireSeg, acks: seq<Receiver.Ack>) {
    && x.frg == 0 && x.data == []
    && x.sn == (if acks == [] then 0 else acks[|acks| - 1].sn)
    && x.ts == (if acks == [] then 0 else acks[|acks| - 1].ts)
  }

  /** The window probe and the answer to the peer's, in this order. */
  function ProbeCmds(cb: Cb): seq<byte> {
    (if Asks(cb) then [83] else []) + (if cb.probe.tell then [84] else [])
  }

  lemma AcksSaid(cb: Cb)
    requires ControlInvariant.Inv(cb)
    ensures var acks := AckSegs(cb, cb.rcv.acks);
      AllAnnounce(acks, cb) && forall i :: 0 <= i < |cb.rcv.acks| ==> Acknowledges(acks[i], cb.rcv.acks[i])
  {
    UnusedIsFree(cb);
    hide Unused, Free, ControlInvariant.Inv;
  }

  lemma ProbesSaid(cb: Cb)
    requires ControlInvariant.Inv(cb)
    ensures var probes := ProbeSegs(cb, ProbeTimer(cb.probe, cb.rmtWnd, cb.current));
      && AllAnnounce(probes, cb) && |probes| == |ProbeCmds(cb)|
      && forall i :: 0 <= i < |probes| ==> probes[i].cmd == ProbeCmds(cb)[i] && RepeatsLast(probes[i], cb.rcv.acks)
  {
    UnusedIsFree(cb);
    hide Unused, Free, ControlInvariant.Inv, TimeDiff, Wrap;
  }

  // ---------------------------------------------------------------- data

  /** The segment was never sent, or its resend time has come, or enough later ones were acknowledged. */
  predicate Overdue(cb: Cb, g: Seg) {
    || g.xmit == 0
    || TimeDiff(cb.current, g.resendts) >= 0
    || g.fastack >= (if cb.cfg.fastresend > 0 then cb.cfg.fastresend else 0xFFFF_FFFF)
  }

  /** The segment at place `i` of the flight a flush leaves: what it admits is due as well. */
  predicate DueAt(cb: Cb, i: nat) {
    i >= |cb.snd.buf| || Overdue(cb, cb.snd.buf[i])
  }

  predicate Carries(x: WireSeg, g: Seg, current: u32) {
    x.cmd == 81 && x.sn == g.sn && x.frg == g.frg % 0x100 && x.data == g.data && x.ts == current
  }

  predicate SomeCarries(segs: seq<WireSeg>, g: Seg, current: u32) {
    exists k :: 0 <= k < |segs| && Carries(segs[k], g, current)
  }

  predicate CarriesSome(x: WireSeg, flight: seq<Seg>, cb: Cb) {
    exists i :: 0 <= i < |flight| && DueAt(cb, i) && Carries(x, flight[i], cb.current)
  }

  /** Exactly the segments of the flight that are due, in the order of their numbers. */
  ghost predicate DataSaid(cb: Cb, data: seq<WireSeg>)
    requires ValidConfig(cb.cfg)
  {
    var flight := Flush(cb).cb.snd.buf;
    && (forall k :: 0 <= k < |data| ==> CarriesSome(data[k], flight, cb))
    && (forall i :: 0 <= i < |flight| && DueAt(cb, i) ==> SomeCarries(data, flight[i], cb.current))
    && (forall j, k :: 0 <= j < k < |data| ==> Off(cb.snd.una, data[j].sn) < Off(cb.snd.una, data[k].sn))
  }

  ghost predicate IsSent(buf: seq<Seg>, c: Tx, g: Seg) {
    exists j :: 0 <= j < |buf| && Judge(buf[j], c) != Idle && g == Transmit(buf[j], c)
  }

  lemma {:induction false} SentIs(buf: seq<Seg>, c: Tx)
    ensures forall g :: g in Sent(buf, c) <==> IsSent(buf, c, g)
  {
    hide Judge, Transmit;
    if buf != [] {
      SentIs(buf[1..], c);
      forall g ensures IsSent(buf, c, g) <==>
        IsSent(buf[1..], c, g) || (Judge(buf[0], c) != Idle && g == Transmit(buf[0], c))
      {
        if IsSent(buf[1..], c, g) {
          var j :| 0 <= j < |buf[1..]| && Judge(buf[1..][j], c) != Idle && g == Transmit(buf[1..][j], c);
          assert buf[1..][j] == buf[j + 1];
        }
        if IsSent(buf, c, g) {
          var j :| 0 <= j < |buf| && Judge(buf[j], c) != Idle && g == Transmit(buf[j], c);
          assert j > 0 ==> buf[1..][j - 1] == buf[j];
        }
      }
    }
  }

  lemma PrependAscending(base: u32, end: int, g: Seg, rest: seq<Seg>)
    requires Ascending(base, end, rest) && Off(base, g.sn) < end
    requires forall i :: 0 <= i < |rest| ==> Off(base, g.sn) < Off(base, rest[i].sn)
    ensures Ascending(base, end, [g] + rest)
  {
    hide Off;
  }

  lemma TransmitNumber(g: Seg, c: Tx)
    ensures var t := Transmit(g, c); t.sn == g.sn && t.frg == g.frg && t.data == g.data
    ensures Judge(g, c) != Idle ==> Transmit(g, c).wnd == c.wnd && Transmit(g, c).una == c.ack
    ensures Judge(g, c) != Idle ==> Transmit(g, c).ts == c.current
  {
    hide Judge, Backoff, Wrap;
  }

  /** Transmission keeps the order of the numbers. */
  lemma {:induction false} SentAscending(base: u32, end: int, buf: seq<Seg>, c: Tx)
    requires Ascending(base, end, buf)
    ensures Ascending(base, end, Sent(buf, c))
    ensures forall i :: 0 <= i < |Sent(buf, c)| ==> buf != [] && Off(base, buf[0].sn) <= Off(base, Sent(buf, c)[i].sn)
  {
    hide *;
    SentHead(buf, c);
    if buf == [] {
      NoneAscending(base, end);
    } else {
      TailAscending(base, end, buf);
      OffsBelow(base, end, buf);
      SentAscending(base, end, buf[1..], c);
      SentHead(buf[1..], c);
      TransmitNumber(buf[0], c);
      var rest := Sent(buf[1..], c);
      assert buf[0] in buf && (rest != [] ==> buf[1..][0] in buf[1..]);
      PrependAscending(base, end, Transmit(buf[0], c), rest);
      Lists.Empty(rest);
    }
  }

  lemma SentHead(buf: seq<Seg>, c: Tx)
    ensures Sent(buf, c) == if buf == [] then [] else
                            (if Judge(buf[0], c) != Idle then [Transmit(buf[0], c)] else []) + Sent(buf[1..], c)
  {
    hide Judge, Transmit;
  }

  lemma NoneAscending(base: u32, end: int)
    ensures Ascending(base, end, [])
  {}

  /** The flight a flush leaves, as admitted and transmitted. */
  lemma FlightIs(cb: Cb) returns (a: Snd)
    requires ControlInvariant.Inv(cb) && cb.updated
    ensures a == Admit(cb.snd, SendWindow(cb), TxOf(cb)) && a.una == cb.snd.una
    ensures Ascending(cb.snd.una, InFlight(a), a.buf)
    ensures var flight := Flush(cb).cb.snd.buf;
      && |flight| == |a.buf|
      && forall i :: 0 <= i < |flight| ==>
           flight[i] == Transmit(a.buf[i], TxOf(cb)) && (DueAt(cb, i) <==> Judge(a.buf[i], TxOf(cb)) != Idle)
  {
    hide *;
    a := Admit(cb.snd, SendWindow(cb), TxOf(cb));
    InputEffect.SndInv(cb);
    WindowWithin(cb);
    var limit := ControlInvariant.Limit(cb.cfg);
    InputEffect.InvOrdered(cb.snd, limit);
    AdmitSpec(cb.snd, SendWindow(cb), TxOf(cb), limit);
    OrderedAscending(a, limit);
    Transmission.AdmittedNew(cb.snd, SendWindow(cb), TxOf(cb));
    var after := Transmission.FlightAfter(cb, a);
    forall i | 0 <= i < |after| ensures DueAt(cb, i) <==> Judge(a.buf[i], TxOf(cb)) != Idle {
      JudgeIs(cb, a.buf, i);
    }
  }

  lemma OrderedAscending(s: Snd, limit: int)
    requires Ordered(s, limit)
    ensures Ascending(s.una, InFlight(s), s.buf)
  {
    hide Ascending, Off;
  }

  lemma WindowWithin(cb: Cb)
    requires ControlInvariant.Inv(cb)
    ensures SendWindow(cb) <= ControlInvariant.Limit(cb.cfg)
  {
    hide Sender.Inv, Receiver.Inv, ControlInvariant.Fitting;
  }

  lemma JudgeIs(cb: Cb, buf: seq<Seg>, i: nat)
    requires i < |buf| && cb.snd.buf <= buf && (i >= |cb.snd.buf| ==> buf[i].xmit == 0)
    ensures DueAt(cb, i) <==> Judge(buf[i], TxOf(cb)) != Idle
  {
    hide TimeDiff, Wrap, Unused;
  }

  lemma DataIs(cb: Cb) returns (data: seq<WireSeg>)
    requires ControlInvariant.Inv(cb) && cb.updated
    ensures data == ToWires(cb.cfg.conv, Sent(Admit(cb.snd, SendWindow(cb), TxOf(cb)).buf, TxOf(cb)))
    ensures AllAnnounce(data, cb) && DataSaid(cb, data)
  {
    hide *;
    var a := FlightIs(cb);
    var c := TxOf(cb);
    var sent := Sent(a.buf, c);
    data := ToWires(cb.cfg.conv, sent);
    SentIs(a.buf, c);
    SentAscending(cb.snd.una, InFlight(a), a.buf, c);
    UnusedIsFree(cb);
    var flight := Flush(cb).cb.snd.buf;
    forall k | 0 <= k < |data|
      ensures Announces(data[k], cb) && CarriesSome(data[k], flight, cb) && data[k].sn == sent[k].sn
    {
      assert sent[k] in sent;
      var j := SentPlace(a.buf, c, sent[k]);
      WireIs(cb, a.buf[j]);
      CarriesAt(data[k], flight, cb, j);
    }
    forall i | 0 <= i < |flight| && DueAt(cb, i) ensures SomeCarries(data, flight[i], cb.current) {
      SentAt(a.buf, c, i);
      var k :| 0 <= k < |sent| && sent[k] == flight[i];
      WireIs(cb, a.buf[i]);
      SomeCarriesAt(data, k, flight[i], cb.current);
    }
    InOrder(cb.snd.una, InFlight(a), sent, data);
    Announced(data, cb);
    SaidIs(cb, data);
  }

  lemma SentPlace(buf: seq<Seg>, c: Tx, g: Seg) returns (j: nat)
    requires IsSent(buf, c, g)
    ensures j < |buf| && Judge(buf[j], c) != Idle && g == Transmit(buf[j], c)
  {
    hide Judge, Transmit;
    j :| 0 <= j < |buf| && Judge(buf[j], c) != Idle && g == Transmit(buf[j], c);
  }

  lemma SentAt(buf: seq<Seg>, c: Tx, i: nat)
    requires i < |buf| && Judge(buf[i], c) != Idle
    ensures IsSent(buf, c, Transmit(buf[i], c))
  {
    hide Judge, Transmit;
  }

  lemma WireIs(cb: Cb, g: Seg)
    requires ControlInvariant.Inv(cb) && Judge(g, TxOf(cb)) != Idle
    ensures var t := Transmit(g, TxOf(cb)); var x := ToWire(cb.cfg.conv, t);
      Announces(x, cb) && Carries(x, t, cb.current) && x.sn == t.sn
  {
    UnusedIsFree(cb);
    TransmitNumber(g, TxOf(cb));
    hide Free, Unused, Transmit, Judge, TxOf, ControlInvariant.Inv;
  }

  lemma CarriesAt(x: WireSeg, flight: seq<Seg>, cb: Cb, i: nat)
    requires i < |flight| && DueAt(cb, i) && Carries(x, flight[i], cb.current)
    ensures CarriesSome(x, flight, cb)
  {
    hide DueAt, Carries;
  }

  lemma SomeCarriesAt(segs: seq<WireSeg>, k: nat, g: Seg, current: u32)
    requires k < |segs| && Carries(segs[k], g, current)
    ensures SomeCarries(segs, g, current)
  {
    hide Carries;
  }

  lemma InOrder(base: u32, end: int, sent: seq<Seg>, data: seq<WireSeg>)
    requires Ascending(base, end, sent) && |data| == |sent| && forall k :: 0 <= k < |data| ==> data[k].sn == sent[k].sn
    ensures forall j, k :: 0 <= j < k < |data| ==> Off(base, data[j].sn) < Off(base, data[k].sn)
  {
    hide Off;
  }

  lemma Announced(segs: seq<WireSeg>, cb: Cb)
    requires forall k :: 0 <= k < |segs| ==> Announces(segs[k], cb)
    ensures AllAnnounce(segs, cb)
  {
    hide Announces;
  }

  lemma SaidIs(cb: Cb, data: seq<WireSeg>)
    requires ValidConfig(cb.cfg)
    requires forall k :: 0 <= k < |data| ==> CarriesSome(data[k], Flush(cb).cb.snd.buf, cb)
    requires forall i :: 0 <= i < |Flush(cb).cb.snd.buf| && DueAt(cb, i) ==>
      SomeCarries(data, Flush(cb).cb.snd.buf[i], cb.current)
    requires forall j, k :: 0 <= j < k < |data| ==> Off(cb.snd.una, data[j].sn) < Off(cb.snd.una, data[k].sn)
    ensures DataSaid(cb, data)
  {
    hide CarriesSome, SomeCarries, DueAt, Off, Flush;
  }

  /** What the datagrams of a flush say: every segment announces the free places of the receive queue and the
      next expected number; first comes one acknowledgement per entry of the list, with the number and the
      time noted there, then the window probes, then the data: exactly the segments that are due. */
  lemma FlushSays(cb: Cb)
    requires ControlInvariant.Inv(cb) && cb.updated
    ensures var n, m := |cb.rcv.acks|, |cb.rcv.acks| + |ProbeCmds(cb)|;
      && AllAnnounce(Said(cb), cb) && m <= |Said(cb)|
      && (forall i :: 0 <= i < n ==> Acknowledges(Said(cb)[i], cb.rcv.acks[i]))
      && (forall i :: n <= i < m ==> Said(cb)[i].cmd == ProbeCmds(cb)[i - n] && RepeatsLast(Said(cb)[i], cb.rcv.acks))
      && DataSaid(cb, Said(cb)[m..])
  {
    hide *;
    SaidParts(cb);
    AcksSaid(cb);
    ProbesSaid(cb);
    var acks, probes := AckSegs(cb, cb.rcv.acks), ProbeSegs(cb, ProbeTimer(cb.probe, cb.rmtWnd, cb.current));
    var data := DataIs(cb);
    JoinAnnounce(acks, probes, cb);
    JoinAnnounce(acks + probes, data, cb);
    Lists.Cut(acks + probes, data);
    var m := |acks| + |probes|;
    assert Said(cb)[m..] == data;
  }

  lemma SaidParts(cb: Cb)
    requires ControlInvariant.Inv(cb) && cb.updated
    ensures Said(cb) == AckSegs(cb, cb.rcv.acks) + ProbeSegs(cb, ProbeTimer(cb.probe, cb.rmtWnd, cb.current))
      + ToWires(cb.cfg.conv, Sent(Admit(cb.snd, SendWindow(cb), TxOf(cb)).buf, TxOf(cb)))
  {
    FlushWire.FlushReadBack(cb);
    hide ControlInvariant.Inv, Flush, Admit, Sent, TxOf, SendWindow, ProbeTimer, ProbeSegs, Pack, FlushWire.ReadBack,
      FlushWire.Datagrams, FlushWire.WellPacked;
  }

  lemma {:induction false} InConcat(groups: seq<seq<WireSeg>>, i: nat, x: WireSeg)
    requires i < |groups| && x in groups[i]
    ensures x in Lists.Concat(groups)
    decreases |groups|
  {
    if i > 0 { InConcat(groups[1..], i - 1, x); }
  }

  lemma {:induction false} DatagramAt(groups: seq<seq<WireSeg>>, i: nat)
    requires (forall k :: 0 <= k < |groups| ==> AllSized(groups[k])) && i < |groups|
    ensures |FlushWire.Datagrams(groups)| == |groups| && FlushWire.Datagrams(groups)[i] == EncodeAll(groups[i])
    decreases |groups|
  {
    hide AllSized, EncodeAll;
    if |groups| > 1 { DatagramAt(groups[1..], if i > 0 then i - 1 else 0); }
  }

  /** A peer that inputs any datagram of a flush accepts it and knows the free places of the receive queue. */
  lemma PeerLearns(cb: Cb, peer: Cb, i: nat)
    requires ControlInvariant.Inv(cb) && cb.updated && ControlInvariant.Inv(peer) && peer.cfg.conv == cb.cfg.conv
    requires i < |Datagrams(cb)|
    ensures Input(peer, Datagrams(cb)[i]).code == 0 && Input(peer, Datagrams(cb)[i]).cb.rmtWnd == Free(cb.rcv)
  {
    hide *;
    FlushWire.FlushReadBack(cb);
    var groups := Pack(cb.cfg.mtu, [], Flush(cb).emitted);
    FlushWire.ReadBackPacked(cb.cfg.mtu, cb.cfg.conv, groups);
    DatagramsIs(cb);
    GroupIs(cb.cfg.mtu, cb.cfg.conv, groups, i);
    DatagramAt(groups, i);
    var segs := groups[i];
    MtuSmall(cb);
    InputEffect.InputReports(peer, segs);
    InputEffect.SndInv(peer);
    InputEffect.InputIs(peer, segs);
    FlushSays(cb);
    assert segs[|segs| - 1] in segs;
    InConcat(groups, i, segs[|segs| - 1]);
    SaidConcat(cb);
    LastAnnounces(Said(cb), segs[|segs| - 1], cb);
  }

  lemma DatagramsIs(cb: Cb)
    requires ControlInvariant.Inv(cb) && cb.updated
    ensures var groups := Pack(cb.cfg.mtu, [], Flush(cb).emitted);
      FlushWire.WellPacked(cb.cfg.mtu, cb.cfg.conv, groups) && Datagrams(cb) == FlushWire.Datagrams(groups)
  {
    FlushWire.FlushReadBack(cb);
    hide ControlInvariant.Inv, Flush, Pack, FlushWire.Datagrams, FlushWire.WellPacked;
  }

  lemma GroupIs(mtu: nat, conv: u32, groups: seq<seq<WireSeg>>, i: nat)
    requires FlushWire.WellPacked(mtu, conv, groups) && i < |groups|
    ensures groups[i] != [] && TotalSize(groups[i]) <= mtu && AllAcceptable(conv, groups[i])
    ensures forall k :: 0 <= k < |groups| ==> AllSized(groups[k])
  {
    hide TotalSize, AllAcceptable, AllSized;
  }

  lemma MtuSmall(cb: Cb)
    requires ControlInvariant.Inv(cb)
    ensures cb.cfg.mtu < HALF && ValidConfig(cb.cfg)
  {
    hide Sender.Inv, Receiver.Inv, ControlInvariant.Fitting;
  }

  lemma SaidConcat(cb: Cb)
    requires ControlInvariant.Inv(cb) && cb.updated
    ensures Said(cb) == Lists.Concat(Pack(cb.cfg.mtu, [], Flush(cb).emitted))
  {
    FlushWire.FlushReadBack(cb);
    var groups := Pack(cb.cfg.mtu, [], Flush(cb).emitted);
    FlushWire.ReadBackPacked(cb.cfg.mtu, cb.cfg.conv, groups);
    hide ControlInvariant.Inv, Flush, Admit, Sent, TxOf, SendWindow, ProbeTimer, ProbeSegs, AckSegs, ToWires, Pack,
      FlushWire.ReadBack, FlushWire.Datagrams, FlushWire.WellPacked, Lists.Concat;
  }

  lemma LastAnnounces(segs: seq<WireSeg>, x: WireSeg, cb: Cb)
    requires AllAnnounce(segs, cb) && x in segs
    ensures x.wnd == Free(cb.rcv)
  {
    hide Free;
  }
}
