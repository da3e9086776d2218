/** What a datagram does to the sending half: which segments its acknowledgements take from the flight and
    which they count as passed over, and what it says about the peer. */
module InputEffect {
  import opened Serial
  import opened Wire
  import opened Control
  import opened Sender
  import ControlInvariant
  import FlushWire
  import Receiver
  import RoundTrip
  import Congestion
  import Lists

  // ---------------------------------------------------------------- one segment

  /** What the sender half of a control block does with one segment. */
  function OnSegmentSnd(snd: Snd, x: WireSeg): Snd {
    var t := ShrinkBuf(ParseUna(snd, x.una));
    if x.cmd == CMD_ACK then ShrinkBuf(ParseAck(t, x.sn)) else t
  }

  lemma OnSegmentSndIs(snd: Snd, x: WireSeg)
    ensures var t := ShrinkBuf(ParseUna(snd, x.una));
      OnSegmentSnd(snd, x) == if x.cmd == CMD_ACK then ShrinkBuf(ParseAck(t, x.sn)) else t
  {
    hide ParseUna, ParseAck, ShrinkBuf;
  }

  lemma OnSegmentIs(cb: Cb, x: WireSeg)
    ensures OnSegment(cb, x).snd == OnSegmentSnd(cb.snd, x) && OnSegment(cb, x).cfg == cb.cfg
    ensures OnSegment(cb, x).rmtWnd == x.wnd && OnSegment(cb, x).current == cb.current
    ensures OnSegment(cb, x).probe == cb.probe.(tell := cb.probe.tell || x.cmd == CMD_WASK)
    ensures OnSegment(cb, x).rtt == if x.cmd == CMD_ACK && TimeDiff(cb.current, x.ts) >= 0
                                    then RoundTrip.UpdateAck(cb.rtt, cb.cfg.interval, TimeDiff(cb.current, x.ts))
                                    else cb.rtt
  {
    hide ParseUna, ParseAck, ShrinkBuf, Receiver.OnPush, TimeDiff, RoundTrip.UpdateAck;
  }

  /** The segment acknowledges number `sn`, by name or by its `una`. */
  predicate Acks(s: Snd, x: WireSeg, sn: u32) {
    Below(s, x.una, sn) || (x.cmd == CMD_ACK && x.sn == sn)
  }

  lemma ShrinkIs(s: Snd, limit: int)
    requires Ordered(s, limit)
    ensures var t := ShrinkBuf(s); t.buf == s.buf && t.nxt == s.nxt && t.queue == s.queue && Inv(t, limit)
    ensures InFlight(ShrinkBuf(s)) <= InFlight(s)
  {
    ShrinkInv(s, limit);
    hide Inv, Ordered, InFlight;
  }

  /** One segment takes from the flight exactly what it acknowledges. */
  lemma SegmentRemoves(s: Snd, x: WireSeg, limit: int)
    requires Inv(s, limit)
    ensures var t := OnSegmentSnd(s, x); Inv(t, limit) && t.nxt == s.nxt && InFlight(t) <= InFlight(s)
    ensures forall g :: g in OnSegmentSnd(s, x).buf <==> g in s.buf && !Acks(s, x, g.sn)
  {
    hide *;
    OnSegmentSndIs(s, x);
    ParseUnaExactly(s, x.una, limit);
    ParseUnaInv(s, x.una, limit) by { InvOrdered(s, limit); }
    var u := ParseUna(s, x.una);
    ShrinkIs(u, limit);
    var t := ShrinkBuf(u);
    if x.cmd == CMD_ACK {
      InvOrdered(t, limit);
      ParseAckExactly(t, x.sn, limit);
      ParseAckInv(t, x.sn, limit);
      ShrinkIs(ParseAck(t, x.sn), limit);
    }
    AcksIs(s, x);
  }

  lemma InvOrdered(s: Snd, limit: int)
    requires Inv(s, limit)
    ensures Ordered(s, limit)
  {
    hide Ordered;
  }

  lemma AcksIs(s: Snd, x: WireSeg)
    ensures forall sn :: Acks(s, x, sn) <==> Below(s, x.una, sn) || (x.cmd == CMD_ACK && x.sn == sn)
  {
    hide Below;
  }

  /** What a `una` lies ahead of stays below it while the flight's head moves on. */
  lemma BelowStays(s: Snd, t: Snd, limit: int, una: u32, g: Seg)
    requires Inv(s, limit) && Inv(t, limit) && g in s.buf && g in t.buf
    requires t.buf[0] in s.buf && Below(s, una, g.sn)
    ensures Below(t, una, g.sn)
  {
    OffBound(s, limit, g);
    OffBound(t, limit, g);
    OffBound(s, limit, t.buf[0]);
    AheadOff(s.una, una);
    OffSelf(t.una, t.una);
    hide Off, TimeDiff, Ordered;
    var d := Off(s.una, t.una);
    DiffOff(s.una, g.sn, t.una);
    DiffOff(t.una, g.sn, t.una);
    AdvanceTo(s.una, t.una);
    OffAdvance(s.una, d, g.sn);
    OffAdvance(s.una, d, una);
    AheadOff(t.una, una);
  }

  lemma OffBound(s: Snd, limit: int, g: Seg)
    requires Inv(s, limit) && g in s.buf
    ensures Off(s.una, g.sn) < HALF && s.una == s.buf[0].sn
  {
    OffsBelow(s.una, InFlight(s), s.buf);
    hide Off;
  }

  /** The segment names number `sn`, or carries a `una` ahead of it. */
  predicate Names(x: WireSeg, sn: u32) {
    TimeDiff(x.una, sn) > 0 || (x.cmd == CMD_ACK && x.sn == sn)
  }

  lemma AcksNames(s: Snd, limit: int, x: WireSeg, g: Seg)
    requires Inv(s, limit) && g in s.buf && Acks(s, x, g.sn)
    ensures Names(x, g.sn)
  {
    OffBound(s, limit, g);
    AheadOff(s.una, x.una);
    hide Off, TimeDiff, Inv;
    if Below(s, x.una, g.sn) { DiffOff(s.una, x.una, g.sn); }
  }

  // ---------------------------------------------------------------- all segments of a datagram

  predicate AnyAcks(s: Snd, segs: seq<WireSeg>, sn: u32) {
    exists i :: 0 <= i < |segs| && Acks(s, segs[i], sn)
  }

  predicate AnyNames(segs: seq<WireSeg>, sn: u32) {
    exists i :: 0 <= i < |segs| && Names(segs[i], sn)
  }

  lemma AnyStep(s: Snd, segs: seq<WireSeg>, sn: u32)
    requires segs != []
    ensures AnyAcks(s, segs, sn) <==> Acks(s, segs[0], sn) || AnyAcks(s, segs[1..], sn)
    ensures AnyNames(segs, sn) <==> Names(segs[0], sn) || AnyNames(segs[1..], sn)
  {
    hide Acks, Names;
    assert forall i :: 1 <= i < |segs| ==> segs[i] == segs[1..][i - 1];
  }

  lemma AnyStays(s: Snd, t: Snd, limit: int, segs: seq<WireSeg>, g: Seg)
    requires Inv(s, limit) && Inv(t, limit) && g in s.buf && g in t.buf && t.buf[0] in s.buf
    ensures AnyAcks(s, segs, g.sn) ==> AnyAcks(t, segs, g.sn)
  {
    hide Inv, Below;
    forall i | 0 <= i < |segs| && Acks(s, segs[i], g.sn) ensures Acks(t, segs[i], g.sn) {
      if Below(s, segs[i].una, g.sn) { BelowStays(s, t, limit, segs[i].una, g); }
    }
  }

  /** The segments of a datagram take from the flight everything they acknowledge, and nothing they do not
      name or lie ahead of. */
  lemma {:induction false} SegmentsRemove(cb: Cb, segs: seq<WireSeg>)
    requires ControlInvariant.Inv(cb)
    ensures var r := OnSegments(cb, segs);
      && ControlInvariant.Inv(r) && r.snd.nxt == cb.snd.nxt && InFlight(r.snd) <= InFlight(cb.snd)
      && r.cfg == cb.cfg
      && (forall g :: g in r.snd.buf ==> g in cb.snd.buf && !AnyAcks(cb.snd, segs, g.sn))
      && (forall g :: g in cb.snd.buf && g !in r.snd.buf ==> AnyNames(segs, g.sn))
    decreases |segs|
  {
    hide *;
    OnSegmentsIs(cb, segs);
    if segs == [] {
      NoneAny(cb.snd);
    } else {
      var limit := ControlInvariant.Limit(cb.cfg);
      SndInv(cb);
      OnSegmentIs(cb, segs[0]);
      SegmentRemoves(cb.snd, segs[0], limit);
      ControlInvariant.OnSegmentInv(cb, segs[0]);
      var c := OnSegment(cb, segs[0]);
      SegmentsRemove(c, segs[1..]);
      var r := OnSegments(cb, segs);
      forall g | g in r.snd.buf ensures g in cb.snd.buf && !AnyAcks(cb.snd, segs, g.sn) {
        AnyStep(cb.snd, segs, g.sn);
        assert c.snd.buf[0] in c.snd.buf;
        AnyStays(cb.snd, c.snd, limit, segs[1..], g);
      }
      forall g | g in cb.snd.buf && g !in r.snd.buf ensures AnyNames(segs, g.sn) {
        AnyStep(cb.snd, segs, g.sn);
        if g !in c.snd.buf { AcksNames(cb.snd, limit, segs[0], g); }
      }
    }
  }

  lemma OnSegmentsIs(cb: Cb, segs: seq<WireSeg>)
    ensures OnSegments(cb, segs) == if segs == [] then cb else OnSegments(OnSegment(cb, segs[0]), segs[1..])
  {
    hide OnSegment;
  }

  lemma NoneAny(s: Snd)
    ensures forall sn :: !AnyAcks(s, [], sn)
  {}

  lemma SndInv(cb: Cb)
    requires ControlInvariant.Inv(cb)
    ensures Inv(cb.snd, ControlInvariant.Limit(cb.cfg)) && ValidConfig(cb.cfg)
  {
    hide Inv, Receiver.Inv, ControlInvariant.Fitting;
  }

  // ---------------------------------------------------------------- the whole input

  lemma InputIs(cb: Cb, segs: seq<WireSeg>)
    requires ValidConfig(cb.cfg) && segs != [] && AllAcceptable(cb.cfg.conv, segs) && TotalSize(segs) < HALF
    ensures OnSegments(cb, segs).cfg == cb.cfg
    ensures Input(cb, EncodeAll(segs)) ==
      InputResult(Finish(OnSegments(cb, segs), cb.snd.una, HighestAck(NoAck, segs)), 0)
  {
    ParseEncoded(cb.cfg.conv, segs);
    FlushWire.EncodedSize(segs);
    assert TotalSize(segs) >= OVERHEAD;
    OnSegmentsConfig(cb, segs);
    hide AllAcceptable, TotalSize, EncodeAll, Parse, OnSegments, Finish, HighestAck;
  }

  lemma FinishIs(c: Cb, una: u32, h: Highest)
    requires ValidConfig(c.cfg)
    ensures Finish(c, una, h).snd == if h == NoAck then c.snd else ParseFastack(c.snd, h.sn)
    ensures var r := Finish(c, una, h); r.rmtWnd == c.rmtWnd && r.probe == c.probe && r.rtt == c.rtt && r.cfg == c.cfg
    ensures var r := Finish(c, una, h);
      r.cong == if TimeDiff(r.snd.una, una) > 0 then Congestion.OnAdvance(c.cong, c.rmtWnd, Mss(c.cfg)) else c.cong
  {
    hide ParseFastack, TimeDiff, Congestion.OnAdvance, Mss;
  }

  /** The highest acknowledged number of a datagram lies ahead of the segment, in the flight from `una` to `nxt`. */
  predicate Counts(una: u32, nxt: u32, h: Highest, sn: u32) {
    h != NoAck && Off(una, sn) < Off(una, h.sn) < Off(una, nxt)
  }

  /** The same segment, but for the number of later ones that were acknowledged. */
  predicate Same(g: Seg, h: Seg) {
    g == h.(fastack := g.fastack)
  }

  /** `g`, counted once more if the highest acknowledged number lies ahead of it. */
  function CountedIn(una: u32, nxt: u32, h: Highest, g: Seg): Seg {
    g.(fastack := if Counts(una, nxt, h, g.sn) then Wrap(g.fastack + 1) else g.fastack)
  }

  lemma FinishCounts(c: Cb, una: u32, h: Highest, limit: int)
    requires ValidConfig(c.cfg) && Inv(c.snd, limit)
    ensures var s, r := c.snd, Finish(c, una, h).snd;
      && r == s.(buf := r.buf) && |r.buf| == |s.buf|
      && forall i :: 0 <= i < |s.buf| ==> r.buf[i] == CountedIn(s.una, s.nxt, h, s.buf[i])
  {
    FinishIs(c, una, h);
    if h != NoAck {
      InvOrdered(c.snd, limit);
      ParseFastackExactly(c.snd, h.sn, limit);
      forall g { CountedIs(c.snd, h, g); }
    } else {
      assert forall g :: CountedIn(c.snd.una, c.snd.nxt, h, g) == g;
    }
    hide Finish, Off, Wrap, Inv, Ordered, ParseFastack, PassedOver, CountedIn;
  }

  lemma CountedIs(s: Snd, h: Highest, g: Seg)
    requires h != NoAck
    ensures CountedIn(s.una, s.nxt, h, g) == if Off(s.una, h.sn) < InFlight(s) then PassedOver(s.una, h.sn, g) else g
  {
    hide Off, Wrap;
  }

  predicate SomeSame(buf: seq<Seg>, g: Seg) {
    exists i :: 0 <= i < |buf| && Same(buf[i], g)
  }

  /** Input of an encoded datagram: nothing it acknowledges stays in flight, nothing it neither names nor
      lies ahead of leaves it, and what stays is unchanged, except that the segments below the highest
      acknowledged number are counted as passed over once more. */
  lemma InputRemoves(cb: Cb, segs: seq<WireSeg>)
    requires ControlInvariant.Inv(cb) && segs != [] && AllAcceptable(cb.cfg.conv, segs) && TotalSize(segs) < HALF
    ensures var r, h := Input(cb, EncodeAll(segs)).cb.snd, HighestAck(NoAck, segs);
      && r.nxt == cb.snd.nxt
      && (forall i :: 0 <= i < |cb.snd.buf| ==>
            if AnyAcks(cb.snd, segs, cb.snd.buf[i].sn) then !SomeSame(r.buf, cb.snd.buf[i])
            else AnyNames(segs, cb.snd.buf[i].sn) || CountedIn(r.una, r.nxt, h, cb.snd.buf[i]) in r.buf)
      && (forall j :: 0 <= j < |r.buf| ==>
            && SomeSame(cb.snd.buf, r.buf[j])
            && forall i :: 0 <= i < |segs| && segs[i].cmd == CMD_ACK ==> segs[i].sn != r.buf[j].sn)
  {
    hide *;
    SndInv(cb);
    InputIs(cb, segs);
    SegmentsRemove(cb, segs);
    var c, h := OnSegments(cb, segs), HighestAck(NoAck, segs);
    SndInv(c);
    FinishCounts(c, cb.snd.una, h, ControlInvariant.Limit(cb.cfg));
    var r := Finish(c, cb.snd.una, h).snd;
    forall g { CountedSame(r.una, r.nxt, h, g); }
    forall i | 0 <= i < |cb.snd.buf| && !AnyNames(segs, cb.snd.buf[i].sn)
      ensures CountedIn(r.una, r.nxt, h, cb.snd.buf[i]) in r.buf
    {
      var k :| 0 <= k < |c.snd.buf| && c.snd.buf[k] == cb.snd.buf[i];
      assert r.buf[k] == CountedIn(r.una, r.nxt, h, cb.snd.buf[i]);
    }
    forall j | 0 <= j < |r.buf| ensures SomeSame(cb.snd.buf, r.buf[j]) && !AnyAcks(cb.snd, segs, r.buf[j].sn) {
      assert c.snd.buf[j] in cb.snd.buf;
      var i :| 0 <= i < |cb.snd.buf| && cb.snd.buf[i] == c.snd.buf[j];
      SomeSameAt(cb.snd.buf, i, r.buf[j]);
    }
    forall i | 0 <= i < |cb.snd.buf| && AnyAcks(cb.snd, segs, cb.snd.buf[i].sn)
      ensures !SomeSame(r.buf, cb.snd.buf[i])
    {
      SomeSameNumber(r.buf, cb.snd.buf[i]);
    }
    forall j | 0 <= j < |r.buf| { AnyAcksNames(cb.snd, segs, r.buf[j].sn); }
  }

  lemma CountedSame(una: u32, nxt: u32, h: Highest, g: Seg)
    ensures Same(CountedIn(una, nxt, h, g), g) && Same(g, CountedIn(una, nxt, h, g))
    ensures CountedIn(una, nxt, h, g).sn == g.sn
  {
    hide Counts, Wrap;
  }

  lemma SomeSameAt(buf: seq<Seg>, i: nat, g: Seg)
    requires i < |buf| && Same(buf[i], g)
    ensures SomeSame(buf, g)
  {}

  lemma SomeSameNumber(buf: seq<Seg>, g: Seg)
    ensures SomeSame(buf, g) ==> exists i :: 0 <= i < |buf| && buf[i].sn == g.sn
  {}

  lemma AnyAcksNames(s: Snd, segs: seq<WireSeg>, sn: u32)
    ensures !AnyAcks(s, segs, sn) ==> forall i :: 0 <= i < |segs| && segs[i].cmd == CMD_ACK ==> segs[i].sn != sn
  {
    hide Below;
    assert forall i :: 0 <= i < |segs| && segs[i].cmd == CMD_ACK && segs[i].sn == sn ==> Acks(s, segs[i], sn);
  }

  /** Input of a single segment removes exactly what it acknowledges. */
  lemma InputRemovesExactly(cb: Cb, x: WireSeg)
    requires ControlInvariant.Inv(cb) && AllAcceptable(cb.cfg.conv, [x]) && TotalSize([x]) < HALF
    ensures var r := Input(cb, EncodeAll([x])).cb.snd.buf;
      forall i :: 0 <= i < |cb.snd.buf| ==> (SomeSame(r, cb.snd.buf[i]) <==> !Acks(cb.snd, x, cb.snd.buf[i].sn))
  {
    hide *;
    SndInv(cb);
    InputIs(cb, [x]);
    OnSegmentsIs(cb, [x]);
    Lists.HeadTail([x]);
    OnSegmentsIs(OnSegment(cb, x), []);
    OnSegmentIs(cb, x);
    SegmentRemoves(cb.snd, x, ControlInvariant.Limit(cb.cfg));
    var c, h := OnSegment(cb, x), HighestAck(NoAck, [x]);
    FinishCounts(c, cb.snd.una, h, ControlInvariant.Limit(cb.cfg));
    var r := Finish(c, cb.snd.una, h).snd;
    forall g { CountedSame(r.una, r.nxt, h, g); }
    forall i | 0 <= i < |cb.snd.buf| && !Acks(cb.snd, x, cb.snd.buf[i].sn) ensures SomeSame(r.buf, cb.snd.buf[i]) {
      var k :| 0 <= k < |c.snd.buf| && c.snd.buf[k] == cb.snd.buf[i];
      SomeSameAt(r.buf, k, cb.snd.buf[i]);
    }
    forall j | 0 <= j < |r.buf| ensures !Acks(cb.snd, x, r.buf[j].sn) {
      assert c.snd.buf[j] in c.snd.buf;
    }
    forall i | 0 <= i < |cb.snd.buf| && Acks(cb.snd, x, cb.snd.buf[i].sn) ensures !SomeSame(r.buf, cb.snd.buf[i]) {
      SomeSameNumber(r.buf, cb.snd.buf[i]);
    }
  }

  /** The segment acknowledges `sn` by name. */
  predicate Named(x: WireSeg, sn: u32) {
    x.cmd == CMD_ACK && x.sn == sn
  }

  predicate AnyNamed(segs: seq<WireSeg>, sn: u32) {
    exists i :: 0 <= i < |segs| && Named(segs[i], sn)
  }

  /** The highest acknowledgement of a datagram is one of them, if there is any. */
  lemma {:induction false} HighestNamed(h: Highest, segs: seq<WireSeg>)
    ensures HighestAck(h, segs) == NoAck <==> h == NoAck && forall i :: 0 <= i < |segs| ==> segs[i].cmd != CMD_ACK
    ensures HighestAck(h, segs) != NoAck ==> HighestAck(h, segs) == h || AnyNamed(segs, HighestAck(h, segs).sn)
    decreases |segs|
  {
    hide TimeDiff;
    if segs != [] {
      HighestNamed(OnAck(h, segs[0]), segs[1..]);
      assert forall i :: 1 <= i < |segs| ==> segs[i] == segs[1..][i - 1];
      assert forall sn :: Named(segs[0], sn) ==> AnyNamed(segs, sn);
      forall sn | AnyNamed(segs[1..], sn) ensures AnyNamed(segs, sn) {
        var i :| 0 <= i < |segs| - 1 && Named(segs[1..][i], sn);
        assert Named(segs[i + 1], sn);
      }
    }
  }

  /** And it is the farthest ahead of any number from which all lie less than half the circle ahead. */
  lemma {:induction false} HighestFarthest(base: u32, h: Highest, segs: seq<WireSeg>)
    requires forall i :: 0 <= i < |segs| && segs[i].cmd == CMD_ACK ==> Off(base, segs[i].sn) < HALF
    requires h != NoAck ==> Off(base, h.sn) < HALF
    ensures var r := HighestAck(h, segs);
      && (h != NoAck ==> r != NoAck && Off(base, h.sn) <= Off(base, r.sn))
      && forall i :: 0 <= i < |segs| && segs[i].cmd == CMD_ACK ==>
           r != NoAck && Off(base, segs[i].sn) <= Off(base, r.sn)
    decreases |segs|
  {
    hide Off, TimeDiff;
    if segs != [] {
      if h != NoAck && segs[0].cmd == CMD_ACK { DiffOff(base, segs[0].sn, h.sn); }
      HighestFarthest(base, OnAck(h, segs[0]), segs[1..]);
      assert forall i :: 1 <= i < |segs| ==> segs[i] == segs[1..][i - 1];
    }
  }

  // ---------------------------------------------------------------- the peer and the clock

  /** The round trips, in milliseconds, that a datagram's acknowledgements report; a time that lies ahead
      of the clock reports none. */
  function Echoes(segs: seq<WireSeg>, current: u32): seq<int>
    decreases |segs|
  {
    if segs == [] then []
    else (if segs[0].cmd == CMD_ACK && TimeDiff(current, segs[0].ts) >= 0 then [TimeDiff(current, segs[0].ts)] else [])
         + Echoes(segs[1..], current)
  }

  lemma {:induction false} SamplesFirst(t: RoundTrip.Rtt, interval: u32, rtt: int, rtts: seq<int>)
    ensures RoundTrip.Samples(t, interval, [rtt] + rtts) ==
      RoundTrip.Samples(RoundTrip.UpdateAck(t, interval, rtt), interval, rtts)
    decreases |rtts|
  {
    hide RoundTrip.UpdateAck;
    var all := [rtt] + rtts;
    if rtts == [] {
      assert all[..0] == [];
    } else {
      var n := |rtts| - 1;
      assert all[..n + 1] == [rtt] + rtts[..n];
      SamplesFirst(t, interval, rtt, rtts[..n]);
    }
  }

  predicate Asks(x: WireSeg) {
    x.cmd == CMD_WASK
  }

  lemma {:induction false} SegmentsReport(cb: Cb, segs: seq<WireSeg>)
    ensures var r := OnSegments(cb, segs);
      && r.rmtWnd == (if segs == [] then cb.rmtWnd else segs[|segs| - 1].wnd)
      && r.probe == cb.probe.(tell := cb.probe.tell || exists i :: 0 <= i < |segs| && Asks(segs[i]))
      && r.rtt == RoundTrip.Samples(cb.rtt, cb.cfg.interval, Echoes(segs, cb.current))
      && r.current == cb.current && r.cfg == cb.cfg
    decreases |segs|
  {
    hide OnSegment, TimeDiff, RoundTrip.Samples, OnSegmentSnd;
    if segs == [] {
      SamplesNone(cb.rtt, cb.cfg.interval);
    } else {
      var c := OnSegment(cb, segs[0]);
      OnSegmentIs(cb, segs[0]);
      SegmentsReport(c, segs[1..]);
      assert forall i :: 1 <= i < |segs| ==> segs[i] == segs[1..][i - 1];
      assert (exists i :: 0 <= i < |segs| && Asks(segs[i])) <==>
        Asks(segs[0]) || exists i :: 0 <= i < |segs[1..]| && Asks(segs[1..][i]);
      var x, rest := segs[0], Echoes(segs[1..], cb.current);
      if x.cmd == CMD_ACK && TimeDiff(cb.current, x.ts) >= 0 {
        SamplesFirst(cb.rtt, cb.cfg.interval, TimeDiff(cb.current, x.ts), rest);
      } else {
        Lists.Empty(rest);
      }
    }
  }

  lemma SamplesNone(t: RoundTrip.Rtt, interval: u32)
    ensures RoundTrip.Samples(t, interval, []) == t
  {}

  /** Input of an encoded datagram: the peer's window is the one its last segment announces, a window probe
      in it asks for an answer, every round trip it reports is a sample of the estimator, and the congestion
      window is advanced if the flight's head moved. */
  lemma InputReports(cb: Cb, segs: seq<WireSeg>)
    requires ControlInvariant.Inv(cb) && segs != [] && AllAcceptable(cb.cfg.conv, segs) && TotalSize(segs) < HALF
    ensures var r := Input(cb, EncodeAll(segs)).cb;
      && r.rmtWnd == segs[|segs| - 1].wnd
      && r.probe == cb.probe.(tell := cb.probe.tell || exists i :: 0 <= i < |segs| && segs[i].cmd == CMD_WASK)
      && r.rtt == RoundTrip.Samples(cb.rtt, cb.cfg.interval, Echoes(segs, cb.current))
      && r.cong == if r.snd.una == cb.snd.una then cb.cong else Congestion.OnAdvance(cb.cong, r.rmtWnd, Mss(cb.cfg))
  {
    hide *;
    SndInv(cb);
    InputIs(cb, segs);
    SegmentsReport(cb, segs);
    SegmentsRemove(cb, segs);
    var c, h := OnSegments(cb, segs), HighestAck(NoAck, segs);
    FinishIs(c, cb.snd.una, h);
    SndInv(c);
    var limit := ControlInvariant.Limit(cb.cfg);
    FinishCounts(c, cb.snd.una, h, limit);
    HeadMoves(cb.snd, c.snd, limit);
    CongSame(cb, segs);
    AsksIs();
  }

  lemma AsksIs()
    ensures forall x :: Asks(x) <==> x.cmd == CMD_WASK
  {}

  lemma {:induction false} CongSame(cb: Cb, segs: seq<WireSeg>)
    ensures OnSegments(cb, segs).cong == cb.cong
    decreases |segs|
  {
    hide RoundTrip.UpdateAck, Receiver.OnPush, ParseUna, ParseAck, ShrinkBuf, TimeDiff;
    if segs != [] { CongSame(OnSegment(cb, segs[0]), segs[1..]); }
  }

  /** The flight's head only moves forward. */
  lemma HeadMoves(s: Snd, t: Snd, limit: int)
    requires Inv(s, limit) && Inv(t, limit) && t.nxt == s.nxt && InFlight(t) <= InFlight(s)
    ensures TimeDiff(t.una, s.una) > 0 <==> t.una != s.una
  {
    InFlightBound(s, limit);
    AdvanceTo(s.una, s.nxt);
    AdvanceTo(t.una, t.nxt);
    hide *;
    AheadOff(s.una, t.una);
    OffSelf(s.una, t.una);
    OffBack(s.una, t.una, s.nxt);
  }

  lemma InFlightBound(s: Snd, limit: int)
    requires Inv(s, limit)
    ensures InFlight(s) == Off(s.una, s.nxt) < HALF
  {
    hide Off, Ascending;
  }

  /** Two numbers behind the same end: the one closer to it lies ahead of the other. */
  lemma OffBack(a: u32, b: u32, end: u32)
    requires Off(b, end) <= Off(a, end)
    ensures Off(a, b) == Off(a, end) - Off(b, end)
  {
    hide Wrap;
    AdvanceTo(a, end);
    AdvanceTo(b, end);
    var k := Off(a, end) - Off(b, end);
    DivUnique(b - a, 0x1_0000_0000, (b - a - k) / 0x1_0000_0000, k) by {
      assert (end - a) == 0x1_0000_0000 * ((end - a) / 0x1_0000_0000) + Off(a, end);
      assert (end - b) == 0x1_0000_0000 * ((end - b) / 0x1_0000_0000) + Off(b, end);
    }
  }

  // ---------------------------------------------------------------- the acknowledgements to send

  /** The acknowledgement carries the number of a data segment and the time stamped on it. */
  predicate Echoed(a: Receiver.Ack, x: WireSeg) {
    x.cmd == CMD_PUSH && a.sn == x.sn && a.ts == x.ts
  }

  predicate EchoedIn(a: Receiver.Ack, segs: seq<WireSeg>) {
    exists i :: 0 <= i < |segs| && Echoed(a, segs[i])
  }

  lemma SegmentAcks(cb: Cb, x: WireSeg)
    ensures var r := OnSegment(cb, x).rcv.acks;
      r == cb.rcv.acks || (|r| == |cb.rcv.acks| + 1 && cb.rcv.acks <= r && Echoed(r[|cb.rcv.acks|], x))
  {
    hide ParseUna, ParseAck, ShrinkBuf, TimeDiff, RoundTrip.UpdateAck, Wrap, Receiver.Ready, Receiver.InsertFromTail;
  }

  lemma {:induction false} SegmentsAcks(cb: Cb, segs: seq<WireSeg>)
    ensures var r := OnSegments(cb, segs).rcv.acks;
      cb.rcv.acks <= r && forall i :: |cb.rcv.acks| <= i < |r| ==> EchoedIn(r[i], segs)
    decreases |segs|
  {
    hide OnSegment, Echoed;
    if segs != [] {
      SegmentAcks(cb, segs[0]);
      var c := OnSegment(cb, segs[0]);
      SegmentsAcks(c, segs[1..]);
      forall a | EchoedIn(a, segs[1..]) ensures EchoedIn(a, segs) {
        var i :| 0 <= i < |segs[1..]| && Echoed(a, segs[1..][i]);
        assert segs[1..][i] == segs[i + 1];
      }
    }
  }

  /** Input of an encoded datagram: what is to be acknowledged stays so, and every acknowledgement added echoes
      number and time of one of its data segments. */
  lemma InputEchoes(cb: Cb, segs: seq<WireSeg>)
    requires ControlInvariant.Inv(cb) && segs != [] && AllAcceptable(cb.cfg.conv, segs) && TotalSize(segs) < HALF
    ensures var r := Input(cb, EncodeAll(segs)).cb.rcv.acks;
      cb.rcv.acks <= r && forall i :: |cb.rcv.acks| <= i < |r| ==> EchoedIn(r[i], segs)
  {
    hide *;
    SndInv(cb);
    InputIs(cb, segs);
    SegmentsAcks(cb, segs);
    FinishRcv(OnSegments(cb, segs), cb.snd.una, HighestAck(NoAck, segs));
  }

  lemma FinishRcv(c: Cb, una: u32, h: Highest)
    requires ValidConfig(c.cfg)
    ensures Finish(c, una, h).rcv == c.rcv
  {
    hide ParseFastack, TimeDiff, Congestion.OnAdvance, Mss;
  }

  /** The code of an input is that of the header loop; a datagram shorter than a header is refused with -1 and
      changes nothing. */
  lemma InputStops(cb: Cb, data: seq<byte>)
    requires ValidConfig(cb.cfg) && |data| < HALF
    ensures |data| < 24 ==> Input(cb, data) == InputResult(cb, -1)
    ensures |data| >= 24 ==> Input(cb, data).code == Parse(cb.cfg.conv, data).code
    ensures |data| >= 24 && Input(cb, data).code != 0 ==>
      Input(cb, data).cb == OnSegments(cb, Parse(cb.cfg.conv, data).segs)
  {
    hide OnSegments, Finish, Parse, HighestAck;
  }
}
