/** The sender's steps in a flow: accepting a message, removing acknowledged segments, admitting
    segments to the flight and transmitting them. */
module FlowSender {
  import opened Serial
  import opened Sender
  import opened Receiver
  import opened Fragmentation
  import opened Flow

  // ---------------------------------------------------------------- frames

  /** A step that leaves the receiver and the network alone, does not shrink the stream and keeps
      every segment either in flight or held, keeps the flow valid. */
  lemma SenderStep(f: Flow, g: Flow, limit: int)
    requires Valid(f, limit) && Sender.Inv(g.snd, limit) && SenderOk(g)
    requires g == f.(accepted := g.accepted, snd := g.snd) && f.accepted <= g.accepted
    requires Next(f) <= Next(g)
    requires forall k :: 0 <= k < Next(g) ==> Flying(g, k) || Held(f, k)
    ensures Valid(g, limit) && Grows(f, g)
  {
    hide *;
    ValidParts(f, limit);
    SenderStepGrows(f, g);
    NetGrows(f, g);
    SenderStepReceiver(f, g);
    SenderStepAcks(f, g);
    ValidIs(f, g, limit);
  }

  lemma SenderStepGrows(f: Flow, g: Flow)
    requires g == f.(accepted := g.accepted, snd := g.snd) && f.accepted <= g.accepted && Next(f) <= Next(g)
    ensures Grows(f, g)
  {
    assert Sequence(f) <= Sequence(g) by { StreamPrefix(f.accepted, g.accepted, f.mss); }
    assert forall k :: Held(g, k) <==> Held(f, k) by { hide Off, Stream; }
    hide Off, Stream, Held, Sequence, Next;
  }

  lemma ValidIs(f: Flow, g: Flow, limit: int)
    requires Valid(f, limit) && Sender.Inv(g.snd, limit) && Receiver.Inv(g.rcv)
    requires SenderOk(g) && ReceiverOk(g) && AcksOk(g) && NetOk(g)
    ensures Valid(g, limit)
  {
    hide Sender.Inv, Receiver.Inv, SenderOk, ReceiverOk, AcksOk, NetOk;
  }

  lemma SenderStepReceiver(f: Flow, g: Flow)
    requires ReceiverOk(f) && Grows(f, g)
    requires g == f.(accepted := g.accepted, snd := g.snd) && f.accepted <= g.accepted
    ensures ReceiverOk(g) && Receiver.Inv(f.rcv) == Receiver.Inv(g.rcv)
  {
    hide Off, Stream, Receiver.Inv, Held, InFlight;
  }

  lemma SenderStepAcks(f: Flow, g: Flow)
    requires AcksOk(f) && Grows(f, g) && g.rcv == f.rcv && g.ackKeys == f.ackKeys
    requires forall k :: 0 <= k < Next(g) ==> Flying(g, k) || Held(f, k)
    ensures AcksOk(g)
  {
    hide Off, Stream, Held, Flying, Next, Expected, Sequence;
    assert forall i :: 0 <= i < |f.ackKeys| ==> AckedOk(f, f.rcv.acks[i].sn, f.ackKeys[i]);
  }

  // ---------------------------------------------------------------- accepting a message

  lemma Accept(f: Flow, limit: int, msg: seq<byte>) returns (g: Flow)
    requires Valid(f, limit)
    ensures g == f.(snd := Send(f.snd, f.mss, false, msg).snd,
                    accepted := if |msg| <= 127 * f.mss then f.accepted + [msg] else f.accepted)
    ensures Valid(g, limit) && Grows(f, g)
  {
    g := f.(snd := Send(f.snd, f.mss, false, msg).snd,
            accepted := if |msg| <= 127 * f.mss then f.accepted + [msg] else f.accepted);
    SendMessage(f.snd, f.mss, msg);
    SendInv(f.snd, f.mss, false, msg, limit);
    if |msg| <= 127 * f.mss {
      AcceptOk(f, g, msg);
      AcceptFlying(f, g);
      SenderStep(f, g, limit);
    } else {
      assert g == f;
    }
    hide *;
  }

  lemma AcceptOk(f: Flow, g: Flow, msg: seq<byte>)
    requires SenderOk(f) && |msg| <= 127 * f.mss
    requires g.mss == f.mss && g.accepted == f.accepted + [msg]
    requires g.snd == f.snd.(queue := f.snd.queue + MessageFragments(msg, f.mss), nque := g.snd.nque)
    ensures SenderOk(g) && Next(g) == Next(f) && Sequence(g) == Sequence(f) + MessageFragments(msg, f.mss)
  {
    StreamAppend(f.accepted, msg, f.mss);
    hide Off, Stream, MessageFragments;
    var s, t := Sequence(f), Sequence(g);
    assert t[Next(g)..] == s[Next(f)..] + MessageFragments(msg, f.mss);
  }

  lemma AcceptFlying(f: Flow, g: Flow)
    requires AcksOk(f) && Next(g) == Next(f) && g.snd.buf == f.snd.buf && g.snd.una == f.snd.una &&
        g.snd.nxt == f.snd.nxt
    ensures forall k :: 0 <= k < Next(g) ==> Flying(g, k) || Held(f, k)
  {
    hide Off, Stream, Held, Next, Sequence;
    assert forall k :: Flying(f, k) <==> Flying(g, k);
  }

  // ---------------------------------------------------------------- acknowledgements

  /** The half-range assumption on an acknowledgement that arrives: what it names is at most half the
      circle behind the sender. */
  ghost predicate AckLive(f: Flow, t: Tag, isAck: bool) {
    Next(f) <= t.ack + HALF && (isAck ==> Next(f) <= t.key + HALF)
  }

  /** Dropping segments from the flight that the receiver holds, then shrinking. `kept` lists what stays. */
  lemma Drop(f: Flow, limit: int, snd: Snd) returns (g: Flow)
    requires Valid(f, limit) && Ordered(snd, limit)
    requires snd == f.snd.(buf := snd.buf, nbuf := snd.nbuf)
    requires forall g :: g in snd.buf ==> g in f.snd.buf
    requires forall i :: 0 <= i < |f.snd.buf| ==>
        f.snd.buf[i] in snd.buf || (SentKey(f, f.snd.buf[i].sn) >= 0 && Held(f, SentKey(f, f.snd.buf[i].sn)))
    ensures g == f.(snd := ShrinkBuf(snd))
    ensures Valid(g, limit) && Grows(f, g) && Next(g) == Next(f)
    ensures forall s :: s in snd.buf ==> SentKey(g, s.sn) == SentKey(f, s.sn)
  {
    g := f.(snd := ShrinkBuf(snd));
    ShrinkInv(snd, limit);
    AdvanceTo(snd.una, snd.nxt);
    Rebase(snd.una, InFlight(snd), snd.buf, g.snd.una);
    DropKeys(f, g, snd);
    DropOk(f, g, snd);
    DropFlying(f, g, snd);
    SenderStep(f, g, limit);
    hide *;
  }

  lemma DropKeys(f: Flow, g: Flow, snd: Snd)
    requires snd == f.snd.(buf := snd.buf, nbuf := snd.nbuf) && g == f.(snd := ShrinkBuf(snd))
    requires InFlight(g.snd) == InFlight(snd) - Off(snd.una, g.snd.una)
    requires forall i :: 0 <= i < |snd.buf| ==>
        Off(g.snd.una, snd.buf[i].sn) == Off(snd.una, snd.buf[i].sn) - Off(snd.una, g.snd.una)
    ensures Next(g) == Next(f) && First(g) == First(f) + Off(snd.una, g.snd.una)
    ensures forall s :: s in snd.buf ==> SentKey(g, s.sn) == SentKey(f, s.sn)
  {
    hide Off, Stream;
  }

  lemma DropOk(f: Flow, g: Flow, snd: Snd)
    requires SenderOk(f) && g == f.(snd := ShrinkBuf(snd)) && snd == f.snd.(buf := snd.buf, nbuf := snd.nbuf)
    requires forall s :: s in snd.buf ==> s in f.snd.buf && SentKey(g, s.sn) == SentKey(f, s.sn)
    requires Next(g) == Next(f) && First(f) <= First(g)
    ensures SenderOk(g)
  {
    hide Off, Stream, Next, First, Matches, SentKey;
    assert Sequence(g) == Sequence(f) && g.snd.queue == f.snd.queue && g.snd.nxt == f.snd.nxt;
    forall i | 0 <= i < |g.snd.buf|
      ensures Matches(Sequence(g), SentKey(g, g.snd.buf[i].sn), g.snd.buf[i].frg, g.snd.buf[i].data)
    {
      var s := snd.buf[i];
      assert s in snd.buf;
      var j :| 0 <= j < |f.snd.buf| && f.snd.buf[j] == s;
    }
  }

  lemma DropFlying(f: Flow, g: Flow, snd: Snd)
    requires AcksOk(f) && g == f.(snd := ShrinkBuf(snd)) && Next(g) == Next(f)
    requires forall s :: s in snd.buf ==> SentKey(g, s.sn) == SentKey(f, s.sn)
    requires forall i :: 0 <= i < |f.snd.buf| ==>
        f.snd.buf[i] in snd.buf || (SentKey(f, f.snd.buf[i].sn) >= 0 && Held(f, SentKey(f, f.snd.buf[i].sn)))
    ensures forall k :: 0 <= k < Next(g) ==> Flying(g, k) || Held(f, k)
  {
    hide Off, Stream, Next, SentKey, Held, Sequence, Expected;
    forall k | 0 <= k < Next(g) ensures Flying(g, k) || Held(f, k) {
      if Flying(f, k) && !Held(f, k) {
        var i :| 0 <= i < |f.snd.buf| && SentKey(f, f.snd.buf[i].sn) == k;
        var j :| 0 <= j < |snd.buf| && snd.buf[j] == f.snd.buf[i];
        assert g.snd.buf[j] == snd.buf[j];
      }
    }
  }

  /** A removal of exactly the segments whose numbers are `gone`. */
  lemma RemovedFlying(f: Flow, g: Flow, gone: int -> bool)
    requires forall s :: s in g.snd.buf <==> s in f.snd.buf && !gone(SentKey(f, s.sn))
    requires forall s :: s in g.snd.buf ==> SentKey(g, s.sn) == SentKey(f, s.sn)
    ensures forall k :: Flying(g, k) <==> Flying(f, k) && !gone(k)
  {
    hide SentKey;
    forall k | Flying(g, k) ensures Flying(f, k) && !gone(k) {
      var i :| 0 <= i < |g.snd.buf| && SentKey(g, g.snd.buf[i].sn) == k;
      var j :| 0 <= j < |f.snd.buf| && f.snd.buf[j] == g.snd.buf[i];
    }
    forall k | Flying(f, k) && !gone(k) ensures Flying(g, k) {
      var j :| 0 <= j < |f.snd.buf| && SentKey(f, f.snd.buf[j].sn) == k;
      var i :| 0 <= i < |g.snd.buf| && g.snd.buf[i] == f.snd.buf[j];
    }
  }

  /** Where the numbers of the flight stand. */
  lemma FlightKeys(f: Flow, limit: int)
    requires Valid(f, limit)
    ensures forall i :: 0 <= i < |f.snd.buf| ==>
      0 <= First(f) <= SentKey(f, f.snd.buf[i].sn) < Next(f) && f.snd.buf[i].sn == Wrap(SentKey(f, f.snd.buf[i].sn))
    ensures Next(f) <= First(f) + limit && f.snd.una == Wrap(First(f))
  {
    hide *;
    ValidParts(f, limit);
    FlightBounds(f, limit);
    UnaIs(Next(f), f.snd.una);
    forall i | 0 <= i < |f.snd.buf|
      ensures First(f) <= SentKey(f, f.snd.buf[i].sn) < Next(f) && f.snd.buf[i].sn == Wrap(SentKey(f, f.snd.buf[i].sn))
    {
      AdvanceTo(f.snd.una, f.snd.buf[i].sn);
      SentKeyIs(f, f.snd.buf[i].sn);
      WrapAdd(First(f), Off(f.snd.una, f.snd.buf[i].sn));
    }
  }

  lemma FlightBounds(f: Flow, limit: int)
    requires SenderOk(f) && Ordered(f.snd, limit)
    ensures 0 <= First(f) == Next(f) - Off(f.snd.una, f.snd.nxt) && Next(f) <= First(f) + limit
    ensures forall i :: 0 <= i < |f.snd.buf| ==> Off(f.snd.una, f.snd.buf[i].sn) < Next(f) - First(f)
  {
    hide Off, Next, Sequence, Wrap, Matches, SentKey;
  }

  lemma SentKeyIs(f: Flow, sn: u32)
    ensures SentKey(f, sn) == First(f) + Off(f.snd.una, sn)
  {
    hide First, Off;
  }

  lemma UnaIs(n: int, una: u32)
    ensures Wrap(n - Off(una, Wrap(n))) == una
  {}

  /** A cumulative acknowledgement removes exactly the segments below it, which are all held. */
  lemma Cumulative(f: Flow, limit: int, una: u32, t: Tag) returns (g: Flow)
    requires Valid(f, limit) && una == Wrap(t.ack) && t.ack <= Expected(f) && AckLive(f, t, false)
    ensures g == f.(snd := ShrinkBuf(ParseUna(f.snd, una)))
    ensures Valid(g, limit) && Grows(f, g) && Next(g) == Next(f)
    ensures forall k :: Flying(g, k) <==> Flying(f, k) && k >= t.ack
  {
    FlightKeys(f, limit);
    ParseUnaInv(f.snd, una, limit);
    BelowKeys(f, una, t);
    g := Drop(f, limit, ParseUna(f.snd, una));
    hide *;
    ShrunkBuf(f, g, ParseUna(f.snd, una));
    ParseUnaExactly(f.snd, una, limit);
    forall s | s in f.snd.buf ensures Below(f.snd, una, s.sn) <==> SentKey(f, s.sn) < t.ack {
      BelowIs(f, limit, una, t, s);
    }
    RemovedFlying(f, g, k => k < t.ack);
  }

  lemma ShrunkBuf(f: Flow, g: Flow, snd: Snd)
    requires g == f.(snd := ShrinkBuf(snd))
    ensures g.snd.buf == snd.buf
  {}

  lemma BelowIs(f: Flow, limit: int, una: u32, t: Tag, s: Seg)
    requires Valid(f, limit) && una == Wrap(t.ack) && t.ack <= Expected(f) && AckLive(f, t, false) && s in f.snd.buf
    ensures Below(f.snd, una, s.sn) <==> SentKey(f, s.sn) < t.ack
  {
    FlightKeys(f, limit);
    hide *;
    ValidParts(f, limit);
    ExpectedBelowNext(f);
    SentKeyIs(f, s.sn);
    BelowOff(f.snd, una, s.sn, First(f), t.ack);
  }

  lemma ExpectedBelowNext(f: Flow)
    requires ReceiverOk(f)
    ensures Expected(f) <= Next(f)
  {
    hide Expected, Next, Matches, Sequence, ReceivedKey;
  }

  lemma BelowOff(snd: Snd, una: u32, sn: u32, first: nat, ack: nat)
    requires snd.una == Wrap(first) && una == Wrap(ack) && -HALF <= ack - first < HALF
    ensures Below(snd, una, sn) <==> first + Off(snd.una, sn) < ack
  {
    hide Off, Wrap, TimeDiff;
    DiffExact(ack, first);
    if ack > first {
      WrapAdd(first, ack - first);
      OffWrap(snd.una, ack - first);
    }
  }

  lemma BelowKeys(f: Flow, una: u32, t: Tag)
    requires una == Wrap(t.ack) && t.ack <= Expected(f) && AckLive(f, t, false) && t.ack <= Next(f) + HALF - 1
    requires Next(f) <= First(f) + 0xFFFF && Expected(f) <= Next(f)
    requires forall i :: 0 <= i < |f.snd.buf| ==>
      0 <= First(f) <= SentKey(f, f.snd.buf[i].sn) < Next(f) && f.snd.buf[i].sn == Wrap(SentKey(f, f.snd.buf[i].sn))
    ensures var snd := ParseUna(f.snd, una);
      && snd == f.snd.(buf := snd.buf, nbuf := snd.nbuf)
      && (forall g :: g in snd.buf ==> g in f.snd.buf)
      && forall i :: 0 <= i < |f.snd.buf| ==>
          f.snd.buf[i] in snd.buf || (SentKey(f, f.snd.buf[i].sn) >= 0 && Held(f, SentKey(f, f.snd.buf[i].sn)))
  {
    hide Off, Stream, Wrap, TimeDiff, Next, First, SentKey, Expected;
    var k := BelowUna(f.snd.buf, una);
    forall i | 0 <= i < |f.snd.buf|
      ensures f.snd.buf[i] in f.snd.buf[k..] || (SentKey(f, f.snd.buf[i].sn) >= 0 &&
          Held(f, SentKey(f, f.snd.buf[i].sn)))
    {
      if i < k {
        DiffExact(t.ack, SentKey(f, f.snd.buf[i].sn));
      } else {
        assert f.snd.buf[k..][i - k] == f.snd.buf[i];
      }
    }
  }

  /** A selective acknowledgement removes exactly the segment it names, which is held. */
  lemma Selective(f: Flow, limit: int, sn: u32, t: Tag) returns (g: Flow)
    requires Valid(f, limit) && AckedOk(f, sn, t.key) && t.key < Next(f) && Next(f) <= t.key + HALF
    ensures g == f.(snd := ShrinkBuf(ParseAck(f.snd, sn)))
    ensures Valid(g, limit) && Grows(f, g) && Next(g) == Next(f)
    ensures forall k :: Flying(g, k) <==> Flying(f, k) && k != t.key
  {
    FlightKeys(f, limit);
    ParseAckInv(f.snd, sn, limit);
    NamedKey(f, sn, t);
    g := Drop(f, limit, ParseAck(f.snd, sn));
    hide *;
    ShrunkBuf(f, g, ParseAck(f.snd, sn));
    ValidParts(f, limit);
    ParseAckExactly(f.snd, sn, limit);
    forall s | s in f.snd.buf ensures s.sn == sn <==> SentKey(f, s.sn) == t.key {
      NamedIs(f, limit, sn, t, s);
    }
    RemovedFlying(f, g, k => k == t.key);
  }

  lemma NamedIs(f: Flow, limit: int, sn: u32, t: Tag, s: Seg)
    requires Valid(f, limit) && sn == Wrap(t.key) && t.key < Next(f) <= t.key + HALF && s in f.snd.buf
    ensures s.sn == sn <==> SentKey(f, s.sn) == t.key
  {
    FlightKeys(f, limit);
    hide *;
    ValidParts(f, limit);
    if s.sn == sn { SameNumber(SentKey(f, s.sn), t.key); }
  }

  lemma NamedKey(f: Flow, sn: u32, t: Tag)
    requires AckedOk(f, sn, t.key) && t.key < Next(f) <= t.key + HALF && Next(f) <= First(f) + 0xFFFF
    requires forall i :: 0 <= i < |f.snd.buf| ==>
      0 <= First(f) <= SentKey(f, f.snd.buf[i].sn) < Next(f) && f.snd.buf[i].sn == Wrap(SentKey(f, f.snd.buf[i].sn))
    ensures var snd := ParseAck(f.snd, sn);
      && snd == f.snd.(buf := snd.buf, nbuf := snd.nbuf)
      && (forall g :: g in snd.buf ==> g in f.snd.buf)
      && forall i :: 0 <= i < |f.snd.buf| ==>
          f.snd.buf[i] in snd.buf || (SentKey(f, f.snd.buf[i].sn) >= 0 && Held(f, SentKey(f, f.snd.buf[i].sn)))
  {
    var k := WithoutSnSpec(f.snd.buf, sn);
    hide Off, Stream, Wrap, TimeDiff, Next, First, SentKey, Expected, WithoutSn, Held;
    if k < |f.snd.buf| {
      SameNumber(t.key, SentKey(f, f.snd.buf[k].sn));
    }
    forall i | 0 <= i < |f.snd.buf| && i != k ensures f.snd.buf[i] in f.snd.buf[..k] +
        (if k < |f.snd.buf| then f.snd.buf[k + 1..] else []) {
      if i < k {
        assert f.snd.buf[..k][i] == f.snd.buf[i];
      } else {
        assert f.snd.buf[k + 1..][i - k - 1] == f.snd.buf[i];
      }
    }
  }

  lemma SameNumber(a: int, b: int)
    requires -0x1_0000_0000 < a - b < 0x1_0000_0000 && Wrap(a) == Wrap(b)
    ensures a == b
  {}

  /** Counting skipped segments changes only their counters. */
  lemma Skip(f: Flow, limit: int, sn: u32) returns (g: Flow)
    requires Valid(f, limit)
    ensures g == f.(snd := ParseFastack(f.snd, sn))
    ensures Valid(g, limit) && Grows(f, g)
    ensures forall k :: Flying(g, k) <==> Flying(f, k)
  {
    g := f.(snd := ParseFastack(f.snd, sn));
    ParseFastackInv(f.snd, sn, limit);
    SameFlight(f, g, limit);
    hide *;
  }

  /** A change of the flight that keeps every segment's number and fragment. */
  lemma SameFlight(f: Flow, g: Flow, limit: int)
    requires Valid(f, limit) && g == f.(snd := f.snd.(buf := g.snd.buf)) && Sender.Inv(g.snd, limit)
    requires |g.snd.buf| == |f.snd.buf|
    requires forall i :: 0 <= i < |f.snd.buf| ==>
      g.snd.buf[i].sn == f.snd.buf[i].sn && g.snd.buf[i].frg == f.snd.buf[i].frg &&
          g.snd.buf[i].data == f.snd.buf[i].data
    ensures Valid(g, limit) && Grows(f, g) && Next(g) == Next(f) && First(g) == First(f)
    ensures forall k :: Flying(g, k) <==> Flying(f, k)
  {
    assert SenderOk(g) && Next(g) == Next(f) && First(g) == First(f)
           && (forall k :: 0 <= k < Next(g) ==> Flying(g, k) || Held(f, k))
           && (forall k :: Flying(g, k) <==> Flying(f, k)) by {
      hide Off, Stream, Held, Wrap;
      assert forall k :: Flying(f, k) <==> Flying(g, k);
    }
    hide *;
    SenderStep(f, g, limit);
  }

  // ---------------------------------------------------------------- admission

  /** Admission of one segment: it gets the number `Next` and carries the head of the queue. */
  lemma AdmitOneFlow(f: Flow, limit: int, cwnd: u32, c: Tx) returns (g: Flow)
    requires Valid(f, limit) && cwnd <= limit && f.snd.queue != [] && InFlight(f.snd) < cwnd
    ensures g == f.(snd := g.snd) && Admit(f.snd, cwnd, c) == Admit(g.snd, cwnd, c) && g.snd.queue == f.snd.queue[1..]
    ensures Valid(g, limit) && Grows(f, g)
  {
    hide *;
    ValidParts(f, limit);
    var t := AdmitOne(f.snd, cwnd, c, limit);
    g := f.(snd := t);
    AdmittedHead(f.snd, t, limit);
    AdmitOneKeys(f, g);
    WrapAdd(Next(f), 1);
    assert g.snd.nxt == Wrap(Next(g));
    AdmitOneOk(f, g, t.buf[|f.snd.buf|]);
    AdmitOneFlying(f, g);
    SenderStep(f, g, limit);
  }

  lemma ValidParts(f: Flow, limit: int)
    requires Valid(f, limit)
    ensures limit <= 0xFFFF && Sender.Inv(f.snd, limit) && Ordered(f.snd, limit) && Receiver.Inv(f.rcv)
    ensures SenderOk(f) && ReceiverOk(f) && AcksOk(f) && NetOk(f)
    ensures f.snd.nxt == Wrap(Next(f)) && 0 <= Next(f)
  {
    hide Ordered, Receiver.Inv, ReceiverOk, AcksOk, NetOk, Next, First, Sequence, Matches, SentKey, Wrap;
  }

  lemma AdmittedHead(s: Snd, t: Snd, limit: int)
    requires Sender.Inv(s, limit) && Ordered(t, limit) && |t.buf| == |s.buf| + 1 && s.buf <= t.buf
    requires t.una == s.una && t.buf[|s.buf|].sn == s.nxt
    ensures Sender.Inv(t, limit)
  {
    hide Off, Ascending;
    assert s.buf != [] ==> t.buf[0] == s.buf[0];
  }

  lemma AdmitOneKeys(f: Flow, g: Flow)
    requires g == f.(snd := g.snd) && f.snd.queue != [] && g.snd.queue == f.snd.queue[1..] && g.snd.una == f.snd.una
    requires InFlight(g.snd) == InFlight(f.snd) + 1
    ensures Next(g) == Next(f) + 1 && First(g) == First(f) && Sequence(g) == Sequence(f)
    ensures SentKey(f, f.snd.nxt) == Next(f)
  {
    hide Off, Stream;
  }

  lemma AdmitOneOk(f: Flow, g: Flow, s: Seg)
    requires SenderOk(f) && g == f.(snd := g.snd) && f.snd.queue != [] && g.snd.queue == f.snd.queue[1..]
    requires g.snd.una == f.snd.una && g.snd.nxt == Wrap(Next(g))
    requires |g.snd.buf| == |f.snd.buf| + 1 && f.snd.buf <= g.snd.buf && g.snd.buf[|f.snd.buf|] == s
    requires s.sn == f.snd.nxt && s.frg == f.snd.queue[0].frg && s.data == f.snd.queue[0].data
    requires Next(g) == Next(f) + 1 && First(g) == First(f) && Sequence(g) == Sequence(f)
    requires SentKey(f, f.snd.nxt) == Next(f)
    ensures SenderOk(g)
  {
    hide Off, Stream, First, Sequence, Wrap;
    assert forall sn :: SentKey(g, sn) == SentKey(f, sn);
    assert f.snd.queue[0] == Sequence(f)[Next(f)];
    forall i | 0 <= i < |g.snd.buf|
      ensures Matches(Sequence(g), SentKey(g, g.snd.buf[i].sn), g.snd.buf[i].frg, g.snd.buf[i].data)
    {
      if i < |f.snd.buf| { assert g.snd.buf[i] == f.snd.buf[i]; } else { assert g.snd.buf[i] == s; }
    }
  }

  lemma AdmitOneFlying(f: Flow, g: Flow)
    requires AcksOk(f) && g.snd.una == f.snd.una && |g.snd.buf| == |f.snd.buf| + 1
    requires f.snd.buf <= g.snd.buf && g.snd.buf[|f.snd.buf|].sn == f.snd.nxt
    requires Next(g) == Next(f) + 1 && First(g) == First(f) && SentKey(f, f.snd.nxt) == Next(f)
    ensures forall k :: 0 <= k < Next(g) ==> Flying(g, k) || Held(f, k)
  {
    hide Off, Stream, Next, First, Sequence, Held;
    assert forall sn :: SentKey(g, sn) == SentKey(f, sn);
    forall k | Flying(f, k) ensures Flying(g, k) {
      var i :| 0 <= i < |f.snd.buf| && SentKey(f, f.snd.buf[i].sn) == k;
      assert g.snd.buf[i] == f.snd.buf[i];
    }
    assert SentKey(g, g.snd.buf[|f.snd.buf|].sn) == Next(f);
  }

  lemma {:induction false} AdmitFlow(f: Flow, limit: int, cwnd: u32, c: Tx) returns (g: Flow)
    requires Valid(f, limit) && cwnd <= limit
    ensures g == f.(snd := Admit(f.snd, cwnd, c))
    ensures Valid(g, limit) && Grows(f, g)
    decreases |f.snd.queue|
  {
    AdmitEnd(f, limit, cwnd, c);
    if f.snd.queue != [] && InFlight(f.snd) < cwnd {
      hide *;
      var h := AdmitOneFlow(f, limit, cwnd, c);
      g := AdmitFlow(h, limit, cwnd, c);
      GrowsTransitive(f, h, g);
    } else {
      g := f;
      hide Off, Stream, Admit;
    }
  }

  lemma AdmitEnd(f: Flow, limit: int, cwnd: u32, c: Tx)
    requires Valid(f, limit) && cwnd <= limit
    ensures f.snd.queue == [] || InFlight(f.snd) >= cwnd ==> Admit(f.snd, cwnd, c) == f.snd
  {
    WindowEdge(f.snd.una, f.snd.nxt, cwnd);
    hide Off, TimeDiff, Wrap;
  }

  lemma GrowsTransitive(f: Flow, g: Flow, h: Flow)
    requires Grows(f, g) && Grows(g, h)
    ensures Grows(f, h)
  {
    hide Sequence, Next, Expected, Held;
  }

  // ---------------------------------------------------------------- transmission

  lemma TransmitFlow(f: Flow, limit: int, c: Tx) returns (g: Flow)
    requires Valid(f, limit)
    ensures g == f.(snd := f.snd.(buf := TransmitAll(f.snd.buf, c)))
    ensures Valid(g, limit) && Grows(f, g) && Next(g) == Next(f) && First(g) == First(f)
  {
    hide *;
    g := f.(snd := f.snd.(buf := TransmitAll(f.snd.buf, c)));
    ValidParts(f, limit);
    TransmitAllInv(f.snd, c, limit);
    TransmitSame(f.snd.buf, c);
    SameFlight(f, g, limit);
  }

  lemma TransmitSame(buf: seq<Seg>, c: Tx)
    ensures forall i :: 0 <= i < |buf| ==>
      Transmit(buf[i], c).sn == buf[i].sn && Transmit(buf[i], c).frg == buf[i].frg &&
          Transmit(buf[i], c).data == buf[i].data
  {
    hide Judge, Backoff, Wrap;
  }

  /** The unbounded numbers of segments about to be transmitted. */
  ghost function PushTags(f: Flow, sent: seq<Seg>, ack: nat): (r: seq<Tag>)
    ensures |r| == |sent|
    ensures forall i :: 0 <= i < |sent| ==> r[i] == Tag(Max(0, SentKey(f, sent[i].sn)), ack)
  {
    seq(|sent|, i requires 0 <= i < |sent| => Tag(Max(0, SentKey(f, sent[i].sn)), ack))
  }

  ghost predicate IsTransmitted(buf: seq<Seg>, c: Tx, g: Seg) {
    exists j :: 0 <= j < |buf| && g == Transmit(buf[j], c)
  }

  lemma {:induction false} SentFrom(buf: seq<Seg>, c: Tx)
    ensures forall i :: 0 <= i < |Sent(buf, c)| ==> IsTransmitted(buf, c, Sent(buf, c)[i])
  {
    hide Judge, Transmit;
    if buf != [] {
      SentFrom(buf[1..], c);
      forall g | IsTransmitted(buf[1..], c, g) ensures IsTransmitted(buf, c, g) {
        var j :| 0 <= j < |buf[1..]| && g == Transmit(buf[1..][j], c);
        assert g == Transmit(buf[j + 1], c);
      }
      assert IsTransmitted(buf, c, Transmit(buf[0], c));
    }
  }

  /** What is transmitted carries the fragment of its number. */
  lemma SentOk(f: Flow, limit: int, conv: u32, c: Tx, ack: nat)
    requires Valid(f, limit)
    ensures var sent := Sent(f.snd.buf, c);
      forall i :: 0 <= i < |sent| ==> PushOk(f, ToWire(conv, sent[i]), PushTags(f, sent, ack)[i])
  {
    hide *;
    ValidParts(f, limit);
    SentFrom(f.snd.buf, c);
    var sent := Sent(f.snd.buf, c);
    forall i | 0 <= i < |sent| ensures PushOk(f, ToWire(conv, sent[i]), PushTags(f, sent, ack)[i]) {
      TransmittedOk(f, limit, conv, c, ack, sent[i]);
    }
  }

  lemma TransmittedOk(f: Flow, limit: int, conv: u32, c: Tx, ack: nat, g: Seg)
    requires Valid(f, limit) && IsTransmitted(f.snd.buf, c, g)
    ensures PushOk(f, ToWire(conv, g), Tag(Max(0, SentKey(f, g.sn)), ack))
  {
    hide *;
    ValidParts(f, limit);
    FlightKeys(f, limit);
    FrgSmall(f);
    TransmittedFrom(f.snd.buf, c, g);
    var j :| 0 <= j < |f.snd.buf| && f.snd.buf[j].sn == g.sn && f.snd.buf[j].frg == g.frg &&
        f.snd.buf[j].data == g.data;
    FlightMatches(f, j);
    PushOkIs(f, conv, ack, g);
  }

  lemma TransmittedFrom(buf: seq<Seg>, c: Tx, g: Seg)
    requires IsTransmitted(buf, c, g)
    ensures exists j :: 0 <= j < |buf| && buf[j].sn == g.sn && buf[j].frg == g.frg && buf[j].data == g.data
  {
    TransmitSame(buf, c);
    hide Transmit;
  }

  lemma FlightMatches(f: Flow, j: nat)
    requires SenderOk(f) && j < |f.snd.buf|
    ensures Matches(Sequence(f), SentKey(f, f.snd.buf[j].sn), f.snd.buf[j].frg, f.snd.buf[j].data)
  {
    hide Matches, SentKey, Sequence, Next, First, Wrap;
  }

  lemma PushOkIs(f: Flow, conv: u32, ack: nat, g: Seg)
    requires Matches(Sequence(f), SentKey(f, g.sn), g.frg, g.data) && g.frg < 128
    requires 0 <= SentKey(f, g.sn) < Next(f) && g.sn == Wrap(SentKey(f, g.sn))
    ensures PushOk(f, ToWire(conv, g), Tag(Max(0, SentKey(f, g.sn)), ack))
  {
    hide SentKey, Sequence, Next, Wrap;
  }

  /** Fragment counters fit the byte they have on the wire. */
  lemma FrgSmall(f: Flow)
    requires SenderOk(f)
    ensures forall i :: 0 <= i < |f.snd.buf| ==> f.snd.buf[i].frg < 128
  {
    StreamSmall(f.accepted, f.mss);
    hide Off, Stream, Wrap;
  }

  lemma {:induction false} StreamSmall(msgs: seq<seq<byte>>, mss: nat)
    ensures forall i :: 0 <= i < |Stream(msgs, mss)| ==> Stream(msgs, mss)[i].frg < 128
  {
    if msgs != [] {
      StreamSmall(msgs[..|msgs| - 1], mss);
    }
  }
}
