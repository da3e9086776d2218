/** One direction of a connection: the messages one side accepted, the segments of theirs that are
    queued, in flight, received and delivered, and the acknowledgements that travel back.
    Sequence numbers are counted without bound here; the engine's 32-bit numbers are their remainders. */
module Flow {
  import opened Serial
  import opened Wire
  import opened Sender
  import opened Receiver
  import opened Fragmentation
  import Lists

  /** The unbounded numbers behind one segment on the wire: `key` is the number of the data segment
      sent or acknowledged, `ack` the cumulative acknowledgement. */
  datatype Tag = Tag(key: nat, ack: nat)

  datatype Packet = Packet(segs: seq<WireSeg>, tags: seq<Tag>)

  /** `ackKeys` are the numbers behind the receiver's list of acknowledgements to send; `pushes` and
      `acks` are all packets ever sent to and by the receiver. */
  datatype Flow = Flow(mss: nat, accepted: seq<seq<byte>>, snd: Snd, delivered: seq<seq<byte>>, rcv: Rcv,
                       ackKeys: seq<nat>, pushes: set<Packet>, acks: set<Packet>)

  // ---------------------------------------------------------------- the stream of fragments

  function FragmentsOf(msg: seq<byte>, mss: nat): seq<Frag> {
    if 0 < mss && |msg| <= 127 * mss then MessageFragments(msg, mss) else []
  }

  /** All fragments of the messages, in order: segment number `k` carries `Stream(accepted)[k]`. */
  function Stream(msgs: seq<seq<byte>>, mss: nat): seq<Frag> {
    if msgs == [] then []
    else Stream(msgs[..|msgs| - 1], mss) + FragmentsOf(msgs[|msgs| - 1], mss)
  }

  lemma StreamAppend(msgs: seq<seq<byte>>, msg: seq<byte>, mss: nat)
    ensures Stream(msgs + [msg], mss) == Stream(msgs, mss) + FragmentsOf(msg, mss)
  {
    assert (msgs + [msg])[..|msgs|] == msgs;
  }

  lemma {:induction false} StreamPrefix(a: seq<seq<byte>>, b: seq<seq<byte>>, mss: nat)
    requires a <= b
    ensures Stream(a, mss) <= Stream(b, mss)
    decreases |b|
  {
    hide FragmentsOf;
    if |a| < |b| {
      StreamPrefix(a, b[..|b| - 1], mss);
    } else {
      assert a == b;
    }
  }

  /** After the fragments of a proper prefix come those of the next message. */
  lemma StreamNext(a: seq<seq<byte>>, b: seq<seq<byte>>, mss: nat)
    requires a <= b && |a| < |b|
    ensures Stream(a, mss) + FragmentsOf(b[|a|], mss) <= Stream(b, mss)
  {
    hide *;
    Lists.PrefixNext(a, b);
    StreamAppend(a, b[|a|], mss);
    StreamPrefix(a + [b[|a|]], b, mss);
  }

  // ---------------------------------------------------------------- unbounded numbers

  ghost function Sequence(f: Flow): seq<Frag> {
    Stream(f.accepted, f.mss)
  }

  /** How many segments ever left the send queue: the number of the next one. */
  ghost function Next(f: Flow): int {
    |Sequence(f)| - |f.snd.queue|
  }

  /** The lowest number in flight, or `Next`. */
  ghost function First(f: Flow): int {
    Next(f) - InFlight(f.snd)
  }

  /** How many segments were handed to the user. */
  ghost function Taken(f: Flow): nat {
    |Stream(f.delivered, f.mss)|
  }

  /** The number the receiver expects next. */
  ghost function Expected(f: Flow): nat {
    Taken(f) + |f.rcv.queue|
  }

  ghost function SentKey(f: Flow, sn: u32): int {
    First(f) + Off(f.snd.una, sn)
  }

  ghost function ReceivedKey(f: Flow, sn: u32): nat {
    Expected(f) + Off(f.rcv.nxt, sn)
  }

  ghost predicate Flying(f: Flow, k: int) {
    exists i :: 0 <= i < |f.snd.buf| && SentKey(f, f.snd.buf[i].sn) == k
  }

  /** Segment `k` has arrived: it is below the receiver's next number or in its reordering buffer. */
  ghost predicate Held(f: Flow, k: nat) {
    k < Expected(f) || exists i :: 0 <= i < |f.rcv.buf| && ReceivedKey(f, f.rcv.buf[i].sn) == k
  }

  ghost predicate Matches(s: seq<Frag>, k: int, frg: int, data: seq<byte>) {
    0 <= k < |s| && s[k].frg == frg && s[k].data == data
  }

  // ---------------------------------------------------------------- invariant

  /** The send queue is the unsent rest of the stream, and every segment in flight carries its fragment. */
  ghost predicate SenderOk(f: Flow) {
    && f.mss > 0 && (forall i :: 0 <= i < |f.accepted| ==> |f.accepted[i]| <= 127 * f.mss)
    && 0 <= First(f) && 0 <= Next(f) && f.snd.queue == Sequence(f)[Next(f)..]
    && f.snd.nxt == Wrap(Next(f))
    && (forall i :: 0 <= i < |f.snd.buf| ==>
          Matches(Sequence(f), SentKey(f, f.snd.buf[i].sn), f.snd.buf[i].frg, f.snd.buf[i].data))
  }

  /** What the user got is a prefix of what was accepted; what is received is what was sent. */
  ghost predicate ReceiverOk(f: Flow) {
    && f.delivered <= f.accepted
    && Expected(f) <= Next(f) && f.rcv.nxt == Wrap(Expected(f))
    && (forall i :: 0 <= i < |f.rcv.queue| ==>
          Matches(Sequence(f), Taken(f) + i, f.rcv.queue[i].frg, f.rcv.queue[i].data))
    && (forall i :: 0 <= i < |f.rcv.buf| ==>
          ReceivedKey(f, f.rcv.buf[i].sn) < Next(f)
          && Matches(Sequence(f), ReceivedKey(f, f.rcv.buf[i].sn), f.rcv.buf[i].frg, f.rcv.buf[i].data))
  }

  /** Acknowledgement safety: a segment that left the flight is held, and so is every segment the
      receiver is about to acknowledge. */
  ghost predicate AcksOk(f: Flow) {
    && (forall k :: 0 <= k < Next(f) ==> Flying(f, k) || Held(f, k))
    && |f.ackKeys| == |f.rcv.acks|
    && (forall i :: 0 <= i < |f.ackKeys| ==> AckedOk(f, f.rcv.acks[i].sn, f.ackKeys[i]))
  }

  ghost predicate AckedOk(f: Flow, sn: u32, key: nat) {
    sn == Wrap(key) && Held(f, key)
  }

  ghost predicate PushOk(f: Flow, s: WireSeg, t: Tag) {
    s.cmd == CMD_PUSH ==> s.sn == Wrap(t.key) && t.key < Next(f) && Matches(Sequence(f), t.key, s.frg, s.data)
  }

  ghost predicate AckOk(f: Flow, s: WireSeg, t: Tag) {
    && s.una == Wrap(t.ack) && t.ack <= Expected(f)
    && (s.cmd == CMD_ACK ==> AckedOk(f, s.sn, t.key))
  }

  ghost predicate PushesOk(f: Flow, p: Packet) {
    |p.tags| == |p.segs| && forall i :: 0 <= i < |p.segs| ==> PushOk(f, p.segs[i], p.tags[i])
  }

  ghost predicate AcksInOk(f: Flow, p: Packet) {
    |p.tags| == |p.segs| && forall i :: 0 <= i < |p.segs| ==> AckOk(f, p.segs[i], p.tags[i])
  }

  ghost predicate NetOk(f: Flow) {
    && (forall p :: p in f.pushes ==> PushesOk(f, p))
    && (forall p :: p in f.acks ==> AcksInOk(f, p))
  }

  /** `limit` bounds the flight; the queue invariants are those of the two control blocks. */
  ghost predicate Valid(f: Flow, limit: int) {
    && limit <= 0xFFFF
    && Sender.Inv(f.snd, limit) && Receiver.Inv(f.rcv)
    && SenderOk(f) && ReceiverOk(f) && AcksOk(f) && NetOk(f)
  }

  // ---------------------------------------------------------------- growth

  /** Nothing sent or held is ever taken back. */
  ghost predicate Grows(f: Flow, g: Flow) {
    && f.mss == g.mss && Sequence(f) <= Sequence(g) && Next(f) <= Next(g) && Expected(f) <= Expected(g)
    && (forall k :: Held(f, k) ==> Held(g, k))
  }

  lemma NetGrows(f: Flow, g: Flow)
    requires NetOk(f) && Grows(f, g) && g.pushes == f.pushes && g.acks == f.acks
    ensures NetOk(g)
  {
    hide Sequence, Next, Expected, Held;
    forall p | p in g.pushes ensures PushesOk(g, p) {
      assert PushesOk(f, p);
      assert forall i :: 0 <= i < |p.segs| ==> PushOk(f, p.segs[i], p.tags[i]);
    }
    forall p | p in g.acks ensures AcksInOk(g, p) {
      assert AcksInOk(f, p);
      assert forall i :: 0 <= i < |p.segs| ==> AckOk(f, p.segs[i], p.tags[i]);
    }
  }

  /** Everything below the flight is held, so the flight begins inside or just past the receive window. */
  lemma FirstInWindow(f: Flow, limit: int)
    requires Valid(f, limit)
    ensures First(f) <= Expected(f) + f.rcv.wnd
    ensures Next(f) <= Expected(f) + f.rcv.wnd + limit
  {
    hide Off, Stream, Contiguous;
    var k := Expected(f) + f.rcv.wnd;
    assert !Held(f, k);
    assert Flying(f, k) ==> First(f) <= k;
  }
}
