/** Two endpoints over a network that may lose, duplicate, delay and reorder datagrams. */
module Session {
  import opened Serial
  import opened Wire
  import opened Control
  import opened Flow
  import ControlInvariant
  import Sender
  import Receiver
  import Fragmentation
  import FlowSender
  import FlowReceiver
  import FlushWire
  import InputEffect
  import Congestion
  import RoundTrip
  import Lists

  /** One endpoint with what its user handed over and got; `ackKeys` are the unbounded numbers behind
      its list of acknowledgements. */
  datatype Side = Side(cb: Cb, accepted: seq<seq<byte>>, delivered: seq<seq<byte>>, ackKeys: seq<nat>)

  /** `toA` and `toB` hold every datagram ever sent: any of them may arrive at any time, any number
      of times, or never. */
  datatype System = System(a: Side, b: Side, toA: set<Packet>, toB: set<Packet>)

  function Swap(s: System): System {
    System(s.b, s.a, s.toB, s.toA)
  }

  function MssOf(c: Config): nat {
    Max(0, c.mtu - OVERHEAD)
  }

  /** The direction from `a` to `b`. */
  ghost function Outgoing(s: System): Flow {
    Flow(MssOf(s.a.cb.cfg), s.a.accepted, s.a.cb.snd, s.b.delivered, s.b.cb.rcv, s.b.ackKeys, s.toB, s.toA)
  }

  ghost function Incoming(s: System): Flow {
    Outgoing(Swap(s))
  }

  // ---------------------------------------------------------------- what side a can do

  ghost function DoSend(s: System, msg: seq<byte>): System
    requires ValidConfig(s.a.cb.cfg)
  {
    var r := UserSend(s.a.cb, msg);
    s.(a := s.a.(cb := r.cb, accepted := if r.code == 0 then s.a.accepted + [msg] else s.a.accepted))
  }

  ghost function DoRecv(s: System, len: int): System {
    var r := UserRecv(s.a.cb, len);
    s.(a := s.a.(cb := r.cb, delivered := if r.code >= 0 && len >= 0 then s.a.delivered + [r.data] else s.a.delivered))
  }

  /** One segment of an arriving datagram, with the numbers behind it. */
  ghost function OnTagged(s: System, x: WireSeg, t: Tag): System {
    s.(a := s.a.(cb := OnSegment(s.a.cb, x),
                 ackKeys := if x.cmd == CMD_PUSH && FlowReceiver.Acknowledges(s.a.cb.rcv, x)
                            then s.a.ackKeys + [t.key] else s.a.ackKeys))
  }

  ghost function OnTaggedAll(s: System, segs: seq<WireSeg>, tags: seq<Tag>): System
    requires |segs| == |tags|
    decreases |segs|
  {
    if segs == [] then s else OnTaggedAll(OnTagged(s, segs[0], tags[0]), segs[1..], tags[1..])
  }

  /** The bytes of a datagram are input. */
  ghost function DoInput(s: System, p: Packet): System
    requires ValidConfig(s.a.cb.cfg) && |p.segs| == |p.tags| && AllSized(p.segs)
  {
    s.(a := s.a.(cb := Input(s.a.cb, EncodeAll(p.segs)).cb, ackKeys := OnTaggedAll(s, p.segs, p.tags).a.ackKeys))
  }

  ghost function KeyTags(keys: seq<nat>, ack: nat): (r: seq<Tag>)
    ensures |r| == |keys|
    ensures forall i :: 0 <= i < |r| ==> r[i] == Tag(keys[i], ack)
  {
    seq(|keys|, i requires 0 <= i < |keys| => Tag(keys[i], ack))
  }

  ghost function ProbeTags(n: nat, ack: nat): (r: seq<Tag>)
    ensures |r| == n
    ensures forall i :: 0 <= i < |r| ==> r[i] == Tag(0, ack)
  {
    seq(n, i => Tag(0, ack))
  }

  /** The flow when a flush has admitted what the window has room for. */
  ghost function Admitted(s: System): Flow {
    Outgoing(s).(snd := Sender.Admit(s.a.cb.snd, SendWindow(s.a.cb), TxOf(s.a.cb)))
  }

  ghost function DueSegs(s: System): seq<Sender.Seg> {
    Sender.Sent(Admitted(s).snd.buf, TxOf(s.a.cb))
  }

  ghost function Probes(cb: Cb): seq<WireSeg> {
    ProbeSegs(cb, ProbeTimer(cb.probe, cb.rmtWnd, cb.current))
  }

  /** The numbers behind everything a flush emits. */
  ghost function FlushTags(s: System): seq<Tag> {
    var ack := Expected(Incoming(s));
    KeyTags(s.a.ackKeys, ack) + ProbeTags(|Probes(s.a.cb)|, ack) + FlowSender.PushTags(Admitted(s), DueSegs(s), ack)
  }

  ghost function Packets(groups: seq<seq<WireSeg>>, tags: seq<Tag>): set<Packet> {
    if groups == [] || |tags| < |groups[0]| then {}
    else {Packet(groups[0], tags[..|groups[0]|])} + Packets(groups[1..], tags[|groups[0]|..])
  }

  ghost function DoFlush(s: System): System
    requires ValidConfig(s.a.cb.cfg)
  {
    if !s.a.cb.updated then s
    else
      var r := Flush(s.a.cb);
      s.(a := s.a.(cb := r.cb, ackKeys := []),
         toB := s.toB + Packets(Pack(s.a.cb.cfg.mtu, [], r.emitted), FlushTags(s)))
  }

  ghost function DoUpdate(s: System, now: u32): System
    requires ValidConfig(s.a.cb.cfg)
  {
    var c := Clocked(s.a.cb, now);
    if Due(s.a.cb, now)
    then DoFlush(s.(a := s.a.(cb := c.(tsFlush := NextFlush(c.tsFlush, now, c.cfg.interval)))))
    else s.(a := s.a.(cb := c))
  }

  // ---------------------------------------------------------------- runs

  datatype Action =
    | SendMessage(msg: seq<byte>)
    | ReceiveMessage(len: int)
    | Arrive(p: Packet)
    | FlushNow
    | UpdateAt(now: u32)

  ghost predicate SegmentLive(s: System, x: WireSeg, t: Tag) {
    && FlowSender.AckLive(Outgoing(s), t, x.cmd == CMD_ACK)
    && (x.cmd == CMD_PUSH ==> FlowReceiver.PushLive(Incoming(s), t))
  }

  /** Each segment is live when its turn comes. */
  ghost predicate LiveInTurn(s: System, segs: seq<WireSeg>, tags: seq<Tag>)
    requires |segs| == |tags|
    decreases |segs|
  {
    segs == []
    || (SegmentLive(s, segs[0], tags[0]) && LiveInTurn(OnTagged(s, segs[0], tags[0]), segs[1..], tags[1..]))
  }

  /** The half-range assumption: a datagram that arrives is not so old that one of its numbers lies
      more than half the circle behind the number it is compared with. */
  ghost predicate Live(s: System, p: Packet) {
    |p.tags| == |p.segs| && LiveInTurn(s, p.segs, p.tags)
  }

  ghost predicate Enabled(s: System, x: Action) {
    && ValidConfig(s.a.cb.cfg)
    && (x.Arrive? ==> x.p in s.toA && AllSized(x.p.segs) && Live(s, x.p))
  }

  ghost function Do(s: System, x: Action): System
    requires Enabled(s, x)
  {
    match x
    case SendMessage(msg) => DoSend(s, msg)
    case ReceiveMessage(len) => DoRecv(s, len)
    case Arrive(p) => DoInput(s, p)
    case FlushNow => DoFlush(s)
    case UpdateAt(now) => DoUpdate(s, now)
  }

  /** Either side acts. */
  datatype Step = Step(atA: bool, action: Action)

  ghost predicate CanStep(s: System, x: Step) {
    Enabled(if x.atA then s else Swap(s), x.action)
  }

  ghost function After(s: System, x: Step): System
    requires CanStep(s, x)
  {
    if x.atA then Do(s, x.action) else Swap(Do(Swap(s), x.action))
  }

  ghost predicate StepAt(run: seq<System>, steps: seq<Step>, i: nat)
    requires i + 1 < |run| && i < |steps|
  {
    CanStep(run[i], steps[i]) && run[i + 1] == After(run[i], steps[i])
  }

  ghost predicate IsRun(run: seq<System>, steps: seq<Step>)
    ensures IsRun(run, steps) ==> |run| == |steps| + 1
  {
    |run| == |steps| + 1 && forall i :: 0 <= i < |steps| ==> StepAt(run, steps, i)
  }

  /** Two created control blocks in message mode with the same conversation number; every receive
      window the setters allow is at least 128. */
  ghost predicate Start(s: System, a: Config, b: Config, wndA: u32, wndB: u32, minrto: int) {
    && ValidConfig(a) && ValidConfig(b) && a.conv == b.conv && !a.stream && !b.stream
    && 128 <= wndA < HALF && 128 <= wndB < HALF && 0 < minrto <= 200
    && s == System(Side(Create(a, wndA, minrto), [], [], []), Side(Create(b, wndB, minrto), [], [], []), {}, {})
  }

  // ---------------------------------------------------------------- invariant

  ghost predicate PacketOk(conv: u32, p: Packet) {
    p.segs != [] && |p.tags| == |p.segs| && AllAcceptable(conv, p.segs) && TotalSize(p.segs) < HALF
  }

  ghost predicate PacketsOk(conv: u32, net: set<Packet>) {
    forall p :: p in net ==> PacketOk(conv, p)
  }

  ghost predicate SideOk(x: Side)
    ensures SideOk(x) ==> ValidConfig(x.cb.cfg) && ControlInvariant.Inv(x.cb)
  {
    ControlInvariant.Inv(x.cb) && !x.cb.cfg.stream && x.cb.rcv.wnd >= 128
  }

  ghost function LimitOf(x: Side): int {
    ControlInvariant.Limit(x.cb.cfg)
  }

  ghost predicate Inv(s: System)
    ensures Inv(s) ==> ValidConfig(s.a.cb.cfg) && ValidConfig(s.b.cb.cfg)
  {
    && SideOk(s.a) && SideOk(s.b) && s.a.cb.cfg.conv == s.b.cb.cfg.conv
    && PacketsOk(s.a.cb.cfg.conv, s.toA) && PacketsOk(s.a.cb.cfg.conv, s.toB)
    && Valid(Outgoing(s), LimitOf(s.a)) && Valid(Incoming(s), LimitOf(s.b))
  }

  lemma InvParts(s: System)
    requires Inv(s)
    ensures SideOk(s.a) && SideOk(s.b) && s.a.cb.cfg.conv == s.b.cb.cfg.conv
    ensures PacketsOk(s.a.cb.cfg.conv, s.toA) && PacketsOk(s.a.cb.cfg.conv, s.toB)
    ensures Valid(Outgoing(s), LimitOf(s.a)) && Valid(Incoming(s), LimitOf(s.b))
  {
    hide SideOk, PacketsOk, Valid, Outgoing, Incoming, LimitOf;
  }

  /** A step of side `a` that keeps its settings keeps the invariant if both directions stay valid. */
  lemma InvIs(s: System, t: System)
    requires Inv(s) && SideOk(t.a) && t.b == s.b && t.a.cb.cfg == s.a.cb.cfg
    requires PacketsOk(s.a.cb.cfg.conv, t.toA) && PacketsOk(s.a.cb.cfg.conv, t.toB)
    requires Valid(Outgoing(t), LimitOf(s.a)) && Valid(Incoming(t), LimitOf(s.b))
    ensures Inv(t)
  {
    hide SideOk, PacketsOk, Valid, Outgoing, Incoming, ControlInvariant.Limit;
  }

  lemma InvSwap(s: System)
    requires Inv(s)
    ensures Inv(Swap(s)) && Swap(Swap(s)) == s
  {
    hide SideOk, PacketsOk, Valid, Outgoing, LimitOf;
  }

  lemma SideIs(x: Side, y: Side)
    requires SideOk(x) && ControlInvariant.Inv(y.cb) && y.cb.cfg == x.cb.cfg && y.cb.rcv.wnd == x.cb.rcv.wnd
    ensures SideOk(y)
  {
    hide ControlInvariant.Inv;
  }

  // ---------------------------------------------------------------- sending and receiving

  lemma SendStep(s: System, msg: seq<byte>)
    requires Inv(s)
    ensures Inv(DoSend(s, msg))
  {
    hide *;
    InvParts(s);
    var t := DoSend(s, msg);
    ControlInvariant.UserSendInv(s.a.cb, msg);
    SendIs(s, msg);
    var g := FlowSender.Accept(Outgoing(s), LimitOf(s.a), msg);
    SideIs(s.a, t.a);
    InvIs(s, t);
  }

  lemma SendIs(s: System, msg: seq<byte>)
    requires SideOk(s.a)
    ensures var t, f := DoSend(s, msg), Outgoing(s);
      && t.b == s.b && t.toA == s.toA && t.toB == s.toB && t.a.cb.cfg == s.a.cb.cfg && t.a.cb.rcv == s.a.cb.rcv
      && t.a.cb == UserSend(s.a.cb, msg).cb
      && f.mss > 0
      && Outgoing(t) == f.(snd := Sender.Send(f.snd, f.mss, false, msg).snd,
                           accepted := if |msg| <= 127 * f.mss then f.accepted + [msg] else f.accepted)
      && Incoming(t) == Incoming(s)
  {
    hide ControlInvariant.Inv, Sender.Send;
    assert Mss(s.a.cb.cfg) == MssOf(s.a.cb.cfg);
    Fragmentation.SendMessage(s.a.cb.snd, Mss(s.a.cb.cfg), msg);
  }

  lemma RecvStep(s: System, len: int)
    requires Inv(s)
    ensures Inv(DoRecv(s, len))
  {
    hide *;
    InvParts(s);
    var t := DoRecv(s, len);
    ControlInvariant.UserRecvInv(s.a.cb, len);
    RecvIs(s, len);
    var g := FlowReceiver.UserReceives(Incoming(s), LimitOf(s.b), len);
    SideIs(s.a, t.a);
    InvIs(s, t);
  }

  lemma RecvIs(s: System, len: int)
    ensures var t, f := DoRecv(s, len), Incoming(s);
      var r := Receiver.Recv(f.rcv, len);
      && t.b == s.b && t.toA == s.toA && t.toB == s.toB && t.a.cb.cfg == s.a.cb.cfg && t.a.cb.rcv.wnd == s.a.cb.rcv.wnd
      && t.a.cb == UserRecv(s.a.cb, len).cb
      && Incoming(t) == f.(rcv := r.rcv,
          delivered := if r.code >= 0 && len >= 0 then f.delivered + [r.data] else f.delivered)
      && Outgoing(t) == Outgoing(s)
  {
    hide Receiver.PeekSize, Receiver.Payload, Receiver.MergeCount, Wrap, MssOf;
  }

  // ---------------------------------------------------------------- an arriving datagram

  /** What every segment of the network satisfies. */
  ghost predicate SegmentSound(s: System, x: WireSeg, t: Tag) {
    AckOk(Outgoing(s), x, t) && PushOk(Incoming(s), x, t)
  }

  /** And what it must satisfy when its turn comes. */
  ghost predicate SegmentOk(s: System, x: WireSeg, t: Tag) {
    SegmentSound(s, x, t) && SegmentLive(s, x, t)
  }

  /** How far one step may change what the segments after it are judged by. */
  ghost predicate Onward(s: System, t: System) {
    && Grows(Outgoing(s), Outgoing(t)) && Grows(Incoming(s), Incoming(t))
    && t.a.cb.rcv.wnd == s.a.cb.rcv.wnd && t.a.cb.cfg == s.a.cb.cfg
  }

  lemma OnwardSegment(s: System, t: System, x: WireSeg, tag: Tag)
    requires SegmentSound(s, x, tag) && Onward(s, t)
    ensures SegmentSound(t, x, tag)
  {
    hide Outgoing, Next, Expected, Sequence, Held, Wrap;
  }

  lemma RcvOf(s: System)
    ensures Incoming(s).rcv == s.a.cb.rcv && Incoming(s).ackKeys == s.a.ackKeys && Outgoing(s).snd == s.a.cb.snd
    ensures Outgoing(s).pushes == s.toB && Incoming(s).acks == s.toB
    ensures Outgoing(s).acks == s.toA && Incoming(s).pushes == s.toA
  {}

  /** The cumulative acknowledgement every segment carries. */
  lemma UnaStep(s: System, x: WireSeg, tag: Tag) returns (f: Flow)
    requires Inv(s) && SegmentOk(s, x, tag)
    ensures f == Outgoing(s).(snd := Sender.ShrinkBuf(Sender.ParseUna(s.a.cb.snd, x.una)))
    ensures Valid(f, LimitOf(s.a)) && Grows(Outgoing(s), f) && Next(f) == Next(Outgoing(s))
    ensures forall k :: Flying(f, k) <==> Flying(Outgoing(s), k) && k >= tag.ack
  {
    hide *;
    InvParts(s);
    SegmentFacts(s, x, tag);
    RcvOf(s);
    f := FlowSender.Cumulative(Outgoing(s), LimitOf(s.a), x.una, tag);
  }

  lemma SegmentFacts(s: System, x: WireSeg, tag: Tag)
    requires SegmentOk(s, x, tag)
    ensures var f, g := Outgoing(s), Incoming(s);
      && x.una == Wrap(tag.ack) && tag.ack <= Expected(f) && FlowSender.AckLive(f, tag, false)
      && (x.cmd == CMD_ACK ==> AckedOk(f, x.sn, tag.key) && Next(f) <= tag.key + HALF)
      && (x.cmd == CMD_PUSH ==> x.sn == Wrap(tag.key) && tag.key < Next(g) && FlowReceiver.PushLive(g, tag)
                                && Matches(Sequence(g), tag.key, x.frg, x.data))
  {
    hide Outgoing, Incoming, Next, Expected, Sequence, Held, Wrap, FlowReceiver.PushLive, Matches;
  }

  lemma OnTaggedIs(s: System, x: WireSeg, tag: Tag)
    ensures var t := OnTagged(s, x, tag);
      && t.a.cb == OnSegment(s.a.cb, x)
      && t.a.cb.cfg == s.a.cb.cfg && t.b == s.b && t.toA == s.toA && t.toB == s.toB
      && Outgoing(t) == Outgoing(s).(snd := InputEffect.OnSegmentSnd(s.a.cb.snd, x))
      && Incoming(t) == (if x.cmd != CMD_PUSH then Incoming(s) else
           Incoming(s).(rcv := Receiver.OnPush(s.a.cb.rcv, x),
                        ackKeys := if FlowReceiver.Acknowledges(s.a.cb.rcv, x) then s.a.ackKeys + [tag.key]
                            else s.a.ackKeys))
  {
    hide Sender.ParseUna, Sender.ParseAck, Sender.ShrinkBuf, Receiver.OnPush, TimeDiff, RoundTrip.UpdateAck,
      FlowReceiver.Acknowledges, MssOf;
  }

  /** The segment acknowledges neither `k` itself nor everything up to it. */
  predicate Spares(x: WireSeg, tag: Tag, k: int) {
    k >= tag.ack && (x.cmd == CMD_ACK ==> k != tag.key)
  }

  predicate AllSpare(segs: seq<WireSeg>, tags: seq<Tag>, k: int)
    requires |segs| == |tags|
  {
    forall i :: 0 <= i < |segs| ==> Spares(segs[i], tags[i], k)
  }

  lemma AllSpareIs(segs: seq<WireSeg>, tags: seq<Tag>, k: int)
    requires |segs| == |tags| && segs != []
    ensures AllSpare(segs, tags, k) <==> Spares(segs[0], tags[0], k) && AllSpare(segs[1..], tags[1..], k)
  {
    hide Spares;
    assert forall i :: 1 <= i < |segs| ==> segs[i] == segs[1..][i - 1] && tags[i] == tags[1..][i - 1];
  }

  lemma SndStep(s: System, x: WireSeg, tag: Tag)
    requires Inv(s) && SegmentOk(s, x, tag)
    ensures var f, g := Outgoing(s), Outgoing(s).(snd := InputEffect.OnSegmentSnd(s.a.cb.snd, x));
      && Valid(g, LimitOf(s.a)) && Grows(f, g)
      && forall k :: Flying(g, k) <==> Flying(f, k) && Spares(x, tag, k)
  {
    hide *;
    SparesIs(x, tag);
    InputEffect.OnSegmentSndIs(s.a.cb.snd, x);
    SegmentFacts(s, x, tag);
    var f := Outgoing(s);
    var h := UnaStep(s, x, tag);
    if x.cmd == CMD_ACK {
      AckedStays(f, h, x.sn, tag.key);
      KeyBelowNext(h, LimitOf(s.a), tag.key, x.sn);
      var g := FlowSender.Selective(h, LimitOf(s.a), x.sn, tag);
      FlowSender.GrowsTransitive(f, h, g);
    }
  }

  lemma SparesIs(x: WireSeg, tag: Tag)
    ensures forall k :: Spares(x, tag, k) <==> k >= tag.ack && (x.cmd == CMD_ACK ==> k != tag.key)
  {}

  lemma AckedStays(f: Flow, h: Flow, sn: u32, key: nat)
    requires AckedOk(f, sn, key) && Grows(f, h)
    ensures AckedOk(h, sn, key)
  {
    hide Held, Wrap, Sequence, Next, Expected;
  }

  /** What is held was sent. */
  lemma KeyBelowNext(f: Flow, limit: int, key: nat, sn: u32)
    requires Valid(f, limit) && AckedOk(f, sn, key)
    ensures key < Next(f)
  {
    hide Receiver.Inv, Sender.Inv, SenderOk, AcksOk, NetOk, Next, Expected, ReceivedKey, Matches, Wrap, Taken, Sequence;
  }

  lemma RcvStep(s: System, x: WireSeg, tag: Tag)
    requires Inv(s) && SegmentOk(s, x, tag) && x.cmd == CMD_PUSH
    ensures var f := Incoming(s);
      var g := f.(rcv := Receiver.OnPush(s.a.cb.rcv, x),
                  ackKeys := if FlowReceiver.Acknowledges(s.a.cb.rcv, x) then s.a.ackKeys + [tag.key] else s.a.ackKeys);
      Valid(g, LimitOf(s.b)) && Grows(f, g)
  {
    hide *;
    InvParts(s);
    SegmentFacts(s, x, tag);
    RcvOf(s);
    var g := FlowReceiver.Push(Incoming(s), LimitOf(s.b), x, tag);
  }

  lemma WndSame(r: Receiver.Rcv, x: WireSeg)
    ensures Receiver.OnPush(r, x).wnd == r.wnd
  {
    hide TimeDiff, Wrap, Receiver.Ready, Receiver.InsertFromTail;
  }

  lemma WndKept(cb: Cb, x: WireSeg)
    ensures OnSegment(cb, x).rcv.wnd == cb.rcv.wnd
  {
    WndSame(cb.rcv, x);
    hide Receiver.OnPush, Sender.ParseUna, Sender.ParseAck, Sender.ShrinkBuf, RoundTrip.UpdateAck, TimeDiff;
  }

  /** One segment of an arriving datagram keeps the invariant. */
  lemma TaggedStep(s: System, x: WireSeg, tag: Tag)
    requires Inv(s) && SegmentOk(s, x, tag)
    ensures Inv(OnTagged(s, x, tag)) && Onward(s, OnTagged(s, x, tag))
  {
    hide *;
    InvParts(s);
    var t := OnTagged(s, x, tag);
    OnTaggedIs(s, x, tag);
    SndStep(s, x, tag);
    if x.cmd == CMD_PUSH { RcvStep(s, x, tag); } else { FlowReceiver.GrowsSelf(Incoming(s)); }
    ControlInvariant.OnSegmentInv(s.a.cb, x);
    WndKept(s.a.cb, x);
    SideIs(s.a, t.a);
    InvIs(s, t);
    OnwardIs(s, t);
  }

  lemma OnwardIs(s: System, t: System)
    requires Grows(Outgoing(s), Outgoing(t)) && Grows(Incoming(s), Incoming(t))
    requires t.a.cb.rcv.wnd == s.a.cb.rcv.wnd && t.a.cb.cfg == s.a.cb.cfg
    ensures Onward(s, t)
  {
    hide Grows, Outgoing, Incoming;
  }

  ghost predicate SegmentsSound(s: System, segs: seq<WireSeg>, tags: seq<Tag>) {
    |segs| == |tags| && forall i :: 0 <= i < |segs| ==> SegmentSound(s, segs[i], tags[i])
  }

  lemma SegmentsNext(s: System, t: System, segs: seq<WireSeg>, tags: seq<Tag>)
    requires SegmentsSound(s, segs, tags) && segs != [] && Onward(s, t)
    ensures SegmentsSound(t, segs[1..], tags[1..])
  {
    hide SegmentSound, Onward;
    forall i | 0 <= i < |segs| - 1 ensures SegmentSound(t, segs[1..][i], tags[1..][i]) {
      assert segs[1..][i] == segs[i + 1] && tags[1..][i] == tags[i + 1];
      OnwardSegment(s, t, segs[i + 1], tags[i + 1]);
    }
  }

  lemma {:induction false} TaggedSteps(s: System, segs: seq<WireSeg>, tags: seq<Tag>)
    requires Inv(s) && SegmentsSound(s, segs, tags) && LiveInTurn(s, segs, tags)
    ensures var t := OnTaggedAll(s, segs, tags);
      Inv(t) && t.a.cb == OnSegments(s.a.cb, segs) && t == s.(a := s.a.(cb := t.a.cb, ackKeys := t.a.ackKeys))
      && t.a.cb.cfg == s.a.cb.cfg && t.a.cb.rcv.wnd == s.a.cb.rcv.wnd
    decreases |segs|
  {
    hide Inv, SegmentSound, SegmentLive, Onward, OnSegment;
    if segs != [] {
      var t := OnTagged(s, segs[0], tags[0]);
      assert SegmentOk(s, segs[0], tags[0]);
      TaggedStep(s, segs[0], tags[0]);
      OnwardSettings(s, t);
      SegmentsNext(s, t, segs, tags);
      hide SegmentsSound;
      TaggedSteps(t, segs[1..], tags[1..]);
    }
  }

  lemma OnwardSettings(s: System, t: System)
    requires Onward(s, t)
    ensures t.a.cb.rcv.wnd == s.a.cb.rcv.wnd && t.a.cb.cfg == s.a.cb.cfg
  {
    hide Grows, Outgoing, Incoming;
  }

  /** Every segment of a live datagram from the network is one the step lemma is about. */
  lemma ArrivingOk(s: System, p: Packet)
    requires Inv(s) && p in s.toA && Live(s, p)
    ensures SegmentsSound(s, p.segs, p.tags) && LiveInTurn(s, p.segs, p.tags) && PacketOk(s.a.cb.cfg.conv, p)
  {
    hide *;
    InvParts(s);
    RcvOf(s);
    FlowSender.ValidParts(Outgoing(s), LimitOf(s.a));
    FlowSender.ValidParts(Incoming(s), LimitOf(s.b));
    ArrivingIs(s, p);
  }

  lemma ArrivingIs(s: System, p: Packet)
    requires NetOk(Outgoing(s)) && NetOk(Incoming(s)) && Outgoing(s).acks == s.toA && Incoming(s).pushes == s.toA
    requires PacketsOk(s.a.cb.cfg.conv, s.toA) && p in s.toA && Live(s, p)
    ensures SegmentsSound(s, p.segs, p.tags) && LiveInTurn(s, p.segs, p.tags) && PacketOk(s.a.cb.cfg.conv, p)
  {
    assert AcksInOk(Outgoing(s), p) && PushesOk(Incoming(s), p);
    hide AckOk, PushOk, Outgoing, Incoming, PacketOk, LiveInTurn;
  }

  /** The counting of skipped segments after the last segment of the datagram. */
  lemma FinishStep(s: System, una: u32, h: Highest)
    requires Inv(s)
    ensures var t := s.(a := s.a.(cb := Finish(s.a.cb, una, h)));
      Inv(t) && forall k :: Flying(Outgoing(t), k) <==> Flying(Outgoing(s), k)
  {
    hide *;
    InvParts(s);
    var t := s.(a := s.a.(cb := Finish(s.a.cb, una, h)));
    ControlInvariant.FinishInv(s.a.cb, una, h);
    FinishIs(s, una, h);
    if h != NoAck {
      var g := FlowSender.Skip(Outgoing(s), LimitOf(s.a), h.sn);
    }
    SideIs(s.a, t.a);
    InvIs(s, t);
  }

  lemma FinishIs(s: System, una: u32, h: Highest)
    requires ValidConfig(s.a.cb.cfg)
    ensures var t := s.(a := s.a.(cb := Finish(s.a.cb, una, h)));
      && t.a.cb.cfg == s.a.cb.cfg && t.a.cb.rcv == s.a.cb.rcv && Incoming(t) == Incoming(s)
      && Outgoing(t) == (if h == NoAck then Outgoing(s) else
           Outgoing(s).(snd := Sender.ParseFastack(Outgoing(s).snd, h.sn)))
  {
    hide Sender.ParseFastack, TimeDiff, Congestion.OnAdvance, Mss, MssOf;
  }

  lemma {:induction false} TaggedFlying(s: System, segs: seq<WireSeg>, tags: seq<Tag>)
    requires Inv(s) && SegmentsSound(s, segs, tags) && LiveInTurn(s, segs, tags)
    ensures forall k :: Flying(Outgoing(OnTaggedAll(s, segs, tags)), k) <==>
      Flying(Outgoing(s), k) && AllSpare(segs, tags, k)
    decreases |segs|
  {
    hide Inv, SegmentSound, SegmentLive, Onward, OnSegment, Flying, Outgoing, AllSpare, OnTagged;
    if segs == [] {
      NothingSpared(tags);
    } else {
      var t := OnTagged(s, segs[0], tags[0]);
      assert SegmentOk(s, segs[0], tags[0]);
      TaggedStep(s, segs[0], tags[0]);
      TaggedFlies(s, segs[0], tags[0]);
      SegmentsNext(s, t, segs, tags);
      hide SegmentsSound;
      TaggedFlying(t, segs[1..], tags[1..]);
      forall k { AllSpareIs(segs, tags, k); }
    }
  }

  lemma NothingSpared(tags: seq<Tag>)
    requires tags == []
    ensures forall k :: AllSpare([], tags, k)
  {}

  lemma TaggedFlies(s: System, x: WireSeg, tag: Tag)
    requires Inv(s) && SegmentOk(s, x, tag)
    ensures forall k :: Flying(Outgoing(OnTagged(s, x, tag)), k) <==> Flying(Outgoing(s), k) && Spares(x, tag, k)
  {
    hide *;
    OnTaggedIs(s, x, tag);
    SndStep(s, x, tag);
  }

  /** What an arriving live datagram takes from the flight is exactly what its acknowledgements name and
      what lies below one of its cumulative acknowledgements. */
  lemma InputRemovesExactly(s: System, p: Packet)
    requires Inv(s) && p in s.toA && AllSized(p.segs) && Live(s, p)
    ensures forall k :: Flying(Outgoing(DoInput(s, p)), k) <==>
      && Flying(Outgoing(s), k)
      && forall i :: 0 <= i < |p.segs| ==> k >= p.tags[i].ack && (p.segs[i].cmd == CMD_ACK ==> k != p.tags[i].key)
  {
    hide *;
    ArrivingOk(s, p);
    PacketFacts(s.a.cb.cfg.conv, p);
    SegmentsLength(s, p);
    TaggedSteps(s, p.segs, p.tags);
    TaggedFlying(s, p.segs, p.tags);
    var t := OnTaggedAll(s, p.segs, p.tags);
    InputEffect.InputIs(s.a.cb, p.segs);
    var una, h := s.a.cb.snd.una, HighestAck(NoAck, p.segs);
    FinishStep(t, una, h);
    DoInputIs(s, p, t, Finish(t.a.cb, una, h));
    AllSpareMeans(p.segs, p.tags);
  }

  lemma AllSpareMeans(segs: seq<WireSeg>, tags: seq<Tag>)
    requires |segs| == |tags|
    ensures forall k :: AllSpare(segs, tags, k) <==>
      forall i :: 0 <= i < |segs| ==> k >= tags[i].ack && (segs[i].cmd == CMD_ACK ==> k != tags[i].key)
  {}

  lemma InputStep(s: System, p: Packet)
    requires Inv(s) && p in s.toA && AllSized(p.segs) && Live(s, p)
    ensures Inv(DoInput(s, p))
  {
    hide *;
    ArrivingOk(s, p);
    PacketFacts(s.a.cb.cfg.conv, p);
    SegmentsLength(s, p);
    TaggedSteps(s, p.segs, p.tags);
    var t := OnTaggedAll(s, p.segs, p.tags);
    InputEffect.InputIs(s.a.cb, p.segs);
    var una, h := s.a.cb.snd.una, HighestAck(NoAck, p.segs);
    FinishStep(t, una, h);
    DoInputIs(s, p, t, Finish(t.a.cb, una, h));
  }

  lemma PacketFacts(conv: u32, p: Packet)
    requires PacketOk(conv, p)
    ensures p.segs != [] && AllAcceptable(conv, p.segs) && TotalSize(p.segs) < HALF
  {
    hide AllAcceptable, TotalSize;
  }

  lemma SegmentsLength(s: System, p: Packet)
    requires SegmentsSound(s, p.segs, p.tags)
    ensures |p.segs| == |p.tags|
  {
    hide SegmentSound;
  }

  lemma DoInputIs(s: System, p: Packet, t: System, cb: Cb)
    requires ValidConfig(s.a.cb.cfg) && |p.segs| == |p.tags| && AllSized(p.segs)
    requires t == OnTaggedAll(s, p.segs, p.tags) && t == s.(a := s.a.(cb := t.a.cb, ackKeys := t.a.ackKeys))
    requires Input(s.a.cb, EncodeAll(p.segs)) == InputResult(cb, 0)
    ensures DoInput(s, p) == t.(a := t.a.(cb := cb))
  {
    hide AllSized, Input, EncodeAll, OnTaggedAll;
  }

  // ---------------------------------------------------------------- a flush

  /** Emitted segments that are sound in both directions: as data in `f`, as acknowledgements in `g`. */
  ghost predicate EmitOk(f: Flow, g: Flow, segs: seq<WireSeg>, tags: seq<Tag>) {
    |segs| == |tags| && forall i :: 0 <= i < |segs| ==> PushOk(f, segs[i], tags[i]) && AckOk(g, segs[i], tags[i])
  }

  lemma EmitAppend(f: Flow, g: Flow, segs: seq<WireSeg>, tags: seq<Tag>, segs': seq<WireSeg>, tags': seq<Tag>)
    requires EmitOk(f, g, segs, tags) && EmitOk(f, g, segs', tags')
    ensures EmitOk(f, g, segs + segs', tags + tags')
  {
    hide PushOk, AckOk;
  }

  lemma EmitGrows(f: Flow, f': Flow, g: Flow, g': Flow, segs: seq<WireSeg>, tags: seq<Tag>)
    requires EmitOk(f, g, segs, tags) && Grows(f, f') && Grows(g, g')
    ensures EmitOk(f', g', segs, tags)
  {
    hide Sequence, Next, Expected, Held, Wrap;
    forall i | 0 <= i < |segs| ensures PushOk(f', segs[i], tags[i]) && AckOk(g', segs[i], tags[i]) {
      assert PushOk(f, segs[i], tags[i]) && AckOk(g, segs[i], tags[i]);
    }
  }

  lemma AckPart(f: Flow, g: Flow, cb: Cb)
    requires AcksOk(g) && ReceiverOk(g) && g.rcv == cb.rcv
    ensures EmitOk(f, g, AckSegs(cb, cb.rcv.acks), KeyTags(g.ackKeys, Expected(g)))
  {
    hide Held, Expected, Next, Sequence, Flying, Matches, Unused, Wrap;
    var segs := AckSegs(cb, cb.rcv.acks);
    forall i | 0 <= i < |segs| ensures AckOk(g, segs[i], KeyTags(g.ackKeys, Expected(g))[i]) {
      assert AckedOk(g, g.rcv.acks[i].sn, g.ackKeys[i]);
    }
  }

  lemma ProbePart(f: Flow, g: Flow, cb: Cb)
    requires ReceiverOk(g) && g.rcv == cb.rcv
    ensures EmitOk(f, g, Probes(cb), ProbeTags(|Probes(cb)|, Expected(g)))
  {
    hide Held, Expected, Next, Sequence, Matches, Unused, Wrap, ProbeTimer;
  }

  lemma {:induction false} SentUna(buf: seq<Sender.Seg>, c: Sender.Tx)
    ensures forall i :: 0 <= i < |Sender.Sent(buf, c)| ==> Sender.Sent(buf, c)[i].una == c.ack
  {
    hide Sender.Judge, Sender.Backoff, Wrap;
    if buf != [] { SentUna(buf[1..], c); }
  }

  lemma PushPart(f: Flow, g: Flow, limit: int, conv: u32, c: Sender.Tx)
    requires Valid(f, limit) && ReceiverOk(g) && c.ack == g.rcv.nxt
    ensures var sent := Sender.Sent(f.snd.buf, c);
      EmitOk(f, g, ToWires(conv, sent), FlowSender.PushTags(f, sent, Expected(g)))
  {
    hide *;
    FlowSender.SentOk(f, limit, conv, c, Expected(g));
    SentUna(f.snd.buf, c);
    ExpectedNumber(g);
    var sent := Sender.Sent(f.snd.buf, c);
    var tags := FlowSender.PushTags(f, sent, Expected(g));
    assert forall i :: 0 <= i < |Sender.Sent(f.snd.buf, c)| ==>
      PushOk(f, Sender.ToWire(conv, Sender.Sent(f.snd.buf, c)[i]),
          FlowSender.PushTags(f, Sender.Sent(f.snd.buf, c), Expected(g))[i]);
    WiresOk(f, g, conv, sent, tags);
  }

  lemma WiresOk(f: Flow, g: Flow, conv: u32, sent: seq<Sender.Seg>, tags: seq<Tag>)
    requires g.rcv.nxt == Wrap(Expected(g)) && forall i :: 0 <= i < |sent| ==> sent[i].una == g.rcv.nxt
    requires |tags| == |sent| && forall i :: 0 <= i < |sent| ==> PushOk(f, Sender.ToWire(conv, sent[i]), tags[i])
    requires forall i :: 0 <= i < |sent| ==> tags[i].ack == Expected(g)
    ensures EmitOk(f, g, ToWires(conv, sent), tags)
  {
    hide PushOk, Expected, Wrap, ToWires;
    var segs := ToWires(conv, sent);
    forall i | 0 <= i < |segs| ensures PushOk(f, segs[i], tags[i]) && AckOk(g, segs[i], tags[i]) {
      assert PushOk(f, Sender.ToWire(conv, sent[i]), tags[i]);
    }
  }

  lemma ExpectedNumber(g: Flow)
    requires ReceiverOk(g)
    ensures g.rcv.nxt == Wrap(Expected(g))
  {
    hide Expected, Next, Sequence, Matches, Taken, Wrap;
  }

  lemma {:induction false} PacketsFrom(f: Flow, g: Flow, groups: seq<seq<WireSeg>>, segs: seq<WireSeg>, tags: seq<Tag>)
    requires Lists.Concat(groups) == segs && EmitOk(f, g, segs, tags)
    ensures forall p :: p in Packets(groups, tags) ==> p.segs in groups && EmitOk(f, g, p.segs, p.tags)
    decreases |groups|
  {
    hide PushOk, AckOk;
    if groups != [] {
      var n := |groups[0]|;
      var rest := Lists.Concat(groups[1..]);
      assert segs == groups[0] + rest;
      assert EmitOk(f, g, groups[0], tags[..n]) && EmitOk(f, g, rest, tags[n..]) by { EmitCut(f, g, segs, tags, n); }
      PacketsFrom(f, g, groups[1..], rest, tags[n..]);
      hide EmitOk;
    }
  }

  lemma EmitCut(f: Flow, g: Flow, segs: seq<WireSeg>, tags: seq<Tag>, n: nat)
    requires EmitOk(f, g, segs, tags) && n <= |segs|
    ensures EmitOk(f, g, segs[..n], tags[..n]) && EmitOk(f, g, segs[n..], tags[n..])
  {
    hide PushOk, AckOk;
    forall i | 0 <= i < |segs| - n ensures PushOk(f, segs[n..][i], tags[n..][i]) &&
        AckOk(g, segs[n..][i], tags[n..][i]) {
      assert segs[n..][i] == segs[n + i] && tags[n..][i] == tags[n + i];
    }
  }

  /** Sound packets may join the network. */
  lemma AddPushes(f: Flow, limit: int, more: set<Packet>)
    requires Valid(f, limit) && forall p :: p in more ==> PushesOk(f, p)
    ensures Valid(f.(pushes := f.pushes + more), limit)
  {
    var h := f.(pushes := f.pushes + more);
    assert NetOk(h) by { PushesSame(f, h); AcksInSame(f, h); hide PushesOk, AcksInOk; }
    AddedSame(f, h);
    hide *;
    FlowSender.ValidParts(f, limit);
    FlowSender.ValidIs(f, h, limit);
  }

  lemma AddAcks(f: Flow, limit: int, more: set<Packet>)
    requires Valid(f, limit) && forall p :: p in more ==> AcksInOk(f, p)
    ensures Valid(f.(acks := f.acks + more), limit)
  {
    var h := f.(acks := f.acks + more);
    assert NetOk(h) by { PushesSame(f, h); AcksInSame(f, h); hide PushesOk, AcksInOk; }
    AddedSame(f, h);
    hide *;
    FlowSender.ValidParts(f, limit);
    FlowSender.ValidIs(f, h, limit);
  }

  lemma PushesSame(f: Flow, h: Flow)
    requires h == f.(pushes := h.pushes, acks := h.acks)
    ensures forall p :: PushesOk(f, p) ==> PushesOk(h, p)
  {
    assert Next(h) == Next(f) && Sequence(h) == Sequence(f);
    hide Next, Sequence, Matches, Wrap;
    forall p | PushesOk(f, p) ensures PushesOk(h, p) {
      assert forall i :: 0 <= i < |p.segs| ==> PushOk(f, p.segs[i], p.tags[i]);
    }
  }

  lemma AcksInSame(f: Flow, h: Flow)
    requires h == f.(pushes := h.pushes, acks := h.acks)
    ensures forall p :: AcksInOk(f, p) ==> AcksInOk(h, p)
  {
    assert Expected(h) == Expected(f) && (forall k :: Held(h, k) <==> Held(f, k)) by { hide Off, Stream; }
    hide Expected, Held, Wrap;
    forall p | AcksInOk(f, p) ensures AcksInOk(h, p) {
      assert forall i :: 0 <= i < |p.segs| ==> AckOk(f, p.segs[i], p.tags[i]);
    }
  }

  lemma AddedSame(f: Flow, h: Flow)
    requires SenderOk(f) && ReceiverOk(f) && AcksOk(f) && h == f.(pushes := h.pushes, acks := h.acks)
    ensures SenderOk(h) && ReceiverOk(h) && AcksOk(h)
  {
    hide *;
    AddedSender(f, h);
    AddedReceiver(f, h);
    AddedAcks(f, h);
  }

  lemma AddedSender(f: Flow, h: Flow)
    requires SenderOk(f) && h == f.(pushes := h.pushes, acks := h.acks)
    ensures SenderOk(h)
  {
    hide Off, Stream, Wrap, Matches;
    assert forall sn :: SentKey(h, sn) == SentKey(f, sn);
  }

  lemma AddedReceiver(f: Flow, h: Flow)
    requires ReceiverOk(f) && h == f.(pushes := h.pushes, acks := h.acks)
    ensures ReceiverOk(h)
  {
    hide Off, Stream, Wrap, Matches;
    assert forall sn :: ReceivedKey(h, sn) == ReceivedKey(f, sn);
  }

  lemma AddedAcks(f: Flow, h: Flow)
    requires AcksOk(f) && h == f.(pushes := h.pushes, acks := h.acks)
    ensures AcksOk(h)
  {
    assert Next(h) == Next(f) && (forall k :: Held(h, k) <==> Held(f, k)) &&
        (forall k :: Flying(h, k) <==> Flying(f, k)) by {
      hide Off, Stream;
    }
    hide Held, Flying, Next, Wrap;
    assert forall i :: 0 <= i < |f.ackKeys| ==> AckedOk(f, f.rcv.acks[i].sn, f.ackKeys[i]);
  }

  /** Everything a flush emits is sound in both directions, once the flush is done. */
  lemma EmittedOk(s: System, f: Flow, g: Flow)
    requires Inv(s) && s.a.cb.updated
    requires Valid(Admitted(s), LimitOf(s.a)) && Grows(Admitted(s), f) && Grows(Incoming(s), g)
    ensures EmitOk(f, g, Flush(s.a.cb).emitted, FlushTags(s))
  {
    hide *;
    InvParts(s);
    RcvOf(s);
    var f0, g0, cb := Admitted(s), Incoming(s), s.a.cb;
    FlowSender.ValidParts(g0, LimitOf(s.b));
    AckPart(f0, g0, cb);
    ProbePart(f0, g0, cb);
    TxAck(cb);
    PushPart(f0, g0, LimitOf(s.a), cb.cfg.conv, TxOf(cb));
    FlushWire.EmittedIs(cb);
    FlushTagsIs(s);
    EmitAppend(f0, g0, AckSegs(cb, cb.rcv.acks), KeyTags(s.a.ackKeys, Expected(g0)), Probes(cb),
               ProbeTags(|Probes(cb)|, Expected(g0)));
    EmitAppend(f0, g0, AckSegs(cb, cb.rcv.acks) + Probes(cb),
               KeyTags(s.a.ackKeys, Expected(g0)) + ProbeTags(|Probes(cb)|, Expected(g0)),
               ToWires(cb.cfg.conv, DueSegs(s)), FlowSender.PushTags(f0, DueSegs(s), Expected(g0)));
    EmitGrows(f0, f, g0, g, Flush(cb).emitted, FlushTags(s));
  }

  lemma TxAck(cb: Cb)
    ensures TxOf(cb).ack == cb.rcv.nxt
  {
    hide Wrap, Unused;
  }

  /** The parts of what a flush emits, and of the numbers behind it. */
  lemma FlushTagsIs(s: System)
    ensures var ack := Expected(Incoming(s));
      FlushTags(s) == KeyTags(s.a.ackKeys, ack) + ProbeTags(|Probes(s.a.cb)|, ack)
                      + FlowSender.PushTags(Admitted(s), DueSegs(s), ack)
    ensures DueSegs(s) == Sender.Sent(Sender.Admit(s.a.cb.snd, SendWindow(s.a.cb), TxOf(s.a.cb)).buf, TxOf(s.a.cb))
    ensures DueSegs(s) == Sender.Sent(Admitted(s).snd.buf, TxOf(s.a.cb))
    ensures Probes(s.a.cb) == ProbeSegs(s.a.cb, ProbeTimer(s.a.cb.probe, s.a.cb.rmtWnd, s.a.cb.current))
  {
    hide Outgoing, Incoming, Expected, Sender.Admit, Sender.Sent, TxOf, SendWindow, ProbeTimer, ProbeSegs,
        FlowSender.PushTags;
  }

  /** What a flush does to the two directions, apart from the network. */
  lemma FlushIs(s: System)
    requires ValidConfig(s.a.cb.cfg) && s.a.cb.updated
    ensures var t, c := DoFlush(s), TxOf(s.a.cb);
      var more := Packets(Pack(s.a.cb.cfg.mtu, [], Flush(s.a.cb).emitted), FlushTags(s));
      && t.a.cb == Flush(s.a.cb).cb && t.a.cb.cfg == s.a.cb.cfg && t.a.cb.rcv.wnd == s.a.cb.rcv.wnd
      && t.b == s.b && t.toA == s.toA && t.toB == s.toB + more
      && Outgoing(t) == Admitted(s).(snd := Admitted(s).snd.(buf := Sender.TransmitAll(Admitted(s).snd.buf, c)),
                                     pushes := s.toB + more)
      && Incoming(t) == Incoming(s).(rcv := Incoming(s).rcv.(acks := []), ackKeys := [], acks := s.toB + more)
  {
    hide Sender.Admit, Sender.TransmitAll, Sender.Sent, TxOf, SendWindow, ProbeTimer, ProbeSegs, FlushTags, Pack,
        Packets,
      Congestion.AfterFlush, ReachedDeadLink, AckSegs, ToWires, MssOf, Mss, Sender.InFlight;
  }

  lemma WindowWithin(cb: Cb)
    requires ControlInvariant.Inv(cb)
    ensures SendWindow(cb) <= ControlInvariant.Limit(cb.cfg)
  {
    hide Sender.Inv, Receiver.Inv, ControlInvariant.Fitting;
  }

  lemma FlushStep(s: System)
    requires Inv(s)
    ensures Inv(DoFlush(s))
  {
    hide *;
    if s.a.cb.updated {
      FlushIs(s);
      InvParts(s);
      RcvOf(s);
      var limit := LimitOf(s.a);
      WindowWithin(s.a.cb);
      LimitIs(s.a);
      var f0 := FlowSender.AdmitFlow(Outgoing(s), limit, SendWindow(s.a.cb), TxOf(s.a.cb));
      AdmittedIs(s, f0);
      var f := FlowSender.TransmitFlow(f0, limit, TxOf(s.a.cb));
      var g := FlowReceiver.Announce(Incoming(s), LimitOf(s.b));
      EmittedOk(s, f, g);
      FlushJoins(s, f, g);
    } else {
      FlushIdle(s);
    }
  }

  lemma FlushIdle(s: System)
    requires ValidConfig(s.a.cb.cfg) && !s.a.cb.updated
    ensures DoFlush(s) == s
  {
    hide Flush, FlushTags, Pack;
  }

  lemma LimitIs(x: Side)
    ensures LimitOf(x) == ControlInvariant.Limit(x.cb.cfg)
  {
    hide ControlInvariant.Limit;
  }

  lemma AdmittedIs(s: System, f: Flow)
    requires f == Outgoing(s).(snd := Sender.Admit(Outgoing(s).snd, SendWindow(s.a.cb), TxOf(s.a.cb)))
    ensures f == Admitted(s) && f.pushes == s.toB
  {
    hide Sender.Admit, TxOf, SendWindow, MssOf;
  }

  /** The datagrams of the flush join the network. */
  lemma FlushJoins(s: System, f: Flow, g: Flow)
    requires Inv(s) && s.a.cb.updated && Valid(f, LimitOf(s.a)) && Valid(g, LimitOf(s.b))
    requires f == Admitted(s).(snd := Admitted(s).snd.(buf := Sender.TransmitAll(Admitted(s).snd.buf, TxOf(s.a.cb))))
    requires f.pushes == s.toB && g == Incoming(s).(rcv := Incoming(s).rcv.(acks := []), ackKeys := [])
    requires EmitOk(f, g, Flush(s.a.cb).emitted, FlushTags(s))
    ensures Inv(DoFlush(s))
  {
    hide *;
    var t := DoFlush(s);
    var mtu, conv, emitted := s.a.cb.cfg.mtu, s.a.cb.cfg.conv, Flush(s.a.cb).emitted;
    var groups := Pack(mtu, [], emitted);
    var more := Packets(groups, FlushTags(s));
    FlushIs(s);
    InvParts(s);
    RcvOf(s);
    GroupsOk(s.a.cb);
    PacketsFrom(f, g, groups, emitted, FlushTags(s));
    MorePackets(mtu, conv, f, g, groups, s.toB, more);
    AddPushes(f, LimitOf(s.a), more);
    AddAcks(g, LimitOf(s.b), more);
    ControlInvariant.FlushInv(s.a.cb);
    SideIs(s.a, t.a);
    InvIs(s, t);
  }

  /** Every datagram of a flush enters the network, and with that everything the flush emitted. */
  lemma FlushSent(s: System)
    requires Inv(s) && s.a.cb.updated
    ensures var groups := Pack(s.a.cb.cfg.mtu, [], Flush(s.a.cb).emitted);
      && Lists.Concat(groups) == Flush(s.a.cb).emitted
      && forall i :: 0 <= i < |groups| ==> CarriedBy(groups[i], DoFlush(s).toB)
  {
    hide *;
    InvParts(s);
    FlushIs(s);
    GroupsOk(s.a.cb);
    FlushTagsLength(s);
    var groups := Pack(s.a.cb.cfg.mtu, [], Flush(s.a.cb).emitted);
    GroupsCarried(groups, FlushTags(s));
    forall i | 0 <= i < |groups| ensures CarriedBy(groups[i], DoFlush(s).toB) {
      CarriedMore(groups[i], Packets(groups, FlushTags(s)), DoFlush(s).toB);
    }
  }

  ghost predicate CarriedBy(segs: seq<WireSeg>, net: set<Packet>) {
    exists p :: p in net && p.segs == segs
  }

  lemma CarriedMore(segs: seq<WireSeg>, net: set<Packet>, more: set<Packet>)
    requires CarriedBy(segs, net) && net <= more
    ensures CarriedBy(segs, more)
  {}

  lemma {:induction false} GroupsCarried(groups: seq<seq<WireSeg>>, tags: seq<Tag>)
    requires |Lists.Concat(groups)| <= |tags|
    ensures forall i :: 0 <= i < |groups| ==> CarriedBy(groups[i], Packets(groups, tags))
    decreases |groups|
  {
    hide CarriedBy;
    if groups != [] {
      var n := |groups[0]|;
      var first, rest := Packet(groups[0], tags[..n]), Packets(groups[1..], tags[n..]);
      GroupsCarried(groups[1..], tags[n..]);
      assert Packets(groups, tags) == {first} + rest;
      assert first in {first} + rest;
      CarriedOne(first, {first} + rest);
      forall i | 1 <= i < |groups| ensures CarriedBy(groups[i], {first} + rest) {
        assert groups[1..][i - 1] == groups[i];
        CarriedMore(groups[i], rest, {first} + rest);
      }
    }
  }

  lemma CarriedOne(p: Packet, net: set<Packet>)
    requires p in net
    ensures CarriedBy(p.segs, net)
  {}

  lemma FlushTagsLength(s: System)
    requires Inv(s) && s.a.cb.updated
    ensures |FlushTags(s)| == |Flush(s.a.cb).emitted|
  {
    InvParts(s);
    RcvOf(s);
    FlowSender.ValidParts(Incoming(s), LimitOf(s.b));
    assert |s.a.ackKeys| == |s.a.cb.rcv.acks| by { hide Held, Flying, AckedOk, Next, Outgoing, Incoming; }
    FlushWire.EmittedIs(s.a.cb);
    FlushTagsIs(s);
    hide Inv, Flush, FlushTags, DueSegs, Probes, Outgoing, Incoming, Admitted, Expected, Valid, SenderOk, ReceiverOk,
      AcksOk, NetOk, Sender.Admit, Sender.Sent, TxOf, SendWindow;
  }

  lemma GroupsOk(cb: Cb)
    requires ControlInvariant.Inv(cb) && cb.updated
    ensures var groups := Pack(cb.cfg.mtu, [], Flush(cb).emitted);
      && FlushWire.WellPacked(cb.cfg.mtu, cb.cfg.conv, groups) && Lists.Concat(groups) == Flush(cb).emitted
      && cb.cfg.mtu < HALF
  {
    FlushWire.EmittedPackable(cb);
    FlushWire.PackSpec(cb.cfg.mtu, cb.cfg.conv, [], Flush(cb).emitted);
    hide Pack, Flush, FlushWire.Packable, FlushWire.WellPacked, Lists.Concat, Sender.Inv, Receiver.Inv;
    assert [] + Flush(cb).emitted == Flush(cb).emitted;
  }

  lemma MorePackets(mtu: nat, conv: u32, f: Flow, g: Flow, groups: seq<seq<WireSeg>>, net: set<Packet>,
      more: set<Packet>)
    requires FlushWire.WellPacked(mtu, conv, groups) && mtu < HALF && PacketsOk(conv, net)
    requires forall p :: p in more ==> p.segs in groups && EmitOk(f, g, p.segs, p.tags)
    ensures PacketsOk(conv, net + more)
    ensures forall p :: p in more ==> PushesOk(f, p) && AcksInOk(g, p)
  {
    hide TotalSize, AllAcceptable, PushOk, AckOk;
    forall p | p in more ensures PacketOk(conv, p) && PushesOk(f, p) && AcksInOk(g, p) {
      var i :| 0 <= i < |groups| && groups[i] == p.segs;
    }
  }

  lemma UpdateStep(s: System, now: u32)
    requires Inv(s)
    ensures Inv(DoUpdate(s, now))
  {
    hide *;
    ControlInvariant.UpdateIs(s.a.cb, now);
    var c := Clocked(s.a.cb, now);
    DoUpdateIs(s, now);
    if Due(s.a.cb, now) {
      ClockStep(s, c.(tsFlush := NextFlush(c.tsFlush, now, c.cfg.interval)));
      FlushStep(s.(a := s.a.(cb := c.(tsFlush := NextFlush(c.tsFlush, now, c.cfg.interval)))));
    } else {
      ClockStep(s, c);
    }
  }

  lemma DoUpdateIs(s: System, now: u32)
    requires ValidConfig(s.a.cb.cfg)
    ensures var c := Clocked(s.a.cb, now);
      var t := s.(a := s.a.(cb := c.(tsFlush := NextFlush(c.tsFlush, now, c.cfg.interval))));
      ValidConfig(t.a.cb.cfg) && DoUpdate(s, now) == if Due(s.a.cb, now) then DoFlush(t) else s.(a := s.a.(cb := c))
  {
    hide DoFlush, Due, NextFlush, TimeDiff;
  }

  /** Setting the clock and the flush time concerns neither direction. */
  lemma ClockStep(s: System, c: Cb)
    requires Inv(s) && c == s.a.cb.(current := c.current, updated := c.updated, tsFlush := c.tsFlush)
    ensures Inv(s.(a := s.a.(cb := c)))
  {
    var t := s.(a := s.a.(cb := c));
    assert SideOk(t.a) && Outgoing(t) == Outgoing(s) && Incoming(t) == Incoming(s) && LimitOf(t.a) == LimitOf(s.a) by {
      hide Sender.Inv, Receiver.Inv, Valid, PacketsOk, ControlInvariant.Fitting;
    }
    hide *;
    InvParts(s);
    InvIs(s, t);
  }

  // ---------------------------------------------------------------- the theorem

  lemma DoStep(s: System, x: Action)
    requires Inv(s) && Enabled(s, x)
    ensures Inv(Do(s, x))
  {
    hide Inv, DoSend, DoRecv, DoInput, DoFlush, DoUpdate, Live, AllSized;
    match x
    case SendMessage(msg) => SendStep(s, msg);
    case ReceiveMessage(len) => RecvStep(s, len);
    case Arrive(p) => InputStep(s, p);
    case FlushNow => FlushStep(s);
    case UpdateAt(now) => UpdateStep(s, now);
  }

  lemma AfterStep(s: System, x: Step)
    requires Inv(s) && CanStep(s, x)
    ensures Inv(After(s, x))
  {
    hide Inv, Do, Enabled;
    if x.atA {
      DoStep(s, x.action);
    } else {
      InvSwap(s);
      DoStep(Swap(s), x.action);
      InvSwap(Do(Swap(s), x.action));
    }
  }

  lemma StartInv(s: System, a: Config, b: Config, wndA: u32, wndB: u32, minrto: int)
    requires Start(s, a, b, wndA, wndB, minrto)
    ensures Inv(s)
  {
    hide *;
    StartSides(s, a, b, wndA, wndB, minrto);
    StartValid(s, a, b, wndA, wndB, minrto);
    StartIs(s);
  }

  lemma StartSides(s: System, a: Config, b: Config, wndA: u32, wndB: u32, minrto: int)
    requires Start(s, a, b, wndA, wndB, minrto)
    ensures SideOk(s.a) && SideOk(s.b) && s.a.cb.cfg.conv == s.b.cb.cfg.conv && s.toA == {} && s.toB == {}
  {
    ControlInvariant.CreateInv(a, wndA, minrto);
    ControlInvariant.CreateInv(b, wndB, minrto);
    hide ControlInvariant.Inv;
  }

  lemma StartIs(s: System)
    requires SideOk(s.a) && SideOk(s.b) && s.a.cb.cfg.conv == s.b.cb.cfg.conv && s.toA == {} && s.toB == {}
    requires Valid(Outgoing(s), LimitOf(s.a)) && Valid(Incoming(s), LimitOf(s.b))
    ensures Inv(s)
  {
    hide SideOk, Valid, Outgoing, Incoming, LimitOf, PacketOk;
  }

  lemma StartValid(s: System, a: Config, b: Config, wndA: u32, wndB: u32, minrto: int)
    requires Start(s, a, b, wndA, wndB, minrto)
    ensures Valid(Outgoing(s), LimitOf(s.a)) && Valid(Incoming(s), LimitOf(s.b))
  {
    EmptyValid(MssOf(a), Create(a, wndA, minrto).snd, Create(b, wndB, minrto).rcv, ControlInvariant.Limit(a));
    EmptyValid(MssOf(b), Create(b, wndB, minrto).snd, Create(a, wndA, minrto).rcv, ControlInvariant.Limit(b));
    hide Valid;
  }

  lemma EmptyValid(mss: nat, snd: Sender.Snd, rcv: Receiver.Rcv, limit: int)
    requires mss > 0 && 0 < limit <= 0xFFFF && 0 < rcv.wnd < HALF
    requires snd == Sender.Snd(0, 0, [], [], 0, 0) && rcv == Receiver.Rcv(0, rcv.wnd, [], [], 0, 0, [])
    ensures Valid(Flow(mss, [], snd, [], rcv, [], {}, {}), limit)
  {}

  /** The invariant in every state of every run of the two endpoints. */
  lemma {:induction false} RunInv(run: seq<System>, steps: seq<Step>, n: nat, a: Config, b: Config,
                                  wndA: u32, wndB: u32, minrto: int)
    requires IsRun(run, steps) && n <= |steps| && Start(run[0], a, b, wndA, wndB, minrto)
    ensures Inv(run[n])
  {
    hide Start, Inv, After, CanStep;
    if n == 0 {
      StartInv(run[0], a, b, wndA, wndB, minrto);
    } else {
      RunInv(run, steps, n - 1, a, b, wndA, wndB, minrto);
      assert StepAt(run, steps, n - 1);
      AfterStep(run[n - 1], steps[n - 1]);
    }
  }

  /** End-to-end safety: what each user got is, byte for byte and message for message, a prefix of what
      the other user handed over. */
  lemma DeliveredIsPrefix(run: seq<System>, steps: seq<Step>, n: nat, a: Config, b: Config,
                          wndA: u32, wndB: u32, minrto: int)
    requires IsRun(run, steps) && n <= |steps| && Start(run[0], a, b, wndA, wndB, minrto)
    ensures run[n].b.delivered <= run[n].a.accepted && run[n].a.delivered <= run[n].b.accepted
  {
    hide *;
    RunInv(run, steps, n, a, b, wndA, wndB, minrto);
    InvSwap(run[n]);
    PrefixOf(run[n]);
    PrefixOf(Swap(run[n]));
    SwapIs(run[n]);
  }

  lemma SwapIs(s: System)
    ensures Swap(s).a == s.b && Swap(s).b == s.a && Swap(s).toA == s.toB && Swap(s).toB == s.toA
  {}

  lemma PrefixOf(s: System)
    requires Inv(s)
    ensures s.b.delivered <= s.a.accepted
  {
    hide SideOk, PacketsOk, Sender.Inv, Receiver.Inv, SenderOk, AcksOk, NetOk, Expected, Next, Sequence, Matches,
        LimitOf,
      Incoming, MssOf;
  }

  /** The system as the side that acts sees it. */
  function Facing(s: System, atA: bool): System {
    if atA then s else Swap(s)
  }

  /** The datagram that arrives in the step takes from the flight of the side it arrives at exactly the segments
      its acknowledgements name and those below one of its cumulative acknowledgements. */
  ghost predicate RemovesExactly(s: System, x: Step, t: System)
    requires x.action.Arrive?
  {
    var p, f, g := x.action.p, Outgoing(Facing(s, x.atA)), Outgoing(Facing(t, x.atA));
    && |p.tags| == |p.segs|
    && forall k :: Flying(g, k) <==>
         && Flying(f, k)
         && forall i :: 0 <= i < |p.segs| ==> k >= p.tags[i].ack && (p.segs[i].cmd == CMD_ACK ==> k != p.tags[i].key)
  }

  lemma ArrivalRemoves(s: System, x: Step)
    requires Inv(s) && CanStep(s, x) && x.action.Arrive?
    ensures RemovesExactly(s, x, After(s, x))
  {
    hide *;
    InvSwap(s);
    var p, u := x.action.p, Facing(s, x.atA);
    FacingIs(s, x.atA);
    CanArrive(s, x);
    FacingIs(After(s, x), x.atA);
    AfterArrival(s, x);
    FacingIs(DoInput(u, p), x.atA);
    InputRemovesExactly(u, p);
    RemovesIs(s, x, After(s, x));
  }

  lemma FacingIs(s: System, atA: bool)
    ensures Facing(s, atA) == (if atA then s else Swap(s)) && Swap(Swap(s)) == s
  {}

  lemma CanArrive(s: System, x: Step)
    requires CanStep(s, x) && x.action.Arrive?
    ensures var p, u := x.action.p, if x.atA then s else Swap(s);
      ValidConfig(u.a.cb.cfg) && p in u.toA && AllSized(p.segs) && Live(u, p) && |p.tags| == |p.segs|
  {
    hide AllSized, LiveInTurn, ValidConfig, Swap;
  }

  lemma AfterArrival(s: System, x: Step)
    requires CanStep(s, x) && x.action.Arrive?
    requires var p, u := x.action.p, if x.atA then s else Swap(s);
      ValidConfig(u.a.cb.cfg) && AllSized(p.segs) && |p.tags| == |p.segs|
    ensures var u := if x.atA then s else Swap(s);
      After(s, x) == if x.atA then DoInput(u, x.action.p) else Swap(DoInput(u, x.action.p))
  {
    hide AllSized, Live, ValidConfig, Swap, DoInput;
  }

  lemma RemovesIs(s: System, x: Step, t: System)
    requires x.action.Arrive? && |x.action.p.tags| == |x.action.p.segs|
    requires var p := x.action.p;
      forall k :: Flying(Outgoing(Facing(t, x.atA)), k) <==>
        && Flying(Outgoing(Facing(s, x.atA)), k)
        && forall i :: 0 <= i < |p.segs| ==> k >= p.tags[i].ack && (p.segs[i].cmd == CMD_ACK ==> k != p.tags[i].key)
    ensures RemovesExactly(s, x, t)
  {
    hide Flying, Outgoing, Facing;
  }

  /** So it is in every arrival of every run. */
  lemma RunRemovesExactly(run: seq<System>, steps: seq<Step>, n: nat, a: Config, b: Config,
                          wndA: u32, wndB: u32, minrto: int)
    requires IsRun(run, steps) && n < |steps| && Start(run[0], a, b, wndA, wndB, minrto) && steps[n].action.Arrive?
    ensures RemovesExactly(run[n], steps[n], run[n + 1])
  {
    hide Inv, Start, CanStep, After, RemovesExactly;
    RunInv(run, steps, n, a, b, wndA, wndB, minrto);
    assert StepAt(run, steps, n);
    ArrivalRemoves(run[n], steps[n]);
  }

  /** Acknowledgement safety towards side `a`: every number `b` is about to acknowledge, every
      acknowledgement on its way to `a`, and everything below any `una` on its way, has arrived at `b`;
      and whatever `a` has sent and no longer keeps in flight has arrived. */
  ghost predicate AckSafe(s: System) {
    var f := Outgoing(s);
    && |s.b.ackKeys| == |s.b.cb.rcv.acks|
    && (forall i :: 0 <= i < |s.b.ackKeys| ==> AckedOk(f, s.b.cb.rcv.acks[i].sn, s.b.ackKeys[i]))
    && (forall p :: p in s.toA ==> AcksInOk(f, p))
    && (forall k :: 0 <= k < Next(f) ==> Flying(f, k) || Held(f, k))
  }

  lemma AcksSafe(run: seq<System>, steps: seq<Step>, n: nat, a: Config, b: Config, wndA: u32, wndB: u32, minrto: int)
    requires IsRun(run, steps) && n <= |steps| && Start(run[0], a, b, wndA, wndB, minrto)
    ensures AckSafe(run[n]) && AckSafe(Swap(run[n]))
  {
    hide *;
    RunInv(run, steps, n, a, b, wndA, wndB, minrto);
    InvSwap(run[n]);
    AckSafeOf(run[n]);
    AckSafeOf(Swap(run[n]));
  }

  lemma AckSafeOf(s: System)
    requires Inv(s)
    ensures AckSafe(s)
  {
    InvParts(s);
    FlowSender.ValidParts(Outgoing(s), LimitOf(s.a));
    hide Inv, Valid, Sender.Inv, Receiver.Inv, SenderOk, ReceiverOk, Next, Flying, Held, AckedOk, AcksInOk, PushesOk,
        LimitOf;
  }

  /** A receive queue that fills its window has a complete message at its head, so it can always be
      emptied by reading. */
  lemma FullQueueReadable(run: seq<System>, steps: seq<Step>, n: nat, a: Config, b: Config,
                          wndA: u32, wndB: u32, minrto: int)
    requires IsRun(run, steps) && n <= |steps| && Start(run[0], a, b, wndA, wndB, minrto)
    requires run[n].b.cb.rcv.nque >= run[n].b.cb.rcv.wnd
    ensures Receiver.PeekSize(run[n].b.cb.rcv) >= 0
  {
    hide *;
    RunInv(run, steps, n, a, b, wndA, wndB, minrto);
    InvParts(run[n]);
    FullQueue(run[n]);
    FlowReceiver.NoWedge(Outgoing(run[n]), LimitOf(run[n].a));
  }

  lemma FullQueue(s: System)
    requires SideOk(s.b) && s.b.cb.rcv.nque >= s.b.cb.rcv.wnd
    ensures |Outgoing(s).rcv.queue| >= 127 && Outgoing(s).rcv == s.b.cb.rcv
  {
    hide Sender.Inv, ControlInvariant.Fitting, Receiver.InOrder, Receiver.Contiguous, MssOf;
  }
}
