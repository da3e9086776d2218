/** The control block and its entry points as functions of state and input: input of a datagram,
    flush, the periodic update and the time of the next one. */
module Control {
  import opened Serial
  import opened Wire
  import opened Sender
  import opened Receiver
  import opened RoundTrip
  import opened Congestion

  /** What the setters fix before a run. `fastresend` is 0 when fast resend is off. */
  datatype Config = Config(conv: u32, mtu: u32, sndWnd: u32, interval: u32, nodelay: bool, fastresend: u32,
                           nocwnd: bool, deadLink: u32, stream: bool)

  /** `ask` and `tell` are the two bits of the probe flags. */
  datatype Probe = Probe(ask: bool, tell: bool, ts: u32, wait: u32)

  datatype Cb = Cb(cfg: Config, snd: Snd, rcv: Rcv, rtt: Rtt, cong: Cong, probe: Probe, rmtWnd: u32,
                   current: u32, tsFlush: u32, updated: bool, xmit: u32, dead: bool)

  const PROBE_INIT := 7000
  const PROBE_LIMIT := 120000

  /** The settings the engine's setters accept; the output buffer's size must not wrap. */
  predicate ValidConfig(c: Config) {
    && 50 <= c.mtu && (c.mtu + 24) * 3 < 0x1_0000_0000
    && 0 < c.sndWnd < HALF && 10 <= c.interval <= 5000 && c.fastresend < HALF
  }

  function Mss(c: Config): (mss: u32)
    requires ValidConfig(c)
    ensures mss > 0
  {
    c.mtu - OVERHEAD
  }

  /** A control block as created, with the settings made before the first use. */
  function Create(cfg: Config, rcvWnd: u32, minrto: int): Cb {
    Cb(cfg, Snd(0, 0, [], [], 0, 0), Rcv(0, rcvWnd, [], [], 0, 0, []), Rtt(0, 0, 200, minrto), Cong(0, 0, 2),
       Probe(false, false, 0, 0), 128, 0, cfg.interval, false, 0, false)
  }

  // ---------------------------------------------------------------- user calls

  datatype SendOutcome = SendOutcome(cb: Cb, code: int)

  function UserSend(cb: Cb, msg: seq<byte>): SendOutcome
    requires ValidConfig(cb.cfg)
  {
    var r := Send(cb.snd, Mss(cb.cfg), cb.cfg.stream, msg);
    SendOutcome(cb.(snd := r.snd), r.code)
  }

  datatype RecvOutcome = RecvOutcome(cb: Cb, code: int, data: seq<byte>)

  function UserRecv(cb: Cb, len: int): RecvOutcome {
    var r := Recv(cb.rcv, len);
    RecvOutcome(cb.(rcv := r.rcv, probe := cb.probe.(tell := cb.probe.tell || r.tell)), r.code, r.data)
  }

  // ---------------------------------------------------------------- input

  /** One segment accepted by the header loop takes effect. */
  function OnSegment(cb: Cb, s: WireSeg): Cb {
    var c := cb.(rmtWnd := s.wnd, snd := ShrinkBuf(ParseUna(cb.snd, s.una)));
    if s.cmd == CMD_ACK then
      c.(snd := ShrinkBuf(ParseAck(c.snd, s.sn)),
         rtt := if TimeDiff(c.current, s.ts) >= 0 then UpdateAck(c.rtt, c.cfg.interval, TimeDiff(c.current, s.ts))
                else c.rtt)
    else if s.cmd == CMD_PUSH then c.(rcv := OnPush(c.rcv, s))
    else if s.cmd == CMD_WASK then c.(probe := c.probe.(tell := true))
    else c
  }

  function OnSegments(cb: Cb, segs: seq<WireSeg>): Cb
    decreases |segs|
  {
    if segs == [] then cb else OnSegments(OnSegment(cb, segs[0]), segs[1..])
  }

  datatype Highest = NoAck | Ack(sn: u32)

  function OnAck(h: Highest, s: WireSeg): Highest {
    if s.cmd != CMD_ACK then h
    else if h == NoAck || TimeDiff(s.sn, h.sn) > 0 then Highest.Ack(s.sn)
    else h
  }

  function HighestAck(h: Highest, segs: seq<WireSeg>): Highest
    decreases |segs|
  {
    if segs == [] then h else HighestAck(OnAck(h, segs[0]), segs[1..])
  }

  /** After the header loop ended cleanly. `una` is where the flight began before the datagram. */
  function Finish(cb: Cb, una: u32, h: Highest): Cb
    requires ValidConfig(cb.cfg)
  {
    var snd := if h == NoAck then cb.snd else ParseFastack(cb.snd, h.sn);
    cb.(snd := snd, cong := if TimeDiff(snd.una, una) > 0 then OnAdvance(cb.cong, cb.rmtWnd, Mss(cb.cfg)) else cb.cong)
  }

  datatype InputResult = InputResult(cb: Cb, code: int)

  lemma {:induction false} OnSegmentsConfig(cb: Cb, segs: seq<WireSeg>)
    ensures OnSegments(cb, segs).cfg == cb.cfg
    decreases |segs|
  {
    hide UpdateAck, OnPush, ParseUna, ParseAck, ShrinkBuf, TimeDiff;
    if segs != [] { OnSegmentsConfig(OnSegment(cb, segs[0]), segs[1..]); }
  }

  function Input(cb: Cb, data: seq<byte>): InputResult
    requires ValidConfig(cb.cfg)
  {
    if ToI32(|data|) < OVERHEAD then InputResult(cb, -1)
    else
      var p := Parse(cb.cfg.conv, data);
      var c := OnSegments(cb, p.segs);
      if p.code != 0 then InputResult(c, p.code)
      else
        OnSegmentsConfig(cb, p.segs);
        InputResult(Finish(c, cb.snd.una, HighestAck(NoAck, p.segs)), 0)
  }

  // ---------------------------------------------------------------- flush

  function Unused(r: Rcv): u32 {
    if r.nque < r.wnd then r.wnd - r.nque else 0
  }

  function ControlSeg(cb: Cb, cmd: byte, sn: u32, ts: u32): WireSeg {
    WireSeg(cb.cfg.conv, cmd, 0, Unused(cb.rcv) % 0x1_0000, ts, sn, cb.rcv.nxt, [])
  }

  function AckSegs(cb: Cb, acks: seq<Receiver.Ack>): (r: seq<WireSeg>)
    ensures |r| == |acks|
    ensures forall i :: 0 <= i < |acks| ==> r[i] == ControlSeg(cb, CMD_ACK, acks[i].sn, acks[i].ts)
  {
    if acks == [] then [] else [ControlSeg(cb, CMD_ACK, acks[0].sn, acks[0].ts)] + AckSegs(cb, acks[1..])
  }

  /** The window probes follow the acknowledgements and repeat the number and time of the last one. */
  function LastAck(acks: seq<Receiver.Ack>): Receiver.Ack {
    if acks == [] then Receiver.Ack(0, 0) else acks[|acks| - 1]
  }

  function ProbeTimer(p: Probe, rmtWnd: u32, current: u32): Probe {
    if rmtWnd != 0 then p.(ts := 0, wait := 0)
    else if p.wait == 0 then p.(wait := PROBE_INIT, ts := Wrap(current + PROBE_INIT))
    else if TimeDiff(current, p.ts) >= 0 then
      var w := Max(p.wait, PROBE_INIT);
      var wait := Min(Wrap(w + w / 2), PROBE_LIMIT);
      p.(wait := wait, ts := Wrap(current + wait), ask := true)
    else p
  }

  function ProbeSegs(cb: Cb, p: Probe): seq<WireSeg> {
    var a := LastAck(cb.rcv.acks);
    (if p.ask then [ControlSeg(cb, CMD_WASK, a.sn, a.ts)] else [])
    + (if p.tell then [ControlSeg(cb, CMD_WINS, a.sn, a.ts)] else [])
  }

  function SendWindow(cb: Cb): u32 {
    var w := Min(cb.cfg.sndWnd, cb.rmtWnd);
    if cb.cfg.nocwnd then w else Min(cb.cong.cwnd, w)
  }

  function TxOf(cb: Cb): Tx {
    Tx(cb.current, Unused(cb.rcv), cb.rcv.nxt, Wrap(cb.rtt.rto),
       if cb.cfg.fastresend > 0 then cb.cfg.fastresend else 0xFFFF_FFFF,
       if cb.cfg.nodelay then 0 else Wrap(cb.rtt.rto) / 8, cb.cfg.nodelay)
  }

  function ToWires(conv: u32, segs: seq<Seg>): (r: seq<WireSeg>)
    ensures |r| == |segs|
    ensures forall i :: 0 <= i < |segs| ==> r[i] == ToWire(conv, segs[i])
  {
    if segs == [] then [] else [ToWire(conv, segs[0])] + ToWires(conv, segs[1..])
  }

  /** `emitted` is everything the flush puts on the wire, in order. */
  datatype FlushResult = FlushResult(cb: Cb, emitted: seq<WireSeg>)

  predicate ReachedDeadLink(deadLink: u32, sent: seq<Seg>) {
    exists i :: 0 <= i < |sent| && sent[i].xmit >= deadLink
  }

  function Flush(cb: Cb): FlushResult
    requires ValidConfig(cb.cfg)
  {
    if !cb.updated then FlushResult(cb, [])
    else
      var c := TxOf(cb);
      var probe := ProbeTimer(cb.probe, cb.rmtWnd, cb.current);
      var admitted := Admit(cb.snd, SendWindow(cb), c);
      var sent := Sent(admitted.buf, c);
      var lost := CountOf(admitted.buf, c, Timeout);
      FlushResult(
        cb.(snd := admitted.(buf := TransmitAll(admitted.buf, c)),
            rcv := cb.rcv.(acks := []),
            probe := probe.(ask := false, tell := false),
            xmit := Wrap(cb.xmit + lost),
            dead := cb.dead || ReachedDeadLink(cb.cfg.deadLink, sent),
            cong := AfterFlush(cb.cong, CountOf(admitted.buf, c, Fast) > 0, lost > 0, InFlight(admitted),
                               SendWindow(cb), c.resent, Mss(cb.cfg))),
        AckSegs(cb, cb.rcv.acks) + ProbeSegs(cb, probe) + ToWires(cb.cfg.conv, sent))
  }

  /** How the output buffer groups segments into datagrams: a segment that does not fit behind the
      buffered ones starts the next datagram. */
  function Pack(mtu: nat, cur: seq<WireSeg>, segs: seq<WireSeg>): seq<seq<WireSeg>>
    decreases |segs|
  {
    if segs == [] then (if cur == [] then [] else [cur])
    else if TotalSize(cur) + Size(segs[0]) > mtu then
      (if cur == [] then [] else [cur]) + Pack(mtu, [segs[0]], segs[1..])
    else Pack(mtu, cur + [segs[0]], segs[1..])
  }

  function TotalSize(segs: seq<WireSeg>): nat {
    if segs == [] then 0 else Size(segs[0]) + TotalSize(segs[1..])
  }

  // ---------------------------------------------------------------- clock

  /** `ikcp_update`: sets the clock, and flushes when the flush time has come. */
  function Clocked(cb: Cb, current: u32): Cb {
    var c := cb.(current := current, updated := true, tsFlush := if cb.updated then cb.tsFlush else current);
    var slap := TimeDiff(current, c.tsFlush);
    if slap >= 10000 || slap < -10000 then c.(tsFlush := current) else c
  }

  predicate Due(cb: Cb, current: u32) {
    TimeDiff(current, Clocked(cb, current).tsFlush) >= 0
  }

  function NextFlush(tsFlush: u32, current: u32, interval: u32): u32 {
    var ts := Wrap(tsFlush + interval);
    if TimeDiff(current, ts) >= 0 then Wrap(current + interval) else ts
  }

  function Update(cb: Cb, current: u32): FlushResult
    requires ValidConfig(cb.cfg)
  {
    var c := Clocked(cb, current);
    if Due(cb, current) then Flush(c.(tsFlush := NextFlush(c.tsFlush, current, c.cfg.interval)))
    else FlushResult(c, [])
  }

  /** The smallest `resendts - current` over the flight, cut off at `least`; 0 or less stops the scan. */
  function Soonest(buf: seq<Seg>, current: u32, least: int): int {
    if buf == [] then least
    else
      var diff := TimeDiff(buf[0].resendts, current);
      if diff <= 0 then diff else Soonest(buf[1..], current, Min(diff, least))
  }

  function Check(cb: Cb, current: u32): u32 {
    var ts := if TimeDiff(current, cb.tsFlush) >= 10000 || TimeDiff(current, cb.tsFlush) < -10000
              then current else cb.tsFlush;
    if !cb.updated || TimeDiff(current, ts) >= 0 then current
    else
      var packet := Soonest(cb.snd.buf, current, 0x7FFF_FFFF);
      if packet <= 0 then current
      else Wrap(current + Min(Min(packet, TimeDiff(ts, current)), cb.cfg.interval))
  }
}
