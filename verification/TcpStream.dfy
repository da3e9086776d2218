/** The output side of a connection on its loop thread: what the user sends, what the socket takes,
    and when the sending side is shut down. */
module TcpStream {
  import opened Serial
  import Lists

  datatype State = Connecting | Connected | Disconnecting | Disconnected

  /** The result of one write to the socket: how many bytes it took, or how it failed. `Reset` stands for
      the two errors after which nothing can be sent. */
  datatype Outcome = Wrote(n: nat) | WouldBlock | Reset | OtherError

  /** `output` is what waits for the socket, `writing` the interest in writability. `accepted`, `lossless`
      and `shutAt` are history: all bytes taken over for sending, whether none of them was given up, and
      how many had been taken over when the sending side was shut down (-1 before that). */
  datatype Conn = Conn(state: State, output: seq<byte>, writing: bool, written: seq<byte>, shut: bool,
                       accepted: seq<byte>, lossless: bool, shutAt: int)

  const START := Conn(Connecting, [], false, [], false, [], true, -1)

  /** How much of `data` a write takes. */
  function Taken(data: seq<byte>, w: Outcome): (n: nat)
    ensures n <= |data|
  {
    if w.Wrote? then Min(w.n, |data|) else 0
  }

  /** Sends `data`: directly when nothing waits, and the rest through the output buffer. */
  function SendInLoop(c: Conn, data: seq<byte>, w: Outcome): Conn {
    if c.state == Disconnected then c
    else
      var direct := !c.writing && c.output == [];
      var n := if direct then Taken(data, w) else 0;
      var fault := direct && w.Reset?;
      var m := c.(accepted := c.accepted + data, written := c.written + data[..n]);
      if n == |data| then m
      else if fault then m.(lossless := false)
      else m.(output := c.output + data[n..], writing := true)
  }

  function ShutdownInLoop(c: Conn): Conn {
    if c.writing then c
    else c.(shut := true, shutAt := if c.state != Disconnected && c.lossless && !c.shut then |c.accepted| else c.shutAt)
  }

  function Shutdown(c: Conn): Conn {
    if c.state == Connected then c.(state := Disconnecting) else c
  }

  function ForceClose(c: Conn): Conn {
    if c.state == Connected || c.state == Disconnecting then c.(state := Disconnecting) else c
  }

  function HandleClose(c: Conn): Conn {
    if c.state == Connected || c.state == Disconnecting then c.(state := Disconnected, writing := false) else c
  }

  /** The socket can take bytes again. */
  function HandleWrite(c: Conn, w: Outcome): Conn {
    if !c.writing then c
    else
      var n := Taken(c.output, w);
      var m := c.(written := c.written + c.output[..n], output := c.output[n..]);
      if n == 0 || m.output != [] then m
      else
        var idle := m.(writing := false);
        if c.state == Disconnecting then ShutdownInLoop(idle) else idle
  }

  /** `Send` and `Queued` differ in when the state is looked at: a send from another thread is checked
      there and arrives here later. `Closed` stands for every way the close handler is reached. */
  datatype Step = Establish | Send(data: seq<byte>, w: Outcome) | Queued(data: seq<byte>, w: Outcome)
    | AskShutdown | RunShutdown | AskClose | Closed | Writable(w: Outcome) | Destroy

  function Do(c: Conn, x: Step): Conn {
    match x
    case Establish => if c.state == Connecting then c.(state := Connected) else c
    case Send(data, w) => if c.state == Connected then SendInLoop(c, data, w) else c
    case Queued(data, w) => if c.state == Connecting then c else SendInLoop(c, data, w)
    case AskShutdown => Shutdown(c)
    case RunShutdown => ShutdownInLoop(c)
    case AskClose => ForceClose(c)
    case Closed => HandleClose(c)
    case Writable(w) => HandleWrite(c, w)
    case Destroy => if c.state == Connected then c.(state := Disconnected, writing := false) else c
  }

  function DoAll(xs: seq<Step>): Conn
    decreases |xs|
  {
    if xs == [] then START else Do(DoAll(xs[..|xs| - 1]), xs[|xs| - 1])
  }

  // ---------------------------------------------------------------- invariant

  ghost predicate Inv(c: Conn) {
    && (c.state != Disconnected ==> (c.writing <==> c.output != []))
    && (c.state == Disconnected ==> !c.writing)
    && (c.lossless ==> c.written + c.output == c.accepted)
    && (!c.lossless ==> |c.written| + |c.output| < |c.accepted|)
    && -1 <= c.shutAt <= |c.written| && c.shutAt <= |c.accepted| && (c.shutAt >= 0 ==> c.shut)
    && (c.shutAt >= 0 ==> c.written[..c.shutAt] == c.accepted[..c.shutAt])
  }

  /** Appending on both sides keeps what was equal. */
  lemma PrefixStays(a: seq<byte>, b: seq<byte>, more: seq<byte>, k: int)
    requires -1 <= k <= |a| && k <= |b| && (k >= 0 ==> a[..k] == b[..k])
    ensures k >= 0 ==> (a + more)[..k] == b[..k] && a[..k] == (b + more)[..k]
  {
    if k >= 0 {
      assert (a + more)[..k] == a[..k] && (b + more)[..k] == b[..k];
    }
  }

  lemma SendInv(c: Conn, data: seq<byte>, w: Outcome)
    requires Inv(c)
    ensures Inv(SendInLoop(c, data, w))
  {
    if c.state != Disconnected {
      var direct := !c.writing && c.output == [];
      var n := if direct then Taken(data, w) else 0;
      PrefixStays(c.written, c.accepted, data[..n], c.shutAt);
      PrefixStays(c.written + data[..n], c.accepted, data, c.shutAt);
      assert data == data[..n] + data[n..];
      hide Taken;
      SendContents(c, data, n);
    }
  }

  lemma SendContents(c: Conn, data: seq<byte>, n: nat)
    requires c.lossless ==> c.written + c.output == c.accepted
    requires n <= |data| && (n > 0 ==> c.output == [])
    ensures c.lossless ==> c.written + data[..n] + (c.output + data[n..]) == c.accepted + data
    ensures c.lossless && n == |data| && n > 0 ==> c.written + data[..n] + c.output == c.accepted + data
  {
    assert data == data[..n] + data[n..];
    if n == 0 {
      assert c.written + data[..n] + (c.output + data[n..]) == c.written + c.output + data;
    }
  }

  lemma WriteInv(c: Conn, w: Outcome)
    requires Inv(c)
    ensures Inv(HandleWrite(c, w))
  {
    var n := Taken(c.output, w);
    PrefixStays(c.written, c.accepted, c.output[..n], c.shutAt);
    assert c.output == c.output[..n] + c.output[n..];
    assert c.written + c.output[..n] + c.output[n..] == c.written + c.output;
    hide Taken;
    var m := c.(written := c.written + c.output[..n], output := c.output[n..]);
    if c.writing && n > 0 && m.output == [] {
      ShutInv(m.(writing := false));
    }
  }

  lemma ShutInv(c: Conn)
    requires Inv(c)
    ensures Inv(ShutdownInLoop(c))
    ensures c.state != Disconnected && c.lossless && !c.writing ==> c.written == c.accepted
  {
    Lists.Empty(c.written);
  }

  lemma DoInv(c: Conn, x: Step)
    requires Inv(c)
    ensures Inv(Do(c, x))
  {
    hide SendInLoop, HandleWrite, ShutdownInLoop;
    match x
    case Establish =>
    case Send(data, w) => SendInv(c, data, w);
    case Queued(data, w) => SendInv(c, data, w);
    case AskShutdown =>
    case RunShutdown => ShutInv(c);
    case AskClose =>
    case Closed =>
    case Writable(w) => WriteInv(c, w);
    case Destroy =>
  }

  lemma {:induction false} AlwaysInv(xs: seq<Step>)
    ensures Inv(DoAll(xs))
    decreases |xs|
  {
    hide Inv, Do;
    if xs == [] {
      StartInv();
    } else {
      AlwaysInv(xs[..|xs| - 1]);
      DoInv(DoAll(xs[..|xs| - 1]), xs[|xs| - 1]);
    }
  }

  lemma StartInv()
    ensures Inv(START)
  {}

  // ---------------------------------------------------------------- what a run guarantees

  /** Everything taken over, in order. */
  function Sends(c: Conn, x: Step): seq<byte> {
    match x
    case Send(data, w) => if c.state == Connected then data else []
    case Queued(data, w) => if c.state == Connected || c.state == Disconnecting then data else []
    case _ => []
  }

  function AllSends(xs: seq<Step>): seq<byte>
    decreases |xs|
  {
    if xs == [] then []
    else AllSends(xs[..|xs| - 1]) + Sends(DoAll(xs[..|xs| - 1]), xs[|xs| - 1])
  }

  lemma {:induction false} AcceptedIsSends(xs: seq<Step>)
    ensures DoAll(xs).accepted == AllSends(xs)
    decreases |xs|
  {
    hide Do, Sends;
    if xs != [] {
      AcceptedIsSends(xs[..|xs| - 1]);
      AcceptedStep(DoAll(xs[..|xs| - 1]), xs[|xs| - 1]);
    }
  }

  lemma AcceptedStep(c: Conn, x: Step)
    ensures Do(c, x).accepted == c.accepted + Sends(c, x)
  {
    Lists.Empty(c.accepted);
    hide Taken;
  }

  /** As long as no write met a reset, what the socket took followed by what waits is everything sent, in
      order, whatever the partial writes; and until the connection is closed the interest in writability
      is on exactly when something waits. */
  lemma OutputIsSent(xs: seq<Step>)
    ensures var c := DoAll(xs);
      && (c.lossless ==> c.written + c.output == AllSends(xs))
      && (c.state != Disconnected ==> (c.writing <==> c.output != []))
  {
    AlwaysInv(xs);
    AcceptedIsSends(xs);
    hide DoAll, AllSends;
  }

  /** Bytes are given up by exactly one thing: a direct write that meets a reset. */
  lemma LossExactly(c: Conn, x: Step)
    requires c.lossless
    ensures !Do(c, x).lossless <==>
      && ((x.Send? && c.state == Connected) || (x.Queued? && (c.state == Connected || c.state == Disconnecting)))
      && x.w.Reset? && x.data != [] && c.output == [] && !c.writing
  {}

  /** The sending side of a connection that is not closed and met no reset is shut down only after every
      byte sent before was written. */
  lemma ShutdownAfterAll(xs: seq<Step>, x: Step)
    requires var c := DoAll(xs); c.state != Disconnected && c.lossless && !c.shut && Do(c, x).shut
    ensures var d := Do(DoAll(xs), x); d.written == d.accepted && d.output == [] && d.shutAt == |d.accepted|
  {
    AlwaysInv(xs);
    var c := DoAll(xs);
    hide DoAll;
    ShutStep(c, x);
  }

  /** How much of what waits a step writes. */
  function Drains(c: Conn, x: Step): nat {
    if x.Writable? then Taken(c.output, x.w) else 0
  }

  /** Which steps shut the sending side: a queued shutdown when nothing is being written, and a write that
      takes all that waits while a shutdown is pending. */
  lemma ShutsExactly(c: Conn, x: Step)
    requires !c.shut
    ensures Do(c, x).shut <==>
      || (x.RunShutdown? && !c.writing)
      || (x.Writable? && c.writing && c.state == Disconnecting && Drains(c, x) == |c.output| > 0)
  {
    hide Taken;
  }

  /** Whichever step shuts the sending side, in any reachable state: everything was written exactly when
      nothing was lost before and the step writes all that waited; and only when the connection was closed
      before may it leave something waiting. */
  lemma ShutdownExactly(xs: seq<Step>, x: Step)
    requires !DoAll(xs).shut && Do(DoAll(xs), x).shut
    ensures var c, d := DoAll(xs), Do(DoAll(xs), x);
      && (d.written == d.accepted <==> c.lossless && Drains(c, x) == |c.output|)
      && (c.state != Disconnected ==> Drains(c, x) == |c.output|)
  {
    AlwaysInv(xs);
    hide DoAll;
    var c := DoAll(xs);
    DoInv(c, x);
    ShutsExactly(c, x);
    ShutContents(c, x);
  }

  lemma ShutContents(c: Conn, x: Step)
    requires Inv(c) && Inv(Do(c, x)) && !c.shut && Do(c, x).shut
    ensures var d := Do(c, x);
      && d.lossless == c.lossless && (d.output == [] <==> Drains(c, x) == |c.output|)
      && (d.written == d.accepted <==> d.lossless && d.output == [])
      && (c.state != Disconnected ==> d.output == [])
  {
    hide Taken;
    var d := Do(c, x);
    Lists.Empty(d.written);
    ShutIdle(c, x);
  }

  /** A step that shuts the sending side leaves no interest in writability. */
  lemma ShutIdle(c: Conn, x: Step)
    requires !c.shut && Do(c, x).shut
    ensures !Do(c, x).writing
  {
    hide Taken;
  }

  lemma ShutStep(c: Conn, x: Step)
    requires Inv(c) && c.state != Disconnected && c.lossless && !c.shut && Do(c, x).shut
    ensures var d := Do(c, x); d.written == d.accepted && d.output == [] && d.shutAt == |d.accepted|
  {
    if x.Writable? { WriteInv(c, x.w); }
    hide Taken;
    Lists.Empty(c.written);
  }

  // ---------------------------------------------------------------- the state over a run

  predicate Established(xs: seq<Step>) {
    exists i :: 0 <= i < |xs| && xs[i].Establish?
  }

  /** The user asked for a shutdown or a close of the established connection. */
  predicate Quit(xs: seq<Step>) {
    exists i :: 0 <= i < |xs| && (xs[i].AskShutdown? || xs[i].AskClose?) && Established(xs[..i])
  }

  /** The established connection was closed, or destroyed before anyone asked for its end. */
  predicate Down(xs: seq<Step>) {
    exists i :: 0 <= i < |xs| && (xs[i].Closed? || (xs[i].Destroy? && !Quit(xs[..i]))) && Established(xs[..i])
  }

  /** What one more step adds to what happened. */
  lemma HappenedNext(xs: seq<Step>)
    requires xs != []
    ensures var before, x := xs[..|xs| - 1], xs[|xs| - 1];
      && (Established(xs) <==> Established(before) || x.Establish?)
      && (Quit(xs) <==> Quit(before) || ((x.AskShutdown? || x.AskClose?) && Established(before)))
      && (Down(xs) <==> Down(before) || ((x.Closed? || (x.Destroy? && !Quit(before))) && Established(before)))
  {
    var n := |xs| - 1;
    var before := xs[..n];
    assert forall i :: 0 <= i < n ==> before[i] == xs[i] && before[..i] == xs[..i];
    hide Established;
    assert Established(xs) <==> Established(before) || xs[n].Establish? by { EstablishedNext(xs); }
    assert Quit(xs) <==> Quit(before) || ((xs[n].AskShutdown? || xs[n].AskClose?) && Established(before));
    hide Quit;
  }

  lemma EstablishedNext(xs: seq<Step>)
    requires xs != []
    ensures Established(xs) <==> Established(xs[..|xs| - 1]) || xs[|xs| - 1].Establish?
  {
    assert forall i :: 0 <= i < |xs| - 1 ==> xs[..|xs| - 1][i] == xs[i];
  }

  /** The state of a connection says exactly what happened to it. */
  lemma {:induction false} StateExactly(xs: seq<Step>)
    ensures DoAll(xs).state == if !Established(xs) then Connecting else if Down(xs) then Disconnected
                               else if Quit(xs) then Disconnecting else Connected
    ensures Down(xs) || Quit(xs) ==> Established(xs)
    decreases |xs|
  {
    hide Established, Quit, Down, SendInLoop, HandleWrite, ShutdownInLoop;
    if xs == [] {
      NothingHappened();
    } else {
      StateExactly(xs[..|xs| - 1]);
      HappenedNext(xs);
      StateNext(DoAll(xs[..|xs| - 1]), xs[|xs| - 1]);
    }
  }

  lemma NothingHappened()
    ensures !Established([]) && !Quit([]) && !Down([])
  {}

  lemma StateNext(c: Conn, x: Step)
    ensures x.Send? || x.Queued? || x.RunShutdown? || x.Writable? ==> Do(c, x).state == c.state
  {
    hide Taken;
  }

  /** Once a shutdown or a close was asked for, a send changes nothing. */
  lemma SendRefused(xs: seq<Step>, n: nat)
    requires n < |xs| && xs[n].Send? && Quit(xs[..n])
    ensures DoAll(xs[..n + 1]) == DoAll(xs[..n])
  {
    StateExactly(xs[..n]);
    DoAllIs(xs[..n + 1]);
    assert xs[..n + 1][..n] == xs[..n];
    hide DoAll, Quit, Down, Established, SendInLoop;
  }

  /** The shutdown that was asked for has been tried on the connection: unless the connection is closed,
      the sending side is shut or something waits. */
  lemma {:induction false} ShutOrWaits(xs: seq<Step>, n: nat)
    requires n < |xs| && xs[n].RunShutdown? && Quit(xs[..n])
    ensures Quit(xs) && (Down(xs) || DoAll(xs).shut || DoAll(xs).output != [])
    decreases |xs|
  {
    hide DoAll, Quit, Down, Established, Do, Inv;
    var before := xs[..|xs| - 1];
    AlwaysInv(before);
    DoAllIs(xs);
    StateExactly(before);
    HappenedNext(xs);
    if n < |xs| - 1 {
      assert before[..n] == xs[..n];
      ShutOrWaits(before, n);
      if !Down(before) { ShutStays(DoAll(before), xs[|xs| - 1]); }
    } else {
      ShutTried(DoAll(before));
    }
  }

  lemma ShutTried(c: Conn)
    requires Inv(c)
    ensures c.state == Disconnecting ==> Do(c, RunShutdown).shut || Do(c, RunShutdown).output != []
  {}

  lemma ShutStays(c: Conn, x: Step)
    requires Inv(c) && c.state == Disconnecting && (c.shut || c.output != [])
    ensures Do(c, x).shut || Do(c, x).output != []
  {
    hide Taken;
  }

  /** Over every run: when a shutdown of an established connection was asked for and run, and the connection
      is not closed, then as soon as nothing waits the sending side is shut, and if no write met a reset
      everything sent was written. */
  lemma ShutsInTheEnd(xs: seq<Step>, m: nat, n: nat)
    requires m < n < |xs| && xs[m].AskShutdown? && xs[n].RunShutdown? && Established(xs[..m])
    ensures !Down(xs) && DoAll(xs).output == [] ==>
      DoAll(xs).shut && (DoAll(xs).lossless ==> DoAll(xs).written == AllSends(xs))
  {
    assert xs[..n][m] == xs[m] && xs[..n][..m] == xs[..m];
    assert Quit(xs[..n]);
    hide *;
    ShutOrWaits(xs, n);
    OutputIsSent(xs);
    Lists.Empty(DoAll(xs).written);
  }

  /** What a step offers to the socket: a new message when nothing waits, or all that waits. */
  function Offer(c: Conn, x: Step): seq<byte> {
    match x
    case Send(data, w) => if c.state == Connected && c.output == [] && !c.writing then data else []
    case Queued(data, w) =>
      if (c.state == Connected || c.state == Disconnecting) && c.output == [] && !c.writing then data else []
    case Writable(w) => if c.writing then c.output else []
    case _ => []
  }

  /** And how much of it the socket says it took. */
  function Took(c: Conn, x: Step): nat {
    match x
    case Send(data, Wrote(n)) => Min(n, |Offer(c, x)|)
    case Queued(data, Wrote(n)) => Min(n, |Offer(c, x)|)
    case Writable(Wrote(n)) => Min(n, |Offer(c, x)|)
    case _ => 0
  }

  /** Exactly what the socket took counts as written. */
  lemma WritesExactly(c: Conn, x: Step)
    ensures Took(c, x) <= |Offer(c, x)| && Do(c, x).written == c.written + Offer(c, x)[..Took(c, x)]
  {
    Lists.Empty(c.written);
  }

  /** A closed connection takes over nothing and writes nothing more. */
  lemma ClosedIsFinal(xs: seq<Step>, x: Step)
    requires Down(xs)
    ensures var c, d := DoAll(xs), Do(DoAll(xs), x);
      d == c.(shut := d.shut) && d.state == Disconnected
  {
    StateExactly(xs);
    AlwaysInv(xs);
    hide DoAll, Down, Quit, Established;
  }

  /** After a close the sending side may be shut down with bytes still waiting: a shutdown asked for
      before the close runs after it. */
  lemma ShutdownAfterClose()
    ensures DoAll([Establish, Send([1], WouldBlock), AskShutdown]).state == Disconnecting
    ensures var c := DoAll([Establish, Send([1], WouldBlock), AskShutdown, Closed, RunShutdown]);
      c.shut && c.lossless && c.output == [1] && c.written == [] && c.state == Disconnected
  {
    var xs := [Establish, Send([1], WouldBlock), AskShutdown, Closed, RunShutdown];
    assert xs[..4] == [Establish, Send([1], WouldBlock), AskShutdown, Closed];
    assert xs[..4][..3] == [Establish, Send([1], WouldBlock), AskShutdown];
    assert xs[..4][..3][..2] == [Establish, Send([1], WouldBlock)];
    assert xs[..4][..3][..2][..1] == [Establish] && xs[..4][..3][..2][..1][..0] == [];
    DoAllIs(xs); DoAllIs(xs[..4]); DoAllIs(xs[..4][..3]); DoAllIs(xs[..4][..3][..2]); DoAllIs(xs[..4][..3][..2][..1]);
    DoAllIs([]);
  }

  lemma DoAllIs(xs: seq<Step>)
    ensures DoAll(xs) == if xs == [] then START else Do(DoAll(xs[..|xs| - 1]), xs[|xs| - 1])
  {
    hide Do;
  }
}
