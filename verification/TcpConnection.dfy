/** The output path of a connection, on its loop thread, over a growable buffer. */
module TcpConnection {
  import opened Serial
  import opened TcpStream
  import Buffer

  class TcpConnection {
    var state: State
    const outputBuffer: Buffer.Buffer
    /** The channel's interest in writability. */
    var isWriting: bool
    /** What the socket took, and whether its sending side is shut down. */
    var written: seq<byte>
    var shutWrite: bool
    ghost var accepted: seq<byte>
    ghost var lossless: bool
    ghost var shutAt: int

    ghost predicate Valid()
      reads this, outputBuffer
      ensures Valid() ==> outputBuffer.Valid() && Inv(Stream())
      ensures outputBuffer.Valid() && Inv(Stream()) ==> Valid()
    {
      outputBuffer.Valid() && Inv(Stream())
    }

    ghost function Stream(): Conn
      reads this, outputBuffer
      requires outputBuffer.Valid()
    {
      Conn(state, outputBuffer.Contents(), isWriting, written, shutWrite, accepted, lossless, shutAt)
    }

    constructor ()
      ensures Valid() && fresh(outputBuffer) && Stream() == START
    {
      outputBuffer := new Buffer.Buffer(Buffer.INITIAL_SIZE);
      state, isWriting, written, shutWrite := Connecting, false, [], false;
      accepted, lossless, shutAt := [], true, -1;
    }

    method ConnectEstablished()
      requires Valid() && state == Connecting
      modifies this
      ensures Valid() && Stream() == Do(old(Stream()), Establish)
    {
      state := Connected;
    }

    /** `w` is what the socket answers, should it be asked. */
    method Send(data: seq<byte>, w: Outcome)
      requires Valid() && (w.Wrote? ==> w.n <= |data|)
      modifies this, outputBuffer
      ensures Valid() && Stream() == Do(old(Stream()), TcpStream.Send(data, w))
    {
      hide TcpStream.SendInLoop, Inv;
      if state == Connected { SendInLoop(data, w); }
    }

    /** Tries the socket when nothing waits: how many bytes it took, and whether it was reset. */
    method TryWrite(data: seq<byte>, w: Outcome) returns (nwrote: nat, faultError: bool)
      requires outputBuffer.Valid() && (w.Wrote? ==> w.n <= |data|)
      modifies this`written
      ensures var direct := !isWriting && outputBuffer.Contents() == [];
        nwrote == (if direct && w.Wrote? then w.n else 0) && faultError == (direct && w.Reset?)
      ensures nwrote <= |data| && written == (if nwrote > 0 then old(written) + data[..nwrote] else old(written))
      ensures Stream() == old(Stream()).(written := written)
    {
      nwrote, faultError := 0, false;
      if !isWriting && outputBuffer.ReadableBytes() == 0 {
        if w.Wrote? {
          nwrote := w.n;
          if nwrote > 0 { written := written + data[..nwrote]; }
        } else {
          faultError := w.Reset?;
        }
      }
    }

    method SendInLoop(data: seq<byte>, w: Outcome)
      requires Valid() && (w.Wrote? ==> w.n <= |data|)
      modifies this, outputBuffer
      ensures Valid() && Stream() == TcpStream.SendInLoop(old(Stream()), data, w)
    {
      hide *;
      ghost var before := Stream();
      StreamIs();
      SendInv(before, data, w);
      ClosedIs(before, data, w);
      if state == Disconnected { return; }
      var nwrote, faultError := TryWrite(data, w);
      SendIs(before, data, w, nwrote, faultError);
      var remaining := |data| - nwrote;
      Account(data, faultError && remaining > 0);
      if !faultError && remaining > 0 { Enqueue(data[nwrote..]); }
    }

    lemma StreamIs()
      requires outputBuffer.Valid()
      ensures Stream() ==
              Conn(state, outputBuffer.Contents(), isWriting, written, shutWrite, accepted, lossless, shutAt)
    {
      hide Inv;
    }

    ghost method Account(data: seq<byte>, lost: bool)
      requires outputBuffer.Valid()
      modifies this`accepted, this`lossless
      ensures Stream() == old(Stream()).(accepted := old(accepted) + data, lossless := old(lossless) && !lost)
    {
      accepted, lossless := accepted + data, lossless && !lost;
    }

    /** What the socket did not take waits for it. */
    method Enqueue(rest: seq<byte>)
      requires outputBuffer.Valid()
      modifies this`isWriting, outputBuffer
      ensures outputBuffer.Valid()
      ensures Stream() == old(Stream()).(output := old(Stream()).output + rest, writing := true)
    {
      outputBuffer.Append(rest);
      isWriting := true;
    }

    method Shutdown()
      requires Valid()
      modifies this`state
      ensures Valid() && Stream() == TcpStream.Shutdown(old(Stream()))
    {
      if state == Connected { state := Disconnecting; }
    }

    method ShutdownInLoop()
      requires outputBuffer.Valid()
      modifies this`shutWrite, this`shutAt
      ensures outputBuffer.Valid() && Stream() == TcpStream.ShutdownInLoop(old(Stream()))
      ensures old(Valid()) ==> Valid()
    {
      if Valid() { ShutInv(Stream()); }
      hide Inv;
      if !isWriting {
        shutAt := if state != Disconnected && lossless && !shutWrite then |accepted| else shutAt;
        shutWrite := true;
      }
    }

    method ForceCloseInLoop()
      requires Valid()
      modifies this`state, this`isWriting
      ensures Valid() && Stream() == TcpStream.HandleClose(old(Stream()))
    {
      if state == Connected || state == Disconnecting { HandleClose(); }
    }

    method HandleClose()
      requires Valid() && (state == Connected || state == Disconnecting)
      modifies this`state, this`isWriting
      ensures Valid() && Stream() == TcpStream.HandleClose(old(Stream()))
    {
      state := Disconnected;
      isWriting := false;
    }

    /** The socket can take bytes: it is offered everything that waits. */
    method HandleWrite(w: Outcome)
      requires Valid() && (w.Wrote? ==> w.n <= outputBuffer.ReadableBytes())
      modifies this, outputBuffer
      ensures Valid() && Stream() == TcpStream.HandleWrite(old(Stream()), w)
    {
      ghost var before := Stream();
      WriteInv(before, w);
      hide Inv;
      if isWriting && w.Wrote? && w.n > 0 {
        var n := w.n;
        written := written + outputBuffer.Contents()[..n];
        outputBuffer.Retrieve(n);
        WriteIs(before, w);
        hide TcpStream.HandleWrite, TcpStream.ShutdownInLoop;
        if outputBuffer.ReadableBytes() == 0 {
          isWriting := false;
          if state == Disconnecting { ShutdownInLoop(); }
        }
      } else {
        WriteNothing(before, w);
      }
    }
  }

  lemma ClosedIs(c: Conn, data: seq<byte>, w: Outcome)
    ensures c.state == Disconnected ==> TcpStream.SendInLoop(c, data, w) == c
  {}

  lemma SendIs(c: Conn, data: seq<byte>, w: Outcome, nwrote: nat, fault: bool)
    requires c.state != Disconnected && (w.Wrote? ==> w.n <= |data|)
    requires var direct := !c.writing && c.output == [];
      nwrote == (if direct && w.Wrote? then w.n else 0) && fault == (direct && w.Reset?)
    ensures var remaining := |data| - nwrote;
      TcpStream.SendInLoop(c, data, w) ==
        c.(accepted := c.accepted + data, written := if nwrote > 0 then c.written + data[..nwrote] else c.written,
           output := if !fault && remaining > 0 then c.output + data[nwrote..] else c.output,
           writing := c.writing || (!fault && remaining > 0), lossless := c.lossless && !(fault && remaining > 0))
    ensures nwrote == 0 ==> c.written + data[..nwrote] == c.written
  {
    assert nwrote == 0 ==> c.written + data[..nwrote] == c.written;
  }

  lemma WriteIs(c: Conn, w: Outcome)
    requires c.writing && w.Wrote? && 0 < w.n <= |c.output|
    ensures var m := c.(written := c.written + c.output[..w.n], output := c.output[w.n..]);
      TcpStream.HandleWrite(c, w) ==
        if m.output != [] then m
        else if c.state != Disconnecting then m.(writing := false)
        else TcpStream.ShutdownInLoop(m.(writing := false))
  {}

  lemma WriteNothing(c: Conn, w: Outcome)
    requires !c.writing || !w.Wrote? || w.n == 0
    ensures TcpStream.HandleWrite(c, w) == c
  {
    assert c.written + c.output[..0] == c.written;
  }
}
