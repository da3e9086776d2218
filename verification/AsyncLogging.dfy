/** The asynchronous logger in place: each method is one critical section, or one stretch of the
    backend thread outside the lock. */
module AsyncLogging {
  import opened AsyncLog

  class AsyncLogging {
    var currentBuffer: Ptr
    var nextBuffer: Ptr
    var buffers: seq<Bytes>
    var newBuffer1: Ptr
    var newBuffer2: Ptr
    var buffersToWrite: seq<Bytes>
    var running: bool
    var output: Bytes
    ghost var place: Place
    ghost var accepted: Bytes
    ghost var fates: seq<Fate>
    ghost var dropping: seq<Bytes>

    ghost function State(): Log
      reads this
    {
      Log(currentBuffer, nextBuffer, buffers, newBuffer1, newBuffer2, buffersToWrite, place, running, output, accepted,
          fates, dropping)
    }

    ghost predicate Valid()
      reads this
    {
      Inv(State())
    }

    constructor ()
      ensures Valid() && State() == START
    {
      currentBuffer, nextBuffer, buffers, newBuffer1, newBuffer2 := Buffer([]), Buffer([]), [], Buffer([]), Buffer([]);
      buffersToWrite, running, output := [], true, [];
      place, accepted, fates, dropping := Top, [], [], [];
      new;
      StartInv();
    }

    method Append(line: Bytes)
      requires Valid()
      modifies this
      ensures Valid() && State() == AsyncLog.Append(old(State()), line)
    {
      AppendInv(State(), line);
      AppendCases(State(), line);
      assert currentBuffer.Buffer? && (nextBuffer.Buffer? ==> nextBuffer.data == []) by { hide Conserved; }
      hide Inv, Put, AsyncLog.Append;
      Accept(line);
      if CAPACITY - |currentBuffer.data| > |line| {
        currentBuffer := Buffer(Put(currentBuffer.data, line));
      } else {
        var next := if nextBuffer.Buffer? then nextBuffer.data else [];
        buffers, currentBuffer, nextBuffer := buffers + [currentBuffer.data], Buffer(Put(next, line)), Null;
      }
    }

    ghost method Accept(line: Bytes)
      modifies this`accepted
      ensures accepted == if |line| < CAPACITY then old(accepted) + line else old(accepted)
    {
      accepted := if |line| < CAPACITY then accepted + line else accepted;
    }

    /** The start of the loop and of its critical section. */
    method Enter() returns (waits: bool)
      requires Valid() && place == Top
      modifies this
      ensures Valid() && State() == AsyncLog.Enter(old(State())) && (waits <==> place == Waiting)
    {
      EnterInv(State());
      assert newBuffer1 == Buffer([]) && newBuffer2 == Buffer([]) && buffersToWrite == [] by { hide Conserved; }
      waits := false;
      if !running {
        place := Stopped;
      } else if buffers == [] {
        waits := true;
        place := Waiting;
      } else {
        SwapBuffers();
      }
    }

    method Wake()
      requires Valid() && place == Waiting
      modifies this
      ensures Valid() && State() == AsyncLog.Wake(old(State()))
    {
      hide Conserved;
      SwapInv(State());
      SwapBuffers();
    }

    method SwapBuffers()
      requires currentBuffer.Buffer?
      modifies this
      ensures State() == AsyncLog.Swap(old(State()))
    {
      var full := buffers + [currentBuffer.data];
      currentBuffer, newBuffer1 := newBuffer1, Null;
      buffersToWrite, buffers, place := full, [], Swapped;
      if nextBuffer.Null? {
        nextBuffer, newBuffer2 := newBuffer2, Null;
      }
    }

    /** Everything between two critical sections: cutting the batch, writing it, taking back the spares. */
    method WriteBatch(note: Bytes)
      requires Valid() && place == Swapped
      modifies this
      ensures Valid() && place == Top
      ensures State() == AsyncLog.Recycle(WriteAll(AsyncLog.Trim(old(State()), note)))
    {
      hide Conserved, AsyncLog.Recycle;
      TrimInv(State(), note);
      Trim(note);
      ghost var trimmed := State();
      var i := 0;
      while i < |buffersToWrite|
        invariant Valid() && place == Writing(i) && 0 <= i <= |buffersToWrite|
        invariant WriteAll(State()) == WriteAll(trimmed)
      {
        WriteInv(State());
        WriteAllStep(State());
        WriteOne(i);
        i := i + 1;
      }
      WriteAllStep(State());
      RecycleInv(State());
      RecycleTop(State());
      Recycle();
    }

    method Trim(note: Bytes)
      requires place == Swapped
      modifies this
      ensures State() == AsyncLog.Trim(old(State()), note)
    {
      if |buffersToWrite| > 25 {
        output := output + note;
        fates := fates + [Note(note)];
        dropping := buffersToWrite[2..];
        buffersToWrite := buffersToWrite[..2];
      }
      place := Writing(0);
    }

    method WriteOne(i: nat)
      requires i < |buffersToWrite| && place == Writing(i)
      modifies this
      ensures State() == WriteNext(old(State()))
    {
      output := output + buffersToWrite[i];
      fates := fates + [Written(buffersToWrite[i])];
      place := Writing(i + 1);
    }

    method Recycle()
      requires Valid() && place == Writing(|buffersToWrite|)
      modifies this
      ensures State() == AsyncLog.Recycle(old(State()))
    {
      hide *;
      RecycleReady();
      RecycleSettles(State());
      TakeBack();
      Settle();
    }

    lemma RecycleReady()
      requires Valid() && place == Writing(|buffersToWrite|)
      ensures newBuffer1 == Null && |buffersToWrite| >= (if newBuffer2.Null? then 2 else 1)
      ensures newBuffer2.Buffer? ==> newBuffer2 == Buffer([])
      ensures Supplied(State()) && State().place == Writing(|State().batch|)
    {
      hide Conserved;
    }

    /** Both spare buffers come from the back of what was written. */
    method TakeBack()
      requires newBuffer1 == Null && |buffersToWrite| >= (if newBuffer2.Null? then 2 else 1)
      requires newBuffer2.Buffer? ==> newBuffer2 == Buffer([])
      modifies this`buffersToWrite, this`newBuffer1, this`newBuffer2
      ensures State() == old(State()).(new1 := Buffer([]), new2 := Buffer([]), batch := [])
    {
      if |buffersToWrite| > 2 {
        buffersToWrite := buffersToWrite[..2];
      }
      if newBuffer1.Null? {
        assert buffersToWrite != [];
        newBuffer1 := Buffer([]);
        buffersToWrite := buffersToWrite[..|buffersToWrite| - 1];
      }
      if newBuffer2.Null? {
        assert buffersToWrite != [];
        newBuffer2 := Buffer([]);
        buffersToWrite := buffersToWrite[..|buffersToWrite| - 1];
      }
      buffersToWrite := [];
    }

    method Settle()
      modifies this
      ensures State() == old(State()).(dropping := [], place := Top,
          fates := old(State()).fates + Drops(old(State()).dropping))
    {
      hide Drops;
      fates, dropping, place := fates + Drops(dropping), [], Top;
    }
  }

  lemma AppendCases(l: Log, line: Bytes)
    requires Supplied(l)
    ensures var m := l.(accepted := if |line| < CAPACITY then l.accepted + line else l.accepted);
      AsyncLog.Append(l, line) ==
        if CAPACITY - |l.current.data| > |line| then m.(current := Buffer(Put(l.current.data, line)))
        else m.(full := l.full + [l.current.data], current := Buffer(Put([], line)), spare := Null)
  {
    hide Put;
  }

  lemma RecycleSettles(l: Log)
    requires Supplied(l) && l.place == Writing(|l.batch|)
    ensures AsyncLog.Recycle(l) == l.(new1 := Buffer([]), new2 := Buffer([]), batch := [], dropping := [], place := Top,
                                      fates := l.fates + Drops(l.dropping))
  {
    hide Drops;
  }

  /** The writing loop. */
  ghost function WriteAll(l: Log): Log
    decreases if l.place.Writing? then |l.batch| - l.place.next else 0
  {
    if l.place.Writing? && l.place.next < |l.batch| then WriteAll(WriteNext(l)) else l
  }

  lemma WriteAllStep(l: Log)
    ensures WriteAll(l) == if l.place.Writing? && l.place.next < |l.batch| then WriteAll(WriteNext(l)) else l
  {}

  lemma RecycleTop(l: Log)
    requires l.place.Writing? && l.place.next == |l.batch|
    ensures AsyncLog.Recycle(l).place == Top
  {}
}
