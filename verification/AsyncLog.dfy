/** The asynchronous logger as interleaved critical sections: any thread appends a line, and one
    backend thread swaps the full buffers out under the lock and writes them to the file. */
module AsyncLog {
  import opened Serial
  import Lists

  type Bytes = seq<byte>

  const CAPACITY: nat := 4000 * 1000

  /** A `unique_ptr` to a buffer. */
  datatype Ptr = Null | Buffer(data: Bytes)

  /** Where the backend thread stands in its loop. */
  datatype Place = Top | Waiting | Swapped | Writing(next: nat) | Stopped

  /** What became of appended bytes, in the order they were appended; `Note` is the backend's own text. */
  datatype Fate = Written(data: Bytes) | Dropped(data: Bytes) | Note(text: Bytes)

  /** `current`, `spare` and `full` are guarded by the lock (`currentBuffer_`, `nextBuffer_`, `buffers_`);
      `new1`, `new2` and `batch` belong to the backend (`newBuffer1`, `newBuffer2`, `buffersToWrite`).
      `accepted`, `fates` and `dropping` are history: all bytes appended in lines that fit a buffer, what
      became of them, and the buffers the running batch has given up. */
  datatype Log = Log(current: Ptr, spare: Ptr, full: seq<Bytes>, new1: Ptr, new2: Ptr, batch: seq<Bytes>,
                     place: Place, running: bool, file: Bytes, accepted: Bytes, fates: seq<Fate>, dropping: seq<Bytes>)

  const START := Log(Buffer([]), Buffer([]), [], Buffer([]), Buffer([]), [], Top, true, [], [], [], [])

  // ---------------------------------------------------------------- steps

  /** A fixed buffer takes a line only if more than its length is left. */
  function Put(data: Bytes, line: Bytes): Bytes {
    if CAPACITY - |data| > |line| then data + line else data
  }

  function DataIn(p: Ptr): Bytes {
    if p.Buffer? then p.data else []
  }

  /** One line is appended under the lock. */
  function Append(l: Log, line: Bytes): Log {
    var m := l.(accepted := if |line| < CAPACITY then l.accepted + line else l.accepted);
    if CAPACITY - |DataIn(l.current)| > |line| then m.(current := Buffer(Put(DataIn(l.current), line)))
    else m.(full := l.full + [DataIn(l.current)], current := Buffer(Put(DataIn(l.spare), line)), spare := Null)
  }

  /** The second half of the backend's critical section. */
  function Swap(l: Log): Log {
    l.(batch := l.full + [DataIn(l.current)], full := [], current := l.new1, new1 := Null,
       spare := if l.spare.Null? then l.new2 else l.spare, new2 := if l.spare.Null? then Null else l.new2,
       place := Swapped)
  }

  /** The backend takes the lock: it waits, giving the lock up, when nothing is full. */
  function Enter(l: Log): Log {
    if l.place != Top then l
    else if !l.running then l.(place := Stopped)
    else if l.full == [] then l.(place := Waiting)
    else Swap(l)
  }

  /** The wait ends by a signal, by time or for no reason; the lock is held again. */
  function Wake(l: Log): Log {
    if l.place == Waiting then Swap(l) else l
  }

  /** A batch of more than 25 buffers is cut to two, and a note is written. */
  function Trim(l: Log, note: Bytes): Log {
    if l.place != Swapped then l
    else if |l.batch| > 25 then
      l.(place := Writing(0), batch := l.batch[..2], dropping := l.batch[2..], file := l.file + note,
         fates := l.fates + [Note(note)])
    else l.(place := Writing(0))
  }

  function WriteNext(l: Log): Log {
    if l.place.Writing? && l.place.next < |l.batch| then
      var data := l.batch[l.place.next];
      l.(place := Writing(l.place.next + 1), file := l.file + data, fates := l.fates + [Written(data)])
    else l
  }

  /** The spare buffers are taken from the back of what was written. */
  function Refill(p: Ptr, pool: seq<Bytes>): (Ptr, seq<Bytes>) {
    if p.Null? && pool != [] then (Buffer([]), pool[..|pool| - 1]) else (p, pool)
  }

  function Drops(batch: seq<Bytes>): seq<Fate> {
    if batch == [] then [] else [Dropped(batch[0])] + Drops(batch[1..])
  }

  function Recycle(l: Log): Log {
    if l.place.Writing? && l.place.next >= |l.batch| then
      var pool := if |l.batch| > 2 then l.batch[..2] else l.batch;
      var first := Refill(l.new1, pool);
      var second := Refill(l.new2, first.1);
      l.(new1 := first.0, new2 := second.0, batch := [], dropping := [], place := Top,
         fates := l.fates + Drops(l.dropping))
    else l
  }

  function Stop(l: Log): Log {
    l.(running := false)
  }

  datatype Step = Line(line: Bytes) | TakeLock | WakeUp | Cut(note: Bytes) | WriteOne | Finish | Quit

  function Do(l: Log, x: Step): Log {
    match x
    case Line(line) => Append(l, line)
    case TakeLock => Enter(l)
    case WakeUp => Wake(l)
    case Cut(note) => Trim(l, note)
    case WriteOne => WriteNext(l)
    case Finish => Recycle(l)
    case Quit => Stop(l)
  }

  /** Any interleaving of the threads. */
  function DoAll(xs: seq<Step>): Log
    decreases |xs|
  {
    if xs == [] then START else Do(DoAll(xs[..|xs| - 1]), xs[|xs| - 1])
  }

  // ---------------------------------------------------------------- invariant

  /** The appended bytes among the fates. */
  function DataOf(fates: seq<Fate>): Bytes {
    if fates == [] then []
    else DataOf(fates[..|fates| - 1]) + if fates[|fates| - 1].Note? then [] else fates[|fates| - 1].data
  }

  /** What the fates put into the file. */
  function FileOf(fates: seq<Fate>): Bytes {
    if fates == [] then []
    else
      var last := fates[|fates| - 1];
      FileOf(fates[..|fates| - 1]) + if last.Written? then last.data else if last.Note? then last.text else []
  }

  function Unwritten(l: Log): seq<Bytes> {
    if l.place.Writing? && l.place.next <= |l.batch| then l.batch[l.place.next..] else l.batch
  }

  /** Every appended byte is, in order, among the fates, still to be written, given up, or still
      collected; and the file is what the fates say. */
  ghost predicate Conserved(l: Log) {
    && l.accepted == DataOf(l.fates) + Lists.Concat(Unwritten(l)) + Lists.Concat(l.dropping) + Lists.Concat(l.full) +
        DataIn(l.current)
    && l.file == FileOf(l.fates)
  }

  /** The buffers every place of the loop relies on; between batches both spare buffers of the backend
      are there and empty. */
  ghost predicate Supplied(l: Log) {
    && l.current.Buffer? && |l.current.data| < CAPACITY
    && (l.spare.Null? ==> l.full != []) && (l.spare.Buffer? ==> l.spare.data == [])
    && (l.new2.Buffer? ==> l.new2.data == [])
    && match l.place
       case Top => l.new1 == Buffer([]) && l.new2 == Buffer([]) && l.batch == [] && l.dropping == []
       case Waiting => l.new1 == Buffer([]) && l.new2 == Buffer([]) && l.batch == [] && l.dropping == []
       case Stopped => l.batch == [] && l.dropping == []
       case Swapped => l.new1 == Null && |l.batch| >= (if l.new2.Null? then 2 else 1) && l.dropping == []
       case Writing(n) => l.new1 == Null && |l.batch| >= (if l.new2.Null? then 2 else 1) && n <= |l.batch|
  }

  ghost predicate Inv(l: Log) {
    Conserved(l) && Supplied(l)
  }

  lemma FateAppend(fates: seq<Fate>, f: Fate)
    ensures DataOf(fates + [f]) == DataOf(fates) + if f.Note? then [] else f.data
    ensures FileOf(fates + [f]) == FileOf(fates) + if f.Written? then f.data else if f.Note? then f.text else []
  {
    assert (fates + [f])[..|fates|] == fates;
  }

  lemma {:induction false} DropsFates(fates: seq<Fate>, batch: seq<Bytes>)
    ensures DataOf(fates + Drops(batch)) == DataOf(fates) + Lists.Concat(batch)
    ensures FileOf(fates + Drops(batch)) == FileOf(fates)
    decreases |batch|
  {
    hide DataOf, FileOf;
    if batch == [] {
      Lists.Empty(fates);
      Lists.Empty(DataOf(fates));
    } else {
      var f := Dropped(batch[0]);
      FateAppend(fates, f);
      DropsFates(fates + [f], batch[1..]);
      Lists.Associative(fates, [f], Drops(batch[1..]));
      Lists.Associative(DataOf(fates), batch[0], Lists.Concat(batch[1..]));
      Lists.Empty(FileOf(fates));
    }
  }

  lemma ConservedIs(l: Log)
    ensures Conserved(l) <==>
      && l.accepted == DataOf(l.fates) + Lists.Concat(Unwritten(l)) + Lists.Concat(l.dropping) +
          Lists.Concat(l.full) + DataIn(l.current)
      && l.file == FileOf(l.fates)
  {
    hide DataOf, FileOf, Lists.Concat, Unwritten;
  }

  lemma InvIs(l: Log)
    ensures Inv(l) <==> Conserved(l) && Supplied(l)
  {
    hide Conserved, Supplied;
  }

  lemma AppendInv(l: Log, line: Bytes)
    requires Inv(l)
    ensures Inv(Append(l, line))
  {
    hide *;
    InvIs(l);
    InvIs(Append(l, line));
    AppendSupplied(l, line);
    AppendIs(l, line);
    AppendConserved(l, Append(l, line), line);
  }

  lemma AppendSupplied(l: Log, line: Bytes)
    requires Supplied(l)
    ensures Supplied(Append(l, line))
  {}

  lemma AppendIs(l: Log, line: Bytes)
    requires Supplied(l)
    ensures var m, cur := Append(l, line), DataIn(l.current);
      var more := if |line| < CAPACITY then line else [];
      && m == l.(accepted := l.accepted + more, full := m.full, current := m.current, spare := m.spare)
      && ((m.full == l.full && DataIn(m.current) == cur + more)
          || (m.full == l.full + [cur] && DataIn(m.current) == more))
      && Unwritten(m) == Unwritten(l)
  {
    Lists.Empty(l.accepted);
  }

  lemma AppendConserved(l: Log, m: Log, line: Bytes)
    requires Conserved(l)
    requires var more := if |line| < CAPACITY then line else [];
      && m == l.(accepted := l.accepted + more, full := m.full, current := m.current, spare := m.spare)
      && ((m.full == l.full && DataIn(m.current) == DataIn(l.current) + more)
          || (m.full == l.full + [DataIn(l.current)] && DataIn(m.current) == more))
      && Unwritten(m) == Unwritten(l)
    ensures Conserved(m)
  {
    hide *;
    ConservedIs(l);
    ConservedIs(m);
    var more, cur := if |line| < CAPACITY then line else [], DataIn(l.current);
    var before := DataOf(l.fates) + Lists.Concat(Unwritten(l)) + Lists.Concat(l.dropping);
    Lists.Associative(before + Lists.Concat(l.full), cur, more);
    Lists.ConcatAppend(l.full, [cur]);
    Lists.ConcatOne(cur);
    Lists.Associative(before, Lists.Concat(l.full), cur);
  }

  lemma SwapInv(l: Log)
    requires Inv(l) && (l.place == Top || l.place == Waiting)
    ensures Inv(Swap(l))
  {
    hide *;
    InvIs(l);
    InvIs(Swap(l));
    SwapSupplied(l);
    SwapIs(l);
    SwapConserved(l, Swap(l));
  }

  lemma SwapSupplied(l: Log)
    requires Supplied(l) && (l.place == Top || l.place == Waiting)
    ensures Supplied(Swap(l))
  {}

  lemma SwapIs(l: Log)
    requires Supplied(l) && (l.place == Top || l.place == Waiting)
    ensures var m := Swap(l);
      && m.accepted == l.accepted && m.fates == l.fates && m.file == l.file && m.dropping == l.dropping == []
      && Unwritten(l) == [] && Unwritten(m) == l.full + [DataIn(l.current)] && m.full == [] && DataIn(m.current) == []
  {}

  lemma SwapConserved(l: Log, m: Log)
    requires Conserved(l)
    requires m.accepted == l.accepted && m.fates == l.fates && m.file == l.file && m.dropping == l.dropping == []
    requires Unwritten(l) == [] && Unwritten(m) == l.full + [DataIn(l.current)] && m.full == [] &&
        DataIn(m.current) == []
    ensures Conserved(m)
  {
    hide *;
    ConservedIs(l);
    ConservedIs(m);
    var cur := DataIn(l.current);
    Lists.ConcatAppend(l.full, [cur]);
    Lists.ConcatOne(cur);
    Lists.Empty(DataOf(l.fates));
    Lists.Associative(DataOf(l.fates), Lists.Concat(l.full), cur);
    Lists.Empty(DataOf(l.fates) + (Lists.Concat(l.full) + cur));
  }

  lemma TrimInv(l: Log, note: Bytes)
    requires Inv(l)
    ensures Inv(Trim(l, note))
  {
    hide *;
    InvIs(l);
    InvIs(Trim(l, note));
    TrimSupplied(l, note);
    TrimIs(l, note);
    if l.place == Swapped { TrimConserved(l, Trim(l, note), note); }
  }

  lemma TrimSupplied(l: Log, note: Bytes)
    requires Supplied(l)
    ensures Supplied(Trim(l, note))
  {}

  lemma TrimIs(l: Log, note: Bytes)
    requires Supplied(l)
    ensures var m := Trim(l, note);
      && (l.place != Swapped ==> m == l)
      && (l.place == Swapped ==>
           && m.accepted == l.accepted && m.full == l.full && m.current == l.current && l.dropping == []
           && Unwritten(l) == Unwritten(m) + m.dropping
           && ((m.fates == l.fates && m.file == l.file) || (m.fates == l.fates + [Note(note)] &&
               m.file == l.file + note)))
  {
    if |l.batch| > 25 { assert l.batch == l.batch[..2] + l.batch[2..]; }
    Lists.Empty(l.batch);
  }

  lemma TrimConserved(l: Log, m: Log, note: Bytes)
    requires Conserved(l)
    requires m.accepted == l.accepted && m.full == l.full && m.current == l.current && l.dropping == []
    requires Unwritten(l) == Unwritten(m) + m.dropping
    requires (m.fates == l.fates && m.file == l.file) || (m.fates == l.fates + [Note(note)] && m.file == l.file + note)
    ensures Conserved(m)
  {
    hide *;
    ConservedIs(l);
    ConservedIs(m);
    FateAppend(l.fates, Note(note));
    Lists.Empty(DataOf(l.fates));
    Lists.ConcatAppend(Unwritten(m), m.dropping);
    Lists.ConcatOne<byte>([]);
    Lists.Empty(DataOf(l.fates) + Lists.Concat(Unwritten(l)));
    Lists.Associative(DataOf(l.fates), Lists.Concat(Unwritten(m)), Lists.Concat(m.dropping));
  }

  lemma WriteInv(l: Log)
    requires Inv(l)
    ensures Inv(WriteNext(l))
  {
    hide *;
    InvIs(l);
    InvIs(WriteNext(l));
    WriteSupplied(l);
    WriteIs(l);
    if l.place.Writing? && l.place.next < |l.batch| {
      WriteConserved(l, WriteNext(l), l.batch[l.place.next]);
    }
  }

  lemma WriteSupplied(l: Log)
    requires Supplied(l)
    ensures Supplied(WriteNext(l))
  {}

  lemma WriteIs(l: Log)
    ensures var m := WriteNext(l);
      && (!(l.place.Writing? && l.place.next < |l.batch|) ==> m == l)
      && (l.place.Writing? && l.place.next < |l.batch| ==>
           var data := l.batch[l.place.next];
           && m.accepted == l.accepted && m.full == l.full && m.current == l.current && m.dropping == l.dropping
           && Unwritten(l) == [data] + Unwritten(m) && m.fates == l.fates + [Written(data)] && m.file == l.file + data)
  {
    if l.place.Writing? && l.place.next < |l.batch| { Lists.SplitAt(l.batch, l.place.next); }
  }

  lemma WriteConserved(l: Log, m: Log, data: Bytes)
    requires Conserved(l)
    requires m.accepted == l.accepted && m.full == l.full && m.current == l.current && m.dropping == l.dropping
    requires Unwritten(l) == [data] + Unwritten(m) && m.fates == l.fates + [Written(data)] && m.file == l.file + data
    ensures Conserved(m)
  {
    hide *;
    ConservedIs(l);
    ConservedIs(m);
    FateAppend(l.fates, Written(data));
    Lists.ConcatAppend([data], Unwritten(m));
    Lists.ConcatOne(data);
    Lists.Associative(DataOf(l.fates), data, Lists.Concat(Unwritten(m)));
  }

  lemma RecycleInv(l: Log)
    requires Inv(l)
    ensures Inv(Recycle(l))
  {
    hide *;
    InvIs(l);
    InvIs(Recycle(l));
    RecycleSupplied(l);
    RecycleIs(l);
    if l.place.Writing? && l.place.next >= |l.batch| { RecycleConserved(l, Recycle(l)); }
  }

  lemma RecycleSupplied(l: Log)
    requires Supplied(l)
    ensures Supplied(Recycle(l))
  {}

  lemma RecycleIs(l: Log)
    requires Supplied(l)
    ensures var m := Recycle(l);
      && (!(l.place.Writing? && l.place.next >= |l.batch|) ==> m == l)
      && (l.place.Writing? && l.place.next >= |l.batch| ==>
           && m.accepted == l.accepted && m.full == l.full && m.current == l.current && m.dropping == [] &&
               m.file == l.file
           && Unwritten(l) == [] && Unwritten(m) == [] && m.fates == l.fates + Drops(l.dropping))
  {
    hide Drops;
  }

  lemma RecycleConserved(l: Log, m: Log)
    requires Conserved(l)
    requires m.accepted == l.accepted && m.full == l.full && m.current == l.current && m.dropping == [] &&
        m.file == l.file
    requires Unwritten(l) == [] && Unwritten(m) == [] && m.fates == l.fates + Drops(l.dropping)
    ensures Conserved(m)
  {
    hide *;
    ConservedIs(l);
    ConservedIs(m);
    DropsFates(l.fates, l.dropping);
    Lists.ConcatOne<byte>([]);
    Lists.Empty(DataOf(l.fates));
    Lists.Empty(DataOf(m.fates));
  }

  lemma DoInv(l: Log, x: Step)
    requires Inv(l)
    ensures Inv(Do(l, x))
  {
    hide Inv, Append, Swap, Trim, WriteNext, Recycle;
    match x
    case Line(line) => AppendInv(l, line);
    case TakeLock => EnterInv(l);
    case WakeUp => if l.place == Waiting { SwapInv(l); }
    case Cut(note) => TrimInv(l, note);
    case WriteOne => WriteInv(l);
    case Finish => RecycleInv(l);
    case Quit => StopInv(l);
  }

  lemma EnterInv(l: Log)
    requires Inv(l)
    ensures Inv(Enter(l))
  {
    if l.place == Top && l.running && l.full != [] { SwapInv(l); }
    hide Lists.Concat, DataOf, FileOf, Swap;
  }

  lemma StopInv(l: Log)
    requires Inv(l)
    ensures Inv(Stop(l))
  {
    hide Lists.Concat, DataOf, FileOf;
  }

  /** Under every interleaving. */
  lemma {:induction false} AlwaysInv(xs: seq<Step>)
    ensures Inv(DoAll(xs))
    decreases |xs|
  {
    hide Inv, Do;
    if xs == [] {
      StartInv();
    } else {
      AlwaysInv(xs[..|xs| - 1]);
      DoInv(DoAll(xs[..|xs| - 1]), xs[|xs| - 1]);
    }
  }

  lemma StartInv()
    ensures Inv(START)
  {}

  // ---------------------------------------------------------------- what a run guarantees

  /** The assertions at the start of the backend's loop never fail. */
  lemma SparesReady(xs: seq<Step>)
    ensures var l := DoAll(xs);
      && l.current.Buffer?
      && (l.place == Top ==> l.new1 == Buffer([]) && l.new2 == Buffer([]) && l.batch == [])
      && (l.place == Swapped ==> l.batch != [])
  {
    AlwaysInv(xs);
    hide DoAll, Conserved;
  }

  /** The lines that fit a buffer, in the order the lock was taken. */
  function Lines(xs: seq<Step>): Bytes
    decreases |xs|
  {
    if xs == [] then []
    else
      var x := xs[|xs| - 1];
      Lines(xs[..|xs| - 1]) + if x.Line? && |x.line| < CAPACITY then x.line else []
  }

  lemma {:induction false} AcceptedLines(xs: seq<Step>)
    ensures DoAll(xs).accepted == Lines(xs)
    decreases |xs|
  {
    if xs != [] {
      AcceptedLines(xs[..|xs| - 1]);
      AcceptedStep(DoAll(xs[..|xs| - 1]), xs[|xs| - 1]);
      hide Do;
    }
  }

  lemma AcceptedStep(l: Log, x: Step)
    ensures Do(l, x).accepted == l.accepted + if x.Line? && |x.line| < CAPACITY then x.line else []
  {
    Lists.Empty(l.accepted);
    hide Drops;
  }

  ghost predicate AllWritten(fates: seq<Fate>) {
    forall i :: 0 <= i < |fates| ==> fates[i].Written?
  }

  lemma {:induction false} WrittenIsFile(fates: seq<Fate>)
    requires AllWritten(fates)
    ensures FileOf(fates) == DataOf(fates)
    decreases |fates|
  {
    if fates != [] { WrittenIsFile(fates[..|fates| - 1]); }
  }

  /** No batch of the run exceeds 25 buffers. */
  ghost predicate SmallBatches(xs: seq<Step>) {
    forall n :: 0 <= n < |xs| && DoAll(xs[..n]).place == Swapped ==> |DoAll(xs[..n]).batch| <= 25
  }

  lemma {:induction false} SmallAllWritten(xs: seq<Step>)
    requires SmallBatches(xs)
    ensures AllWritten(DoAll(xs).fates) && DoAll(xs).dropping == []
    decreases |xs|
  {
    hide DoAll, Do;
    DoAllIs(xs);
    if xs != [] {
      var n := |xs| - 1;
      assert SmallBatches(xs[..n]) by {
        forall m | 0 <= m < n && DoAll(xs[..n][..m]).place == Swapped ensures |DoAll(xs[..n][..m]).batch| <= 25 {
          assert xs[..n][..m] == xs[..m];
        }
      }
      SmallAllWritten(xs[..n]);
      AllWrittenStep(DoAll(xs[..n]), xs[n]);
    }
  }

  lemma DoAllIs(xs: seq<Step>)
    ensures DoAll(xs) == if xs == [] then START else Do(DoAll(xs[..|xs| - 1]), xs[|xs| - 1])
  {
    hide Do;
  }

  lemma AllWrittenStep(l: Log, x: Step)
    requires AllWritten(l.fates) && l.dropping == [] && (l.place == Swapped ==> |l.batch| <= 25)
    ensures AllWritten(Do(l, x).fates) && Do(l, x).dropping == []
  {
    Lists.Empty(l.fates);
  }

  /** As long as no batch exceeds 25 buffers, the file, what the backend still has to write, the full
      buffers and the current one hold together every fitting line, in lock order: nothing is lost,
      repeated or reordered, under every interleaving. */
  lemma NothingLost(xs: seq<Step>)
    requires SmallBatches(xs)
    ensures var l := DoAll(xs);
        l.file + Lists.Concat(Unwritten(l)) + Lists.Concat(l.full) + DataIn(l.current) == Lines(xs)
  {
    AlwaysInv(xs);
    AcceptedLines(xs);
    SmallAllWritten(xs);
    var l := DoAll(xs);
    WrittenIsFile(l.fates);
    hide *;
    InvIs(l);
    ConservedIs(l);
    Lists.ConcatOne<byte>([]);
    Lists.Empty(DataOf(l.fates) + Lists.Concat(Unwritten(l)));
  }

  // ---------------------------------------------------------------- stopping

  /** Whether the step swaps the full buffers out. */
  predicate Swaps(l: Log, x: Step) {
    (x == TakeLock && l.place == Top && l.running && l.full != []) || (x == WakeUp && l.place == Waiting)
  }

  predicate Fits(x: Step) {
    x.Line? && 0 < |x.line| < CAPACITY
  }

  /** The fitting lines since the last swap. */
  function SinceSwap(xs: seq<Step>): Bytes
    decreases |xs|
  {
    if xs == [] || Swaps(DoAll(xs[..|xs| - 1]), xs[|xs| - 1]) then []
    else SinceSwap(xs[..|xs| - 1]) + if Fits(xs[|xs| - 1]) then xs[|xs| - 1].line else []
  }

  /** They are what the full buffers and the current one hold. */
  lemma {:induction false} CollectedIs(xs: seq<Step>)
    ensures Lists.Concat(DoAll(xs).full) + DataIn(DoAll(xs).current) == SinceSwap(xs)
    decreases |xs|
  {
    hide DoAll, Do, Swaps, Fits, Lists.Concat;
    DoAllIs(xs);
    if xs == [] {
      Lists.ConcatOne<byte>([]);
    } else {
      var n := |xs| - 1;
      CollectedIs(xs[..n]);
      AlwaysInv(xs[..n]);
      CollectedStep(DoAll(xs[..n]), xs[n]);
    }
  }

  lemma CollectedStep(l: Log, x: Step)
    requires Inv(l)
    ensures Lists.Concat(Do(l, x).full) + DataIn(Do(l, x).current) ==
      if Swaps(l, x) then []
      else Lists.Concat(l.full) + DataIn(l.current) + if Fits(x) then x.line else []
  {
    var m := Do(l, x);
    if x.Line? {
      assert Supplied(l) by { hide Supplied, Conserved; }
      AppendIs(l, x.line);
      var more := if |x.line| < CAPACITY then x.line else [];
      assert more == if Fits(x) then x.line else [];
      hide *;
      Lists.Associative(Lists.Concat(l.full), DataIn(l.current), more);
      Lists.ConcatAppend(l.full, [DataIn(l.current)]);
      Lists.ConcatOne(DataIn(l.current));
    } else if Swaps(l, x) {
      Lists.ConcatOne<byte>([]);
      hide Lists.Concat, Conserved;
    } else {
      Lists.Empty(Lists.Concat(l.full) + DataIn(l.current));
      hide Inv, Lists.Concat, Drops;
    }
  }

  /** A line that fits and is not empty came after the last swap. */
  ghost predicate LateLine(xs: seq<Step>) {
    exists n :: 0 <= n < |xs| && LateAt(xs, n)
  }

  ghost predicate LateAt(xs: seq<Step>, n: nat)
    requires n < |xs|
  {
    Fits(xs[n]) && forall m :: n < m < |xs| ==> !Swaps(DoAll(xs[..m]), xs[m])
  }

  lemma {:induction false} SinceSwapIs(xs: seq<Step>)
    ensures SinceSwap(xs) != [] <==> LateLine(xs)
    decreases |xs|
  {
    hide DoAll, Swaps;
    if xs != [] {
      var n := |xs| - 1;
      var ys := xs[..n];
      SinceSwapIs(ys);
      FitsNotSwaps(DoAll(ys), xs[n]);
      hide Fits, SinceSwap;
      assert forall m :: 0 <= m < n ==> ys[..m] == xs[..m] && ys[m] == xs[m];
      assert xs[..n] == ys;
      assert forall k :: 0 <= k < n ==> (LateAt(xs, k) <==> LateAt(ys, k) && !Swaps(DoAll(ys), xs[n]));
      assert LateAt(xs, n) <==> Fits(xs[n]);
    }
  }

  lemma FitsNotSwaps(l: Log, x: Step)
    ensures !(Fits(x) && Swaps(l, x))
    ensures Fits(x) ==> x.line != []
  {}

  /** When the logger has stopped, and no batch was cut, the file lacks exactly what came after the last
      swap: it holds every fitting line if and only if no line that is not empty came after that. */
  lemma StoppedFile(xs: seq<Step>)
    requires SmallBatches(xs) && DoAll(xs).place == Stopped
    ensures DoAll(xs).file + SinceSwap(xs) == Lines(xs)
    ensures DoAll(xs).file == Lines(xs) <==> !LateLine(xs)
  {
    NothingLost(xs);
    CollectedIs(xs);
    SinceSwapIs(xs);
    AlwaysInv(xs);
    var l := DoAll(xs);
    assert Unwritten(l) == [] by { hide Conserved, DoAll; }
    hide *;
    assert Lists.Concat<byte>([]) == [] by { Lists.ConcatOne<byte>([]); }
    Lists.Empty(l.file);
    Lists.Associative(l.file, Lists.Concat(l.full), DataIn(l.current));
  }

  // ---------------------------------------------------------------- one turn of the backend

  function DoFrom(l: Log, xs: seq<Step>): Log
    decreases |xs|
  {
    if xs == [] then l else DoFrom(Do(l, xs[0]), xs[1..])
  }

  /** What a turn adds to the file: the whole batch, or, when it holds more than 25 buffers, the note and the
      first two of them. */
  function TurnText(batch: seq<Bytes>, note: Bytes): Bytes {
    if |batch| <= 25 then Lists.Concat(batch) else note + (batch[0] + batch[1])
  }

  /** In the middle of a turn after which the file will be `end`. */
  ghost predicate Midway(l: Log, end: Bytes) {
    match l.place
    case Writing(n) => n <= |l.batch| && l.file + Lists.Concat(Unwritten(l)) == end
    case Top => l.file == end
    case _ => false
  }

  lemma CutMidway(l: Log, note: Bytes)
    requires l.place == Swapped
    ensures Midway(Do(l, Cut(note)), l.file + TurnText(l.batch, note))
  {
    var m, b := Do(l, Cut(note)), l.batch;
    assert m.batch[0..] == m.batch;
    if |b| > 25 {
      assert b[..2] == [b[0]] + [b[1]];
      Lists.ConcatAppend([b[0]], [b[1]]);
      Lists.ConcatOne(b[0]);
      Lists.ConcatOne(b[1]);
      Lists.Associative(l.file, note, b[0] + b[1]);
    }
    hide Lists.Concat;
  }

  lemma MidwayStep(l: Log, x: Step, end: Bytes)
    requires Midway(l, end) && !x.TakeLock?
    ensures Midway(Do(l, x), end)
  {
    if x.WriteOne? && l.place.Writing? && l.place.next < |l.batch| {
      var n := l.place.next;
      Lists.SplitAt(l.batch, n);
      Lists.ConcatAppend([l.batch[n]], l.batch[n + 1..]);
      Lists.ConcatOne(l.batch[n]);
      Lists.Associative(l.file, l.batch[n], Lists.Concat(l.batch[n + 1..]));
    }
    if x.Finish? && l.place.Writing? && l.place.next >= |l.batch| {
      Lists.Empty(l.file);
      assert l.batch[|l.batch|..] == [];
    }
    hide Lists.Concat, Refill, Drops, Put;
  }

  /** Whatever other threads do meanwhile: when the backend has finished with a batch, the file has grown by
      exactly the whole of it, or by the note and the first two of more than 25 buffers. */
  lemma {:induction false} TurnWrites(l: Log, note: Bytes, xs: seq<Step>)
    requires l.place == Swapped && forall i :: 0 <= i < |xs| ==> !xs[i].TakeLock?
    ensures var r := DoFrom(Do(l, Cut(note)), xs);
      r.place == Top ==> r.file == l.file + if |l.batch| <= 25 then Lists.Concat(l.batch)
                                            else note + (l.batch[0] + l.batch[1])
  {
    hide Midway, Do, DoFrom;
    CutMidway(l, note);
    var end := l.file + TurnText(l.batch, note);
    MidwaySteps(Do(l, Cut(note)), xs, end);
    assert Midway(DoFrom(Do(l, Cut(note)), xs), end);
    MidwayTop(DoFrom(Do(l, Cut(note)), xs), end);
  }

  lemma MidwayTop(l: Log, end: Bytes)
    requires Midway(l, end)
    ensures l.place == Top ==> l.file == end
  {}

  lemma {:induction false} MidwaySteps(l: Log, xs: seq<Step>, end: Bytes)
    requires Midway(l, end) && forall i :: 0 <= i < |xs| ==> !xs[i].TakeLock?
    ensures Midway(DoFrom(l, xs), end)
    decreases |xs|
  {
    hide Midway, Do;
    if xs != [] {
      MidwayStep(l, xs[0], end);
      MidwaySteps(Do(l, xs[0]), xs[1..], end);
    }
  }

  /** A buffer is handed to the backend exactly when the next line does not fit: the buffers hold 4000000
      bytes, of which the last stays free. */
  lemma HandsOverExactly(l: Log, line: Bytes)
    requires l.current.Buffer?
    ensures var m := Append(l, line);
      if |l.current.data| + |line| < 4000000 then m.full == l.full && m.current == Buffer(l.current.data + line)
      else m.full == l.full + [l.current.data] && m.current.Buffer?
  {}

  function Held(p: Ptr): nat {
    if p.Buffer? then 1 else 0
  }

  /** The buffers there are, whoever holds them. */
  function Buffers(l: Log): nat {
    Held(l.current) + Held(l.spare) + |l.full| + Held(l.new1) + Held(l.new2) + |l.batch|
  }

  /** What a step allocates and frees: a line that finds neither room nor a spare buffer allocates one; cutting a
      batch frees all but two; after a batch the backend keeps what it gave away and frees the rest. */
  predicate Balanced(l: Log, m: Log, x: Step) {
    match x
    case Line(line) => Buffers(m) == Buffers(l) + if |l.full| < |m.full| && l.spare.Null? then 1 else 0
    case Cut(note) => Buffers(m) == Buffers(l) - if l.place == Swapped && |l.batch| > 25 then |l.batch| - 2 else 0
    case Finish =>
      if l.place.Writing? && l.place.next >= |l.batch|
      then m.new1.Buffer? && m.new2.Buffer? && m.batch == []
           && Held(m.current) + Held(m.spare) + |m.full| == Held(l.current) + Held(l.spare) + |l.full|
      else m == l
    case _ => Buffers(m) == Buffers(l)
  }

  /** No buffer is lost or used twice, whatever the interleaving. */
  lemma BuffersBalanced(xs: seq<Step>, x: Step)
    ensures Balanced(DoAll(xs), Do(DoAll(xs), x), x)
  {
    AlwaysInv(xs);
    InvIs(DoAll(xs));
    var l := DoAll(xs);
    hide DoAll, Conserved, Inv, DataOf, FileOf, Drops, Put, Balanced, Do, Supplied;
    match x
    case Line(line) => BalancedLine(l, line);
    case TakeLock => BalancedSwap(l, x);
    case WakeUp => BalancedSwap(l, x);
    case Finish => BalancedFinish(l);
    case _ => BalancedOther(l, x);
  }

  lemma BalancedLine(l: Log, line: Bytes)
    requires Supplied(l)
    ensures Balanced(l, Do(l, Line(line)), Line(line))
  {
    hide Put;
  }

  lemma BalancedSwap(l: Log, x: Step)
    requires Supplied(l) && (x.TakeLock? || x.WakeUp?)
    ensures Balanced(l, Do(l, x), x)
  {}

  lemma BalancedFinish(l: Log)
    requires Supplied(l)
    ensures Balanced(l, Do(l, Finish), Finish)
  {
    hide Drops;
  }

  lemma BalancedOther(l: Log, x: Step)
    requires Supplied(l) && (x.Cut? || x.WriteOne? || x.Quit?)
    ensures Balanced(l, Do(l, x), x)
  {}

  /** The backend that takes the lock at the top of its loop waits exactly when nothing is full, and otherwise
      takes all there is. */
  lemma WaitsExactly(l: Log)
    requires l.place == Top && l.running
    ensures var m := Do(l, TakeLock);
      if l.full == [] then m == l.(place := Waiting) else m.place == Swapped && m.batch == l.full + [DataIn(l.current)]
  {}

  /** So a line appended before the logger is stopped may never reach the file. */
  lemma StopMayLose()
    ensures var l := DoAll([Line([1]), Quit, TakeLock]); l.place == Stopped && l.file == [] && l.accepted == [1]
  {
    var xs := [Line([1]), Quit, TakeLock];
    assert xs[..2] == [Line([1]), Quit] && xs[..2][..1] == [Line([1])] && xs[..2][..1][..0] == [];
    assert DoAll([]) == START;
    DoAllIs(xs[..2][..1]);
    DoAllIs(xs[..2]);
    DoAllIs(xs);
  }
}
