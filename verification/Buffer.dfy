/** The growable byte buffer: a vector with a read and a write position, refined to the byte sequence
    between them. */
module Buffer {
  import opened Serial
  import Lists

  const CHEAP_PREPEND: nat := 8
  const INITIAL_SIZE: nat := 1024

  class Buffer {
    var data: seq<byte>
    var readerIndex: nat
    var writerIndex: nat

    ghost predicate Valid()
      reads this
    {
      readerIndex <= writerIndex <= |data| && CHEAP_PREPEND <= |data|
    }

    /** What was appended and not yet retrieved. */
    function Contents(): (r: seq<byte>)
      reads this
      requires Valid()
      ensures |r| == writerIndex - readerIndex
    {
      data[readerIndex..writerIndex]
    }

    constructor (initialSize: nat)
      ensures Valid() && Contents() == [] && |data| - writerIndex == initialSize && readerIndex == CHEAP_PREPEND
    {
      data := seq(CHEAP_PREPEND + initialSize, i => 0);
      readerIndex, writerIndex := CHEAP_PREPEND, CHEAP_PREPEND;
    }

    function ReadableBytes(): nat
      reads this
      requires Valid()
    {
      writerIndex - readerIndex
    }

    function WritableBytes(): nat
      reads this
      requires Valid()
    {
      |data| - writerIndex
    }

    // -------------------------------------------------------------- reading

    method Retrieve(len: nat)
      requires Valid() && len <= ReadableBytes()
      modifies this
      ensures Valid() && Contents() == old(Contents())[len..] && data == old(data)
    {
      if len < ReadableBytes() {
        readerIndex := readerIndex + len;
      } else {
        RetrieveAll();
      }
    }

    method RetrieveAll()
      requires Valid()
      modifies this
      ensures Valid() && Contents() == [] && data == old(data) && readerIndex == CHEAP_PREPEND
    {
      readerIndex, writerIndex := CHEAP_PREPEND, CHEAP_PREPEND;
    }

    method RetrieveAsString(len: nat) returns (s: seq<byte>)
      requires Valid() && len <= ReadableBytes()
      modifies this
      ensures Valid() && old(Contents()) == s + Contents() && |s| == len
    {
      s := data[readerIndex..readerIndex + len];
      assert Contents() == s + Contents()[len..];
      Retrieve(len);
    }

    // -------------------------------------------------------------- writing

    /** Grows the vector, or moves the readable bytes to the front when the space is there already. */
    method MakeSpace(len: nat)
      requires Valid() && WritableBytes() < len
      modifies this
      ensures Valid() && Contents() == old(Contents()) && WritableBytes() >= len
      ensures |data| == if old(WritableBytes() + readerIndex) < len + CHEAP_PREPEND then old(writerIndex) + len
          else old(|data|)
      ensures readerIndex == old(readerIndex) || readerIndex == CHEAP_PREPEND
    {
      if WritableBytes() + readerIndex < len + CHEAP_PREPEND {
        data := data + seq(writerIndex + len - |data|, i => 0);
      } else {
        MoveToFront();
      }
    }

    /** Copies the readable bytes to lower places, from the front on. */
    method MoveToFront()
      requires Valid() && CHEAP_PREPEND < readerIndex
      modifies this
      ensures Valid() && Contents() == old(Contents()) && |data| == old(|data|)
      ensures readerIndex == CHEAP_PREPEND && writerIndex == CHEAP_PREPEND + old(ReadableBytes())
    {
      var readable := ReadableBytes();
      ghost var before := data;
      var i := 0;
      while i < readable
        invariant 0 <= i <= readable && Valid() && |data| == |before|
        invariant readerIndex == old(readerIndex) && writerIndex == old(writerIndex)
        invariant data[CHEAP_PREPEND..CHEAP_PREPEND + i] == before[readerIndex..readerIndex + i]
        invariant data[readerIndex + i..] == before[readerIndex + i..]
      {
        Lists.SliceNext(data, readerIndex, i);
        Lists.SliceNext(before, readerIndex, i);
        Lists.MoveOne(data, CHEAP_PREPEND, readerIndex, i);
        data := data[CHEAP_PREPEND + i := data[readerIndex + i]];
        i := i + 1;
      }
      readerIndex := CHEAP_PREPEND;
      writerIndex := readerIndex + readable;
    }

    method EnsureWritableBytes(len: nat)
      requires Valid()
      modifies this
      ensures Valid() && Contents() == old(Contents()) && WritableBytes() >= len
      ensures readerIndex == old(readerIndex) || readerIndex == CHEAP_PREPEND
      ensures old(WritableBytes()) >= len ==> data == old(data) && readerIndex == old(readerIndex)
    {
      if WritableBytes() < len { MakeSpace(len); }
    }

    method Append(bytes: seq<byte>)
      requires Valid()
      modifies this
      ensures Valid() && Contents() == old(Contents()) + bytes
      ensures readerIndex == old(readerIndex) || readerIndex == CHEAP_PREPEND
      ensures old(WritableBytes()) >= |bytes| ==>
        WritableBytes() == old(WritableBytes()) - |bytes| && readerIndex == old(readerIndex)
    {
      EnsureWritableBytes(|bytes|);
      WriteAt(bytes);
    }

    /** Copies into the writable space and counts it as written. */
    method WriteAt(bytes: seq<byte>)
      requires Valid() && |bytes| <= WritableBytes()
      modifies this
      ensures Valid() && Contents() == old(Contents()) + bytes
      ensures |data| == old(|data|) && readerIndex == old(readerIndex)
    {
      Lists.Overwrite(data, writerIndex, bytes, writerIndex + |bytes|);
      ghost var before := data;
      data := data[..writerIndex] + bytes + data[writerIndex + |bytes|..];
      Lists.Slices(data, readerIndex, writerIndex, writerIndex + |bytes|);
      assert data[readerIndex..writerIndex] == data[..writerIndex][readerIndex..] == before[readerIndex..writerIndex];
      Lists.Empty(bytes);
      writerIndex := writerIndex + |bytes|;
    }

    method Unwrite(len: nat)
      requires Valid() && len <= ReadableBytes()
      modifies this`writerIndex
      ensures Valid() && Contents() == old(Contents())[..old(ReadableBytes()) - len]
    {
      ghost var before := Contents();
      writerIndex := writerIndex - len;
      assert Contents() == before[..|before| - len];
    }

    method Prepend(bytes: seq<byte>)
      requires Valid() && |bytes| <= readerIndex
      modifies this
      ensures Valid() && Contents() == bytes + old(Contents())
    {
      readerIndex := readerIndex - |bytes|;
      Lists.Overwrite(data, readerIndex, bytes, writerIndex);
      data := data[..readerIndex] + bytes + data[readerIndex + |bytes|..];
    }

    /** Moves the contents to a new vector with `reserve` bytes to spare. */
    method Shrink(reserve: nat)
      requires Valid()
      modifies this
      ensures Valid() && Contents() == old(Contents()) && WritableBytes() >= reserve && readerIndex == CHEAP_PREPEND
    {
      var other := new Buffer(INITIAL_SIZE);
      var readable := ReadableBytes();
      other.EnsureWritableBytes(readable + reserve);
      other.Append(Contents());
      data, readerIndex, writerIndex := other.data, other.readerIndex, other.writerIndex;
    }

    /** A scattered read: what does not fit the writable space arrives in a side buffer of 65536 bytes,
        which is offered only while the writable space is smaller than it. */
    method ReadFd(incoming: seq<byte>)
      requires Valid()
      requires |incoming| <= WritableBytes() + if WritableBytes() < 65536 then 65536 else 0
      modifies this
      ensures Valid() && Contents() == old(Contents()) + incoming
    {
      var writable := WritableBytes();
      if |incoming| <= writable {
        WriteAt(incoming);
      } else {
        WriteAt(incoming[..writable]);
        Append(incoming[writable..]);
        assert incoming == incoming[..writable] + incoming[writable..];
      }
    }
  }
}
