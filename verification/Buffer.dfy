/** Buffer.cpp: a growing byte buffer with a read end and a write end.

    Everything the session relies on: what is readable behaves as a queue, and
    bytes are moved or the storage replaced only when the free space behind the
    write end is too small. */
module Buffers {
  import opened Bytes
  import opened Transactions

  const CHEAP_PREPEND := 8
  const INITIAL_SIZE := 8 * 1024

  class Buffer {
    var buffer: array<byte>
    var readerIndex: nat
    var writerIndex: nat

    ghost predicate Valid()
      reads this
    {
      CHEAP_PREPEND <= readerIndex <= writerIndex <= buffer.Length
    }

    // The readable bytes.
    ghost function Contents(): (s: seq<byte>)
      requires Valid()
      reads this, buffer
    {
      buffer[readerIndex..writerIndex]
    }

    constructor ()
      ensures Valid() && fresh(buffer) && Contents() == []
      ensures buffer.Length == CHEAP_PREPEND + INITIAL_SIZE && readerIndex == CHEAP_PREPEND
    {
      buffer := new byte[CHEAP_PREPEND + INITIAL_SIZE](_ => 0);
      readerIndex, writerIndex := CHEAP_PREPEND, CHEAP_PREPEND;
    }

    function ReadableBytes(): (n: nat)
      requires Valid()
      reads this, buffer
      ensures n == |Contents()|
    {
      writerIndex - readerIndex
    }

    function WritableBytes(): (n: nat)
      requires Valid()
      reads this
    {
      buffer.Length - writerIndex
    }

    // Free space on both sides, less the reserved front.
    predicate HasCapacity(len: nat)
      requires Valid()
      reads this
    {
      WritableBytes() + readerIndex >= len + CHEAP_PREPEND
    }

    // peek: the first len readable bytes
    function Peek(len: nat): (s: seq<byte>)
      requires Valid() && len <= writerIndex - readerIndex
      reads this, buffer
      ensures s == Contents()[..len]
    {
      buffer[readerIndex..readerIndex + len]
    }

    method RetrieveAll()
      requires Valid()
      modifies this`readerIndex, this`writerIndex
      ensures Valid() && Contents() == [] && readerIndex == writerIndex == CHEAP_PREPEND
    {
      readerIndex := CHEAP_PREPEND;
      writerIndex := CHEAP_PREPEND;
    }

    // Emptying the buffer also resets it.
    method Retrieve(len: nat)
      requires Valid() && len <= ReadableBytes()
      modifies this`readerIndex, this`writerIndex
      ensures Valid() && Contents() == old(Contents())[len..]
      ensures if len < old(ReadableBytes()) then readerIndex == old(readerIndex) + len && writerIndex == old(writerIndex)
              else readerIndex == writerIndex == CHEAP_PREPEND
    {
      if len < ReadableBytes() {
        readerIndex := readerIndex + len;
      } else {
        RetrieveAll();
      }
    }

    // std::copy to the front; the ranges may overlap.
    method Remove()
      requires Valid() && CHEAP_PREPEND < readerIndex
      modifies this`readerIndex, this`writerIndex, buffer
      ensures Valid() && Contents() == old(Contents()) && readerIndex == CHEAP_PREPEND
    {
      var readable := ReadableBytes();
      ghost var all := buffer[..];
      for i := 0 to readable
        invariant readerIndex == old(readerIndex) && writerIndex == old(writerIndex)
        invariant buffer[CHEAP_PREPEND..CHEAP_PREPEND + i] == all[readerIndex..readerIndex + i]
        invariant buffer[readerIndex + i..] == all[readerIndex + i..]
      {
        assert buffer[readerIndex + i] == buffer[readerIndex + i..][0] == all[readerIndex + i];
        buffer[CHEAP_PREPEND + i] := buffer[readerIndex + i];
        assert all[readerIndex..readerIndex + i + 1] == all[readerIndex..readerIndex + i] + [all[readerIndex + i]];
        assert buffer[CHEAP_PREPEND..CHEAP_PREPEND + i + 1] == buffer[CHEAP_PREPEND..CHEAP_PREPEND + i] + [all[readerIndex + i]];
      }
      readerIndex := CHEAP_PREPEND;
      writerIndex := readerIndex + readable;
    }

    // vector::resize to a larger size: new storage, the rest zero.
    method Resize(size: nat)
      requires Valid() && buffer.Length <= size
      modifies this`buffer
      ensures Valid() && fresh(buffer) && buffer.Length == size && Contents() == old(Contents())
    {
      var larger := new byte[size](_ => 0);
      MemCpy(larger, 0, buffer[..]);
      assert larger[..][..buffer.Length] == buffer[..];
      buffer := larger;
    }

    method MakeSpace(len: nat)
      requires Valid() && WritableBytes() < len
      modifies this`readerIndex, this`writerIndex, this`buffer, buffer
      ensures Valid() && Contents() == old(Contents()) && len <= WritableBytes()
      ensures if old(HasCapacity(len)) then buffer == old(buffer) else fresh(buffer)
    {
      if HasCapacity(len) {
        Remove();
      } else {
        Resize(writerIndex + len);
      }
    }

    // With room behind the write end nothing moves.
    method EnsureWritableBytes(len: nat)
      requires Valid()
      modifies this`readerIndex, this`writerIndex, this`buffer, buffer
      ensures Valid() && Contents() == old(Contents()) && len <= WritableBytes()
      ensures len <= old(WritableBytes()) ==>
                readerIndex == old(readerIndex) && writerIndex == old(writerIndex) && buffer == old(buffer) && buffer[..] == old(buffer[..])
      ensures len <= old(WritableBytes()) || old(HasCapacity(len)) ==> buffer == old(buffer)
      ensures buffer == old(buffer) || fresh(buffer)
    {
      if WritableBytes() < len {
        MakeSpace(len);
      }
    }

    // Bytes written behind the write end (by the socket) become readable.
    method HasWritten(len: nat)
      requires Valid() && len <= WritableBytes()
      modifies this`writerIndex
      ensures Valid() && writerIndex == old(writerIndex) + len
      ensures Contents() == old(Contents()) + old(buffer[writerIndex..writerIndex + len])
    {
      writerIndex := writerIndex + len;
    }

    // The socket fills the space behind the write end.
    method Fill(data: seq<byte>)
      requires Valid() && |data| <= WritableBytes()
      modifies buffer
      ensures Valid() && Contents() == old(Contents()) && buffer[writerIndex..writerIndex + |data|] == data
      ensures buffer[..writerIndex] == old(buffer[..writerIndex])
    {
      MemCpy(buffer, writerIndex, data);
      Spliced(old(buffer[..]), buffer[..], writerIndex, data);
    }

    method Append(data: seq<byte>)
      requires Valid()
      modifies this`readerIndex, this`writerIndex, this`buffer, buffer
      ensures Valid() && Contents() == old(Contents()) + data
      ensures |data| <= old(WritableBytes()) ==>
                buffer == old(buffer) && readerIndex == old(readerIndex) && writerIndex == old(writerIndex) + |data|
                && buffer[..old(writerIndex)] == old(buffer[..writerIndex])
      ensures buffer == old(buffer) || fresh(buffer)
    {
      EnsureWritableBytes(|data|);
      Fill(data);
      HasWritten(|data|);
    }
  }

  lemma Spliced(before: seq<byte>, after: seq<byte>, at: nat, data: seq<byte>)
    requires at + |data| <= |before|
    requires after == before[..at] + data + before[at + |data|..]
    ensures after[..at] == before[..at] && after[at..at + |data|] == data
    ensures forall k :: 0 <= k < at ==> after[k] == before[k]
  {
  }
}
