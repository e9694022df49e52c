/** The byte buffer: readable bytes between two indices of a vector, with 8 bytes kept free in front. */
module Buffers {
  newtype byte = x: int | 0 <= x < 256

  const CHEAP_PREPEND: nat := 8
  const INITIAL_SIZE: nat := 1024
  const EXTRA_SIZE: nat := 65536

  /** How much one readv can deliver: the second area is offered only when the first is smaller than it. */
  function ReadCapacity(writable: nat): (n: nat)
    ensures n >= 65536 && n >= writable
    ensures writable < 65536 ==> n == writable + 65536
  {
    if writable < EXTRA_SIZE then writable + EXTRA_SIZE else writable
  }

  /** What a copy of len bytes from r is, with the content ending at w. */
  lemma CopyMeans(data: array<byte>, r: nat, w: nat, len: nat)
    requires r <= w <= data.Length && r + len <= data.Length
    ensures len < w - r ==> data[r..r + len] + data[r..w][len..] == data[r..w]
    ensures len == w - r ==> data[r..r + len] + [] == data[r..w]
    ensures len > w - r ==> data[r..r + len] == data[r..w] + data[w..r + len]
  {
  }

  class Buffer {
    var data: array<byte>
    var readerIdx: nat
    var writerIdx: nat

    ghost predicate Valid()
      reads this
    {
      CHEAP_PREPEND <= readerIdx <= writerIdx <= data.Length
    }

    /** The bytes waiting to be read, oldest first. */
    ghost function Contents(): seq<byte>
      reads this, data
      requires Valid()
    {
      data[readerIdx..writerIdx]
    }

    /** The requested size is not used: every buffer starts with room for INITIAL_SIZE bytes. */
    constructor (initialSize: nat := INITIAL_SIZE)
      ensures Valid() && Contents() == [] && fresh(data)
      ensures data.Length == CHEAP_PREPEND + INITIAL_SIZE
    {
      data := new byte[CHEAP_PREPEND + INITIAL_SIZE];
      readerIdx, writerIdx := CHEAP_PREPEND, CHEAP_PREPEND;
    }

    function ReadableBytes(): (n: nat)
      reads this, data
      requires Valid()
      ensures n == |Contents()|
    {
      writerIdx - readerIdx
    }

    function WritableBytes(): nat
      reads this
      requires Valid()
    {
      data.Length - writerIdx
    }

    function PrependableBytes(): nat
      reads this
    {
      readerIdx
    }

    method RetrieveAll()
      requires Valid()
      modifies this
      ensures Valid() && Contents() == [] && data == old(data)
    {
      readerIdx, writerIdx := CHEAP_PREPEND, CHEAP_PREPEND;
    }

    /** Takes len bytes from the front, or everything when there are not that many. */
    method Retrieve(len: nat)
      requires Valid()
      modifies this
      ensures Valid() && data == old(data)
      ensures Contents() == if len < |old(Contents())| then old(Contents())[len..] else []
    {
      if len < ReadableBytes() {
        readerIdx := readerIdx + len;
      } else {
        RetrieveAll();
      }
    }

    /** Copies len bytes from the front, however many are readable: beyond them it copies what lies behind in the vector. */
    method RetrieveAsString(len: nat) returns (res: seq<byte>)
      requires Valid() && readerIdx + len <= data.Length
      modifies this
      ensures Valid() && data == old(data) && |res| == len
      ensures len <= |old(Contents())| ==> res + Contents() == old(Contents())
      ensures len > |old(Contents())| ==>
                res == old(Contents()) + data[old(writerIdx)..old(readerIdx) + len] && Contents() == []
    {
      res := data[readerIdx..readerIdx + len];
      CopyMeans(data, readerIdx, writerIdx, len);
      Retrieve(len);
    }

    method RetrieveAllAsString() returns (res: seq<byte>)
      requires Valid()
      modifies this
      ensures Valid() && data == old(data)
      ensures res == old(Contents()) && Contents() == []
    {
      res := RetrieveAsString(ReadableBytes());
    }

    /** m_buffer.resize(size): a longer vector with the same beginning. */
    method Resize(size: nat)
      requires Valid() && size >= data.Length
      modifies this
      ensures Valid() && fresh(data) && data.Length == size
      ensures readerIdx == old(readerIdx) && writerIdx == old(writerIdx)
      ensures Contents() == old(Contents())
    {
      var bigger := new byte[size];
      forall i | 0 <= i < data.Length {
        bigger[i] := data[i];
      }
      data := bigger;
    }

    /** std::copy to the front, element by element: safe on the overlap because it moves bytes down only. */
    method Compact()
      requires Valid() && readerIdx > CHEAP_PREPEND
      modifies this, data
      ensures Valid() && data == old(data)
      ensures readerIdx == CHEAP_PREPEND && Contents() == old(Contents())
    {
      var readable := ReadableBytes();
      for i := 0 to readable
        invariant data == old(data) && readerIdx == old(readerIdx) && writerIdx == old(writerIdx) && Valid()
        invariant data[CHEAP_PREPEND..CHEAP_PREPEND + i] == old(Contents())[..i]
        invariant data[readerIdx + i..writerIdx] == old(Contents())[i..]
      {
        assert data[readerIdx + i] == old(Contents())[i];
        data[CHEAP_PREPEND + i] := data[readerIdx + i];
      }
      readerIdx := CHEAP_PREPEND;
      writerIdx := CHEAP_PREPEND + readable;
    }

    /** Called when the free space behind the content is short: the compaction branch then has readerIdx > 8. */
    method MakeSpace(len: nat)
      requires Valid() && WritableBytes() < len
      modifies this, data
      ensures Valid() && (data == old(data) || fresh(data))
      ensures WritableBytes() >= len && Contents() == old(Contents())
    {
      if WritableBytes() + PrependableBytes() < len + CHEAP_PREPEND {
        Resize(writerIdx + len);
      } else {
        Compact();
      }
    }

    method EnsureWritableBytes(len: nat)
      requires Valid()
      modifies this, data
      ensures Valid() && (data == old(data) || fresh(data))
      ensures WritableBytes() >= len && Contents() == old(Contents())
    {
      if WritableBytes() < len {
        MakeSpace(len);
      }
    }

    /** Stores bytes behind the content, where they do not count yet. */
    method Fill(bytes: seq<byte>)
      requires Valid() && |bytes| <= WritableBytes()
      modifies data
      ensures Valid() && Contents() == old(Contents())
      ensures data[writerIdx..writerIdx + |bytes|] == bytes
    {
      forall i | 0 <= i < |bytes| {
        data[writerIdx + i] := bytes[i];
      }
    }

    /** All free space is used: m_writerIdx moves to the end of the vector. */
    method FillUp(bytes: seq<byte>)
      requires Valid() && |bytes| == WritableBytes()
      modifies this, data
      ensures Valid() && data == old(data)
      ensures Contents() == old(Contents()) + bytes
    {
      Fill(bytes);
      assert data[writerIdx..writerIdx + |bytes|] == data[writerIdx..data.Length];
      writerIdx := data.Length;
    }

    method HasWritten(len: nat)
      requires Valid() && len <= WritableBytes()
      modifies this
      ensures Valid() && data == old(data)
      ensures Contents() == old(Contents()) + data[old(writerIdx)..old(writerIdx) + len]
    {
      writerIdx := writerIdx + len;
    }

    method Append(bytes: seq<byte>)
      requires Valid()
      modifies this, data
      ensures Valid() && (data == old(data) || fresh(data))
      ensures Contents() == old(Contents()) + bytes
    {
      EnsureWritableBytes(|bytes|);
      Fill(bytes);
      HasWritten(|bytes|);
    }

    /** The free space is filled; what did not fit is appended from the area on the stack. */
    method ReadOver(arrived: seq<byte>, writable: nat)
      requires Valid() && writable == WritableBytes() <= |arrived|
      modifies this, data
      ensures Valid() && (data == old(data) || fresh(data))
      ensures Contents() == old(Contents()) + arrived
    {
      assert arrived == arrived[..writable] + arrived[writable..];
      FillUp(arrived[..writable]);
      Append(arrived[writable..]);
    }

    /** readFd: the kernel spreads what arrived over the free space and a 64 kB area on the stack. */
    method ReadFd(arrived: seq<byte>) returns (n: nat)
      requires Valid() && |arrived| <= ReadCapacity(WritableBytes())
      modifies this, data
      ensures Valid() && (data == old(data) || fresh(data))
      ensures n == |arrived| && Contents() == old(Contents()) + arrived
    {
      var writable := WritableBytes();
      n := |arrived|;
      if n < writable {
        Fill(arrived);
        HasWritten(n);
      } else {
        ReadOver(arrived, writable);
      }
    }
  }
}
