/** The log writer as the event loop sees it: entries go in whole, and the file and the ring hold them in order. */
module AofWriters {
  import opened Bytes
  import opened Modular
  import opened Operations
  import opened AofCodec
  import opened AofRing
  import Durability

  /** `data` copied into the ring at position `h`, in one fragment or two. */
  ghost predicate CopiedAt(before: seq<u8>, after: seq<u8>, h: nat, data: seq<u8>)
    requires 0 < |before|
  {
    var offset := h % |before|;
    && |after| == |before|
    && forall k :: 0 <= k < |before| ==>
         after[k] == if offset <= k < offset + |data| then data[k - offset]
                     else if k + |before| < offset + |data| then data[k + |before| - offset]
                     else before[k]
  }

  /** Byte `j` lands where position `h + j` is read. */
  lemma CopyLands(before: seq<u8>, after: seq<u8>, h: nat, data: seq<u8>, j: nat)
    requires 0 < |before| && |data| <= |before| && CopiedAt(before, after, h, data) && j < |data|
    ensures |after| == |before| && after[(h + j) % |before|] == data[j]
  {
    TargetInRange(h, j, |before|);
  }

  /** A cell that holds a pending byte is not touched. */
  lemma CopySpares(before: seq<u8>, after: seq<u8>, h: nat, data: seq<u8>, k: nat)
    requires 0 < |before| && CopiedAt(before, after, h, data)
    requires k < h && h + |data| <= k + |before|
    ensures after[k % |before|] == before[k % |before|]
  {
    var size, offset, c := |before|, h % |before|, k % |before|;
    if offset <= c < offset + |data| {
      TargetInRange(h, c - offset, size);
      CellsDiffer(k, h + (c - offset), size);
    } else if c + size < offset + |data| {
      TargetInRange(h, c + size - offset, size);
      CellsDiffer(k, h + (c + size - offset), size);
    }
  }

  lemma RingBytesSplit(buf: seq<u8>, from: nat, mid: nat, to: nat)
    requires 0 < |buf| && from <= mid <= to
    ensures RingBytes(buf, from, to) == RingBytes(buf, from, mid) + RingBytes(buf, mid, to)
  {
    var l, r := RingBytes(buf, from, to), RingBytes(buf, mid, to);
    forall i | 0 <= i < |r|
      ensures l[mid - from + i] == r[i]
    {
      assert from + (mid - from + i) == mid + i;
    }
  }

  lemma PendingSpared(before: seq<u8>, after: seq<u8>, tail: nat, head: nat, data: seq<u8>)
    requires 0 < |before| == |after| && tail <= head && head + |data| <= tail + |before|
    requires CopiedAt(before, after, head, data)
    ensures RingBytes(after, tail, head) == RingBytes(before, tail, head)
  {
    hide CopiedAt;
    forall i | 0 <= i < head - tail
      ensures RingBytes(after, tail, head)[i] == RingBytes(before, tail, head)[i]
    {
      CopySpares(before, after, head, data, tail + i);
    }
  }

  lemma DataLanded(before: seq<u8>, after: seq<u8>, head: nat, data: seq<u8>)
    requires 0 < |before| == |after| && |data| <= |before| && CopiedAt(before, after, head, data)
    ensures RingBytes(after, head, head + |data|) == data
  {
    hide CopiedAt;
    forall i | 0 <= i < |data|
      ensures RingBytes(after, head, head + |data|)[i] == data[i]
    {
      CopyLands(before, after, head, data, i);
    }
  }

  lemma RingBytesAfterCopy(before: seq<u8>, after: seq<u8>, tail: nat, head: nat, data: seq<u8>)
    requires 0 < |before| && tail <= head && head + |data| <= tail + |before|
    requires CopiedAt(before, after, head, data)
    ensures RingBytes(after, tail, head + |data|) == RingBytes(before, tail, head) + data
  {
    PendingSpared(before, after, tail, head, data);
    DataLanded(before, after, head, data);
    hide CopiedAt, RingBytes;
    RingBytesSplit(after, tail, head, head + |data|);
  }

  /** The one or two fragments that a flush writes are the pending bytes. */
  lemma Fragments(buf: seq<u8>, tail: nat, head: nat)
    requires 0 < |buf| && tail <= head <= tail + |buf|
    ensures RingBytes(buf, tail, head)
         == (var offset, pending := tail % |buf|, head - tail;
             if offset + pending <= |buf| then buf[offset..offset + pending]
             else buf[offset..] + buf[..pending - (|buf| - offset)])
  {
    var bytes := RingBytes(buf, tail, head);
    forall i | 0 <= i < |bytes|
      ensures i < |buf| && bytes[i] == buf[Target(tail, i, |buf|)]
    {
      TargetInRange(tail, i, |buf|);
    }
  }

  class AofWriter {
    const mode: Durability.FsyncMode
    const buf: array<u8>
    var head: nat
    var tail: nat
    /** What has been written to the file descriptor. */
    var file: seq<u8>

    ghost predicate Valid()
      reads this
    {
      && 32 <= buf.Length
      && tail <= head <= tail + buf.Length
      && (mode == Durability.Always ==> tail == head)
    }

    /** Every byte appended so far, written or still in the ring. */
    ghost function Log(): seq<u8>
      requires Valid()
      reads this, buf
    {
      file + RingBytes(buf[..], tail, head)
    }

    constructor (mode: Durability.FsyncMode, size: nat)
      requires 32 <= size
      ensures Valid() && fresh(buf) && Log() == [] && this.mode == mode
    {
      this.mode := mode;
      buf := new u8[size](_ => 0);
      head, tail, file := 0, 0, [];
    }

    /** `flush_once` and `flush_sync`: writes what is pending, in one or two fragments, and gives up the space. */
    method FlushOnce()
      requires Valid()
      modifies this`tail, this`file
      ensures Valid() && tail == head
      ensures file == old(Log()) && Log() == old(Log())
    {
      var pending := head - tail;
      Fragments(buf[..], tail, head);
      if pending == 0 { return; }
      var offset := tail % buf.Length;
      if offset + pending <= buf.Length {
        file := file + buf[offset..offset + pending];
      } else {
        var first := buf.Length - offset;
        file := file + buf[offset..];
        file := file + buf[..pending - first];
      }
      tail := head;
    }

    /** The one or two copies of `ring_write`. */
    method CopyEntry(data: seq<u8>)
      requires 0 < buf.Length && |data| <= buf.Length
      modifies buf
      ensures CopiedAt(old(buf[..]), buf[..], head, data)
    {
      var offset := head % buf.Length;
      if offset + |data| <= buf.Length {
        CopyInto(buf, offset, data);
      } else {
        var first := buf.Length - offset;
        CopyInto(buf, offset, data[..first]);
        CopyInto(buf, 0, data[first..]);
      }
    }

    /** `ring_write`. The spin is over once the flush thread has caught up; here it takes its turn in the loop. */
    method RingWrite(data: seq<u8>)
      requires Valid() && |data| <= 32 && mode != Durability.Always
      modifies this`head, this`tail, this`file, buf
      ensures Valid() && Log() == old(Log()) + data
    {
      while head - tail + |data| > buf.Length
        invariant Valid() && Log() == old(Log())
        decreases head - tail
      {
        FlushOnce();
      }
      ghost var before := buf[..];
      CopyEntry(data);
      RingBytesAfterCopy(before, buf[..], tail, head, data);
      hide CopiedAt, RingBytes;
      head := head + |data|;
    }

    /** In `Always` mode the entry is written at once, otherwise it goes through the ring. */
    method WriteEntry(data: seq<u8>)
      requires Valid() && |data| <= 32
      modifies this`head, this`tail, this`file, buf
      ensures Valid() && Log() == old(Log()) + data
      ensures mode == Durability.Always ==> file == Log()
    {
      if mode == Durability.Always {
        file := file + data;
      } else {
        RingWrite(data);
      }
    }

    /** Appends the entry of one operation. */
    method Append(op: Op)
      requires Valid()
      modifies this`head, this`tail, this`file, buf
      ensures Valid() && Log() == old(Log()) + EncodeEntry(EntryOf(op))
      ensures mode == Durability.Always ==> file == Log()
    {
      WriteEntry(EncodeEntry(EntryOf(op)));
    }
  }
}
