/**
 The store's memory: one slab of equal slots, an intrusive free list whose links live in the first
 bytes of the free slots, and per-user rings whose records live in the very same bytes.
 */
module Slab {
  import opened Bytes
  import opened Records

  const NULL: u64 := 0

  /** Room for the records and for a link, rounded up to pointer alignment. */
  function SlotSize(capacity: nat): (s: nat)
    ensures s % 8 == 0 && s >= 8 && s >= capacity * 17
    ensures s < Max(capacity * 17, 8) + 8
  {
    var needed := Max(capacity * 17, 8);
    var words := (needed + 7) / 8;
    assert needed <= words * 8 < needed + 8 && words >= 1;
    assert words * 8 % 8 == 0;
    words * 8
  }

  // ----- slices of the flat slab -----

  lemma SlotBounds(i: nat, n: nat, size: nat)
    requires i < n
    ensures 0 <= i * size <= i * size + size <= n * size
  {
    assert (i + 1) * size <= n * size;
  }

  lemma SlotsApart(i: nat, j: nat, size: nat)
    requires i < j
    ensures i * size + size <= j * size
  {
    assert (i + 1) * size <= j * size;
  }

  function Cell(m: seq<u8>, size: nat, i: nat): (c: seq<u8>)
    requires i * size + size <= |m|
    ensures |c| == size
  {
    m[i * size..i * size + size]
  }

  lemma PartOfCell(m: seq<u8>, size: nat, i: nat, at: nat, n: nat)
    requires i * size + size <= |m| && at + n <= size
    ensures 0 <= i * size + at
    ensures Cell(m, size, i)[at..at + n] == m[i * size + at..i * size + at + n]
  {
    SlotBounds(i, i + 1, size);
    var from := i * size;
    assert Cell(m, size, i) == m[from..from + size];
    hide Cell;
    SliceOfSlice(m, from, from + size, at, at + n);
  }

  lemma SliceOfSlice(m: seq<u8>, from: nat, to: nat, i: nat, j: nat)
    requires from <= to <= |m| && i <= j <= to - from
    ensures m[from..to][i..j] == m[from + i..from + j]
  {
    var a, b := m[from..to][i..j], m[from + i..from + j];
    assert |a| == |b| && forall k :: 0 <= k < |a| ==> a[k] == b[k];
  }

  /** `cells` is the slab `m` cut into slots. */
  ghost predicate Carved(m: seq<u8>, size: nat, cells: seq<seq<u8>>) {
    && |m| == |cells| * size
    && forall i :: 0 <= i < |cells| ==> (SlotBounds(i, |cells|, size); cells[i] == Cell(m, size, i))
  }

  lemma CarvedExists(m: seq<u8>, size: nat, n: nat) returns (cells: seq<seq<u8>>)
    requires |m| == n * size
    ensures |cells| == n && Carved(m, size, cells)
  {
    cells := [];
    while |cells| < n
      invariant |cells| <= n
      invariant forall i :: 0 <= i < |cells| ==> (SlotBounds(i, n, size); cells[i] == Cell(m, size, i))
    {
      SlotBounds(|cells|, n, size);
      cells := cells + [Cell(m, size, |cells|)];
    }
  }

  /** Writing inside slot `i` is a change of that slot and of no other. */
  lemma SpliceCell(m: seq<u8>, size: nat, cells: seq<seq<u8>>, i: nat, at: nat, b: seq<u8>)
    requires Carved(m, size, cells) && i < |cells|
    requires at + |b| <= size
    ensures 0 <= i * size + at && i * size + at + |b| <= |m| && |cells[i]| == size
    ensures Carved(Splice(m, i * size + at, b), size, cells[i := Splice(cells[i], at, b)])
  {
    SlotBounds(i, |cells|, size);
    var m' := Splice(m, i * size + at, b);
    var cells' := cells[i := Splice(cells[i], at, b)];
    forall j | 0 <= j < |cells'|
      ensures j * size + size <= |m'| && cells'[j] == Cell(m', size, j)
    {
      SlotBounds(j, |cells|, size);
      if j < i { SlotsApart(j, i, size); }
      if i < j { SlotsApart(i, j, size); }
    }
  }

  // ----- rings inside a slot -----

  /** A `RingBuffer` header; `data` is the address of its slot. */
  datatype Ring = Ring(data: u64, capacity: u16, head: u16, count: u16, lastWrite: u64)

  predicate ValidRing(r: Ring) {
    0 < r.capacity <= 3854 && r.head < r.capacity && r.count <= r.capacity
  }

  function RecordAt(cell: seq<u8>, k: nat): Record
    requires (k + 1) * 17 <= |cell|
  {
    DecodeRecord(cell[k * 17..k * 17 + 17])
  }

  /** The slot's bytes read as an array of `n` records, whatever they hold. */
  function RecordsOf(cell: seq<u8>, n: nat): (data: seq<Record>)
    requires n * 17 <= |cell|
    ensures |data| == n
  {
    seq(n, k requires 0 <= k < n => RecordAt(cell, k))
  }

  /** The index `start + j`, wrapped: where the snapshot writer finds record `j`, oldest first. */
  function OldestIndex(r: Ring, j: nat): (k: nat)
    requires ValidRing(r) && j < r.count
    ensures k < r.capacity
  {
    var start := (r.head + r.capacity - r.count) % r.capacity;
    (start + j) % r.capacity
  }

  /** Where `get_last` finds record `i`, newest first. */
  function NewestIndex(r: Ring, i: nat): (k: nat)
    requires ValidRing(r) && i < r.count
    ensures k < r.capacity
  {
    (r.head + r.capacity - 1 - i) % r.capacity
  }

  /** The records a ring holds, oldest first. */
  function Unrolled(data: seq<Record>, r: Ring): (records: seq<Record>)
    requires ValidRing(r) && |data| == r.capacity
    ensures |records| == r.count
  {
    seq(r.count, j requires 0 <= j < r.count => data[OldestIndex(r, j)])
  }

  function BufferOf(cell: seq<u8>, r: Ring): Buffer
    requires ValidRing(r) && r.capacity * 17 <= |cell|
  {
    Buffer(Unrolled(RecordsOf(cell, r.capacity), r), r.lastWrite)
  }

  lemma Wrapped(x: nat, n: nat)
    requires 0 < n && x < 2 * n
    ensures x % n == if x < n then x else x - n
  {
    if x >= n {
      assert x % n == (x - n + n) % n;
    }
  }

  lemma OldestIndexUnwrapped(r: Ring, j: nat)
    requires ValidRing(r) && j < r.count
    ensures OldestIndex(r, j) == r.head + j - r.count + (if r.head + j < r.count then r.capacity else 0)
  {
    Wrapped(r.head + r.capacity - r.count, r.capacity);
    Wrapped((r.head + r.capacity - r.count) % r.capacity + j, r.capacity);
  }

  /** The oldest-first walk of the snapshot writer is the newest-first walk of `get_last` backwards. */
  lemma OrderAgreement(r: Ring, i: nat)
    requires ValidRing(r) && i < r.count
    ensures NewestIndex(r, i) == OldestIndex(r, r.count - 1 - i)
  {
    OldestIndexUnwrapped(r, r.count - 1 - i);
    Wrapped(r.head + r.capacity - 1 - i, r.capacity);
  }

  function PushRing(r: Ring, ts: u64): (r': Ring)
    requires ValidRing(r)
    ensures ValidRing(r') && r'.count > 0
  {
    r.(head := (r.head + 1) % r.capacity,
       count := if r.count < r.capacity then r.count + 1 else r.count,
       lastWrite := ts)
  }

  lemma OldestIndexAfterPush(r: Ring, ts: u64, j: nat)
    requires ValidRing(r) && j < PushRing(r, ts).count
    ensures var r' := PushRing(r, ts);
            var dropped := r.count + 1 - r'.count;
            OldestIndex(r', j) == if dropped + j < r.count then OldestIndex(r, dropped + j) else r.head
    ensures var dropped := r.count + 1 - PushRing(r, ts).count;
            dropped + j < r.count ==> OldestIndex(r, dropped + j) != r.head
  {
    var dropped := r.count + 1 - PushRing(r, ts).count;
    Wrapped(r.head + 1, r.capacity);
    OldestIndexUnwrapped(PushRing(r, ts), j);
    if dropped + j < r.count {
      OldestIndexUnwrapped(r, dropped + j);
    }
  }

  lemma PushedAt(data: seq<Record>, r: Ring, rec: Record, ts: u64, j: nat)
    requires ValidRing(r) && |data| == r.capacity && j < PushRing(r, ts).count
    ensures 0 <= r.count + 1 - PushRing(r, ts).count
    ensures data[r.head := rec][OldestIndex(PushRing(r, ts), j)]
         == (Unrolled(data, r) + [rec])[r.count + 1 - PushRing(r, ts).count + j]
  {
    OldestIndexAfterPush(r, ts, j);
    hide OldestIndex;
  }

  /** Writing at the head appends the record and, when the ring is full, drops the oldest. */
  lemma PushUnrolled(data: seq<Record>, r: Ring, rec: Record, ts: u64)
    requires ValidRing(r) && |data| == r.capacity
    ensures Unrolled(data[r.head := rec], PushRing(r, ts)) == Newest(Unrolled(data, r) + [rec], r.capacity)
  {
    var r', all := PushRing(r, ts), Unrolled(data, r) + [rec];
    hide OldestIndex;
    forall j | 0 <= j < r'.count
      ensures data[r.head := rec][OldestIndex(r', j)] == all[|all| - r'.count + j]
    {
      PushedAt(data, r, rec, ts, j);
    }
    NewestIs(Unrolled(data[r.head := rec], r'), all, r.capacity);
  }

  /** The newest records of `all` are known by their number and their places from the end. */
  lemma NewestIs(s: seq<Record>, all: seq<Record>, n: nat)
    requires |s| == if |all| <= n then |all| else n
    requires forall j :: 0 <= j < |s| ==> s[j] == all[|all| - |s| + j]
    ensures s == Newest(all, n)
  {
  }

  lemma RecordAfterWrite(cell: seq<u8>, head: nat, rec: Record, k: nat)
    requires (head + 1) * 17 <= |cell| && (k + 1) * 17 <= |cell|
    ensures RecordAt(Splice(cell, head * 17, EncodeRecord(rec)), k)
         == if k == head then rec else RecordAt(cell, k)
  {
    var cell' := Splice(cell, head * 17, EncodeRecord(rec));
    var lo, hi := k * 17, k * 17 + 17;
    if k == head {
      assert cell'[lo..hi] == EncodeRecord(rec);
      RecordRoundTrip(rec);
    } else {
      assert cell'[lo..hi] == cell[lo..hi];
    }
  }

  lemma RecordsAfterWrite(cell: seq<u8>, head: nat, rec: Record, n: nat)
    requires head < n && n * 17 <= |cell|
    ensures RecordsOf(Splice(cell, head * 17, EncodeRecord(rec)), n) == RecordsOf(cell, n)[head := rec]
  {
    var cell' := Splice(cell, head * 17, EncodeRecord(rec));
    forall k | 0 <= k < n
      ensures RecordsOf(cell', n)[k] == RecordsOf(cell, n)[head := rec][k]
    {
      RecordAfterWrite(cell, head, rec, k);
    }
  }

  /** A ring push, on the bytes of its slot. */
  lemma PushCell(cell: seq<u8>, r: Ring, rec: Record, ts: u64)
    requires ValidRing(r) && r.capacity * 17 <= |cell|
    ensures BufferOf(Splice(cell, r.head * 17, EncodeRecord(rec)), PushRing(r, ts))
         == PushBuffer(BufferOf(cell, r), rec, ts, r.capacity)
  {
    RecordsAfterWrite(cell, r.head, rec, r.capacity);
    PushUnrolled(RecordsOf(cell, r.capacity), r, rec, ts);
  }
}
