/** The `Store`: a map of ring headers over one slab of memory with an intrusive free list. */
module Stores {
  import opened Bytes
  import opened Records
  import opened Slab
  import H = SlabHeap

  /** The compiled N, the configured slot count, and the address the slab was mapped at. */
  datatype Config = Config(capacity: u16, slots: u32, base: u64)

  ghost predicate ValidConfig(cfg: Config) {
    && 1 <= cfg.capacity <= 3854
    && 0 < cfg.slots
    && NULL < cfg.base
    && cfg.base + cfg.slots * SlotSize(cfg.capacity) < 0x1_0000_0000_0000_0000
  }

  ghost predicate Addresses(base: u64, size: nat, addrs: seq<u64>) {
    forall i :: 0 <= i < |addrs| ==> addrs[i] == base + i * size
  }

  lemma LayoutExists(cfg: Config) returns (lay: H.Layout)
    requires ValidConfig(cfg)
    ensures H.ValidLayout(lay) && lay.capacity == cfg.capacity && lay.slotSize == SlotSize(cfg.capacity)
    ensures |lay.addrs| == cfg.slots && Addresses(cfg.base, lay.slotSize, lay.addrs)
  {
    var size := SlotSize(cfg.capacity);
    var addrs: seq<u64> := [];
    while |addrs| < cfg.slots
      invariant |addrs| <= cfg.slots && Addresses(cfg.base, size, addrs) && NULL !in addrs
    {
      SlotBounds(|addrs|, cfg.slots, size);
      addrs := addrs + [cfg.base + |addrs| * size];
    }
    lay := H.Layout(cfg.capacity, size, addrs);
  }

  lemma UpdateTwice(c: Contents, c': Contents, uid: u32, rec: Record, ts: u64, n: nat)
    requires c' == if uid in c then c else c[uid := EMPTY_BUFFER]
    ensures PushTo(c', uid, rec, ts, n) == PushTo(c, uid, rec, ts, n)
  {
    hide PushBuffer;
  }

  class Store {
    const cfg: Config
    const slotSize: nat
    const mem: array<u8>
    var freeList: u64
    var rings: map<u32, Ring>
    ghost const lay: H.Layout
    ghost var cells: seq<seq<u8>>
    ghost var free: seq<nat>
    ghost var owner: map<u32, nat>

    ghost function View(): H.Heap
      reads this
    {
      H.Heap(cells, freeList, rings, free, owner)
    }

    /** The slab is cut into `cells`, and addresses count from its base. */
    ghost predicate Mapped()
      reads this`cells, mem
    {
      && lay.capacity == cfg.capacity && lay.slotSize == slotSize && |lay.addrs| == cfg.slots
      && Addresses(cfg.base, slotSize, lay.addrs)
      && |cells| == cfg.slots
      && Carved(mem[..], slotSize, cells)
    }

    ghost predicate Valid()
      reads this, mem
    {
      Mapped() && H.Valid(lay, View())
    }

    /** What the store holds. */
    ghost function Model(): (c: Contents)
      requires Valid()
      reads this, mem
      ensures c.Keys == rings.Keys && WellFormed(c, cfg.capacity) && |c| <= cfg.slots
    {
      H.ContentsWellFormed(lay, View());
      H.ContentsOf(lay, View())
    }

    lemma CapacityBounds()
      requires Valid()
      ensures 1 <= cfg.capacity <= 3854
    {
    }

    /** Allocates the slab and threads the free list through it; the memory is not cleared. */
    constructor (cfg: Config)
      requires ValidConfig(cfg)
      ensures Valid() && fresh(mem) && this.cfg == cfg
      ensures Model() == map[]
    {
      var size := SlotSize(cfg.capacity);
      this.cfg := cfg;
      slotSize := size;
      mem := new u8[cfg.slots * size];
      freeList := cfg.base;
      rings := map[];
      ghost var layout := LayoutExists(cfg);
      lay := layout;
      owner := map[];
      free := seq(cfg.slots, k => k);
      new;
      cells := CarvedExists(mem[..], slotSize, cfg.slots);
      BuildFreeList();
      H.FreshHeap(lay, View());
    }

    /** The loop of `new`: slot `i` gets the address of slot `i + 1`, the last slot the null pointer. */
    method BuildFreeList()
      requires Mapped() && ValidConfig(cfg) && slotSize >= 8
      modifies mem, this`cells
      ensures Mapped()
      ensures H.Sized(lay, cells)
      ensures forall k: nat :: k < |cells| ==>
                H.Link(cells[k]) == if k + 1 < |cells| then lay.addrs[k + 1] else NULL
    {
      var i: nat := 0;
      while i < cfg.slots
        invariant i <= cfg.slots && Mapped()
        invariant forall k: nat :: k < i ==> |cells[k]| == slotSize
        invariant forall k: nat :: k < i ==>
                    H.Link(cells[k]) == if k + 1 < |cells| then lay.addrs[k + 1] else NULL
      {
        hide H.Link, Splice;
        var p := Address(i);
        var next := NULL;
        if i + 1 < cfg.slots {
          next := Address(i + 1);
        }
        H.LinkAfterWrite(Cell0(i), next);
        WriteSlot(p, 0, Encode(next, 8), i);
        i := i + 1;
      }
    }

    /** `base.add(i * slot_size)`. */
    method Address(i: nat) returns (p: u64)
      requires Mapped() && i < cfg.slots
      ensures p == lay.addrs[i]
    {
      assert lay.addrs[i] == cfg.base + i * slotSize;
      p := cfg.base + i * slotSize;
    }

    ghost function Cell0(i: nat): (c: seq<u8>)
      requires Mapped() && i < |cells|
      reads this, mem
      ensures c == cells[i] && |c| == slotSize
    {
      SlotBounds(i, |cells|, slotSize);
      Cell(mem[..], slotSize, i)
    }

    /** Writes `b` at offset `at` of the slot that address `p` points to. */
    method WriteSlot(p: u64, at: nat, b: seq<u8>, ghost slot: nat)
      requires Mapped() && slot < |cells| && p == lay.addrs[slot] && at + |b| <= slotSize
      modifies mem, this`cells
      ensures Mapped()
      ensures |old(cells)[slot]| == slotSize
      ensures cells == old(cells)[slot := Splice(old(cells)[slot], at, b)]
    {
      SpliceCell(mem[..], slotSize, cells, slot, at, b);
      CopyInto(mem, p - cfg.base + at, b);
      cells := cells[slot := Splice(cells[slot], at, b)];
    }

    /** The `n` bytes at offset `at` of the slot that address `p` points to. */
    method ReadSlot(p: u64, at: nat, n: nat, ghost slot: nat) returns (b: seq<u8>)
      requires Mapped() && slot < |cells| && p == lay.addrs[slot] && at + n <= slotSize
      ensures |cells[slot]| == slotSize && b == cells[slot][at..at + n]
    {
      SlotBounds(slot, |cells|, slotSize);
      assert cells[slot] == Cell(mem[..], slotSize, slot);
      PartOfCell(mem[..], slotSize, slot, at, n);
      ghost var from := slot * slotSize + at;
      assert p - cfg.base + at == from;
      hide Cell, Carved, Addresses;
      b := mem[p - cfg.base + at..p - cfg.base + at + n];
      assert b == mem[..][from..from + n];
    }

    lemma HeadOfFreeList()
      requires Valid()
      ensures Mapped() && |Model()| <= cfg.slots
      ensures freeList == NULL <==> |Model()| == cfg.slots
      ensures freeList != NULL ==> free != [] && free[0] < |cells| && freeList == lay.addrs[free[0]]
      ensures freeList != NULL ==> slotSize >= 8 && |cells[free[0]]| >= 8
    {
      H.ExhaustedIffFull(lay, View());
      hide H.ContentsOf, H.Linked, H.Partition, H.RingsInSlots, Carved, Addresses;
    }

    /** The link in the slot that the free list points to. */
    method NextFree(ghost slot: nat) returns (next: u64)
      requires Mapped() && slot < |cells| && freeList == lay.addrs[slot] && slotSize >= 8 && |cells[slot]| >= 8
      ensures next == H.Link(cells[slot])
    {
      hide Mapped, H.Link, DecodeU64;
      var link := ReadSlot(freeList, 0, 8, slot);
      H.LinkOf(cells[slot], link);
      next := DecodeU64(link);
    }

    /** Pops the free list. `ok` is false when the source's assertion fails and the process dies. */
    method Alloc() returns (ok: bool, p: u64)
      requires Valid()
      modifies this`freeList, this`free
      ensures ok <==> |old(Model())| < cfg.slots
      ensures !ok ==> freeList == old(freeList) && free == old(free)
      ensures ok ==> old(free) != [] && free == old(free)[1..] && old(free)[0] < |cells|
      ensures ok ==> |cells[old(free)[0]]| >= 8 && freeList == H.Link(cells[old(free)[0]])
      ensures ok ==> p == old(freeList)
    {
      hide Valid, Model, Mapped, H.Link, WellFormed;
      HeadOfFreeList();
      p := NULL;
      ok := freeList != NULL;
      if ok {
        p := freeList;
        freeList := NextFree(free[0]);
        free := free[1..];
      }
    }

    /** Pushes a slot on the free list: its first 8 bytes take the old head. The rest is left as it was. */
    method Free(p: u64, ghost slot: nat)
      requires Mapped() && slotSize >= 8 && slot < |cells| && p == lay.addrs[slot]
      modifies mem, this`cells, this`freeList, this`free
      ensures Mapped()
      ensures |old(cells)[slot]| == slotSize
      ensures cells == old(cells)[slot := Splice(old(cells)[slot], 0, Encode(old(freeList), 8))]
      ensures freeList == p && free == [slot] + old(free)
    {
      WriteSlot(p, 0, Encode(freeList, 8), slot);
      freeList := p;
      free := [slot] + free;
    }

    /** The user's ring, created empty over an uncleared slot if absent. */
    method GetOrCreate(uid: u32) returns (ok: bool)
      requires Valid()
      modifies this`freeList, this`free, this`rings, this`owner
      ensures Valid()
      ensures ok <==> uid in old(Model()) || |old(Model())| < cfg.slots
      ensures Model() == if ok && uid !in old(Model()) then old(Model())[uid := EMPTY_BUFFER] else old(Model())
    {
      hide H.Valid, H.ContentsOf;
      if uid in rings {
        ok := true;
      } else {
        ghost var before := View();
        var p;
        ok, p := Alloc();
        if ok {
          H.CreateMeans(lay, before, uid);
          rings := rings[uid := Ring(p, cfg.capacity, 0, 0, 0)];
          owner := owner[uid := before.free[0]];
          assert View() == H.Created(lay, before, uid);
        }
      }
    }

    /** `RingBuffer::push` on the user's ring. */
    method Push(uid: u32, rec: Record, ts: u64)
      requires Valid() && uid in Model()
      modifies mem, this`cells, this`rings
      ensures Valid()
      ensures Model() == PushTo(old(Model()), uid, rec, ts, cfg.capacity)
    {
      hide H.Valid, H.ContentsOf, Splice, EncodeRecord, PushTo;
      ghost var before := View();
      H.PushMeans(lay, before, uid, rec, ts);
      H.BufferIn(lay, before, uid);
      var r := rings[uid];
      WriteSlot(r.data, r.head * 17, EncodeRecord(rec), owner[uid]);
      var head := (r.head + 1) % r.capacity;
      var count := if r.count < r.capacity then r.count + 1 else r.count;
      rings := rings[uid := r.(head := head, count := count, lastWrite := ts)];
    }

    /** `get_or_create` followed by `push`, as PUSH and replay do it. */
    method CreateAndPush(uid: u32, rec: Record, ts: u64) returns (ok: bool)
      requires Valid()
      modifies mem, this`cells, this`freeList, this`free, this`rings, this`owner
      ensures Valid()
      ensures ok <==> uid in old(Model()) || |old(Model())| < cfg.slots
      ensures Model() == if ok then PushTo(old(Model()), uid, rec, ts, cfg.capacity) else old(Model())
    {
      hide Valid, Model, PushBuffer;
      ok := GetOrCreate(uid);
      ghost var c := Model();
      if ok {
        Push(uid, rec, ts);
        UpdateTwice(old(Model()), c, uid, rec, ts, cfg.capacity);
      }
    }

    /** Removes the user and frees its slot. Nothing happens if it is absent. */
    method Erase(uid: u32)
      requires Valid()
      modifies mem, this`cells, this`freeList, this`free, this`rings, this`owner
      ensures Valid()
      ensures Model() == old(Model()) - {uid}
    {
      hide H.Valid, H.ContentsOf, Splice;
      if uid in rings {
        ghost var before := View();
        H.EraseMeans(lay, before, uid);
        H.BufferIn(lay, before, uid);
        var r := rings[uid];
        rings := rings - {uid};
        Free(r.data, owner[uid]);
        owner := owner - {uid};
        assert View() == H.Erased(lay, before, uid);
      } else {
        assert Model() - {uid} == Model();
      }
    }

    ghost function BufferAt(uid: u32): Buffer
      requires Valid() && uid in rings
      reads this, mem
    {
      hide H.Valid, H.ContentsOf;
      Model()[uid]
    }

    /** The user's records, oldest first. */
    ghost function Stored(uid: u32): seq<Record>
      requires Valid() && uid in rings
      reads this, mem
    {
      BufferAt(uid).records
    }

    /** Reads `data[idx]` of the user's ring: its record `j`, oldest first. */
    method ReadRecord(uid: u32, idx: nat, ghost j: nat) returns (b: seq<u8>)
      requires Valid() && uid in rings
      requires ValidRing(rings[uid]) && j < rings[uid].count && idx == OldestIndex(rings[uid], j)
      ensures |b| == 17 && j < |Stored(uid)| && DecodeRecord(b) == Stored(uid)[j]
    {
      hide H.Valid, H.ContentsOf, DecodeRecord, OldestIndex;
      H.BufferIn(lay, View(), uid);
      b := ReadSlot(rings[uid].data, idx * 17, 17, owner[uid]);
    }

    /** The newest `min(n, count)` records of the user, newest first. */
    method GetLast(uid: u32, n: u16) returns (out: seq<Record>)
      requires Valid() && uid in rings
      ensures |out| == if n < |Stored(uid)| then n else |Stored(uid)|
      ensures forall i :: 0 <= i < |out| ==> out[i] == Stored(uid)[|Stored(uid)| - 1 - i]
    {
      hide H.Valid, H.ContentsOf, BufferOf, DecodeRecord, OldestIndex;
      RingOf(uid);
      var r := rings[uid];
      var actual := if n < r.count then n else r.count;
      out := [];
      for i := 0 to actual
        invariant |out| == i
        invariant forall k :: 0 <= k < i ==> out[k] == Stored(uid)[|Stored(uid)| - 1 - k]
      {
        OrderAgreement(r, i);
        var idx := (r.head + r.capacity - 1 - i) % r.capacity;
        var b := ReadRecord(uid, idx, r.count - 1 - i);
        out := out + [DecodeRecord(b)];
      }
    }

    lemma RingOf(uid: u32)
      requires Valid() && uid in rings
      ensures ValidRing(rings[uid]) && rings[uid].capacity == cfg.capacity && |Stored(uid)| == rings[uid].count
      ensures BufferAt(uid).lastWrite == rings[uid].lastWrite
    {
      hide H.Valid, H.ContentsOf;
      H.BufferIn(lay, View(), uid);
    }

    /** The snapshot writer's walk over one ring: every record, oldest first, as the bytes it is. */
    method DumpRecords(uid: u32) returns (b: seq<u8>)
      requires Valid() && uid in rings
      ensures b == EncodeRecords(Stored(uid))
    {
      hide H.Valid, H.ContentsOf, BufferOf, DecodeRecord, EncodeRecord, EncodeRecords;
      RingOf(uid);
      var r := rings[uid];
      ghost var stored := Stored(uid);
      b := [];
      var start := (r.head + r.capacity - r.count) % r.capacity;
      for i := 0 to r.count
        invariant b == EncodeRecords(stored[..i])
      {
        var rec := ReadRecord(uid, (start + i) % r.capacity, i);
        EncodeRecordsAppend(stored[..i], stored[i]);
        assert stored[..i + 1] == stored[..i] + [stored[i]];
        b := b + rec;
      }
      assert stored[..r.count] == stored;
    }
  }
}
