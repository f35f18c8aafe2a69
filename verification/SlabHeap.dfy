/**
 The invariant of the whole store memory, stated on values: the free list threads exactly the slots
 that no user owns, and the owned slots hold the rings. Each lemma below is one operation on it.
 */
module SlabHeap {
  import opened Bytes
  import opened Records
  import opened Slab

  /** The compiled N, the slot size, and the address of every slot. */
  datatype Layout = Layout(capacity: u16, slotSize: nat, addrs: seq<u64>)

  ghost predicate ValidLayout(lay: Layout) {
    && 1 <= lay.capacity <= 3854
    && 8 <= lay.slotSize && lay.capacity * 17 <= lay.slotSize
    && 0 < |lay.addrs| < 0x1_0000_0000
    && NULL !in lay.addrs
  }

  /** `free` lists the free slots in list order, and `owner` gives each user's slot. */
  datatype Heap = Heap(cells: seq<seq<u8>>, freeList: u64, rings: map<u32, Ring>,
                       free: seq<nat>, owner: map<u32, nat>)

  // ----- the free list -----

  ghost predicate Sized(lay: Layout, cells: seq<seq<u8>>) {
    && |cells| == |lay.addrs|
    && forall i :: 0 <= i < |cells| ==> |cells[i]| == lay.slotSize
  }

  /** The pointer stored in the first bytes of a free slot. */
  function Link(cell: seq<u8>): u64
    requires |cell| >= 8
  {
    DecodeU64(cell[..8])
  }

  lemma LinkOf(cell: seq<u8>, link: seq<u8>)
    requires |cell| >= 8 && link == cell[0..8]
    ensures Link(cell) == DecodeU64(link)
  {
    hide DecodeU64;
    assert cell[..8] == cell[0..8];
  }

  lemma LinkAfterWrite(cell: seq<u8>, p: u64)
    requires |cell| >= 8
    ensures Link(Splice(cell, 0, Encode(p, 8))) == p
  {
    assert Splice(cell, 0, Encode(p, 8))[..8] == Encode(p, 8);
    U64RoundTrip(p);
  }

  /** Following links from `p` visits exactly the slots `free`, in order, and ends at the null pointer. */
  ghost predicate Linked(lay: Layout, cells: seq<seq<u8>>, p: u64, free: seq<nat>)
    requires Sized(lay, cells) && lay.slotSize >= 8
    decreases free
  {
    if free == [] then p == NULL
    else free[0] < |cells| && p == lay.addrs[free[0]] && Linked(lay, cells, Link(cells[free[0]]), free[1..])
  }

  /** Writing into a slot that is not on the free list leaves the list alone. */
  lemma {:induction false} LinkedFrame(lay: Layout, cells: seq<seq<u8>>, slot: nat, cell: seq<u8>,
                                       p: u64, free: seq<nat>)
    requires Sized(lay, cells) && lay.slotSize >= 8
    requires slot < |cells| && |cell| == lay.slotSize && slot !in free
    requires Linked(lay, cells, p, free)
    ensures Linked(lay, cells[slot := cell], p, free)
    decreases free
  {
    hide Link;
    if free != [] {
      LinkedFrame(lay, cells, slot, cell, Link(cells[free[0]]), free[1..]);
    }
  }

  /** Pushing a slot: its first bytes take the old head of the list. */
  lemma LinkedPush(lay: Layout, cells: seq<seq<u8>>, slot: nat, p: u64, free: seq<nat>)
    requires Sized(lay, cells) && lay.slotSize >= 8
    requires slot < |cells| && slot !in free
    requires Linked(lay, cells, p, free)
    ensures var cells' := cells[slot := Splice(cells[slot], 0, Encode(p, 8))];
            Sized(lay, cells') && Linked(lay, cells', lay.addrs[slot], [slot] + free)
  {
    var cell := Splice(cells[slot], 0, Encode(p, 8));
    LinkAfterWrite(cells[slot], p);
    LinkedFrame(lay, cells, slot, cell, p, free);
    hide Link, Splice;
    assert ([slot] + free)[1..] == free;
  }

  /** The list as `new` builds it: slot `i` points at slot `i + 1`, the last one at null. */
  lemma {:induction false} LinkedRange(lay: Layout, cells: seq<seq<u8>>, i: nat)
    requires Sized(lay, cells) && lay.slotSize >= 8 && i <= |cells|
    requires forall k: nat :: k < |cells| ==>
               Link(cells[k]) == if k + 1 < |cells| then lay.addrs[k + 1] else NULL
    ensures Linked(lay, cells, if i < |cells| then lay.addrs[i] else NULL, seq(|cells| - i, k => i + k))
    decreases |cells| - i
  {
    hide Link;
    if i < |cells| {
      LinkedRange(lay, cells, i + 1);
      assert seq(|cells| - i, k => i + k)[1..] == seq(|cells| - i - 1, k => i + 1 + k);
    }
  }

  // ----- who has which slot -----

  ghost predicate Distinct(s: seq<nat>) {
    forall i, j :: 0 <= i < j < |s| ==> s[i] != s[j]
  }

  /** The free slots and the users' slots are all different, and there are `n` of them. */
  ghost predicate Partition(n: nat, free: seq<nat>, owner: map<u32, nat>) {
    && Distinct(free)
    && (forall i :: 0 <= i < |free| ==> free[i] < n)
    && (forall u :: u in owner ==> owner[u] < n && owner[u] !in free)
    && (forall u, v :: u in owner && v in owner && owner[u] == owner[v] ==> u == v)
    && |free| + |owner| == n
  }

  lemma PartitionCreate(n: nat, free: seq<nat>, owner: map<u32, nat>, uid: u32)
    requires Partition(n, free, owner) && free != [] && uid !in owner
    ensures Partition(n, free[1..], owner[uid := free[0]])
  {
    assert forall i :: i in free[1..] ==> i in free;
  }

  lemma PartitionErase(n: nat, free: seq<nat>, owner: map<u32, nat>, uid: u32)
    requires Partition(n, free, owner) && uid in owner
    ensures Partition(n, [owner[uid]] + free, owner - {uid})
  {
    assert (owner - {uid}).Keys == owner.Keys - {uid};
    assert |owner - {uid}| == |(owner - {uid}).Keys| && |owner| == |owner.Keys|;
  }

  function Below(n: nat): (s: set<nat>)
    ensures |s| == n && forall i: nat :: i in s <==> i < n
  {
    if n == 0 then {} else Below(n - 1) + {n - 1}
  }

  function Elements(s: seq<nat>): (r: set<nat>)
    ensures forall i :: i in r <==> i in s
  {
    if s == [] then {} else Elements(s[1..]) + {s[0]}
  }

  lemma {:induction false} DistinctSize(s: seq<nat>)
    requires Distinct(s)
    ensures |Elements(s)| == |s|
  {
    if s != [] {
      DistinctSize(s[1..]);
      assert s[0] !in s[1..];
    }
  }

  lemma {:induction false} InjectiveSize(owner: map<u32, nat>)
    requires forall u, v :: u in owner && v in owner && owner[u] == owner[v] ==> u == v
    ensures |owner.Values| == |owner|
    decreases |owner|
  {
    if owner != map[] {
      var u :| u in owner;
      var rest := owner - {u};
      assert rest.Keys == owner.Keys - {u};
      assert |rest| == |rest.Keys| && |owner| == |owner.Keys|;
      InjectiveSize(rest);
      forall slot | slot in owner.Values
        ensures slot == owner[u] || slot in rest.Values
      {
        var v :| v in owner && owner[v] == slot;
        assert v == u || (v in rest && rest[v] == slot);
      }
      assert owner.Values == rest.Values + {owner[u]};
    }
  }

  lemma FullUnion(n: nat, a: set<nat>, b: set<nat>, i: nat)
    requires a !! b && |a| + |b| == n && a + b <= Below(n) && i < n
    ensures i in a + b
  {
    hide Below;
    assert |a + b| == n;
    if i !in a + b {
      SubsetSize(a + b, Below(n) - {i});
    }
  }

  /** Nothing is lost: every slot is on the free list or is some user's. */
  lemma PartitionCovers(n: nat, free: seq<nat>, owner: map<u32, nat>, i: nat)
    requires Partition(n, free, owner) && i < n
    ensures i in free || i in owner.Values
  {
    hide Elements, Below, Distinct;
    DistinctSize(free);
    InjectiveSize(owner);
    FullUnion(n, Elements(free), owner.Values, i);
  }

  // ----- the whole heap -----

  ghost predicate RingInSlot(lay: Layout, r: Ring, slot: nat) {
    && ValidRing(r)
    && slot < |lay.addrs| && r.data == lay.addrs[slot]
    && r.capacity == lay.capacity
    && (r.count == 0 ==> r.lastWrite == 0)
  }

  lemma PushedRingInSlot(lay: Layout, r: Ring, slot: nat, ts: u64)
    requires RingInSlot(lay, r, slot)
    ensures RingInSlot(lay, PushRing(r, ts), slot)
  {
  }

  ghost predicate RingsInSlots(lay: Layout, rings: map<u32, Ring>, owner: map<u32, nat>) {
    && owner.Keys == rings.Keys
    && forall uid :: uid in rings ==> RingInSlot(lay, rings[uid], owner[uid])
  }

  lemma RingsUpdate(lay: Layout, rings: map<u32, Ring>, owner: map<u32, nat>, uid: u32, r: Ring, slot: nat)
    requires RingsInSlots(lay, rings, owner) && RingInSlot(lay, r, slot)
    ensures RingsInSlots(lay, rings[uid := r], owner[uid := slot])
  {
    hide RingInSlot;
  }

  ghost predicate Valid(lay: Layout, h: Heap) {
    && ValidLayout(lay)
    && Sized(lay, h.cells)
    && Linked(lay, h.cells, h.freeList, h.free)
    && Partition(|lay.addrs|, h.free, h.owner)
    && RingsInSlots(lay, h.rings, h.owner)
  }

  /** What the memory means. */
  ghost function ContentsOf(lay: Layout, h: Heap): (c: Contents)
    requires Valid(lay, h)
    ensures c.Keys == h.rings.Keys
  {
    hide Partition, Linked;
    map uid | uid in h.rings :: BufferOf(h.cells[h.owner[uid]], h.rings[uid])
  }

  lemma ContentsWellFormed(lay: Layout, h: Heap)
    requires Valid(lay, h)
    ensures WellFormed(ContentsOf(lay, h), lay.capacity)
    ensures |ContentsOf(lay, h)| == |h.rings| <= |lay.addrs|
  {
    hide Linked, Link, RecordsOf, OldestIndex;
    var c := ContentsOf(lay, h);
    assert |c| == |c.Keys| && |h.rings| == |h.rings.Keys| && |h.owner| == |h.owner.Keys|;
    forall uid | uid in c
      ensures |c[uid].records| == h.rings[uid].count && c[uid].lastWrite == h.rings[uid].lastWrite
    {
    }
  }

  /** The list is empty exactly when every slot is a live user's. */
  lemma ExhaustedIffFull(lay: Layout, h: Heap)
    requires Valid(lay, h)
    ensures h.freeList == NULL <==> |ContentsOf(lay, h)| == |lay.addrs|
    ensures h.freeList != NULL ==>
              h.free != [] && h.free[0] < |h.cells| && h.freeList == lay.addrs[h.free[0]] && |h.cells[h.free[0]]| >= 8
  {
    hide BufferOf, Link;
    ContentsWellFormed(lay, h);
    assert |h.rings| == |h.rings.Keys| && |h.owner| == |h.owner.Keys|;
  }

  lemma FreshHeap(lay: Layout, h: Heap)
    requires ValidLayout(lay) && Sized(lay, h.cells)
    requires forall k: nat :: k < |h.cells| ==>
               Link(h.cells[k]) == if k + 1 < |h.cells| then lay.addrs[k + 1] else NULL
    requires h.freeList == lay.addrs[0] && h.rings == map[] && h.owner == map[]
    requires h.free == seq(|h.cells|, k => k)
    ensures Valid(lay, h) && ContentsOf(lay, h) == map[]
  {
    LinkedRange(lay, h.cells, 0);
    hide Link, Linked, BufferOf;
    assert seq(|h.cells|, k => 0 + k) == h.free;
  }

  lemma BufferIn(lay: Layout, h: Heap, uid: u32)
    requires Valid(lay, h) && uid in h.rings
    ensures uid in h.owner && h.owner[uid] < |h.cells| && RingInSlot(lay, h.rings[uid], h.owner[uid])
    ensures |h.cells[h.owner[uid]]| == lay.slotSize >= lay.capacity * 17
    ensures ContentsOf(lay, h)[uid] == BufferOf(h.cells[h.owner[uid]], h.rings[uid])
  {
    hide Partition, Linked, BufferOf;
  }

  /** No two users share a slot. */
  lemma SlotsDiffer(lay: Layout, h: Heap, u: u32, v: u32)
    requires Valid(lay, h) && u in h.rings && v in h.rings && u != v
    ensures u in h.owner && v in h.owner && h.owner[u] != h.owner[v]
  {
    hide Linked;
  }

  /** The meaning of a heap that differs from `h` only in what `uid` has. */
  lemma ContentsFrame(lay: Layout, h: Heap, h': Heap, uid: u32)
    requires Valid(lay, h) && Valid(lay, h')
    requires forall u :: u != uid ==> (u in h'.rings <==> u in h.rings)
    requires forall u :: u in h.rings && u != uid ==>
               h'.rings[u] == h.rings[u] && h'.owner[u] == h.owner[u] && h'.cells[h.owner[u]] == h.cells[h.owner[u]]
    ensures ContentsOf(lay, h') - {uid} == ContentsOf(lay, h) - {uid}
  {
    hide Valid, ContentsOf, BufferOf;
    forall u | u in h.rings && u != uid
      ensures ContentsOf(lay, h')[u] == ContentsOf(lay, h)[u]
    {
      BufferIn(lay, h, u);
      BufferIn(lay, h', u);
    }
  }

  lemma SameExcept(c: Contents, c': Contents, uid: u32)
    requires c' - {uid} == c - {uid} && uid in c'
    ensures c' == c[uid := c'[uid]]
  {
    forall u | u in c && u != uid
      ensures u in c' && c'[u] == c[u]
    {
      assert u in c - {uid} && (c - {uid})[u] == c[u];
    }
    forall u | u in c' && u != uid
      ensures u in c
    {
      assert u in c' - {uid};
    }
  }

  /** Popping the free list and giving the slot, uncleared, to a new user. */
  ghost function Created(lay: Layout, h: Heap, uid: u32): Heap
    requires Valid(lay, h) && h.free != []
  {
    hide Partition;
    var slot := h.free[0];
    Heap(h.cells, Link(h.cells[slot]), h.rings[uid := Ring(h.freeList, lay.capacity, 0, 0, 0)],
         h.free[1..], h.owner[uid := slot])
  }

  lemma CreateKeepsValid(lay: Layout, h: Heap, uid: u32)
    requires Valid(lay, h) && h.free != [] && uid !in h.rings
    ensures Valid(lay, Created(lay, h, uid))
  {
    PartitionCreate(|lay.addrs|, h.free, h.owner, uid);
    var h' := Created(lay, h, uid);
    RingsUpdate(lay, h.rings, h.owner, uid, h'.rings[uid], h.free[0]);
    hide Partition, Link, RingsInSlots;
  }

  lemma CreateMeans(lay: Layout, h: Heap, uid: u32)
    requires Valid(lay, h) && h.free != [] && uid !in h.rings
    ensures Valid(lay, Created(lay, h, uid))
    ensures ContentsOf(lay, Created(lay, h, uid)) == ContentsOf(lay, h)[uid := EMPTY_BUFFER]
  {
    hide Partition, Link, RecordsOf, OldestIndex;
    var h' := Created(lay, h, uid);
    CreateKeepsValid(lay, h, uid);
    hide Valid, ContentsOf;
    ContentsFrame(lay, h, h', uid);
    BufferIn(lay, h', uid);
    assert ContentsOf(lay, h')[uid] == EMPTY_BUFFER;
    SameExcept(ContentsOf(lay, h), ContentsOf(lay, h'), uid);
  }

  /** Writing a record at the head of a user's ring. */
  ghost function Pushed(lay: Layout, h: Heap, uid: u32, rec: Record, ts: u64): Heap
    requires Valid(lay, h) && uid in h.rings
  {
    hide Partition, Linked;
    var r := h.rings[uid];
    var slot := h.owner[uid];
    h.(cells := h.cells[slot := Splice(h.cells[slot], r.head * 17, EncodeRecord(rec))],
       rings := h.rings[uid := PushRing(r, ts)])
  }

  lemma PushKeepsValid(lay: Layout, h: Heap, uid: u32, rec: Record, ts: u64)
    requires Valid(lay, h) && uid in h.rings
    ensures Valid(lay, Pushed(lay, h, uid, rec, ts))
  {
    hide Link, Splice, EncodeRecord, PushRing, RingInSlot;
    var h' := Pushed(lay, h, uid, rec, ts);
    var slot := h.owner[uid];
    LinkedFrame(lay, h.cells, slot, h'.cells[slot], h.freeList, h.free);
    hide Partition, Linked;
    PushedRingInSlot(lay, h.rings[uid], slot, ts);
    RingsUpdate(lay, h.rings, h.owner, uid, h'.rings[uid], slot);
    assert h.owner[uid := slot] == h.owner;
  }

  /** A ring push touches only the user's own slot, and is a PUSH on the meaning. */
  lemma PushMeans(lay: Layout, h: Heap, uid: u32, rec: Record, ts: u64)
    requires Valid(lay, h) && uid in h.rings
    ensures Valid(lay, Pushed(lay, h, uid, rec, ts))
    ensures ContentsOf(lay, Pushed(lay, h, uid, rec, ts)) == PushTo(ContentsOf(lay, h), uid, rec, ts, lay.capacity)
  {
    hide Valid, ContentsOf, BufferOf, EncodeRecord, PushBuffer, PushRing, Splice;
    PushKeepsValid(lay, h, uid, rec, ts);
    BufferIn(lay, h, uid);
    var h' := Pushed(lay, h, uid, rec, ts);
    forall u | u in h.rings && u != uid
      ensures u in h.owner && h.owner[u] < |h.cells| && h'.cells[h.owner[u]] == h.cells[h.owner[u]]
    {
      BufferIn(lay, h, u);
      SlotsDiffer(lay, h, u, uid);
    }
    ContentsFrame(lay, h, h', uid);
    BufferIn(lay, h', uid);
    SameExcept(ContentsOf(lay, h), ContentsOf(lay, h'), uid);
    PushCell(h.cells[h.owner[uid]], h.rings[uid], rec, ts);
  }

  /** Removing a user and pushing its slot on the list, the link overwriting record bytes. */
  ghost function Erased(lay: Layout, h: Heap, uid: u32): Heap
    requires Valid(lay, h) && uid in h.rings
  {
    hide Partition, Linked;
    var slot := h.owner[uid];
    Heap(h.cells[slot := Splice(h.cells[slot], 0, Encode(h.freeList, 8))], h.rings[uid].data,
         h.rings - {uid}, [slot] + h.free, h.owner - {uid})
  }

  lemma EraseKeepsValid(lay: Layout, h: Heap, uid: u32)
    requires Valid(lay, h) && uid in h.rings
    ensures Valid(lay, Erased(lay, h, uid))
  {
    LinkedPush(lay, h.cells, h.owner[uid], h.freeList, h.free);
    PartitionErase(|lay.addrs|, h.free, h.owner, uid);
    hide Linked, Splice, Partition;
  }

  lemma EraseMeans(lay: Layout, h: Heap, uid: u32)
    requires Valid(lay, h) && uid in h.rings
    ensures Valid(lay, Erased(lay, h, uid))
    ensures ContentsOf(lay, Erased(lay, h, uid)) == ContentsOf(lay, h) - {uid}
  {
    hide Valid, ContentsOf, BufferOf, Splice;
    EraseKeepsValid(lay, h, uid);
    BufferIn(lay, h, uid);
    var h' := Erased(lay, h, uid);
    forall u | u in h.rings && u != uid
      ensures u in h.owner && h'.owner[u] == h.owner[u] < |h.cells| && h'.cells[h.owner[u]] == h.cells[h.owner[u]]
    {
      BufferIn(lay, h, u);
      SlotsDiffer(lay, h, u, uid);
    }
    ContentsFrame(lay, h, h', uid);
  }
}
