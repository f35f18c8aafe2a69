/** Snapshot writing, snapshot loading and log replay as they run on the store in memory. */
module Recovery {
  import opened Bytes
  import opened Records
  import opened AofCodec
  import opened Replay
  import opened SnapshotFile
  import opened Restart
  import opened Stores

  function LimitsOf(cfg: Config): Limits {
    Limits(cfg.capacity, cfg.slots)
  }

  lemma {:induction false} EncodeKeysAppend(order: seq<u32>, uid: u32, c: Contents)
    ensures EncodeKeys(order + [uid], c) == EncodeKeys(order, c) + EncodeKey(uid, GetOrEmpty(c, uid))
  {
    hide EncodeKey;
    if order == [] {
      assert EncodeKeys([uid], c) == EncodeKey(uid, GetOrEmpty(c, uid)) + EncodeKeys([], c);
    } else {
      assert (order + [uid])[1..] == order[1..] + [uid];
      EncodeKeysAppend(order[1..], uid, c);
    }
  }

  /** One key of the file. */
  method DumpKey(store: Store, uid: u32) returns (b: seq<u8>)
    requires store.Valid() && uid in store.rings
    ensures b == EncodeKey(uid, store.BufferAt(uid))
  {
    hide Store.Valid, Store.Model, EncodeRecords, Encode;
    store.RingOf(uid);
    var r := store.rings[uid];
    var records := store.DumpRecords(uid);
    b := Encode(uid, 4) + Encode(r.lastWrite, 8) + Encode(r.count, 2) + records;
  }

  /** The file after `i` keys. */
  ghost function Partial(ts: u64, order: seq<u32>, c: Contents, i: nat): seq<u8>
    requires i <= |order|
  {
    EncodeFileHeader(ts, |c|) + EncodeKeys(order[..i], c)
  }

  lemma PartialStep(ts: u64, order: seq<u32>, c: Contents, i: nat)
    requires i < |order|
    ensures Partial(ts, order, c, i + 1) == Partial(ts, order, c, i) + EncodeKey(order[i], GetOrEmpty(c, order[i]))
  {
    hide EncodeKeys, EncodeKey, EncodeFileHeader;
    EncodeKeysAppend(order[..i], order[i], c);
    assert order[..i + 1] == order[..i] + [order[i]];
  }

  lemma PartialEnds(ts: u64, order: seq<u32>, c: Contents)
    ensures Partial(ts, order, c, 0) == EncodeFileHeader(ts, |c|)
    ensures Partial(ts, order, c, |order|) == Dump(order, c, ts)
  {
    hide EncodeFileHeader;
    assert order[..|order|] == order;
  }

  /** The keys of the map in whatever order it yields them. */
  method Walk(store: Store) returns (order: seq<u32>)
    requires store.Valid()
    ensures Enumerates(order, store.Model())
  {
    hide Store.Valid, Store.Model, WellFormed;
    order := [];
    var todo := store.rings.Keys;
    ghost var c := store.Model();
    while todo != {}
      invariant todo <= c.Keys
      invariant forall uid :: uid in order <==> uid in c && uid !in todo
      invariant forall i, j :: 0 <= i < j < |order| ==> order[i] != order[j]
      invariant |order| + |todo| == |c.Keys|
      decreases |todo|
    {
      var uid :| uid in todo;
      order := order + [uid];
      todo := todo - {uid};
    }
    assert |c| == |c.Keys|;
  }

  /** What the forked child writes; `order` is the order in which it walks the map. */
  method DumpSnapshot(store: Store, order: seq<u32>, ts: u64) returns (file: seq<u8>)
    requires store.Valid() && Enumerates(order, store.Model())
    ensures file == Dump(order, store.Model(), ts)
  {
    hide Store.Valid, Store.Model, WellFormed, EncodeKey, EncodeFileHeader, Partial, Dump;
    ghost var c := store.Model();
    assert forall i :: 0 <= i < |order| ==> order[i] in c;
    hide Enumerates;
    assert |store.rings| == |store.rings.Keys| && |c| == |c.Keys|;
    PartialEnds(ts, order, c);
    file := EncodeFileHeader(ts, |store.rings|);
    for i := 0 to |order|
      invariant file == Partial(ts, order, c, i)
    {
      var key := DumpKey(store, order[i]);
      PartialStep(ts, order, c, i);
      file := file + key;
    }
  }

  /** The loop over one key's records. */
  method LoadRecordsInto(store: Store, uid: u32, data: seq<u8>, from: nat, count: u16, ts: u64) returns (pos: nat)
    requires store.Valid() && uid in store.Model() && from <= |data|
    modifies store, store.mem
    ensures store.Valid()
    ensures pos == from + RecordBytes(data[from..], count) <= |data|
    ensures store.Model() == old(store.Model())[uid :=
              LoadRecords(old(store.Model())[uid], data[from..], count, ts, store.cfg.capacity)]
  {
    hide Store.Valid, Store.Model, WellFormed, DecodeRecord, PushBuffer, LoadRecords, RecordBytes;
    pos := from;
    var i := 0;
    ghost var c := store.Model();
    ghost var n := store.cfg.capacity;
    assert c == c[uid := c[uid]];
    while i < count && pos + 17 <= |data|
      invariant 0 <= i <= count && from <= pos <= |data|
      invariant store.Valid() && uid in store.Model()
      invariant store.Model() == c[uid := store.Model()[uid]]
      invariant LoadRecords(store.Model()[uid], data[pos..], count - i, ts, n)
             == LoadRecords(c[uid], data[from..], count, ts, n)
      invariant pos + RecordBytes(data[pos..], count - i) == from + RecordBytes(data[from..], count)
    {
      RecordsStep(store.Model()[uid], data, pos, count - i, ts, n);
      store.Push(uid, DecodeRecord(data[pos..pos + 17]), ts);
      pos := pos + 17;
      i := i + 1;
    }
    RecordsDone(store.Model()[uid], data[pos..], count - i, ts, n);
  }

  /** One turn of that loop, with slices of the whole file. */
  lemma RecordsStep(b: Buffer, data: seq<u8>, pos: nat, count: nat, ts: u64, n: nat)
    requires count > 0 && pos + 17 <= |data|
    ensures LoadRecords(b, data[pos..], count, ts, n)
         == LoadRecords(PushBuffer(b, DecodeRecord(data[pos..pos + 17]), ts, n), data[pos + 17..], count - 1, ts, n)
    ensures RecordBytes(data[pos..], count) == 17 + RecordBytes(data[pos + 17..], count - 1)
  {
    hide DecodeRecord, PushBuffer;
    assert data[pos..][..17] == data[pos..pos + 17];
    assert data[pos..][17..] == data[pos + 17..];
  }

  lemma RecordsDone(b: Buffer, data: seq<u8>, count: nat, ts: u64, n: nat)
    requires count == 0 || |data| < 17
    ensures LoadRecords(b, data, count, ts, n) == b && RecordBytes(data, count) == 0
  {
  }

  ghost predicate Became(o: Outcome, ok: bool, store: Store)
    requires store.Valid()
    reads store, store.mem
  {
    match o
    case Loaded(c) => ok && store.Model() == c
    case Exhausted => !ok
  }

  /** `parse_snapshot` on any byte string. `ok` is false when the allocator's assertion fails. */
  method ParseSnapshot(store: Store, data: seq<u8>) returns (ok: bool, ts: u64)
    requires store.Valid()
    modifies store, store.mem
    ensures store.Valid()
    ensures var load := LoadSnapshot(old(store.Model()), data, LimitsOf(store.cfg));
            Became(load.outcome, ok, store) && ts == load.ts
  {
    hide Store.Valid, Store.Model, LoadKeys, DecodeU32, DecodeU64;
    ok, ts := true, 0;
    if |data| < 17 { return; }
    if DecodeU32(data[0..4]) != MAGIC { return; }
    ts := DecodeU64(data[5..13]);
    var keys := DecodeU32(data[13..17]);
    ok := ParseKeys(store, data, keys);
  }

  /** One key: its user is created if absent, and its records are pushed. */
  method ParseKey(store: Store, data: seq<u8>, from: nat) returns (ok: bool, pos: nat)
    requires store.Valid() && from + 14 <= |data|
    modifies store, store.mem
    ensures store.Valid() && pos <= |data|
    ensures var uid := DecodeU32(data[from..from + 4]);
            var ts := DecodeU64(data[from + 4..from + 12]);
            var count := DecodeU16(data[from + 12..from + 14]);
            var c := old(store.Model());
            && ok == HasRoom(c, uid, LimitsOf(store.cfg))
            && (ok ==> pos == from + 14 + RecordBytes(data[from + 14..], count))
            && (ok ==> store.Model() == c[uid :=
                  LoadRecords(GetOrEmpty(c, uid), data[from + 14..], count, ts, store.cfg.capacity)])
  {
    hide Store.Valid, Store.Model, LoadRecords, RecordBytes, DecodeU16, DecodeU32, DecodeU64;
    var uid := DecodeU32(data[from..from + 4]);
    var ts := DecodeU64(data[from + 4..from + 12]);
    var count := DecodeU16(data[from + 12..from + 14]);
    ok := store.GetOrCreate(uid);
    pos := from;
    if ok {
      pos := LoadRecordsInto(store, uid, data, from + 14, count, ts);
    }
  }

  /** The loop over keys. */
  method ParseKeys(store: Store, data: seq<u8>, keys: u32) returns (ok: bool)
    requires store.Valid() && |data| >= 17
    modifies store, store.mem
    ensures store.Valid()
    ensures Became(LoadKeys(old(store.Model()), data[17..], keys, LimitsOf(store.cfg)), ok, store)
  {
    hide Store.Valid, Store.Model, LoadKeys, LoadRecords, RecordBytes, DecodeU16, DecodeU32, DecodeU64;
    ghost var lim := LimitsOf(store.cfg);
    ghost var goal := LoadKeys(store.Model(), data[17..], keys, lim);
    var pos: nat, i: nat := 17, 0;
    while i < keys && pos + 14 <= |data|
      invariant i <= keys && pos <= |data|
      invariant store.Valid()
      invariant LoadKeys(store.Model(), data[pos..], keys - i, lim) == goal
    {
      LoadKeysUnfold(store.Model(), data, pos, keys - i, lim);
      ok, pos := ParseKey(store, data, pos);
      if !ok { return; }
      i := i + 1;
    }
    ok := true;
    LoadKeysDone(store.Model(), data[pos..], keys - i, lim);
  }

  /** One turn of the loop, with slices of the whole file. */
  lemma LoadKeysUnfold(c: Contents, data: seq<u8>, pos: nat, keys: nat, lim: Limits)
    requires keys > 0 && pos + 14 <= |data|
    ensures LoadKeys(c, data[pos..], keys, lim)
         == (var uid := DecodeU32(data[pos..pos + 4]);
             var ts := DecodeU64(data[pos + 4..pos + 12]);
             var count := DecodeU16(data[pos + 12..pos + 14]);
             var rest := data[pos + 14..];
             if !HasRoom(c, uid, lim) then Exhausted
             else LoadKeys(c[uid := LoadRecords(GetOrEmpty(c, uid), rest, count, ts, lim.n)],
                           data[pos + 14 + RecordBytes(rest, count)..], keys - 1, lim))
  {
    hide DecodeU16, DecodeU32, DecodeU64, LoadRecords, RecordBytes;
    KeySlices(data, pos);
    var count := DecodeU16(data[pos + 12..pos + 14]);
    assert data[pos..][14 + RecordBytes(data[pos + 14..], count)..]
        == data[pos + 14 + RecordBytes(data[pos + 14..], count)..];
  }

  lemma KeySlices(data: seq<u8>, pos: nat)
    requires pos + 14 <= |data|
    ensures var d := data[pos..];
            && d[..4] == data[pos..pos + 4] && d[4..12] == data[pos + 4..pos + 12]
            && d[12..14] == data[pos + 12..pos + 14] && d[14..] == data[pos + 14..]
  {
  }

  /** The entry at `pos`, as slices of the whole file. */
  lemma ParseLogUnfold(data: seq<u8>, pos: nat)
    requires pos <= |data|
    ensures ParseLog(data[pos..])
         == (if pos + 15 > |data| then []
             else
               var length := DecodeU16(data[pos + 13..pos + 15]);
               if pos + 15 + length > |data| then []
               else
                 var e := Entry(data[pos], DecodeU32(data[pos + 1..pos + 5]), DecodeU64(data[pos + 5..pos + 13]),
                                data[pos + 15..pos + 15 + length]);
                 [e] + ParseLog(data[pos + 15 + length..]))
  {
    hide DecodeU16, DecodeU32, DecodeU64;
    var d := data[pos..];
    if pos + 15 <= |data| {
      assert d[1..5] == data[pos + 1..pos + 5] && d[5..13] == data[pos + 5..pos + 13];
      assert d[13..15] == data[pos + 13..pos + 15];
      var length := DecodeU16(data[pos + 13..pos + 15]);
      if pos + 15 + length <= |data| {
        assert d[15..15 + length] == data[pos + 15..pos + 15 + length];
        assert d[15 + length..] == data[pos + 15 + length..];
      }
    }
  }

  /** Acts on one entry. */
  method ReplayEntryInto(store: Store, e: LogEntry, since: u64) returns (ok: bool)
    requires store.Valid()
    modifies store, store.mem
    ensures store.Valid()
    ensures Became(ReplayEntry(old(store.Model()), e, since, LimitsOf(store.cfg)), ok, store)
  {
    hide Store.Valid, Store.Model, DecodeRecord, PushTo;
    ok := true;
    if e.ts <= since { return; }
    if e.opcode == OPCODE_PUSH && |e.payload| == 17 {
      ok := store.CreateAndPush(e.uid, DecodeRecord(e.payload), e.ts);
    } else if e.opcode == OPCODE_DEL {
      store.Erase(e.uid);
    }
  }

  /** `replay_aof` on any byte string, reading strictly forward to the first torn entry. */
  method ReplayAof(store: Store, data: seq<u8>, since: u64) returns (ok: bool)
    requires store.Valid()
    modifies store, store.mem
    ensures store.Valid()
    ensures Became(ReplayAll(old(store.Model()), ParseLog(data), since, LimitsOf(store.cfg)), ok, store)
  {
    hide Store.Valid, Store.Model, ParseLog, ReplayEntry, DecodeU16, DecodeU32, DecodeU64;
    ghost var lim := LimitsOf(store.cfg);
    ghost var goal := ReplayAll(store.Model(), ParseLog(data), since, lim);
    var pos: nat := 0;
    ok := true;
    assert data[0..] == data;
    while true
      invariant pos <= |data|
      invariant store.Valid()
      invariant ReplayAll(store.Model(), ParseLog(data[pos..]), since, lim) == goal
      invariant ok
      decreases |data| - pos
    {
      ParseLogUnfold(data, pos);
      if pos + 15 > |data| { break; }
      var opcode := data[pos];
      var uid := DecodeU32(data[pos + 1..pos + 5]);
      var ts := DecodeU64(data[pos + 5..pos + 13]);
      var length := DecodeU16(data[pos + 13..pos + 15]);
      pos := pos + 15;
      if pos + length > |data| { break; }
      var e := Entry(opcode, uid, ts, data[pos..pos + length]);
      pos := pos + length;
      ReplayCons(store.Model(), e, ParseLog(data[pos..]), since, lim);
      ok := ReplayEntryInto(store, e, since);
      if !ok { return; }
    }
  }

  lemma ReplayCons(c: Contents, e: LogEntry, es: seq<LogEntry>, since: u64, lim: Limits)
    ensures ReplayAll(c, [e] + es, since, lim) == Then(ReplayEntry(c, e, since, lim), es, since, lim)
  {
    hide ReplayEntry;
    assert ([e] + es)[1..] == es;
  }

  /** `recover` on a new store. */
  method Recover(store: Store, snapshot: OnDisk, aof: OnDisk) returns (ok: bool)
    requires store.Valid() && store.Model() == map[]
    modifies store, store.mem
    ensures store.Valid()
    ensures Became(Recovered(snapshot, aof, LimitsOf(store.cfg)), ok, store)
  {
    hide Store.Valid, Store.Model, LoadSnapshot, ReplayAll, ParseLog;
    var since := 0;
    ok := true;
    if snapshot.File? {
      ok, since := ParseSnapshot(store, snapshot.bytes);
    }
    if ok {
      ReplayNoFile(store.Model(), since, LimitsOf(store.cfg));
      if aof.File? {
        ok := ReplayAof(store, aof.bytes, since);
      }
    }
  }

  lemma ReplayNoFile(c: Contents, since: u64, lim: Limits)
    ensures ReplayAll(c, ParseLog([]), since, lim) == Loaded(c)
  {
  }
}
