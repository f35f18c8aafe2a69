/** The snapshot file: what the forked child writes and what loading any byte string yields. */
module SnapshotFile {
  import opened Bytes
  import opened Records
  import opened Replay

  const MAGIC: u32 := 0x574C4F58
  const VERSION: u8 := 1

  // ----- writing -----

  function EncodeKey(uid: u32, b: Buffer): seq<u8> {
    Encode(uid, 4) + Encode(b.lastWrite, 8) + Encode(|b.records|, 2) + EncodeRecords(b.records)
  }

  function EncodeKeys(order: seq<u32>, c: Contents): seq<u8> {
    if order == [] then [] else EncodeKey(order[0], GetOrEmpty(c, order[0])) + EncodeKeys(order[1..], c)
  }

  /** `as u32` keeps the low 32 bits of the key count. */
  function EncodeFileHeader(ts: u64, keys: nat): (s: seq<u8>)
    ensures |s| == 17
  {
    Encode(MAGIC, 4) + [VERSION] + Encode(ts, 8) + Encode(keys, 4)
  }

  /** An order in which the map may be walked: every key once. */
  ghost predicate Enumerates(order: seq<u32>, c: Contents) {
    && (forall uid :: uid in order <==> uid in c)
    && (forall i, j :: 0 <= i < j < |order| ==> order[i] != order[j])
    && |order| == |c|
  }

  function Dump(order: seq<u32>, c: Contents, ts: u64): seq<u8> {
    EncodeFileHeader(ts, |c|) + EncodeKeys(order, c)
  }

  lemma MagicBytes()
    ensures Encode(MAGIC, 4) == [0x58, 0x4F, 0x4C, 0x57]
  {
    assert Encode(0x574C4F58, 4) == [0x58] + Encode(0x574C4F, 3);
    assert Encode(0x574C4F, 3) == [0x4F] + Encode(0x574C, 2);
    assert Encode(0x574C, 2) == [0x4C] + Encode(0x57, 1);
    assert Encode(0x57, 1) == [0x57] + Encode(0, 0);
  }

  /** The file's first 17 bytes: "XOLW", the version, the time and the number of keys, each low byte first. */
  lemma FileLayout(order: seq<u32>, c: Contents, ts: u64)
    requires |c| < 0x1_0000_0000
    ensures var s := Dump(order, c, ts);
            && |s| >= 17 && s[..5] == [0x58, 0x4F, 0x4C, 0x57, 1]
            && Number4(s[5], s[6], s[7], s[8]) + 0x1_0000_0000 * Number4(s[9], s[10], s[11], s[12]) == ts
            && Number4(s[13], s[14], s[15], s[16]) == |c|
  {
    hide EncodeFileHeader, Number4, EncodeKeys;
    HeaderLayout(ts, |c|);
  }

  lemma HeaderLayout(ts: u64, keys: u32)
    ensures var s := EncodeFileHeader(ts, keys);
            && s[..5] == [0x58, 0x4F, 0x4C, 0x57, 1]
            && Number4(s[5], s[6], s[7], s[8]) + 0x1_0000_0000 * Number4(s[9], s[10], s[11], s[12]) == ts
            && Number4(s[13], s[14], s[15], s[16]) == keys
  {
    MagicBytes();
    EightBytes(ts);
    FourBytes(keys);
    hide Encode, Number4;
    FourParts(Encode(MAGIC, 4), [VERSION], Encode(ts, 8), Encode(keys, 4));
  }

  // ----- loading -----

  /** Pushes up to `count` records from the front of `data`, stopping where they are cut off. */
  function LoadRecords(b: Buffer, data: seq<u8>, count: nat, ts: u64, n: nat): Buffer
    decreases count
  {
    if count == 0 || |data| < 17 then b
    else LoadRecords(PushBuffer(b, DecodeRecord(data[..17]), ts, n), data[17..], count - 1, ts, n)
  }

  /** How many bytes those records take. */
  function RecordBytes(data: seq<u8>, count: nat): (k: nat)
    ensures k <= |data|
  {
    if count == 0 || |data| < 17 then 0 else 17 + RecordBytes(data[17..], count - 1)
  }

  /** A truncated record list ends the key but not the loop over keys, as in the source. */
  function LoadKeys(c: Contents, data: seq<u8>, keys: nat, lim: Limits): Outcome
    decreases keys
  {
    if keys == 0 || |data| < 14 then Loaded(c)
    else
      var uid := DecodeU32(data[..4]);
      var ts := DecodeU64(data[4..12]);
      var count := DecodeU16(data[12..14]);
      if !HasRoom(c, uid, lim) then Exhausted
      else
        var b := LoadRecords(GetOrEmpty(c, uid), data[14..], count, ts, lim.n);
        LoadKeys(c[uid := b], data[14 + RecordBytes(data[14..], count)..], keys - 1, lim)
  }

  datatype Load = Load(outcome: Outcome, ts: u64)

  function LoadSnapshot(c: Contents, data: seq<u8>, lim: Limits): Load {
    if |data| < 17 || DecodeU32(data[..4]) != MAGIC then Load(Loaded(c), 0)
    else Load(LoadKeys(c, data[17..], DecodeU32(data[13..17]), lim), DecodeU64(data[5..13]))
  }

  /** A file that is too short or does not begin with "XOLW" is no snapshot: nothing is loaded, and no entry skipped. */
  lemma ForeignFileIgnored(c: Contents, data: seq<u8>, lim: Limits)
    requires |data| < 17 || data[..4] != [0x58, 0x4F, 0x4C, 0x57]
    ensures LoadSnapshot(c, data, lim) == Load(Loaded(c), 0)
  {
    hide Encode, Decode, LoadKeys, DecodeU64;
    MagicBytes();
  }

  /** The bytes of a key: user, write time and number of records, each low byte first, then the records oldest first. */
  lemma KeyLayout(uid: u32, b: Buffer)
    requires |b.records| < 0x1_0000
    ensures var s := EncodeKey(uid, b);
            && |s| == 14 + 17 * |b.records| && Number4(s[0], s[1], s[2], s[3]) == uid
            && Number4(s[4], s[5], s[6], s[7]) + 0x1_0000_0000 * Number4(s[8], s[9], s[10], s[11]) == b.lastWrite
            && Number2(s[12], s[13]) == |b.records| && s[14..] == EncodeRecords(b.records)
  {
    FourBytes(uid);
    EightBytes(b.lastWrite);
    TwoBytes(|b.records|);
    hide Encode, Number2, Number4, EncodeRecords;
    FourParts(Encode(uid, 4), Encode(b.lastWrite, 8), Encode(|b.records|, 2), EncodeRecords(b.records));
  }

  // ----- the round trip -----

  lemma {:induction false} LoadRecordsEncoded(b: Buffer, records: seq<Record>, rest: seq<u8>, ts: u64, n: nat)
    requires |b.records| + |records| <= n
    ensures LoadRecords(b, EncodeRecords(records) + rest, |records|, ts, n)
         == if records == [] then b else Buffer(b.records + records, ts)
    ensures RecordBytes(EncodeRecords(records) + rest, |records|) == |EncodeRecords(records)|
    decreases records
  {
    hide DecodeRecord, EncodeRecord;
    if records != [] {
      var data := EncodeRecords(records) + rest;
      var tail := EncodeRecords(records[1..]) + rest;
      assert data == EncodeRecord(records[0]) + tail;
      assert data[..17] == EncodeRecord(records[0]);
      assert data[17..] == tail;
      RecordRoundTrip(records[0]);
      var b' := PushBuffer(b, records[0], ts, n);
      assert b' == Buffer(b.records + [records[0]], ts);
      LoadRecordsEncoded(b', records[1..], rest, ts, n);
      assert b'.records + records[1..] == b.records + records;
    }
  }

  lemma KeyFields(uid: u32, b: Buffer, rest: seq<u8>)
    requires |b.records| < 0x1_0000
    ensures var data := EncodeKey(uid, b) + rest;
            && |data| >= 14 && DecodeU32(data[..4]) == uid && DecodeU64(data[4..12]) == b.lastWrite
            && DecodeU16(data[12..14]) == |b.records| && data[14..] == EncodeRecords(b.records) + rest
  {
    hide Encode, Decode, EncodeRecords;
    var data := EncodeKey(uid, b) + rest;
    assert data[..4] == Encode(uid, 4);
    assert data[4..12] == Encode(b.lastWrite, 8);
    assert data[12..14] == Encode(|b.records|, 2);
    U32RoundTrip(uid);
    U64RoundTrip(b.lastWrite);
    U16RoundTrip(|b.records|);
  }

  /** A key of a reachable store, written and loaded into a store without it, is the same buffer. */
  lemma LoadKeyEncoded(c: Contents, uid: u32, b: Buffer, rest: seq<u8>, keys: nat, lim: Limits)
    requires uid !in c && |c| < lim.slots && keys > 0
    requires |b.records| <= lim.n < 0x1_0000 && (b.records == [] ==> b.lastWrite == 0)
    ensures LoadKeys(c, EncodeKey(uid, b) + rest, keys, lim) == LoadKeys(c[uid := b], rest, keys - 1, lim)
  {
    hide EncodeRecords, LoadRecords, RecordBytes, EncodeKey, DecodeU16, DecodeU32, DecodeU64;
    var data := EncodeKey(uid, b) + rest;
    KeyFields(uid, b, rest);
    LoadRecordsEncoded(EMPTY_BUFFER, b.records, rest, b.lastWrite, lim.n);
    assert EMPTY_BUFFER.records + b.records == b.records;
    assert data[14 + |EncodeRecords(b.records)|..] == rest by {
      assert data[14..][|EncodeRecords(b.records)|..] == rest;
    }
  }

  /** `acc` with the buffers of the listed users put in, one by one. */
  function Added(acc: Contents, order: seq<u32>, c: Contents): Contents
    requires forall uid :: uid in order ==> uid in c
    decreases order
  {
    if order == [] then acc else Added(acc[order[0] := c[order[0]]], order[1..], c)
  }

  lemma {:induction false} AddedAt(acc: Contents, order: seq<u32>, c: Contents, u: u32)
    requires forall uid :: uid in order ==> uid in c
    ensures u in Added(acc, order, c) <==> u in acc || u in order
    ensures u in order ==> Added(acc, order, c)[u] == c[u]
    ensures u in acc && u !in order ==> Added(acc, order, c)[u] == acc[u]
    decreases order
  {
    if order != [] {
      AddedAt(acc[order[0] := c[order[0]]], order[1..], c, u);
      assert u in order <==> u == order[0] || u in order[1..];
    }
  }

  lemma {:induction false} LoadKeysEncoded(acc: Contents, order: seq<u32>, c: Contents, lim: Limits)
    requires forall uid :: uid in order ==> uid in c && uid !in acc
    requires forall i, j :: 0 <= i < j < |order| ==> order[i] != order[j]
    requires |acc| + |order| <= lim.slots && lim.n < 0x1_0000 && WellFormed(c, lim.n)
    ensures LoadKeys(acc, EncodeKeys(order, c), |order|, lim) == Loaded(Added(acc, order, c))
    decreases order
  {
    hide EncodeKey, LoadKeys;
    if order == [] {
      LoadKeysDone(acc, [], 0, lim);
    } else {
      var uid := order[0];
      LoadKeyEncoded(acc, uid, c[uid], EncodeKeys(order[1..], c), |order|, lim);
      assert |acc[uid := c[uid]]| == |acc| + 1;
      LoadKeysEncoded(acc[uid := c[uid]], order[1..], c, lim);
    }
  }

  lemma LoadKeysDone(c: Contents, data: seq<u8>, keys: nat, lim: Limits)
    requires keys == 0 || |data| < 14
    ensures LoadKeys(c, data, keys, lim) == Loaded(c)
  {
  }

  lemma HeaderFields(ts: u64, keys: u32, rest: seq<u8>)
    ensures var data := EncodeFileHeader(ts, keys) + rest;
            && |data| >= 17 && DecodeU32(data[..4]) == MAGIC && DecodeU64(data[5..13]) == ts
            && DecodeU32(data[13..17]) == keys && data[17..] == rest
  {
    hide Encode, Decode;
    var data := EncodeFileHeader(ts, keys) + rest;
    assert data[..4] == Encode(MAGIC, 4);
    assert data[5..13] == Encode(ts, 8);
    assert data[13..17] == Encode(keys, 4);
    U32RoundTrip(MAGIC);
    U64RoundTrip(ts);
    U32RoundTrip(keys);
  }

  /**
   Loading a dump into an empty store of the same size restores it: the same users, records, counts
   and write times, whatever the order in which the map was walked, and never runs out of slots.
   */
  lemma SnapshotRoundTrip(order: seq<u32>, c: Contents, ts: u64, lim: Limits)
    requires Enumerates(order, c) && WellFormed(c, lim.n) && lim.n < 0x1_0000
    requires |c| <= lim.slots < 0x1_0000_0000
    ensures LoadSnapshot(map[], Dump(order, c, ts), lim) == Load(Loaded(c), ts)
  {
    hide EncodeKeys, LoadKeys, EncodeFileHeader, DecodeU32, DecodeU64, Added;
    HeaderFields(ts, |c|, EncodeKeys(order, c));
    LoadKeysEncoded(map[], order, c, lim);
    forall u
      ensures u in Added(map[], order, c) <==> u in c
      ensures u in c ==> Added(map[], order, c)[u] == c[u]
    {
      AddedAt(map[], order, c, u);
    }
  }
}
