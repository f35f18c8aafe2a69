/** What loading makes of a snapshot file that was cut off at any byte. */
module TornSnapshot {
  import opened Bytes
  import opened Records
  import opened Replay
  import opened SnapshotFile

  function KeySize(b: Buffer): nat { 14 + 17 * |b.records| }

  /** The first `j` records of a buffer, as loading leaves them. */
  function Cut(b: Buffer, j: nat): Buffer
    requires j <= |b.records|
  {
    if j == 0 then EMPTY_BUFFER else Buffer(b.records[..j], b.lastWrite)
  }

  /** What the first `m` bytes after the header hold: whole keys, then the whole records of the key that is cut. */
  function Front(acc: Contents, order: seq<u32>, c: Contents, m: nat): Contents
    requires forall uid :: uid in order ==> uid in c
    decreases order
  {
    if order == [] || m < 14 then acc
    else
      var b := c[order[0]];
      if m >= KeySize(b) then Front(acc[order[0] := b], order[1..], c, m - KeySize(b))
      else acc[order[0] := Cut(b, (m - 14) / 17)]
  }

  /** The bytes of the record that is cut, if another key was to follow. */
  function Stray(order: seq<u32>, c: Contents, m: nat): (s: seq<u8>)
    requires forall uid :: uid in order ==> uid in c
    ensures |s| < 17
    decreases order
  {
    if |order| <= 1 || m < 14 then []
    else
      var b := c[order[0]];
      if m >= KeySize(b) then Stray(order[1..], c, m - KeySize(b))
      else EncodeRecord(b.records[(m - 14) / 17])[..(m - 14) % 17]
  }

  /** The loop over keys reads 14 stray bytes or more as the header of one more key, without records. */
  function WithStray(front: Contents, stray: seq<u8>, lim: Limits): Outcome {
    if |stray| < 14 then Loaded(front)
    else
      var uid := DecodeU32(stray[..4]);
      if uid in front then Loaded(front)
      else if |front| < lim.slots then Loaded(front[uid := EMPTY_BUFFER])
      else Exhausted
  }

  // ----- the records of the key that is cut -----

  /** The whole records among the first `k` bytes are loaded. */
  lemma {:induction false} LoadRecordsCut(b: Buffer, records: seq<Record>, k: nat, ts: u64, n: nat)
    requires k < 17 * |records| && |b.records| + |records| <= n
    ensures 0 <= k / 17 < |records|
    ensures LoadRecords(b, EncodeRecords(records)[..k], |records|, ts, n)
         == if k < 17 then b else Buffer(b.records + records[..k / 17], ts)
    ensures RecordBytes(EncodeRecords(records)[..k], |records|) == 17 * (k / 17)
    decreases records
  {
    hide DecodeRecord, EncodeRecord, EncodeRecords;
    if k >= 17 {
      hide LoadRecords, RecordBytes;
      var data := EncodeRecords(records)[..k];
      Divide(k);
      CutAfterFirst(records, k);
      LoadRecordsNext(b, data, |records|, ts, n);
      RecordRoundTrip(records[0]);
      var b' := PushBuffer(b, records[0], ts, n);
      assert b' == Buffer(b.records + [records[0]], ts);
      LoadRecordsCut(b', records[1..], k - 17, ts, n);
      FirstAndMore(b.records, records, k / 17);
    }
  }

  lemma FirstAndMore(front: seq<Record>, records: seq<Record>, j: nat)
    requires 1 <= j <= |records|
    ensures front + [records[0]] + records[1..][..j - 1] == front + records[..j]
    ensures j == 1 ==> front + [records[0]] == front + records[..j]
  {
  }

  lemma CutAfterFirst(records: seq<Record>, k: nat)
    requires 17 <= k < 17 * |records|
    ensures var data := EncodeRecords(records)[..k];
            data[..17] == EncodeRecord(records[0]) && data[17..] == EncodeRecords(records[1..])[..k - 17]
  {
    assert EncodeRecords(records) == EncodeRecord(records[0]) + EncodeRecords(records[1..]);
    hide EncodeRecord, EncodeRecords;
    CutOfTwo(EncodeRecord(records[0]), EncodeRecords(records[1..]), k);
  }

  lemma CutOfTwo(a: seq<u8>, b: seq<u8>, k: nat)
    requires |a| <= k <= |a| + |b|
    ensures (a + b)[..k][..|a|] == a && (a + b)[..k][|a|..] == b[..k - |a|]
  {
  }

  /** What is left is the front of the next record. */
  lemma {:induction false} RestOfCut(records: seq<Record>, k: nat)
    requires k < 17 * |records|
    ensures 0 <= k / 17 < |records|
    ensures EncodeRecords(records)[..k][17 * (k / 17)..] == EncodeRecord(records[k / 17])[..k % 17]
    decreases records
  {
    hide EncodeRecord;
    if k < 17 {
      assert EncodeRecords(records)[..k] == EncodeRecord(records[0])[..k];
    } else {
      Divide(k);
      RestOfCut(records[1..], k - 17);
      var data := EncodeRecords(records)[..k];
      CutAfterFirst(records, k);
      assert data[17 * (k / 17)..] == data[17..][17 * ((k - 17) / 17)..];
    }
  }

  lemma Divide(k: nat)
    requires k >= 17
    ensures k / 17 == (k - 17) / 17 + 1 && k % 17 == (k - 17) % 17
  {
  }

  lemma LoadRecordsNext(b: Buffer, data: seq<u8>, count: nat, ts: u64, n: nat)
    requires count > 0 && |data| >= 17
    ensures LoadRecords(b, data, count, ts, n)
         == LoadRecords(PushBuffer(b, DecodeRecord(data[..17]), ts, n), data[17..], count - 1, ts, n)
    ensures RecordBytes(data, count) == 17 + RecordBytes(data[17..], count - 1)
  {
    hide DecodeRecord, PushBuffer;
  }

  // ----- keys -----

  /** Too few bytes for a record: a key without records, then nothing more. */
  lemma StrayKey(c: Contents, stray: seq<u8>, keys: nat, lim: Limits)
    requires |stray| < 17 && keys > 0
    ensures LoadKeys(c, stray, keys, lim) == WithStray(c, stray, lim)
  {
    hide DecodeU16, DecodeU32, DecodeU64;
    if |stray| >= 14 {
      var uid := DecodeU32(stray[..4]);
      var b := GetOrEmpty(c, uid);
      assert c[uid := b] == if uid in c then c else c[uid := EMPTY_BUFFER];
      LoadKeysDone(c[uid := b], stray[14..], keys - 1, lim);
    }
  }

  /** The key that the cut falls in. */
  lemma KeyCut(acc: Contents, uid: u32, b: Buffer, m: nat, keys: nat, lim: Limits)
    requires uid !in acc && |acc| < lim.slots && keys > 0
    requires |b.records| <= lim.n < 0x1_0000 && 14 <= m < KeySize(b)
    ensures (m - 14) / 17 < |b.records| && |EncodeKey(uid, b)| == KeySize(b)
    ensures LoadKeys(acc, EncodeKey(uid, b)[..m], keys, lim)
         == LoadKeys(acc[uid := Cut(b, (m - 14) / 17)], EncodeRecord(b.records[(m - 14) / 17])[..(m - 14) % 17],
                     keys - 1, lim)
  {
    hide EncodeRecords, LoadRecords, RecordBytes, EncodeKey, DecodeU16, DecodeU32, DecodeU64, EncodeRecord;
    KeyParts(uid, b, m);
    var data, k := EncodeKey(uid, b)[..m], m - 14;
    LoadRecordsCut(EMPTY_BUFFER, b.records, k, b.lastWrite, lim.n);
    RestOfCut(b.records, k);
    assert EMPTY_BUFFER.records + b.records[..k / 17] == b.records[..k / 17];
    assert data[14 + 17 * (k / 17)..] == data[14..][17 * (k / 17)..];
  }

  lemma KeyParts(uid: u32, b: Buffer, m: nat)
    requires |b.records| < 0x1_0000 && 14 <= m <= KeySize(b)
    ensures |EncodeKey(uid, b)| == KeySize(b)
    ensures var data := EncodeKey(uid, b)[..m];
            && |data| == m && DecodeU32(data[..4]) == uid && DecodeU64(data[4..12]) == b.lastWrite
            && DecodeU16(data[12..14]) == |b.records| && data[14..] == EncodeRecords(b.records)[..m - 14]
  {
    hide DecodeU16, DecodeU32, DecodeU64, EncodeRecords, Encode;
    KeyFields(uid, b, []);
    var whole := EncodeKey(uid, b);
    assert whole + [] == whole && EncodeRecords(b.records) + [] == EncodeRecords(b.records);
    var data := whole[..m];
    assert data[..4] == whole[..4] && data[4..12] == whole[4..12] && data[12..14] == whole[12..14];
    assert data[14..] == whole[14..][..m - 14];
  }

  lemma FrontOfKeys(uid: u32, b: Buffer, rest: seq<u8>, m: nat)
    requires |EncodeKey(uid, b)| == KeySize(b) && m <= KeySize(b) + |rest|
    ensures (EncodeKey(uid, b) + rest)[..m]
         == if m < KeySize(b) then EncodeKey(uid, b)[..m] else EncodeKey(uid, b) + rest[..m - KeySize(b)]
  {
    hide EncodeKey;
  }

  /** The cut falls in the first key. */
  lemma LastKeys(acc: Contents, order: seq<u32>, c: Contents, m: nat, lim: Limits)
    requires order != [] && (forall uid :: uid in order ==> uid in c) && order[0] !in acc && |acc| < lim.slots
    requires |c[order[0]].records| <= lim.n < 0x1_0000 && 14 <= m < KeySize(c[order[0]])
    ensures |EncodeKey(order[0], c[order[0]])| == KeySize(c[order[0]])
    ensures LoadKeys(acc, EncodeKey(order[0], c[order[0]])[..m], |order|, lim)
         == WithStray(Front(acc, order, c, m), Stray(order, c, m), lim)
  {
    hide EncodeKey, LoadKeys, EncodeRecord, WithStray, DecodeU32;
    var uid, b := order[0], c[order[0]];
    KeyCut(acc, uid, b, m, |order|, lim);
    var front := acc[uid := Cut(b, (m - 14) / 17)];
    var stray := EncodeRecord(b.records[(m - 14) / 17])[..(m - 14) % 17];
    if |order| == 1 {
      LoadKeysDone(front, stray, 0, lim);
      NoStray(front, lim);
    } else {
      StrayKey(front, stray, |order| - 1, lim);
    }
  }

  lemma NoStray(front: Contents, lim: Limits)
    ensures WithStray(front, [], lim) == Loaded(front)
  {
  }

  lemma {:induction false} LoadKeysCut(acc: Contents, order: seq<u32>, c: Contents, m: nat, lim: Limits)
    requires forall uid :: uid in order ==> uid in c && uid !in acc
    requires forall i, j :: 0 <= i < j < |order| ==> order[i] != order[j]
    requires |acc| + |order| <= lim.slots && lim.n < 0x1_0000 && WellFormed(c, lim.n)
    requires m <= |EncodeKeys(order, c)|
    ensures LoadKeys(acc, EncodeKeys(order, c)[..m], |order|, lim)
         == WithStray(Front(acc, order, c, m), Stray(order, c, m), lim)
    decreases order
  {
    hide EncodeKey, LoadKeys, EncodeRecord, WithStray, Cut;
    var data := EncodeKeys(order, c)[..m];
    if order == [] || m < 14 {
      LoadKeysDone(acc, data, |order|, lim);
      NoStray(acc, lim);
    } else {
      var uid, b, rest := order[0], c[order[0]], EncodeKeys(order[1..], c);
      KeyParts(uid, b, 14);
      FrontOfKeys(uid, b, rest, m);
      if m < KeySize(b) {
        LastKeys(acc, order, c, m, lim);
      } else {
        LoadKeyEncoded(acc, uid, b, rest[..m - KeySize(b)], |order|, lim);
        assert |acc[uid := b]| == |acc| + 1;
        LoadKeysCut(acc[uid := b], order[1..], c, m - KeySize(b), lim);
      }
    }
  }

  /**
   A snapshot cut at any byte. Loading gives the keys wholly before the cut and the whole records of the key it falls
   in; but when the cut leaves 14 bytes or more of a record and another key was to follow, those bytes are taken for
   a key of their own.
   */
  lemma TornSnapshotLoads(order: seq<u32>, c: Contents, ts: u64, n: nat, lim: Limits)
    requires Enumerates(order, c) && WellFormed(c, lim.n) && lim.n < 0x1_0000 && |c| <= lim.slots < 0x1_0000_0000
    requires n <= |Dump(order, c, ts)|
    ensures LoadSnapshot(map[], Dump(order, c, ts)[..n], lim)
         == if n < 17 then Load(Loaded(map[]), 0)
            else Load(WithStray(Front(map[], order, c, n - 17), Stray(order, c, n - 17), lim), ts)
  {
    hide EncodeKeys, LoadKeys, EncodeFileHeader, DecodeU32, DecodeU64, Front, Stray, WithStray;
    if n >= 17 {
      var data := Dump(order, c, ts)[..n];
      assert data == EncodeFileHeader(ts, |c|) + EncodeKeys(order, c)[..n - 17];
      HeaderFields(ts, |c|, EncodeKeys(order, c)[..n - 17]);
      LoadKeysCut(map[], order, c, n - 17, lim);
    }
  }

  /** Every key is one of the dump, with the first of its records. */
  ghost predicate PartOf(a: Contents, c: Contents) {
    forall uid :: uid in a ==> uid in c && a[uid].records <= c[uid].records
  }

  lemma {:induction false} FrontIsPart(acc: Contents, order: seq<u32>, c: Contents, m: nat)
    requires (forall uid :: uid in order ==> uid in c) && PartOf(acc, c)
    ensures PartOf(Front(acc, order, c, m), c)
    decreases order
  {
    if order != [] && m >= 14 && m >= KeySize(c[order[0]]) {
      FrontIsPart(acc[order[0] := c[order[0]]], order[1..], c, m - KeySize(c[order[0]]));
    }
  }

  /**
   So a torn snapshot loads to a part of what was dumped if and only if the cut leaves less than 14 bytes of a record,
   or no key was to follow, or the user that the stray bytes spell is one of the dump's.
   */
  lemma TornSnapshotIsPartIff(order: seq<u32>, c: Contents, ts: u64, n: nat, lim: Limits)
    requires Enumerates(order, c) && WellFormed(c, lim.n) && lim.n < 0x1_0000 && |c| <= lim.slots < 0x1_0000_0000
    requires 17 <= n <= |Dump(order, c, ts)|
    ensures var o, stray := LoadSnapshot(map[], Dump(order, c, ts)[..n], lim).outcome, Stray(order, c, n - 17);
            o.Loaded? ==> (PartOf(o.contents, c) <==> |stray| < 14 || DecodeU32(stray[..4]) in c)
  {
    hide LoadSnapshot, Dump, Front, Stray, DecodeU32, Enumerates, WellFormed;
    TornSnapshotLoads(order, c, ts, n, lim);
    assert forall uid :: uid in order ==> uid in c by { OrderIn(order, c); }
    FrontIsPart(map[], order, c, n - 17);
  }

  lemma OrderIn(order: seq<u32>, c: Contents)
    requires Enumerates(order, c)
    ensures forall uid :: uid in order ==> uid in c
  {
  }

  /** Two users with a record each, cut 14 bytes into the first record: a third user appears that nobody ever wrote. */
  lemma PhantomUser(lim: Limits)
    requires 1 <= lim.n < 0x1_0000 && 2 <= lim.slots < 0x1_0000_0000
    ensures var b := Buffer([Record(7, 0, 0)], 5);
            var c: Contents := map[1 := b, 2 := b];
            && 45 <= |Dump([1, 2], c, 9)|
            && LoadSnapshot(map[], Dump([1, 2], c, 9)[..45], lim)
               == Load(Loaded(map[1 := EMPTY_BUFFER, 7 := EMPTY_BUFFER]), 9)
  {
    var r := Record(7, 0, 0);
    var b := Buffer([r], 5);
    var c: Contents := map[1 := b, 2 := b];
    hide LoadSnapshot, Dump, EncodeRecord, DecodeU32, Stray, Front, Enumerates, WellFormed;
    TwoUsers(c, b, lim.n);
    DumpSize(c, b);
    TornSnapshotLoads([1, 2], c, 9, 45, lim);
    CutInFirst(c, b);
    StrayUser(r);
    var front: Contents := map[1 := EMPTY_BUFFER];
    assert |front| == 1 && front[7 := EMPTY_BUFFER] == map[1 := EMPTY_BUFFER, 7 := EMPTY_BUFFER];
  }

  lemma TwoUsers(c: Contents, b: Buffer, n: nat)
    requires c == map[1 := b, 2 := b] && |b.records| == 1 <= n
    ensures Enumerates([1, 2], c) && WellFormed(c, n) && |c| == 2
  {
    assert c.Keys == {1, 2};
    assert |c| == |c.Keys|;
  }

  lemma CutInFirst(c: Contents, b: Buffer)
    requires c == map[1 := b, 2 := b] && |b.records| == 1
    ensures Stray([1, 2], c, 28) == EncodeRecord(b.records[0])[..14]
    ensures Front(map[], [1, 2], c, 28) == map[1 := EMPTY_BUFFER]
  {
    hide EncodeRecord;
    assert (28 - 14) / 17 == 0 && (28 - 14) % 17 == 14;
  }

  lemma DumpSize(c: Contents, b: Buffer)
    requires c == map[1 := b, 2 := b] && |b.records| == 1
    ensures 45 <= |Dump([1, 2], c, 9)|
  {
    hide EncodeKey, EncodeFileHeader;
    KeyParts(1, b, 14);
    assert EncodeKeys([1, 2], c) == EncodeKey(1, b) + EncodeKeys([1, 2][1..], c);
  }

  lemma StrayUser(r: Record)
    requires r == Record(7, 0, 0)
    ensures DecodeU32(EncodeRecord(r)[..14][..4]) == 7
  {
    var s := EncodeRecord(r)[..14][..4];
    assert Encode(0, 8) == [0] + Encode(0, 7) && Encode(0, 7) == [0] + Encode(0, 6);
    assert Encode(0, 6) == [0] + Encode(0, 5);
    assert s == [7, 0, 0, 0];
    LittleEndian4(s);
    DecodedU32(s);
  }
}
