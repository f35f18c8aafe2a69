/** The wire record and the abstract store that every component is measured against. */
module Records {
  import opened Bytes

  /** A user event. In memory, on the wire and on disk it is the same 17 packed bytes. */
  datatype Record = Record(eventType: u8, timestamp: u64, urlHash: u64)

  function EncodeRecord(r: Record): (s: seq<u8>)
    ensures |s| == 17
  {
    [r.eventType] + Encode(r.timestamp, 8) + Encode(r.urlHash, 8)
  }

  /** Reading 17 bytes as a record loses nothing: writing the record back gives the same bytes. */
  function DecodeRecord(s: seq<u8>): (r: Record)
    requires |s| == 17
    ensures EncodeRecord(r) == s
  {
    var r := Record(s[0], DecodeU64(s[1..9]), DecodeU64(s[9..17]));
    assert s == [s[0]] + s[1..9] + s[9..17];
    r
  }

  lemma RecordRoundTrip(r: Record)
    ensures DecodeRecord(EncodeRecord(r)) == r
  {
    var s := EncodeRecord(r);
    assert s[1..9] == Encode(r.timestamp, 8);
    assert s[9..17] == Encode(r.urlHash, 8);
    U64RoundTrip(r.timestamp);
    U64RoundTrip(r.urlHash);
  }

  /** The bytes of a record: the event type, then its time and its hash, each low byte first. */
  lemma RecordLayout(r: Record)
    ensures var s := EncodeRecord(r);
            && s[0] == r.eventType
            && Number4(s[1], s[2], s[3], s[4]) + 0x1_0000_0000 * Number4(s[5], s[6], s[7], s[8]) == r.timestamp
            && Number4(s[9], s[10], s[11], s[12]) + 0x1_0000_0000 * Number4(s[13], s[14], s[15], s[16]) == r.urlHash
  {
    EightBytes(r.timestamp);
    EightBytes(r.urlHash);
    hide Encode, Number4;
  }

  /** Records one after the other, as the snapshot file and the GET response hold them. */
  function EncodeRecords(s: seq<Record>): (b: seq<u8>)
    ensures |b| == 17 * |s|
  {
    if s == [] then [] else EncodeRecord(s[0]) + EncodeRecords(s[1..])
  }

  lemma {:induction false} EncodeRecordsAppend(s: seq<Record>, r: Record)
    ensures EncodeRecords(s + [r]) == EncodeRecords(s) + EncodeRecord(r)
  {
    if s == [] {
      assert EncodeRecords([r]) == EncodeRecord(r) + EncodeRecords([]);
    } else {
      assert (s + [r])[1..] == s[1..] + [r];
      EncodeRecordsAppend(s[1..], r);
    }
  }

  /** A part of a finite set is no larger than the set. */
  lemma SubsetSize<T>(a: set<T>, b: set<T>)
    requires a <= b
    ensures |a| <= |b|
  {
    assert b == a + (b - a);
    assert |a + (b - a)| == |a| + |b - a|;
  }

  /** What one user's ring buffer means: its records oldest first, and the server time of its last write. */
  datatype Buffer = Buffer(records: seq<Record>, lastWrite: u64)

  /** What a store means. */
  type Contents = map<u32, Buffer>

  const EMPTY_BUFFER := Buffer([], 0)

  /** The last `n` elements of `s`, or all of them. */
  function Newest<T>(s: seq<T>, n: nat): (r: seq<T>)
    ensures |r| == if |s| <= n then |s| else n
    ensures forall i :: 0 <= i < |r| ==> r[i] == s[|s| - |r| + i]
  {
    if |s| <= n then s else s[|s| - n..]
  }

  function PushBuffer(b: Buffer, r: Record, ts: u64, n: nat): Buffer {
    Buffer(Newest(b.records + [r], n), ts)
  }

  function GetOrEmpty(c: Contents, uid: u32): Buffer {
    if uid in c then c[uid] else EMPTY_BUFFER
  }

  /** A PUSH: the user's buffer is created if absent, and its oldest record makes room for the new one. */
  function PushTo(c: Contents, uid: u32, r: Record, ts: u64, n: nat): Contents {
    c[uid := PushBuffer(GetOrEmpty(c, uid), r, ts, n)]
  }

  /** What holds of every store that `get_or_create`, `push` and `erase` can build. */
  predicate WellFormed(c: Contents, n: nat) {
    forall uid :: uid in c ==> |c[uid].records| <= n && (c[uid].records == [] ==> c[uid].lastWrite == 0)
  }
}
