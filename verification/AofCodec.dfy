/** The append-only file: its entries as bytes, and how replay cuts a byte string back into entries. */
module AofCodec {
  import opened Bytes
  import opened Records
  import opened Operations

  const OPCODE_PUSH: u8 := 0x01
  const OPCODE_DEL: u8 := 0x03

  datatype RawEntry = Entry(opcode: u8, uid: u32, ts: u64, payload: seq<u8>)

  /** A log entry: 15 header bytes, the last two of which give the payload's length. */
  type LogEntry = e: RawEntry | |e.payload| < 0x1_0000 witness Entry(0, 0, 0, [])

  function EncodeHeader(e: LogEntry): (s: seq<u8>)
    ensures |s| == 15
  {
    [e.opcode] + Encode(e.uid, 4) + Encode(e.ts, 8) + Encode(|e.payload|, 2)
  }

  function EncodeEntry(e: LogEntry): (s: seq<u8>)
    ensures |s| == 15 + |e.payload|
  {
    EncodeHeader(e) + e.payload
  }

  function EncodeEntries(es: seq<LogEntry>): seq<u8> {
    if es == [] then [] else EncodeEntry(es[0]) + EncodeEntries(es[1..])
  }

  /** What `append_push` and `append_del` write. */
  function EntryOf(op: Op): (e: LogEntry)
    ensures |EncodeEntry(e)| == if op.Push? then 32 else 15
  {
    match op
    case Push(uid, r, ts) => Entry(OPCODE_PUSH, uid, ts, EncodeRecord(r))
    case Del(uid, ts) => Entry(OPCODE_DEL, uid, ts, [])
  }

  function EntriesOf(ops: seq<Op>): (es: seq<LogEntry>)
    ensures |es| == |ops|
  {
    seq(|ops|, i requires 0 <= i < |ops| => EntryOf(ops[i]))
  }

  /** The log of a run of operations. */
  function EncodeLog(ops: seq<Op>): seq<u8> {
    EncodeEntries(EntriesOf(ops))
  }

  lemma EncodeLogAppend(ops: seq<Op>, op: Op)
    ensures EncodeLog(ops + [op]) == EncodeLog(ops) + EncodeEntry(EntryOf(op))
  {
    hide EncodeEntry, EntryOf;
    assert EntriesOf(ops + [op]) == EntriesOf(ops) + [EntryOf(op)];
    EncodeEntriesAppend(EntriesOf(ops), EntryOf(op));
  }

  lemma {:induction false} EncodeEntriesAppend(es: seq<LogEntry>, e: LogEntry)
    ensures EncodeEntries(es + [e]) == EncodeEntries(es) + EncodeEntry(e)
  {
    hide EncodeEntry;
    if es == [] {
      assert EncodeEntries([e]) == EncodeEntry(e) + EncodeEntries([]);
    } else {
      assert (es + [e])[1..] == es[1..] + [e];
      EncodeEntriesAppend(es[1..], e);
    }
  }

  /** The bytes of an entry: opcode, user, time and payload length, each low byte first, then the record. */
  lemma EntryLayout(op: Op)
    ensures var s := EncodeEntry(EntryOf(op));
            && |s| == (if op.Push? then 32 else 15) && s[0] == (if op.Push? then 0x01 else 0x03)
            && Number4(s[1], s[2], s[3], s[4]) == op.uid
            && Number4(s[5], s[6], s[7], s[8]) + 0x1_0000_0000 * Number4(s[9], s[10], s[11], s[12]) == op.ts
            && Number2(s[13], s[14]) == |s| - 15
            && (op.Push? ==> s[15..] == EncodeRecord(op.record))
  {
    var e := EntryOf(op);
    FourBytes(e.uid);
    EightBytes(e.ts);
    TwoBytes(|e.payload|);
    hide Encode, Number2, Number4, EncodeRecord;
    FourParts([e.opcode], Encode(e.uid, 4), Encode(e.ts, 8), Encode(|e.payload|, 2));
  }

  // ----- reading -----

  datatype Head = Torn | Whole(entry: LogEntry)

  /** The entry at the front of `s`, or `Torn` when its header or payload is cut off. */
  function ParseHead(s: seq<u8>): (h: Head)
    ensures h.Whole? ==> |EncodeEntry(h.entry)| <= |s|
  {
    if |s| < 15 then Torn
    else
      var length := DecodeU16(s[13..15]);
      if 15 + length > |s| then Torn
      else Whole(Entry(s[0], DecodeU32(s[1..5]), DecodeU64(s[5..13]), s[15..15 + length]))
  }

  /** Every whole entry from the front of `s` up to the first torn one. */
  function ParseLog(s: seq<u8>): seq<LogEntry>
    decreases |s|
  {
    match ParseHead(s)
    case Torn => []
    case Whole(e) => [e] + ParseLog(s[|EncodeEntry(e)|..])
  }

  lemma ParseHeadEncoded(e: LogEntry, rest: seq<u8>)
    ensures ParseHead(EncodeEntry(e) + rest) == Whole(e)
  {
    hide Encode, Decode;
    var s := EncodeEntry(e) + rest;
    assert s[..15] == EncodeHeader(e);
    HeaderFields(e);
    assert s[1..5] == EncodeHeader(e)[1..5];
    assert s[5..13] == EncodeHeader(e)[5..13];
    assert s[13..15] == EncodeHeader(e)[13..15];
    assert s[15..15 + |e.payload|] == e.payload;
  }

  lemma HeaderFields(e: LogEntry)
    ensures var s := EncodeHeader(e);
            DecodeU32(s[1..5]) == e.uid && DecodeU64(s[5..13]) == e.ts && DecodeU16(s[13..15]) == |e.payload|
  {
    hide Encode, Decode;
    FourParts([e.opcode], Encode(e.uid, 4), Encode(e.ts, 8), Encode(|e.payload|, 2));
    U32RoundTrip(e.uid);
    U64RoundTrip(e.ts);
    U16RoundTrip(|e.payload|);
  }

  lemma ParseFirst(e: LogEntry, rest: seq<u8>)
    ensures ParseLog(EncodeEntry(e) + rest) == [e] + ParseLog(rest)
  {
    hide EncodeEntry, ParseHead;
    ParseHeadEncoded(e, rest);
    assert (EncodeEntry(e) + rest)[|EncodeEntry(e)|..] == rest;
  }

  lemma EncodeEntriesFirst(es: seq<LogEntry>, rest: seq<u8>)
    requires es != []
    ensures EncodeEntries(es) + rest == EncodeEntry(es[0]) + (EncodeEntries(es[1..]) + rest)
  {
    hide EncodeEntry;
  }

  /** Whole entries are read back exactly, whatever follows them. */
  lemma {:induction false} ParseConcat(es: seq<LogEntry>, rest: seq<u8>)
    ensures ParseLog(EncodeEntries(es) + rest) == es + ParseLog(rest)
  {
    hide EncodeEntry, ParseLog;
    if es == [] {
      assert EncodeEntries(es) + rest == rest;
    } else {
      hide EncodeEntries;
      EncodeEntriesFirst(es, rest);
      ParseFirst(es[0], EncodeEntries(es[1..]) + rest);
      ParseConcat(es[1..], rest);
      assert [es[0]] + (es[1..] + ParseLog(rest)) == es + ParseLog(rest);
    }
  }

  /** Parsing never invents bytes: the entries it yields are, byte for byte, the front of the input. */
  lemma {:induction false} ParsedIsPrefix(s: seq<u8>)
    ensures EncodeEntries(ParseLog(s)) <= s
    decreases |s|
  {
    hide EncodeEntry;
    match ParseHead(s)
    case Torn =>
    case Whole(e) =>
      ParseHeadSound(s);
      ParsedIsPrefix(s[|EncodeEntry(e)|..]);
      assert ParseLog(s)[1..] == ParseLog(s[|EncodeEntry(e)|..]);
  }

  lemma ParseHeadSound(s: seq<u8>)
    requires ParseHead(s).Whole?
    ensures EncodeEntry(ParseHead(s).entry) <= s
  {
    hide Encode, Decode;
    var e := ParseHead(s).entry;
    assert s[..15] == [s[0]] + s[1..5] + s[5..13] + s[13..15];
    assert EncodeHeader(e) == s[..15];
  }

  // ----- torn tails -----

  /** How many of the entries lie wholly within the first `n` bytes. */
  function WholeEntries(es: seq<LogEntry>, n: nat): (k: nat)
    ensures k <= |es|
  {
    if es == [] || |EncodeEntry(es[0])| > n then 0
    else 1 + WholeEntries(es[1..], n - |EncodeEntry(es[0])|)
  }

  lemma ParseHeadTorn(e: LogEntry, n: nat)
    requires n < |EncodeEntry(e)|
    ensures ParseHead(EncodeEntry(e)[..n]) == Torn
  {
    hide Encode, Decode;
    var s := EncodeEntry(e)[..n];
    if n >= 15 {
      HeaderFields(e);
      assert s[13..15] == EncodeHeader(e)[13..15];
    }
  }

  /** The bytes of the entry the cut falls in. */
  function Fragment(es: seq<LogEntry>, n: nat): (t: seq<u8>)
    requires n <= |EncodeEntries(es)|
    ensures var k := WholeEntries(es, n);
            if k < |es| then |t| < |EncodeEntry(es[k])| && t <= EncodeEntry(es[k]) else t == []
  {
    if es == [] then []
    else if |EncodeEntry(es[0])| > n then EncodeEntry(es[0])[..n]
    else Fragment(es[1..], n - |EncodeEntry(es[0])|)
  }

  lemma FrontCut(a: seq<u8>, b: seq<u8>, n: nat)
    requires |a| <= n <= |a| + |b|
    ensures (a + b)[..n] == a + b[..n - |a|]
  {
  }

  lemma {:induction false} CutDecomposes(es: seq<LogEntry>, n: nat)
    requires n <= |EncodeEntries(es)|
    ensures EncodeEntries(es)[..n] == EncodeEntries(es[..WholeEntries(es, n)]) + Fragment(es, n)
  {
    hide EncodeEntry;
    if es != [] && |EncodeEntry(es[0])| <= n {
      var first, m := EncodeEntry(es[0]), n - |EncodeEntry(es[0])|;
      var k := WholeEntries(es[1..], m);
      CutDecomposes(es[1..], m);
      FrontCut(first, EncodeEntries(es[1..]), n);
      assert es[..k + 1][1..] == es[1..][..k];
      assert EncodeEntries(es[..k + 1]) == first + EncodeEntries(es[1..][..k]);
    }
  }

  /** Cutting the log at any byte loses exactly the entries that are not wholly before the cut. */
  lemma TornTail(es: seq<LogEntry>, n: nat)
    requires n <= |EncodeEntries(es)|
    ensures ParseLog(EncodeEntries(es)[..n]) == es[..WholeEntries(es, n)]
  {
    hide EncodeEntry, EncodeEntries, WholeEntries, Fragment, ParseHead;
    var k, t := WholeEntries(es, n), Fragment(es, n);
    CutDecomposes(es, n);
    ParseConcat(es[..k], t);
    if k < |es| {
      assert t == EncodeEntry(es[k])[..|t|];
      ParseHeadTorn(es[k], |t|);
    } else {
      ParseNothing();
    }
  }

  /** A tear never reaches back: whatever is appended after it, the entries before it are still read. */
  lemma EntriesBeforeTearSurvive(es: seq<LogEntry>, n: nat, appended: seq<u8>)
    requires n <= |EncodeEntries(es)|
    ensures es[..WholeEntries(es, n)] <= ParseLog(EncodeEntries(es)[..n] + appended)
  {
    hide EncodeEntries, ParseLog, WholeEntries, Fragment;
    var whole := es[..WholeEntries(es, n)];
    CutDecomposes(es, n);
    assert EncodeEntries(es)[..n] + appended == EncodeEntries(whole) + (Fragment(es, n) + appended);
    ParseConcat(whole, Fragment(es, n) + appended);
  }

  /** A restarted server goes on appending after a cut at byte `n`, and a later replay reads it all. */
  ghost predicate SafeToAppend(ops: seq<Op>, n: nat)
    requires n <= |EncodeLog(ops)|
  {
    forall more: seq<Op> ::
      ParseLog(EncodeLog(ops)[..n] + EncodeLog(more))
      == EntriesOf(ops)[..WholeEntries(EntriesOf(ops), n)] + EntriesOf(more)
  }

  /** An operation whose opcode is not that of `op`. */
  function OtherKind(op: Op): Op {
    if op.Push? then Del(0, 0) else Push(0, Record(0, 0, 0), 0)
  }

  lemma TornFragmentMisreads(op: Op, t: seq<u8>)
    requires t != [] && t <= EncodeEntry(EntryOf(op))
    ensures ParseLog(t + EncodeEntry(EntryOf(OtherKind(op)))) != [EntryOf(OtherKind(op))]
  {
    var s := t + EncodeEntry(EntryOf(OtherKind(op)));
    assert s[0] == EntryOf(op).opcode;
    hide EncodeEntry;
    if ParseHead(s).Whole? {
      assert ParseLog(s)[0].opcode == s[0];
    }
  }

  /**
   The file is reopened for appending and never cut back, so later entries are read correctly
   if and only if the crash left the file at an entry boundary.
   */
  lemma SafeToAppendIffAtBoundary(ops: seq<Op>, n: nat)
    requires n <= |EncodeLog(ops)|
    ensures SafeToAppend(ops, n) <==> Fragment(EntriesOf(ops), n) == []
  {
    hide EncodeEntries, ParseLog, WholeEntries, Fragment, EntriesOf;
    var es := EntriesOf(ops);
    var t := Fragment(es, n);
    var whole := es[..WholeEntries(es, n)];
    CutDecomposes(es, n);
    forall more: seq<Op>
      ensures ParseLog(EncodeLog(ops)[..n] + EncodeLog(more)) == whole + ParseLog(t + EncodeLog(more))
    {
      assert EncodeLog(ops)[..n] + EncodeLog(more) == EncodeEntries(whole) + (t + EncodeLog(more));
      ParseConcat(whole, t + EncodeLog(more));
    }
    if t == [] {
      forall more: seq<Op>
        ensures ParseLog(t + EncodeLog(more)) == EntriesOf(more)
      {
        ParseEncoded(more);
        assert t + EncodeLog(more) == EncodeLog(more);
      }
    } else {
      var op := ops[WholeEntries(es, n)];
      FragmentOf(ops, n);
      TornFragmentMisreads(op, t);
      SingleEntryLog(OtherKind(op));
      var more := [OtherKind(op)];
      var got := ParseLog(t + EncodeLog(more));
      assert got != EntriesOf(more);
      assert (whole + got)[|whole|..] == got;
      assert (whole + EntriesOf(more))[|whole|..] == EntriesOf(more);
    }
  }

  lemma ParseEncoded(ops: seq<Op>)
    ensures ParseLog(EncodeLog(ops)) == EntriesOf(ops)
  {
    hide EncodeEntries, ParseLog, EntriesOf;
    ParseConcat(EntriesOf(ops), []);
    assert EncodeLog(ops) + [] == EncodeLog(ops);
    assert ParseLog([]) == [] by { ParseNothing(); }
  }

  lemma ParseNothing()
    ensures ParseLog([]) == []
  {
  }

  lemma SingleEntryLog(op: Op)
    ensures EntriesOf([op]) == [EntryOf(op)]
    ensures EncodeLog([op]) == EncodeEntry(EntryOf(op))
  {
    hide EncodeEntry;
    assert EncodeEntries(EntriesOf([op])[1..]) == [];
  }

  lemma FragmentOf(ops: seq<Op>, n: nat)
    requires n <= |EncodeLog(ops)| && Fragment(EntriesOf(ops), n) != []
    ensures var k := WholeEntries(EntriesOf(ops), n);
            k < |ops| && Fragment(EntriesOf(ops), n) <= EncodeEntry(EntryOf(ops[k]))
  {
    hide EncodeEntry, EncodeEntries;
  }
}
