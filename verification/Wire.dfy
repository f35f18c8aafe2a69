/** The binary protocol: requests, responses, and how a whole byte stream reads as a list of commands. */
module Wire {
  import opened Bytes
  import opened Records
  import opened AofCodec

  const MAGIC_WIRE: u16 := 0xAE01
  const OPCODE_GET: u8 := 0x02
  const STATUS_OK: u8 := 0x00
  const STATUS_NOT_FOUND: u8 := 0x02

  datatype Command =
    | Push(uid: u32, record: Record)
    | Get(uid: u32, count: u16)
    | Del(uid: u32)

  // ----- requests -----

  function OpcodeOf(cmd: Command): u8 {
    match cmd
    case Push(_, _) => OPCODE_PUSH
    case Get(_, _) => OPCODE_GET
    case Del(_) => OPCODE_DEL
  }

  function PayloadOf(cmd: Command): seq<u8> {
    match cmd
    case Push(_, r) => EncodeRecord(r)
    case Get(_, count) => Encode(count, 2)
    case Del(_) => []
  }

  function EncodeRequestHeader(opcode: u8, uid: u32, length: u16): (s: seq<u8>)
    ensures |s| == 9
  {
    Encode(MAGIC_WIRE, 2) + [opcode] + Encode(uid, 4) + Encode(length, 2)
  }

  function EncodeCommand(cmd: Command): (s: seq<u8>)
    ensures |s| == 9 + |PayloadOf(cmd)|
  {
    EncodeRequestHeader(OpcodeOf(cmd), cmd.uid, |PayloadOf(cmd)|) + PayloadOf(cmd)
  }

  function EncodeCommands(cmds: seq<Command>): seq<u8> {
    if cmds == [] then [] else EncodeCommand(cmds[0]) + EncodeCommands(cmds[1..])
  }

  /** A GET must ask for between one record and N. */
  predicate Acceptable(cmd: Command, n: nat) {
    cmd.Get? ==> 1 <= cmd.count <= n
  }

  datatype Header = BadHeader | GoodHeader(opcode: u8, uid: u32, length: u16)

  /** `validate_header`: the magic, a known opcode, and exactly that opcode's payload length. */
  function ParseHeader(s: seq<u8>): (h: Header)
    requires |s| >= 9
    ensures h.GoodHeader? ==> h.length <= 17
  {
    var length := DecodeU16(s[7..9]);
    if DecodeU16(s[0..2]) != MAGIC_WIRE then BadHeader
    else if s[2] == OPCODE_PUSH && length == 17 then GoodHeader(s[2], DecodeU32(s[3..7]), 17)
    else if s[2] == OPCODE_GET && length == 2 then GoodHeader(s[2], DecodeU32(s[3..7]), 2)
    else if s[2] == OPCODE_DEL && length == 0 then GoodHeader(s[2], DecodeU32(s[3..7]), 0)
    else BadHeader
  }

  datatype Frame = Incomplete | Bad | Complete(cmd: Command)

  /** The request at the front of a stream. */
  function ParseFrame(s: seq<u8>, n: nat): (f: Frame)
    ensures f.Complete? ==> |EncodeCommand(f.cmd)| <= |s| && Acceptable(f.cmd, n)
  {
    if |s| < 9 then Incomplete
    else
      match ParseHeader(s)
      case BadHeader => Bad
      case GoodHeader(opcode, uid, length) =>
        if |s| < 9 + length then Incomplete
        else if opcode == OPCODE_PUSH && length == 17 then Complete(Push(uid, DecodeRecord(s[9..26])))
        else if opcode == OPCODE_GET && length == 2 then
          var count := DecodeU16(s[9..11]);
          if count == 0 || count > n then Bad else Complete(Get(uid, count))
        else Complete(Del(uid))
  }

  /** The commands of a stream up to its first bad frame, and whether there is one. */
  datatype Stream = Stream(commands: seq<Command>, cut: bool)

  function ParseStream(s: seq<u8>, n: nat): Stream
    decreases |s|
  {
    match ParseFrame(s, n)
    case Incomplete => Stream([], false)
    case Bad => Stream([], true)
    case Complete(cmd) =>
      var rest := ParseStream(s[|EncodeCommand(cmd)|..], n);
      Stream([cmd] + rest.commands, rest.cut)
  }

  lemma ParseHeaderEncoded(opcode: u8, uid: u32, length: u16, rest: seq<u8>)
    requires (opcode == OPCODE_PUSH && length == 17) || (opcode == OPCODE_GET && length == 2)
          || (opcode == OPCODE_DEL && length == 0)
    ensures ParseHeader(EncodeRequestHeader(opcode, uid, length) + rest) == GoodHeader(opcode, uid, length)
  {
    hide Encode, Decode;
    var s := EncodeRequestHeader(opcode, uid, length) + rest;
    assert s[0..2] == Encode(MAGIC_WIRE, 2);
    assert s[3..7] == Encode(uid, 4);
    assert s[7..9] == Encode(length, 2);
    U16RoundTrip(MAGIC_WIRE);
    U16RoundTrip(length);
    U32RoundTrip(uid);
  }

  lemma ParseFrameEncoded(cmd: Command, rest: seq<u8>, n: nat)
    requires Acceptable(cmd, n)
    ensures ParseFrame(EncodeCommand(cmd) + rest, n) == Complete(cmd)
  {
    hide Encode, Decode, EncodeRequestHeader, ParseHeader, DecodeU16, DecodeRecord, EncodeRecord;
    var payload := PayloadOf(cmd);
    var s := EncodeCommand(cmd) + rest;
    assert s == EncodeRequestHeader(OpcodeOf(cmd), cmd.uid, |payload|) + (payload + rest);
    ParseHeaderEncoded(OpcodeOf(cmd), cmd.uid, |payload|, payload + rest);
    assert s[9..9 + |payload|] == payload;
    match cmd
    case Push(_, r) => RecordRoundTrip(r);
    case Get(_, count) => U16RoundTrip(count);
    case Del(_) =>
  }

  lemma ParseStreamFirst(cmd: Command, rest: seq<u8>, n: nat)
    requires Acceptable(cmd, n)
    ensures ParseStream(EncodeCommand(cmd) + rest, n)
         == Stream([cmd] + ParseStream(rest, n).commands, ParseStream(rest, n).cut)
  {
    hide EncodeCommand, ParseFrame;
    ParseFrameEncoded(cmd, rest, n);
    assert (EncodeCommand(cmd) + rest)[|EncodeCommand(cmd)|..] == rest;
  }

  ghost predicate AllAcceptable(cmds: seq<Command>, n: nat) {
    forall i :: 0 <= i < |cmds| ==> Acceptable(cmds[i], n)
  }

  lemma EncodeCommandsFirst(cmds: seq<Command>, rest: seq<u8>)
    requires cmds != []
    ensures EncodeCommands(cmds) + rest == EncodeCommand(cmds[0]) + (EncodeCommands(cmds[1..]) + rest)
  {
    hide EncodeCommand;
  }

  lemma ConsConcat(cmds: seq<Command>, more: seq<Command>)
    requires cmds != []
    ensures [cmds[0]] + (cmds[1..] + more) == cmds + more
  {
  }

  /** Whole acceptable frames are read back exactly, whatever follows them. */
  lemma {:induction false} ParseStreamConcat(cmds: seq<Command>, rest: seq<u8>, n: nat)
    requires AllAcceptable(cmds, n)
    ensures ParseStream(EncodeCommands(cmds) + rest, n)
         == Stream(cmds + ParseStream(rest, n).commands, ParseStream(rest, n).cut)
  {
    hide EncodeCommand, ParseStream, Acceptable;
    if cmds == [] {
      assert EncodeCommands(cmds) + rest == rest;
    } else {
      hide EncodeCommands;
      ParseStreamConcat(cmds[1..], rest, n);
      EncodeCommandsFirst(cmds, rest);
      ParseStreamFirst(cmds[0], EncodeCommands(cmds[1..]) + rest, n);
      ConsConcat(cmds, ParseStream(rest, n).commands);
    }
  }

  lemma HeaderIsCanonical(s: seq<u8>)
    requires |s| >= 9 && ParseHeader(s).GoodHeader?
    ensures var h := ParseHeader(s);
            && EncodeRequestHeader(h.opcode, h.uid, h.length) == s[..9]
            && ((h.opcode == OPCODE_PUSH && h.length == 17) || (h.opcode == OPCODE_GET && h.length == 2)
                || (h.opcode == OPCODE_DEL && h.length == 0))
  {
    hide Encode, Decode;
    var h := ParseHeader(s);
    assert Encode(MAGIC_WIRE, 2) == s[0..2] && Encode(h.uid, 4) == s[3..7] && Encode(h.length, 2) == s[7..9];
    assert s[0..2] + [s[2]] + s[3..7] + s[7..9] == s[..9];
  }

  /** A complete frame is the encoding of its command: the protocol has one form for each request. */
  lemma FrameIsCanonical(s: seq<u8>, n: nat)
    requires ParseFrame(s, n).Complete?
    ensures EncodeCommand(ParseFrame(s, n).cmd) <= s
  {
    HeaderIsCanonical(s);
    hide ParseHeader, Encode, Decode, EncodeRequestHeader, DecodeRecord, EncodeRecord;
    var cmd := ParseFrame(s, n).cmd;
    assert PayloadOf(cmd) == s[9..9 + |PayloadOf(cmd)|];
    assert EncodeCommand(cmd) == s[..9] + s[9..9 + |PayloadOf(cmd)|];
  }

  // ----- responses -----

  function StatusResponse(status: u8): (s: seq<u8>)
    ensures |s| == 5
  {
    Encode(MAGIC_WIRE, 2) + [status] + Encode(0, 2)
  }

  /** The newest `k` records, newest first. */
  function Latest(records: seq<Record>, k: nat): (r: seq<Record>)
    ensures |r| == if k < |records| then k else |records|
    ensures forall i :: 0 <= i < |r| ==> r[i] == records[|records| - 1 - i]
  {
    var m := if k < |records| then k else |records|;
    seq(m, i requires 0 <= i < m => records[|records| - 1 - i])
  }

  function RecordsHeader(k: nat): (s: seq<u8>)
    ensures |s| == 7
  {
    Encode(MAGIC_WIRE, 2) + [STATUS_OK] + Encode(2 + 17 * k, 2) + Encode(k, 2)
  }

  function RecordsResponse(records: seq<Record>): (s: seq<u8>)
    ensures |s| == 7 + 17 * |records|
  {
    RecordsHeader(|records|) + EncodeRecords(records)
  }

  function Respond(c: Contents, cmd: Command): seq<u8> {
    match cmd
    case Push(_, _) => StatusResponse(STATUS_OK)
    case Del(_) => StatusResponse(STATUS_OK)
    case Get(uid, count) =>
      if uid in c then RecordsResponse(Latest(c[uid].records, count)) else StatusResponse(STATUS_NOT_FOUND)
  }

  /** `ceil((7 + N * 17) / 64) * 64`. */
  function WbufSize(n: nat): nat { (7 + n * 17 + 63) / 64 * 64 }

  // ----- what a client reads -----

  datatype Reply = Garbled | Status(status: u8) | Records(records: seq<Record>)

  function DecodeRecords(s: seq<u8>): seq<Record> {
    if |s| < 17 then [] else [DecodeRecord(s[..17])] + DecodeRecords(s[17..])
  }

  /** A client that trusts the two length fields. */
  function ReadReply(s: seq<u8>): Reply {
    if |s| < 5 || DecodeU16(s[0..2]) != MAGIC_WIRE || |s| != 5 + DecodeU16(s[3..5]) then Garbled
    else if |s| == 5 then Status(s[2])
    else if s[2] != STATUS_OK || |s| < 7 || |s| != 7 + 17 * DecodeU16(s[5..7]) then Garbled
    else Records(DecodeRecords(s[7..]))
  }

  lemma {:induction false} RecordsRoundTrip(records: seq<Record>)
    ensures DecodeRecords(EncodeRecords(records)) == records
  {
    hide EncodeRecord, DecodeRecord;
    if records != [] {
      var s := EncodeRecords(records);
      assert s[..17] == EncodeRecord(records[0]);
      assert s[17..] == EncodeRecords(records[1..]);
      RecordRoundTrip(records[0]);
      RecordsRoundTrip(records[1..]);
    }
  }

  lemma RecordsHeaderFields(k: nat)
    requires k <= 3854
    ensures var s := RecordsHeader(k);
            && DecodeU16(s[0..2]) == MAGIC_WIRE && s[2] == STATUS_OK && DecodeU16(s[3..5]) == 2 + 17 * k
            && DecodeU16(s[5..7]) == k
  {
    hide Encode, Decode;
    var s := RecordsHeader(k);
    assert s[0..2] == Encode(MAGIC_WIRE, 2);
    assert s[3..5] == Encode(2 + 17 * k, 2);
    assert s[5..7] == Encode(k, 2);
    U16RoundTrip(MAGIC_WIRE);
    U16RoundTrip(2 + 17 * k);
    U16RoundTrip(k);
  }

  lemma RecordsResponseFields(records: seq<Record>)
    requires |records| <= 3854
    ensures var s := RecordsResponse(records);
            && DecodeU16(s[0..2]) == MAGIC_WIRE && s[2] == STATUS_OK && DecodeU16(s[3..5]) == 2 + 17 * |records|
            && DecodeU16(s[5..7]) == |records| && s[7..] == EncodeRecords(records)
  {
    hide EncodeRecords, RecordsHeader, DecodeU16;
    var h, body := RecordsHeader(|records|), EncodeRecords(records);
    RecordsHeaderFields(|records|);
    SliceOfFront(h, body, 0, 2);
    SliceOfFront(h, body, 3, 5);
    SliceOfFront(h, body, 5, 7);
    assert (h + body)[7..] == body;
  }

  /**
   A GET answers with exactly the newest `min(count, stored)` records, newest first: the length fields fit
   their 16 bits for every N up to the protocol's limit, and the response fits the write buffer.
   */
  lemma GetAnswersExactly(c: Contents, uid: u32, count: u16, n: nat)
    requires 1 <= n <= 3854 && WellFormed(c, n) && uid in c && Acceptable(Get(uid, count), n)
    ensures var s := Respond(c, Get(uid, count));
            && ReadReply(s) == Records(Latest(c[uid].records, count))
            && |s| <= WbufSize(n)
  {
    hide EncodeRecords, DecodeRecords, RecordsResponse, DecodeU16;
    var records := Latest(c[uid].records, count);
    RecordsResponseFields(records);
    RecordsRoundTrip(records);
  }

  lemma StatusAnswers(status: u8)
    ensures ReadReply(StatusResponse(status)) == Status(status)
  {
    hide Encode, Decode;
    var s := StatusResponse(status);
    assert s[0..2] == Encode(MAGIC_WIRE, 2);
    assert s[3..5] == Encode(0, 2);
    U16RoundTrip(MAGIC_WIRE);
    U16RoundTrip(0);
  }

  // ----- what is on the wire, byte by byte -----

  /** A request: the magic 0xAE01, the opcode, the user and the payload's length, each low byte first. */
  lemma RequestLayout(cmd: Command)
    ensures var s := EncodeCommand(cmd);
            && s[0] == 0x01 && s[1] == 0xAE
            && s[2] == (match cmd case Push(_, _) => 0x01 case Get(_, _) => 0x02 case Del(_) => 0x03)
            && Number4(s[3], s[4], s[5], s[6]) == cmd.uid && Number2(s[7], s[8]) == |s| - 9
            && |s| == (match cmd case Push(_, _) => 26 case Get(_, _) => 11 case Del(_) => 9)
            && (cmd.Get? ==> Number2(s[9], s[10]) == cmd.count)
            && (cmd.Push? ==> s[9..] == EncodeRecord(cmd.record))
  {
    var header, payload := EncodeRequestHeader(OpcodeOf(cmd), cmd.uid, |PayloadOf(cmd)|), PayloadOf(cmd);
    RequestHeaderLayout(OpcodeOf(cmd), cmd.uid, |payload|);
    if cmd.Get? {
      TwoBytes(cmd.count);
    }
    hide Encode, Number2, Number4, EncodeRecord, EncodeRequestHeader;
    assert (header + payload)[9..] == payload;
  }

  lemma RequestHeaderLayout(opcode: u8, uid: u32, length: u16)
    ensures var s := EncodeRequestHeader(opcode, uid, length);
            && s[0] == 0x01 && s[1] == 0xAE && s[2] == opcode
            && Number4(s[3], s[4], s[5], s[6]) == uid && Number2(s[7], s[8]) == length
  {
    MagicBytes();
    FourBytes(uid);
    TwoBytes(length);
    hide Encode, Number2, Number4;
    FourParts(Encode(MAGIC_WIRE, 2), [opcode], Encode(uid, 4), Encode(length, 2));
  }

  lemma MagicBytes()
    ensures Encode(MAGIC_WIRE, 2) == [0x01, 0xAE]
  {
    assert Encode(0xAE01, 2) == [0xAE01 % 256] + Encode(0xAE01 / 256, 1);
    assert Encode(0xAE, 1) == [0xAE % 256] + Encode(0xAE / 256, 0);
  }

  lemma StatusLayout(status: u8)
    ensures StatusResponse(status) == [0x01, 0xAE, status, 0, 0]
  {
    MagicBytes();
    assert Encode(0, 2) == [0] + Encode(0, 1) && Encode(0, 1) == [0] + Encode(0, 0);
  }

  lemma RecordsHeaderLayout(k: nat)
    ensures var s := RecordsHeader(k);
            && s[..3] == [0x01, 0xAE, 0x00] && (2 + 17 * k < 0x1_0000 ==> Number2(s[3], s[4]) == 2 + 17 * k)
            && (k < 0x1_0000 ==> Number2(s[5], s[6]) == k)
  {
    MagicBytes();
    if 2 + 17 * k < 0x1_0000 {
      TwoBytes(2 + 17 * k);
    }
    if k < 0x1_0000 {
      TwoBytes(k);
    }
    hide Encode, Number2;
    FourParts(Encode(MAGIC_WIRE, 2), [STATUS_OK], Encode(2 + 17 * k, 2), Encode(k, 2));
  }

  /** An answer: the magic, the status and the length of what follows. */
  lemma AnswerLayout(c: Contents, cmd: Command)
    ensures var s := Respond(c, cmd);
            && |s| >= 5 && s[0] == 0x01 && s[1] == 0xAE
            && s[2] == (if cmd.Get? && cmd.uid !in c then 0x02 else 0x00)
            && (|s| < 0x1_0005 ==> Number2(s[3], s[4]) == |s| - 5)
  {
    StatusLayout(0x00);
    StatusLayout(0x02);
    if cmd.Get? && cmd.uid in c {
      var records := Latest(c[cmd.uid].records, cmd.count);
      RecordsHeaderLayout(|records|);
      FrontOfHeader(RecordsHeader(|records|), EncodeRecords(records));
    }
    hide StatusResponse, RecordsHeader, EncodeRecords, Latest;
  }

  lemma FrontOfHeader(h: seq<u8>, body: seq<u8>)
    requires |h| == 7
    ensures var s := h + body; s[..3] == h[..3] && s[3] == h[3] && s[4] == h[4] && s[0] == h[..3][0]
    ensures var s := h + body; s[1] == h[..3][1] && s[2] == h[..3][2] && s[5] == h[5] && s[6] == h[6] && s[7..] == body
  {
  }

  /** The records of an answer come after their number, newest first. */
  lemma RecordsLayout(c: Contents, uid: u32, count: u16)
    requires uid in c
    ensures var s, records := Respond(c, Get(uid, count)), Latest(c[uid].records, count);
            && |s| == 7 + 17 * |records| && s[7..] == EncodeRecords(records)
            && (|records| < 0x1_0000 ==> Number2(s[5], s[6]) == |records|)
  {
    var records := Latest(c[uid].records, count);
    RecordsHeaderLayout(|records|);
    FrontOfHeader(RecordsHeader(|records|), EncodeRecords(records));
    hide RecordsHeader, Number2, EncodeRecords, Latest;
  }

  /** A GET is answered with NOT_FOUND exactly if the user is absent, and otherwise with its newest records. */
  lemma NotFoundIffAbsent(c: Contents, uid: u32, count: u16, n: nat)
    requires 1 <= n <= 3854 && WellFormed(c, n) && Acceptable(Get(uid, count), n)
    ensures ReadReply(Respond(c, Get(uid, count)))
         == if uid in c then Records(Latest(c[uid].records, count)) else Status(0x02)
  {
    hide ReadReply, RecordsResponse, StatusResponse, WellFormed;
    if uid in c {
      GetAnswersExactly(c, uid, count, n);
    } else {
      StatusAnswers(0x02);
    }
  }

  /** PUSH and DEL are always answered with OK, whatever the store holds. */
  lemma WritesAnswerOk(c: Contents, cmd: Command)
    requires !cmd.Get?
    ensures ReadReply(Respond(c, cmd)) == Status(0x00)
  {
    hide ReadReply, StatusResponse;
    StatusAnswers(0x00);
  }

  /**
   A stream that has a whole request's worth of bytes is refused exactly if no command is at its front but a GET for
   no record or for more than N.
   */
  lemma RefusedIffNoCommand(s: seq<u8>, n: nat)
    requires |s| >= 26
    ensures ParseFrame(s, n).Bad? <==>
            forall cmd :: EncodeCommand(cmd) <= s ==> cmd.Get? && (cmd.count == 0 || cmd.count > n)
  {
    hide EncodeCommand;
    if ParseFrame(s, n).Bad? {
      forall cmd | EncodeCommand(cmd) <= s
        ensures cmd.Get? && (cmd.count == 0 || cmd.count > n)
      {
        var rest := s[|EncodeCommand(cmd)|..];
        assert EncodeCommand(cmd) + rest == s;
        if Acceptable(cmd, n) {
          ParseFrameEncoded(cmd, rest, n);
        }
      }
    } else {
      NotIncomplete(s, n);
      FrameIsCanonical(s, n);
    }
  }

  lemma NotIncomplete(s: seq<u8>, n: nat)
    requires |s| >= 26
    ensures !ParseFrame(s, n).Incomplete?
  {
    hide ParseHeader;
  }
}
