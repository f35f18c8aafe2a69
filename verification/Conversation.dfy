/** What a connection's buffers, socket and history must agree on at every moment, on values. */
module Conversation {
  import opened Bytes
  import opened Records
  import opened Modular
  import opened Wire

  /**
   The four states of a connection, and the two ways it ends: `Dropped` by the server for a bad frame, or
   `Gone` because the peer closed or a system call failed.
   */
  datatype State = ReadHeader | ReadPayload | Process | WriteResponse | Dropped | Gone

  /** A command that was run: the store it ran on, the clock it read, and its answer. */
  datatype Executed = Executed(cmd: Command, before: Contents, now: u64, response: seq<u8>)

  /** `pending` is read and not yet run, `out` answered and not yet sent, `incoming` not yet read. */
  datatype View = View(state: State, pending: seq<u8>, out: seq<u8>, incoming: seq<u8>, sent: seq<u8>)

  function CommandsOf(h: seq<Executed>): (cmds: seq<Command>)
    ensures |cmds| == |h|
  {
    seq(|h|, i requires 0 <= i < |h| => h[i].cmd)
  }

  function Responses(h: seq<Executed>): seq<u8> {
    if h == [] then [] else Responses(h[..|h| - 1]) + h[|h| - 1].response
  }

  /** Every answer is the one its command gets from the store it ran on. */
  ghost predicate Answered(h: seq<Executed>, n: nat) {
    forall i :: 0 <= i < |h| ==> Acceptable(h[i].cmd, n) && h[i].response == Respond(h[i].before, h[i].cmd)
  }

  /** The stream is the frames of the commands run, then what is read, then what is not. */
  ghost predicate Accounted(v: View, stream: seq<u8>, h: seq<Executed>) {
    stream == EncodeCommands(CommandsOf(h)) + v.pending + v.incoming
  }

  predicate HeaderRead(pending: seq<u8>) {
    |pending| >= 9 && ParseHeader(pending).GoodHeader?
  }

  function FrameLength(pending: seq<u8>): nat
    requires HeaderRead(pending)
  {
    9 + ParseHeader(pending).length
  }

  ghost predicate Holds(v: View, stream: seq<u8>, h: seq<Executed>, n: nat) {
    && Answered(h, n)
    && match v.state
       case ReadHeader => Accounted(v, stream, h) && |v.pending| < 9 && v.out == [] && v.sent == Responses(h)
       case ReadPayload =>
         && Accounted(v, stream, h) && HeaderRead(v.pending) && |v.pending| < FrameLength(v.pending)
         && v.out == [] && v.sent == Responses(h)
       case Process =>
         && Accounted(v, stream, h) && HeaderRead(v.pending) && |v.pending| == FrameLength(v.pending)
         && v.out == [] && v.sent == Responses(h)
       case WriteResponse =>
         Accounted(v, stream, h) && v.pending == [] && h != [] && v.out != [] && v.sent + v.out == Responses(h)
       case Dropped => ParseStream(stream, n) == Stream(CommandsOf(h), true) && v.sent == Responses(h)
       case Gone =>
         Accounted(v, stream, h) && ParseFrame(v.pending, n).Incomplete? && v.sent + v.out == Responses(h)
  }

  lemma CommandsAcceptable(h: seq<Executed>, n: nat)
    requires Answered(h, n)
    ensures AllAcceptable(CommandsOf(h), n)
  {
    hide Acceptable, Respond;
  }

  // ----- reading -----

  lemma HeaderOfPrefix(pending: seq<u8>, rest: seq<u8>)
    requires |pending| >= 9
    ensures ParseHeader(pending + rest) == ParseHeader(pending)
  {
    hide DecodeU16, DecodeU32;
    var s := pending + rest;
    assert s[0..2] == pending[0..2] && s[3..7] == pending[3..7] && s[7..9] == pending[7..9];
  }

  /** Reading `k` more bytes of the frame. */
  lemma ReadKeepsAccount(v: View, stream: seq<u8>, h: seq<Executed>, k: nat)
    requires Accounted(v, stream, h) && k <= |v.incoming|
    ensures Accounted(v.(pending := v.pending + v.incoming[..k], incoming := v.incoming[k..]), stream, h)
  {
    hide EncodeCommands, CommandsOf;
    assert v.incoming == v.incoming[..k] + v.incoming[k..];
  }

  lemma StreamAt(v: View, stream: seq<u8>, h: seq<Executed>, n: nat)
    requires Accounted(v, stream, h) && Answered(h, n)
    ensures var rest := ParseStream(v.pending + v.incoming, n);
            ParseStream(stream, n) == Stream(CommandsOf(h) + rest.commands, rest.cut)
  {
    hide EncodeCommands, CommandsOf, ParseStream, Answered, AllAcceptable;
    CommandsAcceptable(h, n);
    ParseStreamConcat(CommandsOf(h), v.pending + v.incoming, n);
    assert stream == EncodeCommands(CommandsOf(h)) + (v.pending + v.incoming);
  }

  /** A bad frame at the front of what is left cuts the stream there. */
  lemma BadFrameCuts(v: View, stream: seq<u8>, h: seq<Executed>, n: nat)
    requires Accounted(v, stream, h) && Answered(h, n)
    requires ParseFrame(v.pending + v.incoming, n).Bad?
    ensures ParseStream(stream, n) == Stream(CommandsOf(h), true)
  {
    hide EncodeCommands, CommandsOf, Answered, ParseFrame;
    StreamAt(v, stream, h, n);
    assert ParseStream(v.pending + v.incoming, n) == Stream([], true);
  }

  lemma BadHeaderIsBadFrame(pending: seq<u8>, rest: seq<u8>, n: nat)
    requires |pending| >= 9 && ParseHeader(pending).BadHeader?
    ensures ParseFrame(pending + rest, n).Bad?
  {
    hide ParseHeader;
    HeaderOfPrefix(pending, rest);
  }

  // ----- running a command -----

  /** The frame in the read buffer does not depend on what follows it. */
  lemma FrameOfWhole(pending: seq<u8>, rest: seq<u8>, n: nat)
    requires HeaderRead(pending) && |pending| == FrameLength(pending)
    ensures ParseFrame(pending + rest, n) == ParseFrame(pending, n) && !ParseFrame(pending, n).Incomplete?
    ensures ParseFrame(pending, n).Complete? ==> EncodeCommand(ParseFrame(pending, n).cmd) == pending
  {
    hide DecodeU16, DecodeRecord, EncodeCommand;
    HeaderOfPrefix(pending, rest);
    hide ParseHeader;
    var length := ParseHeader(pending).length;
    assert (pending + rest)[9..9 + length] == pending[9..9 + length];
    if ParseFrame(pending, n).Complete? {
      FrameIsCanonical(pending, n);
      FrameLengthIs(pending, n);
    }
  }

  lemma FrameLengthIs(pending: seq<u8>, n: nat)
    requires HeaderRead(pending) && |pending| == FrameLength(pending) && ParseFrame(pending, n).Complete?
    ensures |EncodeCommand(ParseFrame(pending, n).cmd)| == |pending|
  {
    hide DecodeU16, DecodeU32, DecodeRecord;
  }

  lemma {:induction false} EncodeCommandsAppend(cmds: seq<Command>, cmd: Command)
    ensures EncodeCommands(cmds + [cmd]) == EncodeCommands(cmds) + EncodeCommand(cmd)
  {
    hide EncodeCommand;
    if cmds == [] {
      assert EncodeCommands([cmd]) == EncodeCommand(cmd) + EncodeCommands([]);
    } else {
      assert (cmds + [cmd])[1..] == cmds[1..] + [cmd];
      EncodeCommandsAppend(cmds[1..], cmd);
    }
  }

  lemma AnsweredAppend(h: seq<Executed>, e: Executed, n: nat)
    requires Answered(h, n) && Acceptable(e.cmd, n) && e.response == Respond(e.before, e.cmd)
    ensures Answered(h + [e], n)
  {
    hide Acceptable, Respond;
  }

  lemma AccountedAppend(v: View, stream: seq<u8>, h: seq<Executed>, e: Executed)
    requires Accounted(v, stream, h) && v.pending == EncodeCommand(e.cmd)
    ensures Accounted(v.(state := WriteResponse, pending := [], out := e.response), stream, h + [e])
  {
    hide EncodeCommands, EncodeCommand;
    assert CommandsOf(h + [e]) == CommandsOf(h) + [e.cmd];
    EncodeCommandsAppend(CommandsOf(h), e.cmd);
    var all := EncodeCommands(CommandsOf(h + [e]));
    assert all + [] == all;
  }

  /** Running the command in the read buffer moves its frame to the history and its answer to the write buffer. */
  lemma RunKeeps(v: View, stream: seq<u8>, h: seq<Executed>, e: Executed, n: nat)
    requires Holds(v, stream, h, n) && v.state.Process?
    requires ParseFrame(v.pending, n) == Complete(e.cmd) && e.response == Respond(e.before, e.cmd) && e.response != []
    ensures Holds(v.(state := WriteResponse, pending := [], out := e.response), stream, h + [e], n)
  {
    hide ParseFrame, ParseHeader, Respond, Responses, EncodeCommand, Acceptable, Answered, Accounted, ParseStream,
      EncodeCommands, CommandsOf;
    FrameOfWhole(v.pending, v.incoming, n);
    CompleteIsAcceptable(v.pending, n);
    AnsweredAppend(h, e, n);
    AccountedAppend(v, stream, h, e);
    ResponsesAppend(h, e);
  }

  lemma CompleteIsAcceptable(s: seq<u8>, n: nat)
    requires ParseFrame(s, n).Complete?
    ensures Acceptable(ParseFrame(s, n).cmd, n)
  {
  }

  lemma ResponsesAppend(h: seq<Executed>, e: Executed)
    ensures Responses(h + [e]) == Responses(h) + e.response
  {
    assert (h + [e])[..|h|] == h;
  }

  // ----- one system call at a time -----

  predicate Reading(v: View) { v.state.ReadHeader? || v.state.ReadPayload? }

  /** How many bytes the read buffer is to hold before the state changes. */
  function Needed(v: View): nat
    requires v.state.ReadPayload? ==> HeaderRead(v.pending)
  {
    if v.state.ReadPayload? then FrameLength(v.pending) else 9
  }

  /** A `read` that returned `k` bytes. */
  function AfterRead(v: View, k: nat): View
    requires Reading(v) && k <= |v.incoming|
  {
    var pending := v.pending + v.incoming[..k];
    var state :=
      if |pending| < 9 then v.state
      else match ParseHeader(pending)
           case BadHeader => Dropped
           case GoodHeader(_, _, length) => if |pending| < 9 + length then ReadPayload else Process;
    v.(state := state, pending := pending, incoming := v.incoming[k..])
  }

  lemma ReadKeeps(v: View, stream: seq<u8>, h: seq<Executed>, k: nat, n: nat)
    requires Holds(v, stream, h, n) && Reading(v) && k <= |v.incoming| && |v.pending| + k <= Needed(v)
    ensures Holds(AfterRead(v, k), stream, h, n)
  {
    hide Answered, Accounted, ParseHeader, ParseStream, Responses, ParseFrame;
    ReadKeepsAccount(v, stream, h, k);
    var v' := AfterRead(v, k);
    if |v.pending| >= 9 {
      HeaderOfPrefix(v.pending, v.incoming[..k]);
    }
    if v'.state.Dropped? {
      BadHeaderIsBadFrame(v'.pending, v'.incoming, n);
      AccountedIgnoresState(v', ReadHeader, stream, h);
      BadFrameCuts(v', stream, h, n);
    }
    AccountedIgnoresState(v.(pending := v'.pending, incoming := v'.incoming), v'.state, stream, h);
  }

  lemma AccountedIgnoresState(v: View, state: State, stream: seq<u8>, h: seq<Executed>)
    ensures Accounted(v, stream, h) <==> Accounted(v.(state := state), stream, h)
  {
    hide EncodeCommands, CommandsOf;
  }

  lemma PayloadHasHeader(v: View, stream: seq<u8>, h: seq<Executed>, n: nat)
    requires Holds(v, stream, h, n) && v.state.ReadPayload?
    ensures HeaderRead(v.pending)
  {
    hide Answered, Accounted, Responses, ParseHeader;
  }

  lemma PendingEmpty(v: View, stream: seq<u8>, h: seq<Executed>, n: nat)
    requires Holds(v, stream, h, n) && v.state.WriteResponse?
    ensures v.pending == [] && v.out != []
  {
    hide Answered, Accounted, Responses, ParseHeader;
  }

  /** A GET whose count is out of range. */
  lemma DropKeeps(v: View, stream: seq<u8>, h: seq<Executed>, n: nat)
    requires Holds(v, stream, h, n) && v.state.Process? && ParseFrame(v.pending, n).Bad?
    ensures Holds(v.(state := Dropped, pending := []), stream, h, n)
  {
    hide Answered, ParseHeader, ParseStream, Responses, ParseFrame, EncodeCommands, CommandsOf;
    FrameOfWhole(v.pending, v.incoming, n);
    BadFrameCuts(v, stream, h, n);
  }

  /** A `write` that returned `k` bytes: the next request is read only when the last byte is out. */
  function AfterWrite(v: View, k: nat): View
    requires v.state.WriteResponse? && k <= |v.out|
  {
    v.(state := if k == |v.out| then ReadHeader else WriteResponse, out := v.out[k..], sent := v.sent + v.out[..k])
  }

  lemma WriteKeeps(v: View, stream: seq<u8>, h: seq<Executed>, k: nat, n: nat)
    requires Holds(v, stream, h, n) && v.state.WriteResponse? && k <= |v.out|
    ensures Holds(AfterWrite(v, k), stream, h, n)
  {
    hide Answered, ParseHeader, ParseStream, Responses, EncodeCommands, CommandsOf;
    assert v.out == v.out[..k] + v.out[k..];
    assert (v.sent + v.out[..k]) + v.out[k..] == v.sent + v.out;
  }

  lemma GoneKeeps(v: View, stream: seq<u8>, h: seq<Executed>, n: nat)
    requires Holds(v, stream, h, n) && (Reading(v) || v.state.WriteResponse?)
    ensures Holds(v.(state := Gone), stream, h, n)
  {
    hide Answered, ParseHeader, ParseStream, Responses, EncodeCommands, CommandsOf;
    assert v.out == [] ==> v.sent + v.out == v.sent;
  }

  // ----- one frame -----

  /** The command that a connection is about to run, if any. */
  function Ran(v: View, c: Contents, now: u64, n: nat): seq<Executed> {
    if !v.state.Process? then []
    else match ParseFrame(v.pending, n)
         case Complete(cmd) => [Executed(cmd, c, now, Respond(c, cmd))]
         case _ => []
  }

  /** The connection after it has been read from: a whole frame is answered, or dropped if it is bad. */
  function AfterHandling(v: View, c: Contents, n: nat): View {
    if !v.state.Process? then v
    else match ParseFrame(v.pending, n)
         case Complete(cmd) => v.(state := WriteResponse, pending := [], out := Respond(c, cmd))
         case _ => v.(state := Dropped, pending := [])
  }

  // ----- whole loops of system calls -----

  /** What the kernel does with the next read or write: any choice of sizes, delays and failures. */
  datatype Event = Block | Fail | Close | UpTo(limit: nat)

  function Min(a: nat, b: nat): nat { if a < b then a else b }

  /** A connection and the system-call results still to come. */
  datatype Progress = Progress(v: View, script: seq<Event>)

  /** A connection that reads has not yet read what it waits for. */
  ghost predicate Waiting(v: View) {
    && (v.state.ReadHeader? ==> |v.pending| < 9)
    && (v.state.ReadPayload? ==> HeaderRead(v.pending) && |v.pending| < FrameLength(v.pending))
  }

  lemma HoldsWaiting(v: View, stream: seq<u8>, h: seq<Executed>, n: nat)
    requires Holds(v, stream, h, n)
    ensures Waiting(v)
  {
    hide Answered, Accounted, Responses, ParseHeader, ParseFrame, ParseStream;
  }

  lemma AfterReadWaits(v: View, k: nat)
    requires Waiting(v) && Reading(v) && k <= |v.incoming| && |v.pending| + k <= Needed(v)
    ensures Waiting(AfterRead(v, k))
  {
    hide ParseHeader;
    if |v.pending| >= 9 {
      HeaderOfPrefix(v.pending, v.incoming[..k]);
    }
  }

  /** How many bytes the next read delivers: what is asked for, what has come, and what the kernel chooses. */
  function ReadSize(v: View, limit: nat): (k: nat)
    requires Waiting(v) && Reading(v)
    ensures k <= |v.incoming| && |v.pending| + k <= Needed(v)
    ensures limit > 0 && v.incoming != [] ==> k > 0
    ensures k == limit || |v.pending| + k == Needed(v) || k == |v.incoming|
  {
    Min(Min(limit, Needed(v) - |v.pending|), |v.incoming|)
  }

  /** The loop of `handle_read`: up to a whole frame, a blocked read or the end of the connection. */
  ghost function ReadLoop(v: View, script: seq<Event>): Progress
    requires Waiting(v)
    decreases |script|
  {
    if !Reading(v) || script == [] then Progress(v, script)
    else
      match script[0]
      case Block => Progress(v, script[1..])
      case Fail => Progress(v.(state := Gone), script[1..])
      case Close => Progress(v.(state := Gone), script[1..])
      case UpTo(limit) =>
        var k := ReadSize(v, limit);
        if k == 0 then Progress(v, script[1..])
        else
          AfterReadWaits(v, k);
          ReadLoop(AfterRead(v, k), script[1..])
  }

  /** The loop of `handle_write`: up to the last byte of the answer, a blocked write or the end of the connection. */
  ghost function WriteLoop(v: View, script: seq<Event>): Progress
    decreases |script|
  {
    if !v.state.WriteResponse? || script == [] then Progress(v, script)
    else
      match script[0]
      case Block => Progress(v, script[1..])
      case Fail => Progress(v.(state := Gone), script[1..])
      case Close => Progress(v.(state := Gone), script[1..])
      case UpTo(limit) =>
        var k := Min(limit, |v.out|);
        if k == 0 then Progress(v, script[1..]) else WriteLoop(AfterWrite(v, k), script[1..])
  }

  predicate Ends(e: Event) { e.Fail? || e.Close? }

  /** No call fails and the peer does not close; calls may block any number of times. */
  ghost predicate Patient(script: seq<Event>) {
    forall i :: 0 <= i < |script| ==> !Ends(script[i])
  }

  /** How many of the calls move at least a byte, if there is one to move. */
  function Grants(script: seq<Event>): (k: nat)
    ensures k <= |script|
  {
    if script == [] then 0 else (if script[0].UpTo? && script[0].limit > 0 then 1 else 0) + Grants(script[1..])
  }

  /** The calls that the read loop makes are the first of the script, all but the last of them moving bytes. */
  lemma {:induction false} ReadLoopUses(v: View, script: seq<Event>)
    requires Waiting(v)
    ensures var p := ReadLoop(v, script);
            var used := |script| - |p.script|;
            && 0 <= used && p.script == script[used..] && (used == 0 <==> !Reading(v) || script == [])
            && (used == 0 ==> p.v == v)
            && (forall i :: 0 <= i < used - 1 ==> script[i].UpTo? && script[i].limit > 0)
    decreases |script|
  {
    hide AfterRead, Waiting, Needed;
    if Reading(v) && script != [] && script[0].UpTo? {
      var k := ReadSize(v, script[0].limit);
      if k > 0 {
        AfterReadWaits(v, k);
        ReadLoopUses(AfterRead(v, k), script[1..]);
        var p := ReadLoop(AfterRead(v, k), script[1..]);
        assert script[1..][|script| - 1 - |p.script|..] == script[|script| - |p.script|..];
      }
    }
  }

  /**
   What the read loop does with any script: it makes calls in order until the frame is whole or bad, the connection
   has ended, or a call gave nothing. It ends the connection exactly if its last call failed or found it closed.
   */
  lemma {:induction false} ReadLoopIs(v: View, script: seq<Event>)
    requires Waiting(v)
    ensures var p := ReadLoop(v, script);
            var used := |script| - |p.script|;
            && 0 <= used && (Reading(v) && script != [] ==> used > 0)
            && (!v.state.Gone? ==> (p.v.state.Gone? <==> used > 0 && Ends(script[used - 1])))
            && (Reading(p.v) ==> p.script == [] || !(script[used - 1].UpTo? && script[used - 1].limit > 0)
                                 || p.v.incoming == [])
    decreases |script|
  {
    hide AfterRead, Waiting, Needed;
    if Reading(v) && script != [] && script[0].UpTo? {
      var k := ReadSize(v, script[0].limit);
      if k > 0 {
        AfterReadWaits(v, k);
        AfterReadTakes(v, k);
        ReadLoopIs(AfterRead(v, k), script[1..]);
      }
    }
  }

  /** `v'` has read on from where `v` was, and sent nothing. */
  ghost predicate ReadOn(v: View, v': View) {
    && |v'.incoming| <= |v.incoming| && v.pending + v.incoming == v'.pending + v'.incoming
    && |v.pending| <= |v'.pending| && v'.out == v.out && v'.sent == v.sent
  }

  lemma ReadOnOnce(v: View, k: nat)
    requires Reading(v) && k <= |v.incoming|
    ensures ReadOn(v, AfterRead(v, k))
  {
    hide AfterRead;
    AfterReadTakes(v, k);
    assert v.incoming == v.incoming[..k] + v.incoming[k..];
  }

  /** Reading takes bytes from what has come, in order, and touches nothing that is to be sent. */
  lemma {:induction false} ReadLoopTakes(v: View, script: seq<Event>)
    requires Waiting(v)
    ensures var v' := ReadLoop(v, script).v;
            && ReadOn(v, v') && Waiting(v') && (Reading(v) ==> !v'.state.WriteResponse?)
            && (Reading(v) && !Reading(v') && !v'.state.Gone? ==> |v'.incoming| < |v.incoming|)
    decreases |script|
  {
    hide AfterRead, Waiting, Needed, ReadOn;
    ReadOnItself(v);
    if Reading(v) && script != [] {
      if script[0].UpTo? && ReadSize(v, script[0].limit) > 0 {
        var k := ReadSize(v, script[0].limit);
        AfterReadWaits(v, k);
        AfterReadTakes(v, k);
        ReadOnOnce(v, k);
        ReadLoopTakes(AfterRead(v, k), script[1..]);
        ReadOnTwice(v, AfterRead(v, k), ReadLoop(AfterRead(v, k), script[1..]).v);
      } else if Ends(script[0]) {
        GoneWaits(v);
      }
    }
  }

  lemma ReadOnItself(v: View)
    ensures ReadOn(v, v) && ReadOn(v, v.(state := Gone))
  {
  }

  lemma ReadOnTwice(a: View, b: View, c: View)
    requires ReadOn(a, b) && ReadOn(b, c)
    ensures ReadOn(a, c) && |c.incoming| <= |b.incoming|
  {
  }

  lemma GoneWaits(v: View)
    ensures Waiting(v.(state := Gone))
  {
  }

  /** Every call that may move a byte moves one, until there is none left. */
  lemma {:induction false} ReadLoopPays(v: View, script: seq<Event>)
    requires Waiting(v) && Patient(script)
    ensures var p := ReadLoop(v, script);
            || Grants(p.script) + |v.incoming| >= Grants(script) + |p.v.incoming|
            || (Reading(p.v) && p.v.incoming == [])
    decreases |script|
  {
    hide AfterRead, Waiting, Needed;
    if Reading(v) && script != [] && script[0].UpTo? {
      var k := ReadSize(v, script[0].limit);
      if k > 0 {
        AfterReadWaits(v, k);
        AfterReadTakes(v, k);
        ReadLoopPays(AfterRead(v, k), script[1..]);
      }
    }
  }

  /** What the write loop does with any script, likewise. */
  lemma {:induction false} WriteLoopIs(v: View, script: seq<Event>)
    requires v.state.WriteResponse? && v.out != []
    ensures var p := WriteLoop(v, script);
            var used := |script| - |p.script|;
            && 0 <= used && p.script == script[used..] && (used == 0 <==> script == []) && (used == 0 ==> p.v == v)
            && (p.v.state.Gone? <==> used > 0 && Ends(script[used - 1]))
            && (p.v.state.ReadHeader? <==> p.v.out == [])
            && (!p.v.state.Gone? && p.v.out != [] ==> p.v.state.WriteResponse?)
            && (p.v.state.WriteResponse? ==> p.script == [] || !(script[used - 1].UpTo? && script[used - 1].limit > 0))
    decreases |script|
  {
    hide Min, AfterWrite;
    if script != [] && script[0].UpTo? {
      MinIs(script[0].limit, |v.out|);
      var k := Min(script[0].limit, |v.out|);
      AfterWriteIs(v, k);
      if 0 < k < |v.out| {
        WriteLoopIs(AfterWrite(v, k), script[1..]);
        var p := WriteLoop(AfterWrite(v, k), script[1..]);
        assert script[1..][|script| - 1 - |p.script|..] == script[|script| - |p.script|..];
      }
    }
  }

  lemma AfterWriteIs(v: View, k: nat)
    requires v.state.WriteResponse? && k <= |v.out|
    ensures var v' := AfterWrite(v, k);
            v'.out == v.out[k..] && v'.state == if k == |v.out| then ReadHeader else WriteResponse
  {
  }

  /** A call that may take the whole answer takes it. */
  lemma OneWriteSuffices(v: View, limit: nat, rest: seq<Event>)
    requires v.state.WriteResponse? && v.out != [] && limit >= |v.out|
    ensures WriteLoop(v, [UpTo(limit)] + rest)
         == Progress(v.(state := ReadHeader, out := [], sent := v.sent + v.out), rest)
  {
    assert v.out[..|v.out|] == v.out && ([UpTo(limit)] + rest)[1..] == rest;
  }

  /** A call that may deliver all that the frame still lacks delivers it: nine bytes, or the rest of the frame. */
  lemma OneReadSuffices(v: View, limit: nat, rest: seq<Event>)
    requires Waiting(v) && Reading(v) && Needed(v) - |v.pending| <= limit && Needed(v) - |v.pending| <= |v.incoming|
    ensures var k := Needed(v) - |v.pending|;
            && Waiting(AfterRead(v, k))
            && ReadLoop(v, [UpTo(limit)] + rest) == ReadLoop(AfterRead(v, k), rest)
  {
    hide ParseHeader, AfterRead;
    assert ([UpTo(limit)] + rest)[1..] == rest;
    AfterReadWaits(v, Needed(v) - |v.pending|);
  }

  lemma MinIs(a: nat, b: nat)
    ensures Min(a, b) <= a && Min(a, b) <= b && (Min(a, b) == a || Min(a, b) == b)
  {
  }

  /** Writing sends the answer's bytes in order and reads nothing. */
  lemma {:induction false} WriteLoopSends(v: View, script: seq<Event>)
    requires v.state.WriteResponse? && v.out != []
    ensures var p := WriteLoop(v, script);
            && p.v.sent + p.v.out == v.sent + v.out && |p.v.out| <= |v.out|
            && p.v.pending == v.pending && p.v.incoming == v.incoming
            && (Patient(script) ==> Grants(p.script) + |v.out| >= Grants(script) + |p.v.out|)
    decreases |script|
  {
    if script != [] && script[0].UpTo? {
      var k := Min(script[0].limit, |v.out|);
      assert v.sent + v.out[..k] + v.out[k..] == v.sent + v.out;
      if 0 < k < |v.out| {
        WriteLoopSends(AfterWrite(v, k), script[1..]);
      }
    }
  }

  /** The kernel neither blocks nor fails. */
  ghost predicate Willing(script: seq<Event>) {
    forall i :: 0 <= i < |script| ==> script[i].UpTo? && script[i].limit > 0
  }

  /**
   While the kernel delivers, reading stops only at a whole frame, a bad one, or the end of what has come, after
   no more calls than bytes.
   */
  lemma {:induction false} ReadsFinish(v: View, script: seq<Event>)
    requires Waiting(v) && Reading(v) && Willing(script) && |script| >= |v.incoming|
    ensures var p := ReadLoop(v, script);
            && Willing(p.script) && p.v.out == v.out && (Reading(p.v) || p.v.state.Process? || p.v.state.Dropped?)
            && if Reading(p.v) then p.v.incoming == []
               else |p.v.incoming| < |v.incoming| && |p.script| >= |script| - (|v.incoming| - |p.v.incoming|)
    decreases |script|
  {
    hide Waiting, Needed;
    if script != [] {
      var k := ReadSize(v, script[0].limit);
      if k > 0 {
        AfterReadWaits(v, k);
        AfterReadTakes(v, k);
        hide AfterRead;
        if Reading(AfterRead(v, k)) {
          ReadsFinish(AfterRead(v, k), script[1..]);
        }
      }
    }
  }

  lemma AfterReadTakes(v: View, k: nat)
    requires Reading(v) && k <= |v.incoming|
    ensures var v' := AfterRead(v, k);
            && v'.incoming == v.incoming[k..] && v'.pending == v.pending + v.incoming[..k]
            && v'.out == v.out && v'.sent == v.sent
            && (Reading(v') || v'.state.Process? || v'.state.Dropped?)
  {
    hide ParseHeader;
  }

  /** While the kernel takes bytes, the whole answer goes out, and then the connection reads again. */
  lemma {:induction false} WritesFinish(v: View, script: seq<Event>)
    requires v.state.WriteResponse? && v.out != [] && Willing(script) && |script| >= |v.out|
    ensures var p := WriteLoop(v, script);
            && p.v == v.(state := ReadHeader, out := [], sent := v.sent + v.out)
            && Willing(p.script) && |p.script| >= |script| - |v.out|
    decreases |script|
  {
    var k := Min(script[0].limit, |v.out|);
    assert v.out == v.out[..k] + v.out[k..];
    if k < |v.out| {
      WritesFinish(AfterWrite(v, k), script[1..]);
      assert (v.sent + v.out[..k]) + v.out[k..] == v.sent + v.out;
    }
  }

  /** System calls enough for all that is still to be read and answered: no answer is longer than this. */
  function Calls(v: View, n: nat): nat {
    |v.incoming| * (8 + 17 * n) + |v.out|
  }

  lemma EnoughToRead(v: View, n: nat)
    ensures Calls(v, n) >= |v.incoming|
  {
    AtLeast(|v.incoming|, 8 + 17 * n);
  }

  lemma AnswerSize(c: Contents, cmd: Command, n: nat)
    requires Acceptable(cmd, n)
    ensures 5 <= |Respond(c, cmd)| <= 7 + 17 * n
  {
  }

  lemma NothingOut(v: View, stream: seq<u8>, h: seq<Executed>, n: nat)
    requires Holds(v, stream, h, n) && Reading(v)
    ensures v.out == []
  {
    hide Answered, Accounted, Responses, ParseHeader, ParseFrame, ParseStream;
  }

  lemma HandlingEnds(v: View, c: Contents, n: nat)
    ensures var v' := AfterHandling(v, c, n);
            && v'.incoming == v.incoming
            && (if v.state.Process? then
                  && v'.pending == [] && v'.sent == v.sent
                  && (v'.state.Dropped? || (v'.state.WriteResponse? && 0 < |v'.out| <= 7 + 17 * n))
                else v' == v)
  {
    hide Respond, ParseHeader;
    if v.state.Process? && ParseFrame(v.pending, n).Complete? {
      AnswerSize(c, ParseFrame(v.pending, n).cmd, n);
    }
  }

  /** A frame read and answered takes no more calls than its bytes paid for. */
  lemma CallsSuffice(before: nat, after: nat, out: nat, n: nat)
    requires after < before && out <= 7 + 17 * n
    ensures before * (8 + 17 * n) - (before - after) >= after * (8 + 17 * n) + out
  {
    var j, w := before - after, 7 + 17 * n;
    assert before * (1 + w) == after * (1 + w) + j * (1 + w);
    assert j * w >= w by { AtLeast(w, j); }
  }

  // ----- what the splitting into reads and writes cannot change -----

  /** Nothing is left to do: the server closed, or all that came is read and answered, the peer still there or not. */
  ghost predicate Settled(v: View) {
    v.state.Dropped? || ((Reading(v) || v.state.Gone?) && v.incoming == [] && v.out == [])
  }

  /**
   Whatever the sizes of the reads and writes were, a settled connection has run exactly the commands that
   the whole stream reads as, was cut exactly if the stream has a bad frame, and sent every answer once.
   */
  lemma SettledMeansParsed(v: View, stream: seq<u8>, h: seq<Executed>, n: nat)
    requires Holds(v, stream, h, n) && Settled(v)
    ensures ParseStream(stream, n) == Stream(CommandsOf(h), v.state.Dropped?)
    ensures v.sent == Responses(h)
  {
    hide Answered, ParseHeader, Responses, EncodeCommands, CommandsOf;
    if !v.state.Dropped? {
      StreamAt(v, stream, h, n);
      assert v.pending + v.incoming == v.pending && v.sent + v.out == v.sent;
      assert ParseFrame(v.pending, n).Incomplete?;
    }
  }

  /** At every moment the commands run are the first of those the stream reads as. */
  lemma RunCommandsArePrefix(v: View, stream: seq<u8>, h: seq<Executed>, n: nat)
    requires Holds(v, stream, h, n)
    ensures CommandsOf(h) <= ParseStream(stream, n).commands && v.sent <= Responses(h)
  {
    hide ParseHeader, Responses, CommandsOf, ParseStream, EncodeCommands, Answered;
    if !v.state.Dropped? {
      StreamAt(v, stream, h, n);
    }
  }

  /** What a command leaves in the store. */
  function Effect(c: Contents, cmd: Command, now: u64, n: nat): Contents {
    match cmd
    case Push(uid, r) => PushTo(c, uid, r, now, n)
    case Get(_, _) => c
    case Del(uid) => c - {uid}
  }
}
