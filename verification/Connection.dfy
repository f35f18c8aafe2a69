/** A client connection: its buffers, its state machine, and the commands it runs. */
module Connections {
  import opened Bytes
  import opened Records
  import opened AofCodec
  import opened Wire
  import opened Conversation
  import opened Fairness
  import opened Stores
  import opened AofWriters
  import opened Replay
  import opened Commands
  import Operations
  import Recovery

  /** A socket with an arbitrary script of system-call results. */
  class Socket {
    var incoming: seq<u8>
    var sent: seq<u8>
    var script: seq<Event>

    constructor (stream: seq<u8>, script: seq<Event>)
      ensures incoming == stream && sent == [] && this.script == script
    {
      incoming, sent, this.script := stream, [], script;
    }

    /** The next scripted result; an exhausted script blocks. */
    method Next() returns (e: Event)
      modifies this`script
      ensures old(script) == [] ==> e == Block && script == []
      ensures old(script) != [] ==> e == old(script)[0] && script == old(script)[1..]
    {
      e := Block;
      if script != [] {
        e := script[0];
        script := script[1..];
      }
    }
  }

  /** What a command appends to the log. */
  function LogOf(cmd: Command, now: u64): seq<u8> {
    match cmd
    case Push(uid, r) => EncodeEntry(EntryOf(Operations.Push(uid, r, now)))
    case Del(uid) => EncodeEntry(EntryOf(Operations.Del(uid, now)))
    case Get(_, _) => []
  }

  lemma ResponseNotEmpty(c: Contents, cmd: Command)
    ensures Respond(c, cmd) != []
  {
    hide EncodeRecords;
  }

  class Connection {
    const n: nat
    const rbuf: array<u8>
    const wbuf: array<u8>
    const sock: Socket
    var state: State
    var rbufPos: nat
    var wbufLen: nat
    var wbufPos: nat
    ghost const stream: seq<u8>
    ghost var history: seq<Executed>

    ghost predicate Shaped()
      reads this
    {
      && 1 <= n <= 3854
      && rbuf.Length == 32 && wbuf.Length == WbufSize(n) && rbuf != wbuf
      && rbufPos <= 26 && wbufPos <= wbufLen <= wbuf.Length
    }

    ghost function Look(): View
      requires Shaped()
      reads this, rbuf, wbuf, sock
    {
      View(state, rbuf[..rbufPos], wbuf[wbufPos..wbufLen], sock.incoming, sock.sent)
    }

    ghost predicate Valid()
      reads this, rbuf, wbuf, sock
    {
      Shaped() && Holds(Look(), stream, history, n)
    }

    /** Nothing is left to do on this connection. */
    ghost predicate Done()
      reads this, rbuf, wbuf, sock
    {
      Shaped() && Settled(Look())
    }

    /** What `handle_read` does: the reads that the socket allows, then the frame if it is whole. */
    twostate predicate Handled(c: Contents, now: u64)
      reads this, rbuf, wbuf, sock
    {
      && old(Shaped()) && Shaped() && Waiting(old(Look()))
      && var after := ReadLoop(old(Look()), old(sock.script));
         && sock.script == after.script && Look() == AfterHandling(after.v, c, n)
         && history == old(history) + Ran(after.v, c, now, n)
    }

    /** The same reads lead to the frame `f`. */
    twostate predicate Reached(f: Frame)
      reads this, rbuf, wbuf, sock
    {
      && old(Shaped()) && Waiting(old(Look()))
      && var v := ReadLoop(old(Look()), old(sock.script)).v;
         v.state.Process? && ParseFrame(v.pending, n) == f
    }

    /** What `handle_write` does: the writes that the socket allows. */
    twostate predicate Written()
      reads this, rbuf, wbuf, sock
    {
      old(Shaped()) && Shaped() && Progress(Look(), sock.script) == WriteLoop(old(Look()), old(sock.script))
    }

    constructor (n: nat, sock: Socket)
      requires 1 <= n <= 3854 && sock.sent == []
      ensures Valid() && fresh(rbuf) && fresh(wbuf) && this.sock == sock && this.n == n
      ensures Look() == View(ReadHeader, [], [], sock.incoming, []) && stream == sock.incoming && history == []
    {
      this.n := n;
      rbuf := new u8[32](_ => 0);
      wbuf := new u8[WbufSize(n)];
      this.sock := sock;
      state := ReadHeader;
      rbufPos, wbufLen, wbufPos := 0, 0, 0;
      stream := sock.incoming;
      history := [];
      new;
      assert CommandsOf([]) == [];
      assert EncodeCommands([]) + rbuf[..0] + stream == stream;
    }

    /** `write_response`. */
    method WriteStatus(status: u8)
      requires Shaped()
      modifies this`wbufLen, this`wbufPos, this`state, wbuf
      ensures Shaped() && state == WriteResponse && wbufPos == 0
      ensures wbuf[..wbufLen] == StatusResponse(status)
    {
      var response := StatusResponse(status);
      CopyInto(wbuf, 0, response);
      wbufLen, wbufPos, state := 5, 0, WriteResponse;
    }

    /** The user found: header fields, then the records newest first. */
    method WriteRecords(records: seq<Record>)
      requires Shaped() && |records| <= n
      modifies this`wbufLen, this`wbufPos, this`state, wbuf
      ensures Shaped() && state == WriteResponse && wbufPos == 0
      ensures wbuf[..wbufLen] == RecordsResponse(records)
    {
      hide EncodeRecords;
      var header, body := RecordsHeader(|records|), EncodeRecords(records);
      CopyInto(wbuf, 0, header);
      CopyInto(wbuf, 7, body);
      wbufLen, wbufPos, state := 7 + |records| * 17, 0, WriteResponse;
      assert wbuf[..wbufLen] == header + body;
    }

    ghost predicate Apart(store: Store, aof: AofWriter) {
      && rbuf != store.mem && rbuf != aof.buf && wbuf != store.mem && wbuf != aof.buf && store.mem != aof.buf
      && store.cfg.capacity == n
    }

    /** `alive` is false when the allocator's assertion fails; the entry is in the log all the same. */
    method PushCommand(uid: u32, rec: Record, store: Store, aof: AofWriter, now: u64) returns (alive: bool)
      requires Shaped() && store.Valid() && aof.Valid() && Apart(store, aof)
      modifies this`wbufLen, this`wbufPos, this`state, wbuf, store, store.mem, aof, aof.buf
      ensures Shaped() && store.Valid() && aof.Valid()
      ensures aof.Log() == old(aof.Log()) + LogOf(Push(uid, rec), now)
      ensures alive == HasRoom(old(store.Model()), uid, Recovery.LimitsOf(store.cfg))
      ensures alive ==> store.Model() == Effect(old(store.Model()), Push(uid, rec), now, n)
      ensures alive ==> state == WriteResponse && wbufPos == 0 && wbuf[..wbufLen] == StatusResponse(STATUS_OK)
      ensures alive ==> ReadReply(wbuf[..wbufLen]) == Status(0x00)
    {
      hide Store.Valid, Store.Model, AofWriter.Log, AofWriter.Valid, PushTo, EncodeEntry, EntryOf, StatusResponse,
        ReadReply, WellFormed, HasRoom;
      alive := LogAndPush(store, aof, uid, rec, now);
      if alive {
        WriteStatus(STATUS_OK);
        StatusAnswers(0x00);
      }
    }

    method DelCommand(uid: u32, store: Store, aof: AofWriter, now: u64)
      requires Shaped() && store.Valid() && aof.Valid() && Apart(store, aof)
      modifies this`wbufLen, this`wbufPos, this`state, wbuf, store, store.mem, aof, aof.buf
      ensures Shaped() && store.Valid() && aof.Valid()
      ensures aof.Log() == old(aof.Log()) + LogOf(Del(uid), now)
      ensures store.Model() == Effect(old(store.Model()), Del(uid), now, n)
      ensures state == WriteResponse && wbufPos == 0 && wbuf[..wbufLen] == StatusResponse(STATUS_OK)
      ensures ReadReply(wbuf[..wbufLen]) == Status(0x00)
    {
      hide Store.Valid, Store.Model, AofWriter.Log, AofWriter.Valid, EncodeEntry, EntryOf, StatusResponse, ReadReply,
        WellFormed;
      LogAndErase(store, aof, uid, now);
      WriteStatus(STATUS_OK);
      StatusAnswers(0x00);
    }

    /** Reads the store; only the write buffer changes. */
    method GetCommand(uid: u32, count: u16, store: Store)
      requires Shaped() && store.Valid() && store.cfg.capacity == n && wbuf != store.mem
      modifies this`wbufLen, this`wbufPos, this`state, wbuf
      ensures Shaped() && store.Valid() && store.Model() == old(store.Model())
      ensures state == WriteResponse && wbufPos == 0 && wbuf[..wbufLen] == Respond(old(store.Model()), Get(uid, count))
      ensures 1 <= count <= n ==>
                ReadReply(wbuf[..wbufLen])
                == if uid in store.Model() then Records(Latest(store.Model()[uid].records, count)) else Status(0x02)
    {
      hide Store.Valid, Store.Model, StatusResponse, RecordsResponse, WellFormed, ReadReply;
      if 1 <= count <= n {
        NotFoundIffAbsent(store.Model(), uid, count, n);
      }
      var found, records := Lookup(store, uid, count);
      if found {
        WriteRecords(records);
      } else {
        WriteStatus(STATUS_NOT_FOUND);
      }
    }

    method RunCommand(cmd: Command, store: Store, aof: AofWriter, now: u64) returns (alive: bool)
      requires Shaped() && store.Valid() && aof.Valid() && Apart(store, aof)
      modifies this`wbufLen, this`wbufPos, this`state, wbuf, store, store.mem, aof, aof.buf
      ensures Shaped() && store.Valid() && aof.Valid()
      ensures aof.Log() == old(aof.Log()) + LogOf(cmd, now)
      ensures alive == (cmd.Push? ==> HasRoom(old(store.Model()), cmd.uid, Recovery.LimitsOf(store.cfg)))
      ensures alive ==> store.Model() == Effect(old(store.Model()), cmd, now, n)
      ensures alive ==> state == WriteResponse && wbufPos == 0 && wbuf[..wbufLen] == Respond(old(store.Model()), cmd)
    {
      hide Store.Valid, Store.Model, AofWriter.Log, AofWriter.Valid, StatusResponse, RecordsResponse, PushTo,
        EncodeEntry, EntryOf, HasRoom;
      alive := true;
      match cmd
      case Push(uid, rec) => alive := PushCommand(uid, rec, store, aof, now);
      case Del(uid) => DelCommand(uid, store, aof, now);
      case Get(uid, count) =>
        GetCommand(uid, count, store);
        assert aof.Log() + [] == aof.Log();
    }

    /** The request in the read buffer, with the GET count checked. */
    method ReadCommand() returns (f: Frame)
      requires Valid() && state == Process
      ensures f == ParseFrame(rbuf[..rbufPos], n) && !f.Incomplete?
    {
      hide Answered, Accounted, Responses, DecodeU16, DecodeU32, DecodeRecord;
      ghost var s := rbuf[..rbufPos];
      assert s[3..7] == rbuf[3..7];
      var opcode := rbuf[2];
      var uid := DecodeU32(rbuf[3..7]);
      if opcode == OPCODE_PUSH {
        assert s[9..26] == rbuf[9..26];
        f := Complete(Push(uid, DecodeRecord(rbuf[9..26])));
      } else if opcode == OPCODE_GET {
        assert s[9..11] == rbuf[9..11];
        var count := DecodeU16(rbuf[9..11]);
        f := if count == 0 || count > n then Bad else Complete(Get(uid, count));
      } else {
        f := Complete(Del(uid));
      }
    }

    /** The connection is closed and nothing is answered. */
    method DropFrame()
      requires Valid() && state == Process && ParseFrame(rbuf[..rbufPos], n).Bad?
      modifies this`state, this`rbufPos
      ensures Valid() && Look() == old(Look()).(state := Dropped, pending := [])
    {
      hide Holds, ParseFrame;
      ghost var v := Look();
      DropKeeps(v, stream, history, n);
      state := Dropped;
      rbufPos := 0;
      assert Look() == v.(state := Dropped, pending := []);
    }

    /** The command is run and its answer left in the write buffer. */
    method RunFrame(cmd: Command, store: Store, aof: AofWriter, now: u64) returns (alive: bool)
      requires Valid() && state == Process && ParseFrame(rbuf[..rbufPos], n) == Complete(cmd)
      requires store.Valid() && aof.Valid() && Apart(store, aof)
      modifies this`wbufLen, this`wbufPos, this`state, this`rbufPos, this`history, wbuf, store, store.mem, aof, aof.buf
      ensures store.Valid() && aof.Valid()
      ensures aof.Log() == old(aof.Log()) + LogOf(cmd, now)
      ensures alive == (cmd.Push? ==> HasRoom(old(store.Model()), cmd.uid, Recovery.LimitsOf(store.cfg)))
      ensures alive ==> store.Model() == Effect(old(store.Model()), cmd, now, n)
      ensures alive ==>
                Valid() && Look() == old(Look()).(state := WriteResponse, pending := [],
                                                  out := Respond(old(store.Model()), cmd))
      ensures alive ==>
                history == old(history) + [Executed(cmd, old(store.Model()), now, Respond(old(store.Model()), cmd))]
    {
      hide Store.Valid, Store.Model, AofWriter.Log, AofWriter.Valid, Holds, ParseFrame, Respond, Effect, LogOf, HasRoom;
      ghost var v := Look();
      ghost var e := Executed(cmd, store.Model(), now, Respond(store.Model(), cmd));
      ResponseNotEmpty(store.Model(), cmd);
      RunKeeps(v, stream, history, e, n);
      alive := RunCommand(cmd, store, aof, now);
      if alive {
        rbufPos := 0;
        history := history + [e];
        assert Look() == v.(state := WriteResponse, pending := [], out := e.response);
      }
    }

    /**
     `process_command`: the frame `f` in the read buffer is run, or the connection dropped if its GET count
     is out of range. `alive` is false when the allocator's assertion fails, after the entry was logged.
     */
    method ProcessCommand(store: Store, aof: AofWriter, now: u64) returns (alive: bool, ghost f: Frame)
      requires Valid() && state == Process && store.Valid() && aof.Valid() && Apart(store, aof)
      modifies this`wbufLen, this`wbufPos, this`state, this`rbufPos, this`history, wbuf, store, store.mem, aof, aof.buf
      ensures store.Valid() && aof.Valid() && f == ParseFrame(old(rbuf[..rbufPos]), n) && !f.Incomplete?
      ensures f.Bad? ==> alive && aof.Log() == old(aof.Log()) && store.Model() == old(store.Model())
      ensures f.Bad? ==> Valid() && Look() == old(Look()).(state := Dropped, pending := []) && history == old(history)
      ensures f.Complete? ==> aof.Log() == old(aof.Log()) + LogOf(f.cmd, now)
      ensures f.Complete? ==>
                alive == (f.cmd.Push? ==> HasRoom(old(store.Model()), f.cmd.uid, Recovery.LimitsOf(store.cfg)))
      ensures f.Complete? && alive ==> store.Model() == Effect(old(store.Model()), f.cmd, now, n)
      ensures f.Complete? && alive ==>
                Valid() && Look() == old(Look()).(state := WriteResponse, pending := [],
                                                  out := Respond(old(store.Model()), f.cmd))
      ensures f.Complete? && alive ==>
                history == old(history) + [Executed(f.cmd, old(store.Model()), now, Respond(old(store.Model()), f.cmd))]
    {
      hide Store.Valid, Store.Model, AofWriter.Log, AofWriter.Valid, Holds, ParseFrame, Respond, Effect, LogOf, HasRoom,
        WellFormed;
      var frame := ReadCommand();
      f := frame;
      if frame.Bad? {
        alive := true;
        DropFrame();
      } else {
        alive := RunFrame(frame.cmd, store, aof, now);
      }
    }

    // ----- the socket -----

    /** `needed`: the header's nine bytes, or the header and the payload it announces. */
    method BytesNeeded() returns (needed: nat)
      requires Valid() && Reading(Look())
      ensures needed == Needed(Look()) && rbufPos < needed <= 26
    {
      hide Answered, Accounted, Responses, DecodeU32, DecodeU16;
      needed := 9;
      if state == ReadPayload {
        ghost var pending := rbuf[..rbufPos];
        PayloadHasHeader(Look(), stream, history, n);
        assert |pending| >= 9 && pending[7..9] == rbuf[7..9];
        needed := 9 + DecodeU16(rbuf[7..9]);
      }
    }

    /** A `read` that delivers `k` bytes, and the match after it. */
    method Receive(k: nat)
      requires Valid() && Reading(Look())
      requires k <= |sock.incoming| && rbufPos + k <= Needed(Look()) <= 26
      modifies this`state, this`rbufPos, rbuf, sock`incoming
      ensures Valid() && Look() == AfterRead(old(Look()), k)
      ensures state != WriteResponse && state != Gone
    {
      hide Holds, ParseHeader;
      ghost var v := Look();
      ReadKeeps(v, stream, history, k, n);
      if state == ReadPayload {
        PayloadHasHeader(v, stream, history, n);
      }
      var data := sock.incoming[..k];
      CopyInto(rbuf, rbufPos, data);
      sock.incoming := sock.incoming[k..];
      rbufPos := rbufPos + k;
      assert rbuf[..rbufPos] == v.pending + data;
      if |v.pending| >= 9 {
        HeaderOfPrefix(v.pending, data);
      }
      if rbufPos >= 9 {
        match ParseHeader(rbuf[..rbufPos])
        case BadHeader => state := Dropped;
        case GoodHeader(_, _, length) => state := if rbufPos < 9 + length then ReadPayload else Process;
      }
    }

    /** The source forgets the connection; what it had read and not sent stays as it was. */
    method Disconnect()
      requires Valid() && (Reading(Look()) || state == WriteResponse)
      modifies this`state
      ensures Valid() && Look() == old(Look()).(state := Gone)
    {
      hide Holds;
      ghost var v := Look();
      GoneKeeps(v, stream, history, n);
      state := Gone;
      assert Look() == v.(state := Gone);
    }

    /** One turn of the loop in `handle_read`; `more` if it goes round again. */
    method ReadOnce() returns (more: bool)
      requires Valid() && Reading(Look())
      modifies this`state, this`rbufPos, rbuf, sock`incoming, sock`script
      ensures Valid() && history == old(history) && sock.sent == old(sock.sent)
      ensures state != WriteResponse
      ensures more ==> |sock.script| < |old(sock.script)|
      ensures Waiting(old(Look())) && Waiting(Look())
      ensures ReadLoop(old(Look()), old(sock.script))
           == if more then ReadLoop(Look(), sock.script) else Progress(Look(), sock.script)
    {
      hide Holds, AfterRead, FrameLength, Waiting, Needed;
      HoldsWaiting(Look(), stream, history, n);
      var needed := BytesNeeded();
      var event := sock.Next();
      more := false;
      match event {
        case Block =>
        case Fail => Disconnect();
        case Close => Disconnect();
        case UpTo(limit) =>
          var k := Min(Min(limit, needed - rbufPos), |sock.incoming|);
          if k > 0 {
            Receive(k);
            more := true;
          }
      }
      HoldsWaiting(Look(), stream, history, n);
    }

    /** The loop of `handle_read`, up to a whole frame, a blocked read or the end of the connection. */
    method ReadFrame()
      requires Valid()
      modifies this`state, this`rbufPos, rbuf, sock`incoming, sock`script
      ensures Valid() && history == old(history) && sock.sent == old(sock.sent)
      ensures old(state) == WriteResponse ==> state == WriteResponse && sock.incoming == old(sock.incoming)
      ensures old(state) != WriteResponse ==> state != WriteResponse
      ensures Waiting(old(Look())) && Progress(Look(), sock.script) == ReadLoop(old(Look()), old(sock.script))
      ensures old(state) != Gone && Patient(old(sock.script)) ==> state != Gone
    {
      hide Holds, Waiting, AfterRead;
      HoldsWaiting(Look(), stream, history, n);
      ghost var goal := ReadLoop(Look(), sock.script);
      var more := true;
      while more && (state == ReadHeader || state == ReadPayload)
        invariant Valid() && history == old(history) && sock.sent == old(sock.sent)
        invariant Waiting(Look())
        invariant goal == if more then ReadLoop(Look(), sock.script) else Progress(Look(), sock.script)
        invariant old(state) == WriteResponse ==> state == WriteResponse && sock.incoming == old(sock.incoming)
        invariant old(state) != WriteResponse ==> state != WriteResponse
        decreases more, |sock.script|
      {
        more := ReadOnce();
      }
      if old(state) != Gone && Patient(old(sock.script)) {
        StaysWithUs(old(Look()), old(sock.script));
      }
    }

    /**
     `handle_read`: reads until a frame is whole, then runs it. At most one command runs, on the store as it
     is, and nothing is read while an answer is still to be written. If it ends the process, `f` is the PUSH
     that did, and its entry is in the log.
     */
    method HandleRead(store: Store, aof: AofWriter, now: u64) returns (alive: bool, ghost f: Frame)
      requires Valid() && store.Valid() && aof.Valid() && Apart(store, aof)
      modifies this, rbuf, wbuf, sock`incoming, sock`script, store, store.mem, aof, aof.buf
      ensures store.Valid() && aof.Valid() && sock.sent == old(sock.sent)
      ensures alive ==> Valid() && state != Process
      ensures old(state) == WriteResponse ==> sock.incoming == old(sock.incoming) && history == old(history) && alive
      ensures alive ==> Handled(old(store.Model()), now)
      ensures alive && old(state) != Gone && Patient(old(sock.script)) ==> state != Gone
      ensures alive && history == old(history) ==>
                store.Model() == old(store.Model()) && aof.Log() == old(aof.Log())
      ensures alive && history != old(history) ==>
                && |history| == |old(history)| + 1 && history[..|old(history)|] == old(history)
                && var e := history[|old(history)|];
                   && e.before == old(store.Model()) && e.now == now
                   && store.Model() == Effect(e.before, e.cmd, now, n)
                   && aof.Log() == old(aof.Log()) + LogOf(e.cmd, now)
                   && (e.cmd.Push? ==> HasRoom(e.before, e.cmd.uid, Recovery.LimitsOf(store.cfg)))
      ensures !alive ==> Reached(f)
      ensures !alive ==>
                && f.Complete? && f.cmd.Push? && aof.Log() == old(aof.Log()) + LogOf(f.cmd, now)
                && !HasRoom(old(store.Model()), f.cmd.uid, Recovery.LimitsOf(store.cfg))
    {
      hide Holds, Store.Valid, Store.Model, AofWriter.Log, AofWriter.Valid, Effect, LogOf, HasRoom, ParseFrame, Respond,
        ReadLoop, Waiting, WellFormed;
      alive, f := true, Incomplete;
      ReadFrame();
      if state == Process {
        alive, f := ProcessCommand(store, aof, now);
      }
    }

    /** A `write` that takes `k` bytes of the answer; once it is all out the next request may come. */
    method Send(k: nat)
      requires Shaped() && state == WriteResponse && rbufPos == 0 && wbufPos + k <= wbufLen
      modifies this`state, this`rbufPos, this`wbufLen, this`wbufPos, sock`sent
      ensures Shaped() && Look() == AfterWrite(old(Look()), k)
    {
      ghost var out := wbuf[wbufPos..wbufLen];
      var part := wbuf[wbufPos..wbufPos + k];
      assert part == out[..k];
      assert wbuf[wbufPos + k..wbufLen] == out[k..];
      sock.sent := sock.sent + part;
      wbufPos := wbufPos + k;
      if wbufPos == wbufLen {
        state := ReadHeader;
        rbufPos, wbufPos, wbufLen := 0, 0, 0;
      }
    }

    /** One `write` of what is left of the answer. */
    method WriteOnce() returns (more: bool)
      requires Valid() && state == WriteResponse
      modifies this`state, this`rbufPos, this`wbufLen, this`wbufPos, sock`sent, sock`script
      ensures Valid() && history == old(history)
      ensures state == WriteResponse || state == ReadHeader || state == Gone
      ensures more ==> |sock.script| < |old(sock.script)|
      ensures WriteLoop(old(Look()), old(sock.script))
           == if more then WriteLoop(Look(), sock.script) else Progress(Look(), sock.script)
    {
      hide Holds;
      ghost var v := Look();
      var event := sock.Next();
      more := false;
      match event
      case Block =>
      case Fail => Disconnect();
      case Close => Disconnect();
      case UpTo(limit) =>
        var k := Min(limit, wbufLen - wbufPos);
        if k > 0 {
          WriteKeeps(v, stream, history, k, n);
          PendingEmpty(v, stream, history, n);
          Send(k);
          more := true;
        }
    }

    /** `handle_write`: reading is possible again only once the whole answer is out. */
    method HandleWrite()
      requires Valid()
      modifies this`state, this`rbufPos, this`wbufLen, this`wbufPos, sock`sent, sock`script
      ensures Valid() && history == old(history) && sock.incoming == old(sock.incoming)
      ensures old(state) != WriteResponse ==> state == old(state) && sock.sent == old(sock.sent)
      ensures old(state) == WriteResponse ==> state != Process
      ensures Written()
      ensures old(state) != Gone && Patient(old(sock.script)) ==> state != Gone
    {
      hide Holds, AfterWrite;
      ghost var goal := WriteLoop(Look(), sock.script);
      var more := true;
      while more && state == WriteResponse
        invariant Valid() && history == old(history)
        invariant old(state) != WriteResponse ==> state == old(state) && sock.sent == old(sock.sent)
        invariant old(state) == WriteResponse ==> state != Process
        invariant goal == if more then WriteLoop(Look(), sock.script) else Progress(Look(), sock.script)
        decreases more, |sock.script|
      {
        more := WriteOnce();
      }
      if old(state) == WriteResponse && Patient(old(sock.script)) {
        PendingEmpty(old(Look()), stream, old(history), n);
        WritesToUs(old(Look()), old(sock.script));
      }
    }

    // ----- progress -----

    /** The answer is written on, or the next frame read on, as far as the socket goes. */
    method Attend(store: Store, aof: AofWriter, now: u64) returns (alive: bool)
      requires Valid() && store.Valid() && aof.Valid() && Apart(store, aof)
      requires OnTrack(Progress(Look(), sock.script), n) && !Done()
      modifies this, rbuf, wbuf, sock, store, store.mem, aof, aof.buf
      ensures store.Valid() && aof.Valid()
      ensures alive ==> Valid() && OnTrack(Progress(Look(), sock.script), n) && |sock.script| < |old(sock.script)|
    {
      hide Holds, Store.Valid, Store.Model, AofWriter.Log, AofWriter.Valid, Effect, LogOf, HasRoom, WellFormed,
        ReadLoop, WriteLoop, Waiting, AfterHandling, Ran, ParseFrame, Patient, Calls;
      CallsToCome(Progress(Look(), sock.script), n);
      if state == WriteResponse {
        WriteOnTrack(Progress(Look(), sock.script), n);
        HandleWrite();
        alive := true;
      } else {
        ReadOnTrack(Progress(Look(), sock.script), store.Model(), n);
        ghost var f;
        alive, f := HandleRead(store, aof, now);
      }
    }

    /**
     However the calls are cut and however often they block, as long as none fails and enough of them move a byte:
     every stream is read to its end or its first bad frame and every answer is sent, unless a PUSH ends the process.
     */
    method Finish(store: Store, aof: AofWriter, clock: nat -> u64) returns (alive: bool)
      requires Valid() && store.Valid() && aof.Valid() && Apart(store, aof)
      requires state != Process && state != Gone && Patient(sock.script) && Grants(sock.script) >= Calls(Look(), n)
      modifies this, rbuf, wbuf, sock, store, store.mem, aof, aof.buf
      ensures store.Valid() && aof.Valid()
      ensures alive ==> Valid() && Done()
    {
      hide Store.Valid, Store.Model, AofWriter.Log, AofWriter.Valid, Holds, OnTrack, Patient, Calls, Grants;
      ValidOnTrack(Look(), sock.script, stream, history, n);
      alive := true;
      var i: nat := 0;
      while alive && state != Dropped && (state == WriteResponse || sock.incoming != [])
        invariant store.Valid() && aof.Valid()
        invariant alive ==> Valid() && OnTrack(Progress(Look(), sock.script), n)
        decreases alive, |sock.script|
      {
        alive := Attend(store, aof, clock(i));
        i := i + 1;
      }
      if alive {
        AtTheEnd(Look(), sock.script, n);
      }
    }
  }
}
