/** The event loop: any number of connections over one store, one log and one snapshot file, served in any order. */
module EventLoops {
  import opened Bytes
  import opened Records
  import opened AofCodec
  import opened Replay
  import opened SnapshotFile
  import opened Restart
  import opened Aging
  import opened Wire
  import opened Conversation
  import opened Fairness
  import opened SerialOrder
  import opened Stores
  import opened AofWriters
  import opened Connections
  import opened EndToEnd
  import opened Schedules
  import D = Durability
  import CrashSafety
  import Operations
  import Recovery
  import Ttl

  ghost predicate Separate(a: Connection, b: Connection) {
    && a != b && a.sock != b.sock
    && a.rbuf != b.rbuf && a.rbuf != b.wbuf && a.wbuf != b.rbuf && a.wbuf != b.wbuf
  }

  class EventLoop {
    const store: Store
    const aof: AofWriter
    /** `snapshot.bin`, and the file that a running child will rename to it. */
    var snapshot: OnDisk
    var child: OnDisk
    var conns: seq<Connection>
    /** The log on disk when the server started, and what it came up with. */
    ghost const base: seq<u8>
    ghost const origin: Origin
    ghost const cfg: D.Config
    /** Every command and eviction, in the order they happened, and the run of the durability model they are. */
    ghost var all: seq<Deed>
    ghost var steps: Steps
    ghost var clock: nat
    ghost var forked: nat

    /** No two connections share memory, and none shares it with the store or the log. */
    ghost predicate Wired()
      reads this`conns
    {
      && store.mem != aof.buf && cfg.lim == Recovery.LimitsOf(store.cfg) && cfg.mode == aof.mode
      && (forall i :: 0 <= i < |conns| ==> conns[i].Apart(store, aof))
      && (forall i, j :: 0 <= i < j < |conns| ==> Separate(conns[i], conns[j]))
    }

    /** A connection agrees with its stream, and its history is its share of all that ran. */
    ghost predicate Serves(i: nat)
      requires i < |conns|
      reads this`conns, this`all, conns[i], conns[i].rbuf, conns[i].wbuf, conns[i].sock
    {
      conns[i].Valid() && conns[i].state != Process && conns[i].history == Share(all, i)
    }

    lemma Others(who: nat)
      requires Wired() && who < |conns|
      ensures forall i :: 0 <= i < |conns| && i != who ==> Separate(conns[i], conns[who])
    {
    }

    ghost function Look(): Server
      requires store.Valid() && aof.Valid()
      reads this, store, store.mem, aof, aof.buf
    {
      Server(base + aof.Log(), snapshot, child, store.Model(), clock, forked)
    }

    /** All connections but one, whose command is not yet in the order. */
    ghost predicate AttendedBut(who: nat)
      reads this`conns, this`all
      reads conns, set c | c in conns :: c.rbuf, set c | c in conns :: c.wbuf, set c | c in conns :: c.sock
    {
      && Wired()
      && (forall i :: 0 <= i < |all| && all[i].Served? ==> all[i].who < |conns|)
      && (forall i :: 0 <= i < |conns| && i != who ==> Serves(i))
    }

    lemma AttendsTo(who: nat)
      requires who < |conns|
      ensures Attended() <==> AttendedBut(who) && Serves(who)
    {
      hide Serves, Wired;
    }

    ghost predicate Attended()
      reads this`conns, this`all
      reads conns, set c | c in conns :: c.rbuf, set c | c in conns :: c.wbuf, set c | c in conns :: c.sock
    {
      && Wired()
      && (forall i :: 0 <= i < |all| && all[i].Served? ==> all[i].who < |conns|)
      && (forall i :: 0 <= i < |conns| ==> Serves(i))
    }

    ghost predicate Valid()
      reads this, store, store.mem, aof, aof.buf
      reads conns, set c | c in conns :: c.rbuf, set c | c in conns :: c.wbuf, set c | c in conns :: c.sock
    {
      Attended() && store.Valid() && aof.Valid() && Mirrors(steps, cfg, Look(), all, origin) && origin.log == base
    }

    /** Starts on a recovered store, with the log open for appending. */
    constructor (store: Store, aof: AofWriter, snapshot: OnDisk, ghost cfg: D.Config, ghost base: seq<u8>,
                 ghost origin: Origin, ghost steps: Steps, ghost clock: nat, ghost forked: nat)
      requires store.Valid() && aof.Valid() && store.mem != aof.buf && aof.Log() == []
      requires cfg.lim == Recovery.LimitsOf(store.cfg) && cfg.mode == aof.mode
      requires Mirrors(steps, cfg, Server(base, snapshot, Missing, store.Model(), clock, forked), [], origin)
      requires origin.log == base
      ensures Valid() && this.store == store && this.aof == aof && this.cfg == cfg && this.origin == origin
      ensures Look() == Server(base, snapshot, Missing, store.Model(), clock, forked)
      ensures conns == [] && all == [] && this.steps == steps
    {
      hide Store.Valid, Store.Model, AofWriter.Valid, AofWriter.Log, Mirrors;
      this.store, this.aof, this.snapshot, child := store, aof, snapshot, Missing;
      this.cfg, this.base, this.origin, this.steps, this.clock, this.forked := cfg, base, origin, steps, clock, forked;
      conns, all := [], [];
      new;
      assert base + [] == base;
    }

    /** Connections only ever join, with memory of their own. */
    twostate predicate Joined()
      reads this`conns
    {
      && old(conns) <= conns
      && forall k :: |old(conns)| <= k < |conns| ==>
           fresh(conns[k]) && fresh(conns[k].rbuf) && fresh(conns[k].wbuf) && fresh(conns[k].sock)
    }

    /** The connection joins the others. */
    method Join(conn: Connection)
      requires Attended() && conn.Valid() && conn.state == ReadHeader && conn.history == [] && conn.Apart(store, aof)
      requires forall i :: 0 <= i < |conns| ==> Separate(conns[i], conn)
      modifies this`conns
      ensures Attended() && conns == old(conns) + [conn]
    {
      hide Connection.Valid, Share, Connection.Apart;
      NoShare(all, |conns|);
      conns := conns + [conn];
      forall i | 0 <= i < |conns|
        ensures Serves(i)
      {
        assert i < |old(conns)| ==> old(Serves(i));
      }
    }

    /** `accept_connections`, for one new socket with this input to come. */
    method Accept(stream: seq<u8>, script: seq<Event>)
      requires Valid()
      modifies this`conns
      ensures Joined() && |conns| == |old(conns)| + 1
      ensures conns[|old(conns)|].stream == stream
      ensures ClientIs(|old(conns)|, Progress(View(ReadHeader, [], [], stream, []), script))
      ensures Valid() && all == old(all) && Look() == old(Look())
    {
      hide Store.Valid, Store.Model, AofWriter.Valid, AofWriter.Log, Mirrors, Connection.Valid, Attended, WellFormed;
      store.CapacityBounds();
      var conn := NewConnection(stream, script);
      Join(conn);
    }

    /** A connection with memory of its own. */
    method NewConnection(stream: seq<u8>, script: seq<Event>) returns (conn: Connection)
      requires Attended() && store.Valid() && aof.Valid() && 1 <= store.cfg.capacity <= 3854
      ensures fresh(conn) && fresh(conn.rbuf) && fresh(conn.wbuf) && fresh(conn.sock)
      ensures conn.Valid() && conn.history == [] && conn.stream == stream && conn.sock.script == script
      ensures conn.Shaped() && conn.Look() == View(ReadHeader, [], [], stream, [])
      ensures Attended() && conn.Apart(store, aof)
      ensures forall i :: 0 <= i < |conns| ==> Separate(conns[i], conn)
    {
      hide Store.Valid, Serves, Share, Holds;
      var sock := new Socket(stream, script);
      conn := new Connection(store.cfg.capacity, sock);
      forall i | 0 <= i < |conns|
        ensures Serves(i)
      {
        assert old(Serves(i));
      }
    }

    /** `handle_read` for one of the connections: what it does to the others is nothing. */
    method HandleReadOf(who: nat, now: u64) returns (alive: bool, ghost f: Frame)
      requires Valid() && who < |conns|
      modifies store, store.mem, aof, aof.buf
      modifies conns[who], conns[who].rbuf, conns[who].wbuf, conns[who].sock`incoming, conns[who].sock`script
      ensures alive ==> conns[who].Handled(old(store.Model()), now)
      ensures !alive ==> conns[who].Reached(f)
      ensures store.Valid() && aof.Valid()
      ensures AttendedBut(who)
      ensures alive ==> conns[who].Valid() && conns[who].state != Process
      ensures alive && conns[who].history == old(conns[who].history) ==> Look() == old(Look())
      ensures alive && conns[who].history != old(conns[who].history) ==>
                && |conns[who].history| == |old(conns[who].history)| + 1
                && var e := conns[who].history[|old(conns[who].history)|];
                   && conns[who].history == old(conns[who].history) + [e]
                   && e.before == old(store.Model()) && e.now == now
                   && Look() == old(Look()).(store := Effect(e.before, e.cmd, now, cfg.lim.n),
                                             log := old(Look()).log + LogOf(e.cmd, now))
                   && (e.cmd.Push? ==> HasRoom(e.before, e.cmd.uid, cfg.lim))
      ensures !alive ==>
                && f.Complete? && f.cmd.Push? && Look().log == old(Look()).log + LogOf(f.cmd, now)
                && !HasRoom(old(store.Model()), f.cmd.uid, cfg.lim)
    {
      hide Store.Valid, Store.Model, AofWriter.Valid, AofWriter.Log, Mirrors, Connection.Valid, Share, LogOf, Effect,
        WellFormed, HasRoom, Connection.Handled, Connection.Reached;
      assert Serves(who) && conns[who].Apart(store, aof);
      Others(who);
      alive, f := conns[who].HandleRead(store, aof, now);
      forall i | 0 <= i < |conns| && i != who
        ensures Serves(i)
      {
        assert old(Serves(i)) && conns[i].Apart(store, aof);
      }
    }

    /** The epoll event of a connection that can be read. `alive` is false when a PUSH found no slot. */
    method OnReadable(who: nat, now: u64) returns (alive: bool, ghost f: Frame, ghost ran: seq<Executed>)
      requires Valid() && who < |conns| && clock <= now && forked < now
      modifies this`all, this`steps, this`clock, store, store.mem, aof, aof.buf
      modifies conns[who], conns[who].rbuf, conns[who].wbuf, conns[who].sock`incoming, conns[who].sock`script
      ensures alive ==> conns[who].Handled(old(store.Model()), now)
      ensures !alive ==> conns[who].Reached(f) && f.Complete? && f.cmd.Push?
      ensures !alive ==> !HasRoom(old(store.Model()), f.cmd.uid, cfg.lim)
      ensures store.Valid() && aof.Valid()
      ensures alive ==> conns[who].history == old(conns[who].history) + ran
      ensures alive ==> Noted(who, ran, old(all), all, cfg.lim, old(store.Model()), store.Model())
      ensures alive ==> Valid() && clock == now
      ensures !alive ==> Recovered(snapshot, File(Look().log), cfg.lim) == Exhausted
    {
      hide Store.Valid, Store.Model, AofWriter.Valid, AofWriter.Log, Mirrors, Connection.Valid, Share, LogOf, Effect,
        WellFormed, Recovered, HasRoom, Connection.Handled, Connection.Reached, Attended, AttendedBut;
      AttendsTo(who);
      ghost var was, history := Look(), conns[who].history;
      ran := [];
      alive, f := HandleReadOf(who, now);
      if !alive {
        steps := FatalRestart(steps, cfg, was, all, origin, f.cmd, now);
      } else if conns[who].history != history {
        ghost var e := conns[who].history[|history|];
        ghost var next := MirrorsCommand(steps, cfg, was, all, origin, who, e);
        NoteServed(who, e);
        ran := [e];
        steps, clock := next, now;
        assert Mirrors(steps, cfg, Look(), all, origin);
      } else {
        MirrorsLater(steps, cfg, was, all, origin, now);
        clock := now;
        AttendsTo(who);
      }
    }

    /** The epoll event of a connection that can be written. */
    method OnWritable(who: nat)
      requires Valid() && who < |conns|
      modifies conns[who], conns[who].sock`sent, conns[who].sock`script
      ensures conns[who].Written()
      ensures Valid() && Look() == old(Look())
    {
      hide Store.Valid, Store.Model, AofWriter.Valid, AofWriter.Log, Mirrors, Connection.Valid, Share,
        Connection.Written;
      assert Serves(who);
      Others(who);
      conns[who].HandleWrite();
      forall i | 0 <= i < |conns| && i != who
        ensures Serves(i)
      {
        assert old(Serves(i));
      }
    }

    /** No connection's memory is the store's. */
    method EraseKey(uid: u32)
      requires Attended() && store.Valid() && aof.Valid()
      modifies store, store.mem
      ensures Attended() && store.Valid() && aof.Valid() && store.Model() == old(store.Model()) - {uid}
      ensures aof.Log() == old(aof.Log())
    {
      hide Store.Valid, Store.Model, AofWriter.Valid, AofWriter.Log, Connection.Valid, Share, WellFormed;
      store.Erase(uid);
      forall i | 0 <= i < |conns|
        ensures Serves(i)
      {
        assert old(Serves(i)) && conns[i].Apart(store, aof);
      }
    }

    /** An eviction is no connection's deed. */
    ghost method NoteDrained(gone: Eviction)
      requires Attended()
      modifies this`all
      ensures Attended() && all == old(all) + [Drained(gone)]
    {
      hide Connection.Valid, Share;
      all := all + [Drained(gone)];
      forall i | 0 <= i < |conns|
        ensures Serves(i)
      {
        assert old(Serves(i));
        ShareAppend(old(all), Drained(gone), i);
      }
    }

    /** A command is that of one connection. */
    ghost method NoteServed(who: nat, e: Executed)
      requires who < |conns| && AttendedBut(who) && conns[who].Valid() && conns[who].state != Process
      requires conns[who].history == Share(all, who) + [e]
      modifies this`all
      ensures Attended() && all == old(all) + [Served(who, e)]
    {
      hide Connection.Valid, Share;
      all := all + [Served(who, e)];
      forall i | 0 <= i < |conns|
        ensures Serves(i)
      {
        assert i != who ==> old(Serves(i));
        ShareAppend(old(all), Served(who, e), i);
      }
    }

    /** One turn of `drain_expired_keys`: a candidate that the worker found expired. */
    method Drain(c: Ttl.Candidate, now: nat)
      requires Valid() && clock <= now && Ttl.Expired(c, now, cfg.ttl)
      modifies this`all, this`steps, this`clock, store, store.mem
      ensures Valid() && clock == now
      ensures if c.uid in old(store.Model()) && old(store.Model())[c.uid].lastWrite == c.lastWrite then
                && store.Model() == old(store.Model()) - {c.uid}
                && all == old(all) + [Drained(Eviction(c.uid, c.lastWrite, now))]
              else store.Model() == old(store.Model()) && all == old(all)
      ensures Look() == old(Look()).(store := store.Model(), clock := now)
    {
      hide Store.Valid, Store.Model, AofWriter.Valid, AofWriter.Log, Mirrors, Attended, WellFormed;
      ghost var was := Look();
      if c.uid in store.rings {
        store.RingOf(c.uid);
        if store.rings[c.uid].lastWrite == c.lastWrite {
          ghost var gone := Eviction(c.uid, c.lastWrite, now);
          ghost var next := MirrorsDrain(steps, cfg, was, all, origin, gone);
          EraseKey(c.uid);
          NoteDrained(gone);
          steps, clock := next, now;
          assert Mirrors(steps, cfg, Look(), all, origin);
          return;
        }
      }
      MirrorsLater(steps, cfg, was, all, origin, now);
      clock := now;
    }

    /** `maybe_fork`, when it is time: nothing if a child is still running, or else a child with a copy of the store. */
    method Fork(now: u64) returns (ghost order: seq<u32>)
      requires Valid() && clock <= now
      modifies this`child, this`steps, this`clock, this`forked
      ensures Valid() && clock == now && forked <= Max(old(forked), now)
      ensures Look() == old(Look()).(child := child, clock := now, forked := forked)
      ensures if old(child).Missing? then
                Enumerates(order, store.Model()) && child == File(Dump(order, store.Model(), now))
              else child == old(child)
    {
      hide Store.Valid, Store.Model, AofWriter.Valid, AofWriter.Log, Mirrors, Attended, WellFormed, Dump,
        Enumerates;
      ghost var was := Look();
      order := [];
      if child.Missing? {
        var walked := Recovery.Walk(store);
        var file := Recovery.DumpSnapshot(store, walked, now);
        ghost var next := MirrorsFork(steps, cfg, was, all, origin, walked, now);
        order, child, steps, clock, forked := walked, File(file), next, now, Max(forked, now);
        assert Mirrors(steps, cfg, Look(), all, origin);
      } else {
        MirrorsLater(steps, cfg, was, all, origin, now);
        clock := now;
      }
    }

    /** The child is done: it renamed its file, or it failed. */
    method ChildEnds(renamed: bool)
      requires Valid()
      modifies this`snapshot, this`child, this`steps
      ensures Valid()
      ensures Look() == old(Look()).(snapshot := if renamed && old(child).File? then old(child) else old(snapshot),
                                     child := Missing)
    {
      hide Store.Valid, Store.Model, AofWriter.Valid, AofWriter.Log, Mirrors, Attended, WellFormed;
      if child.File? {
        steps := MirrorsChildEnds(steps, cfg, Look(), all, origin, renamed);
        if renamed {
          snapshot := child;
        }
        child := Missing;
      }
    }

    // ----- what every such run comes to -----

    /** The run so far, in the durability model. */
    ghost function Model(): D.State
      requires D.Possible(steps, cfg)
      reads this`steps
    {
      D.Execute(steps, cfg)
    }

    /**
     A crash now that leaves the first `n` bytes of the log, torn or not. What the restart comes up with is the
     snapshot and the operations up to the recovery point, if they fit: every key of the store at that point,
     and besides only keys that were drained past the TTL. With nothing drained since the snapshot it is exactly
     that store; and with the whole log, that store is this one.
     */
    lemma RestartAt(n: nat)
      requires Valid() && n <= |Look().log|
      ensures D.Possible(steps, cfg)
      ensures var d, o := Model(), Recovered(snapshot, File(Look().log[..n]), cfg.lim);
              var m := D.RecoveryPoint(d, n);
              && d.image.ops <= m <= |d.hist| && m < |d.states|
              && o == (var ops := d.hist[d.image.ops..m];
                       if Fits(d.image.contents, ops, cfg.lim)
                       then Loaded(Operations.Run(d.image.contents, ops, cfg.lim.n)) else Exhausted)
              && (o.Loaded? ==> Covers(d.states[m], o.contents, d.evictions, cfg.ttl))
              && (d.image.evictions == |d.evictions| ==> o == Loaded(d.states[m]))
              && (n == |Look().log| ==> d.states[m] == store.Model())
    {
      hide Store.Valid, Store.Model, AofWriter.Valid, AofWriter.Log, Attended, Recovered, D.Possible, D.Execute, Fits,
        Operations.Run, Covers, D.RecoveryPoint, StoreAfter, Serial, OpsOf, EvictionsOf, SameState;
      Restarts(steps, cfg, Look(), all, origin, n);
    }

    /** The log is what it was, followed by the entries of every PUSH and DEL that ran, in the order they ran. */
    lemma LogIsOrder()
      requires Valid()
      ensures Look().log == base + EncodeLog(OpsOf(all))
    {
      hide Store.Valid, Store.Model, AofWriter.Valid, AofWriter.Log, Attended, D.Possible, D.Execute, StoreAfter,
        Serial, OpsOf, EvictionsOf, SameState, EncodeLog;
    }

    /** What reached the file is such a cut, and in `Always` mode it is the whole log. */
    lemma FileIsFront()
      requires Valid()
      ensures base + aof.file <= Look().log && (cfg.mode == D.Always ==> base + aof.file == Look().log)
    {
      hide Store.Valid, Store.Model, Mirrors, Serves;
    }

    /**
     All commands and evictions happened in one order, each on the store that those before it left, and only
     keys past the TTL were evicted. Each client's commands are in it as they are in its stream, and what it was
     sent is a front part of the answers that this order gives it; once it is done it is all of them.
     */
    lemma OneOrder(who: nat)
      requires Valid() && who < |conns|
      ensures Serial(all, origin.start, cfg.lim.n, cfg.ttl) && store.Model() == StoreAfter(all, origin.start, cfg.lim.n)
      ensures var conn, acts := conns[who], ActsOf(all);
              && CommandsBy(acts, who) <= ParseStream(conn.stream, conn.n).commands
              && conn.sock.sent <= Answers(origin.start, acts, who, conn.n)
              && (conn.Done() ==>
                  && CommandsBy(acts, who) == ParseStream(conn.stream, conn.n).commands
                  && conn.sock.sent == Answers(origin.start, acts, who, conn.n))
    {
      hide Store.Valid, Store.Model, AofWriter.Valid, AofWriter.Log, Share, Serial, OpsOf, EvictionsOf, StoreAfter,
        SameState, D.Possible, D.Execute, ParseStream, Settled, Answers, CommandsBy, ActsOf, Holds, Attended;
      AttendsTo(who);
      assert conns[who].Apart(store, aof);
      var conn := conns[who];
      SharePrefix(conn.Look(), conn.stream, all, who, origin.start, conn.n, cfg.ttl);
      if conn.Done() {
        ChunkingIndependence(conn.Look(), conn.stream, all, who, origin.start, conn.n, cfg.ttl);
      }
    }

    /**
     A client that is alone, while nothing is evicted, gets bytes that depend on what it sent and on the store
     it found, and on nothing else: not on how its requests were cut into reads, nor its answers into writes,
     nor on the clock.
     */
    lemma AloneIsDeterministic(who: nat)
      requires Valid() && who < |conns| && conns[who].Done()
      requires forall i :: 0 <= i < |all| ==> all[i].Served? && all[i].who == who
      ensures var conn := conns[who];
              conn.sock.sent
              == Answers(origin.start, DoAll(who, ParseStream(conn.stream, conn.n).commands), who, conn.n)
    {
      hide Valid, ParseStream, Answers, CommandsBy, Connection.Done, StoreAfter, Serial, DoAll;
      OneOrder(who);
      AloneIsDoAll(ActsOf(all), who);
    }

    /** The files that a crash of this run leaves are such as a server may be started on. */
    lemma CrashLeaves(n: nat)
      requires Valid() && n <= |Look().log|
      ensures D.Possible(steps, cfg) && Model().log == Look().log && Model().disk == snapshot
      ensures Model().log == EncodeLog(Model().logged)
      ensures Model().synced <= n && Fragment(EntriesOf(Model().logged), n) == [] ==> CrashedAt(steps, cfg, n)
    {
      hide Store.Valid, Store.Model, AofWriter.Valid, AofWriter.Log, Attended, D.Possible, D.Execute, StoreAfter,
        Serial, OpsOf, EvictionsOf, EncodeLog, EntriesOf, Fragment;
      CrashSafety.WriteAhead(steps, cfg);
    }

    // ----- the loop against its schedule -----

    /** The connection stands as `p` says. */
    ghost predicate ClientIs(i: nat, p: Progress)
      requires i < |conns|
      reads this`conns, conns[i], conns[i].rbuf, conns[i].wbuf, conns[i].sock
    {
      conns[i].Shaped() && Progress(conns[i].Look(), conns[i].sock.script) == p
    }

    ghost predicate ClientsAre(ps: seq<Progress>)
      reads this`conns
      reads conns, set c | c in conns :: c.rbuf, set c | c in conns :: c.wbuf, set c | c in conns :: c.sock
    {
      |conns| == |ps| && forall i :: 0 <= i < |ps| ==> ClientIs(i, ps[i])
    }

    /** `w` is what there is. */
    ghost predicate Shows(w: World)
      reads this`conns, this`all, this`snapshot, this`child, store, store.mem
      reads conns, set c | c in conns :: c.rbuf, set c | c in conns :: c.wbuf, set c | c in conns :: c.sock
    {
      && ClientsAre(w.clients) && store.Valid() && w.store == store.Model() && w.all == all
      && FilesAre(w) && StreamsAre(w.streams)
    }

    ghost predicate StreamsAre(streams: seq<seq<u8>>)
      reads this`conns
    {
      |conns| == |streams| && forall i :: 0 <= i < |conns| ==> conns[i].stream == streams[i]
    }

    /** The snapshot loads to what `w` says, and the child's file will. */
    ghost predicate FilesAre(w: World)
      reads this`snapshot, this`child
    {
      && LoadFile(snapshot, cfg.lim) == w.disk
      && (w.child.Nothing? <==> child.Missing?)
      && (w.child.Saving? ==> LoadFile(child, cfg.lim) == Load(Loaded(w.child.store), w.child.ts))
    }

    lemma Client(i: nat, p: Progress)
      requires i < |conns|
      ensures ClientIs(i, p) <==> conns[i].Shaped() && Progress(conns[i].Look(), conns[i].sock.script) == p
    {
    }

    lemma SameN(i: nat)
      requires Wired() && i < |conns|
      ensures conns[i].n == cfg.lim.n
    {
    }

    /** A reading turn of a connection that there is. */
    method ReadTurn(who: nat, now: u64, ghost w: World) returns (alive: bool)
      requires Valid() && Shows(w) && who < |conns| && clock <= now && forked < now
      modifies this`all, this`steps, this`clock, store, store.mem, aof, aof.buf
      modifies conns[who], conns[who].rbuf, conns[who].wbuf, conns[who].sock`incoming, conns[who].sock`script
      ensures alive <==> !Fatal(w, Readable(who, now), cfg.lim)
      ensures alive ==> Shows(AfterTurn(w, Readable(who, now), cfg.lim.n))
      ensures alive ==> Valid() && clock == now
      ensures store.Valid() && aof.Valid()
      ensures !alive ==> Recovered(snapshot, File(Look().log), cfg.lim) == Exhausted
    {
      hide LoadFile, Store.Valid, Store.Model, AofWriter.Valid, AofWriter.Log, Valid, WellFormed, Recovered, HasRoom,
        Effect, ReadLoop, Waiting, AfterHandling, ParseFrame, Respond, ClientIs, AfterTurn, Noted;
      ValidParts();
      Others(who);
      Client(who, w.clients[who]);
      SameN(who);
      ghost var f, ran;
      ghost var h := conns[who].history;
      alive, f, ran := OnReadable(who, now);
      forall i | 0 <= i < |conns| && i != who
        ensures ClientIs(i, w.clients[i])
      {
        assert old(ClientIs(i, w.clients[i])) && conns[i].Apart(store, aof);
      }
      if alive {
        SameEnd(h, ran, RanBy(w, who, now, cfg.lim.n));
        ReadLeads(w, who, now, all, store.Model(), cfg.lim);
        Client(who, AfterTurn(w, Readable(who, now), cfg.lim.n).clients[who]);
      }
    }

    /** A writing turn of a connection that there is. */
    method WriteTurn(who: nat, ghost w: World)
      requires Valid() && Shows(w) && who < |conns|
      modifies conns[who], conns[who].sock`sent, conns[who].sock`script
      ensures Shows(AfterTurn(w, Writable(who), cfg.lim.n))
      ensures Valid() && Look() == old(Look())
    {
      hide LoadFile, Store.Valid, Store.Model, AofWriter.Valid, AofWriter.Log, Valid, WellFormed, WriteLoop, ClientIs;
      ValidParts();
      Others(who);
      Client(who, w.clients[who]);
      OnWritable(who);
      forall i | 0 <= i < |conns| && i != who
        ensures ClientIs(i, w.clients[i])
      {
        assert old(ClientIs(i, w.clients[i]));
      }
      Client(who, AfterTurn(w, Writable(who), cfg.lim.n).clients[who]);
      ValidParts();
    }

    method DrainTurn(c: Ttl.Candidate, now: u64, ghost w: World)
      requires Valid() && Shows(w) && clock <= now && Ttl.Expired(c, now, cfg.ttl)
      modifies this`all, this`steps, this`clock, store, store.mem
      ensures Shows(AfterTurn(w, Turn.Drain(c, now), cfg.lim.n))
      ensures Valid() && clock == now
    {
      hide Store.Valid, Store.Model, AofWriter.Valid, AofWriter.Log, Valid, WellFormed, Ttl.Expired, ClientIs,
        AfterTurn, LoadFile;
      ValidParts();
      DrainLeads(w, c, now, cfg.lim.n);
      Drain(c, now);
      ValidParts();
      forall i | 0 <= i < |conns|
        ensures ClientIs(i, w.clients[i])
      {
        assert old(ClientIs(i, w.clients[i])) && conns[i].Apart(store, aof);
      }
    }

    method AcceptTurn(stream: seq<u8>, script: seq<Event>, ghost w: World)
      requires Valid() && Shows(w)
      modifies this`conns
      ensures Joined()
      ensures Shows(AfterTurn(w, Turn.Accept(stream, script), cfg.lim.n))
      ensures Valid() && Look() == old(Look())
    {
      hide LoadFile, Store.Valid, Store.Model, AofWriter.Valid, AofWriter.Log, Valid, WellFormed;
      Accept(stream, script);
      forall i | 0 <= i < |w.clients|
        ensures ClientIs(i, w.clients[i])
      {
        assert old(ClientIs(i, w.clients[i]));
      }
      ValidParts();
    }

    method ForkTurn(now: u64, ghost w: World)
      requires Valid() && Shows(w) && clock <= now
      modifies this`child, this`steps, this`clock, this`forked
      ensures Shows(AfterTurn(w, Turn.Fork(now), cfg.lim.n))
      ensures Valid() && clock == now && forked <= Max(old(forked), now)
    {
      hide Store.Valid, Store.Model, AofWriter.Valid, AofWriter.Log, Valid, ClientsAre, Dump, Enumerates, WellFormed,
        LoadFile;
      ValidParts();
      ghost var order := Fork(now);
      ValidParts();
      if w.child.Nothing? {
        store.CapacityBounds();
        ForkedFile(order, store.Model(), now, cfg.lim);
      }
    }

    method ChildTurn(renamed: bool, ghost w: World)
      requires Valid() && Shows(w)
      modifies this`snapshot, this`child, this`steps
      ensures Shows(AfterTurn(w, Turn.ChildEnds(renamed), cfg.lim.n))
      ensures Valid() && clock == old(clock) && forked == old(forked)
    {
      hide Store.Valid, Store.Model, AofWriter.Valid, AofWriter.Log, Valid, ClientsAre, WellFormed, LoadFile;
      ValidParts();
      ChildEnds(renamed);
      ValidParts();
    }

    /** One event. An event of a connection that there is not is ignored. */
    method Take(t: Turn, ghost w: World) returns (alive: bool)
      requires Valid() && Shows(w) && clock <= TimeAfter(t, clock)
      requires (t.Readable? ==> forked < t.now) && (t.Drain? ==> Ttl.Expired(t.c, t.now, cfg.ttl))
      modifies this, store, store.mem, aof, aof.buf
      modifies conns, set c | c in conns :: c.rbuf, set c | c in conns :: c.wbuf, set c | c in conns :: c.sock
      ensures Joined()
      ensures alive <==> !Fatal(w, t, cfg.lim)
      ensures alive ==> Shows(AfterTurn(w, t, cfg.lim.n))
      ensures store.Valid() && aof.Valid()
      ensures alive ==> Valid()
      ensures alive ==> clock <= TimeAfter(t, old(clock)) && forked <= ForkAfter(t, old(forked))
      ensures !alive ==> Recovered(snapshot, File(Look().log), cfg.lim) == Exhausted
    {
      hide Valid, Store.Valid, Store.Model, AofWriter.Valid, AofWriter.Log, Recovered, Ttl.Expired, Dump, Enumerates,
        DrainedBy, RanBy, ReadOf, StoreBy, ServedBy, WriteLoop, AfterHandling, ClientsAre, FilesAre, WellFormed;
      alive := true;
      ClientCount(w);
      ValidParts();
      match t {
        case Accept(stream, script) => AcceptTurn(stream, script, w);
        case Readable(who, now) =>
          if who < |conns| {
            assert conns[who] in conns;
            alive := ReadTurn(who, now, w);
          }
        case Writable(who) =>
          if who < |conns| {
            assert conns[who] in conns;
            WriteTurn(who, w);
          }
        case Drain(c, now) => DrainTurn(c, now, w);
        case Fork(now) => ForkTurn(now, w);
        case ChildEnds(renamed) => ChildTurn(renamed, w);
      }
      if alive {
        ValidParts();
      }
    }

    lemma ClientCount(w: World)
      requires Shows(w)
      ensures |w.clients| == |conns|
    {
    }

    /**
     `run`: any sequence of events, from a state that `w` shows. The loop ends in exactly the state that the
     events lead to, unless one of them runs a PUSH that finds no slot; then it ends there, and so does every
     restart that finds the entry.
     */
    method Serve(turns: seq<Turn>, ghost w: World) returns (alive: bool)
      requires Valid() && Shows(w) && Timely(turns, clock, forked, cfg.ttl)
      modifies this, store, store.mem, aof, aof.buf
      modifies conns, set c | c in conns :: c.rbuf, set c | c in conns :: c.wbuf, set c | c in conns :: c.sock
      ensures Joined()
      ensures alive <==> Survives(w, turns, cfg.lim)
      ensures alive ==> Shows(AfterTurns(w, turns, cfg.lim.n))
      ensures store.Valid() && aof.Valid()
      ensures alive ==> Valid()
      ensures alive ==>
                forall who: nat :: who < |w.clients| && Looked(w, turns, who, cfg.lim.n) ==>
                  who < |conns| && conns[who].Done()
      ensures !alive ==> Recovered(snapshot, File(Look().log), cfg.lim) == Exhausted
    {
      hide Valid, Store.Valid, Store.Model, AofWriter.Valid, AofWriter.Log, Recovered, Ttl.Expired, Shows, AfterTurn,
        Fatal;
      alive := true;
      ghost var time, latest, now := clock, forked, w;
      assert turns[0..] == turns;
      for i := 0 to |turns|
        invariant alive && Valid() && Shows(now)
        invariant clock <= time && forked <= latest && Timely(turns[i..], time, latest, cfg.ttl)
        invariant AfterTurns(w, turns, cfg.lim.n) == AfterTurns(now, turns[i..], cfg.lim.n)
        invariant Survives(w, turns, cfg.lim) <==> Survives(now, turns[i..], cfg.lim)
        invariant Joined()
      {
        assert turns[i..][0] == turns[i] && turns[i..][1..] == turns[i + 1..];
        alive := Take(turns[i], now);
        if !alive { return; }
        time, latest := TimeAfter(turns[i], time), ForkAfter(turns[i], latest);
        now := AfterTurn(now, turns[i], cfg.lim.n);
      }
      ValidParts();
      AllServed(w, turns);
    }

    /**
     A client that came with turn `i` and was looked after long enough, whatever it sent: all of its commands ran, in
     their place in the order, and it was sent every answer that this order gives it.
     */
    lemma NewcomerAnswered(w: World, turns: seq<Turn>, i: nat)
      requires Valid() && Shows(AfterTurns(w, turns, cfg.lim.n))
      requires w.clients == [] && w.streams == [] && Welcome(turns, i, cfg.lim.n)
      ensures GotAnswers(turns, i, origin.start)
    {
      hide Valid, AfterTurns, Store.Valid, Store.Model, FilesAre, Settled, Accepts, Patient, Grants, Rounds,
        ParseStream, Answers, CommandsBy, ActsOf, StoreAfter, Serial;
      var who := Accepts(turns[..i]);
      NewcomerServed(w, turns, i, cfg.lim.n);
      assert ClientIs(who, AfterTurns(w, turns, cfg.lim.n).clients[who]);
      ValidParts();
      SameN(who);
      OneOrder(who);
    }

    /** Every client that was looked after long enough is done. */
    lemma AllServed(w: World, turns: seq<Turn>)
      requires Shows(AfterTurns(w, turns, cfg.lim.n))
      ensures forall who: nat :: who < |w.clients| && Looked(w, turns, who, cfg.lim.n) ==>
                who < |conns| && conns[who].Done()
    {
      hide AfterTurns, Store.Valid, Store.Model, FilesAre, OnTrack, Settled;
      forall who: nat | who < |w.clients| && Looked(w, turns, who, cfg.lim.n)
        ensures who < |conns| && conns[who].Done()
      {
        FairService(w, turns, who, cfg.lim.n);
        assert ClientIs(who, AfterTurns(w, turns, cfg.lim.n).clients[who]);
      }
    }

    /** The client that came with turn `i` has all its answers, from the store that the server came up with. */
    ghost predicate GotAnswers(turns: seq<Turn>, i: nat, start: Contents)
      requires i < |turns| && turns[i].Accept?
      reads this`conns, this`all
      reads set c | c in conns :: c.sock
    {
      var who, acts := Accepts(turns[..i]), ActsOf(all);
      && who < |conns|
      && CommandsBy(acts, who) == ParseStream(turns[i].stream, cfg.lim.n).commands
      && conns[who].sock.sent == Answers(start, acts, who, cfg.lim.n)
    }

    lemma ValidParts()
      requires Valid()
      ensures Wired() && store.Valid() && aof.Valid()
    {
    }
  }

  lemma ForkedFile(order: seq<u32>, c: Contents, ts: u64, lim: Limits)
    requires Enumerates(order, c) && WellFormed(c, lim.n) && lim.n < 0x1_0000 && |c| <= lim.slots < 0x1_0000_0000
    ensures LoadFile(File(Dump(order, c, ts)), lim) == Load(Loaded(c), ts)
  {
    hide LoadSnapshot, Dump, Enumerates, WellFormed;
    SnapshotRoundTrip(order, c, ts, lim);
  }

  // ----- starting -----

  /** Before the first start there is no log and no snapshot. */
  lemma FirstStart(cfg: D.Config)
    requires D.ValidConfig(cfg)
    ensures CrashedAt([], cfg, 0) && D.Execute([], cfg).log == [] && D.Execute([], cfg).disk == Missing
  {
  }

  /**
   `main`: a new store recovers from the files that any earlier run left, whatever it was killed by, and the event
   loop starts on it. It comes up if and only if that recovery finds its slots.
   */
  method Boot(cfg: Config, aof: AofWriter, snapshot: OnDisk, log: seq<u8>, ghost model: D.Config, ghost steps: Steps)
    returns (ok: bool, loop: EventLoop?)
    requires ValidConfig(cfg) && aof.Valid() && aof.Log() == []
    requires model.lim == Recovery.LimitsOf(cfg) && model.mode == aof.mode && CrashedAt(steps, model, |log|)
    requires D.Execute(steps, model).log[..|log|] == log && D.Execute(steps, model).disk == snapshot
    ensures ok <==> Recovered(snapshot, File(log), model.lim).Loaded?
    ensures !ok ==> loop == null
    ensures ok ==> loop != null && fresh(loop) && fresh(loop.store) && fresh(loop.store.mem) && loop.aof == aof
    ensures ok ==> loop.Valid() && loop.conns == [] && loop.all == [] && loop.cfg == model
    ensures ok ==>
              var d, c := D.Execute(steps, model), Recovered(snapshot, File(log), model.lim).contents;
              && loop.Look() == Server(log, snapshot, Missing, c, d.clock, d.forked) && loop.origin.start == c
              && loop.Shows(World([], [], c, [], LoadFile(snapshot, model.lim), Nothing))
  {
    hide Store.Valid, Store.Model, AofWriter.Valid, AofWriter.Log, Recovered, EventLoop.Valid, ValidConfig, D.Execute,
      D.Possible, Mirrors, EntriesOf, Fragment, EncodeLog;
    var store := new Store(cfg);
    ok := Recovery.Recover(store, snapshot, File(log));
    loop := null;
    if ok {
      ghost var d := D.Execute(steps, model);
      ghost var steps', origin := MirrorsBoot(steps, model, |log|);
      loop := new EventLoop(store, aof, snapshot, model, log, origin, steps', d.clock, d.forked);
    }
  }

  /**
   A whole life of the server: it comes up on the files of an earlier run exactly if recovery finds its slots, and
   then what its clients see and its store holds is what the events make of the recovered store. Every client that
   is looked after long enough gets the answer to everything it sent.
   */
  method Live(cfg: Config, aof: AofWriter, snapshot: OnDisk, log: seq<u8>, turns: seq<Turn>, ghost model: D.Config,
              ghost steps: Steps)
    returns (alive: bool, loop: EventLoop?)
    requires ValidConfig(cfg) && aof.Valid() && aof.Log() == []
    requires model.lim == Recovery.LimitsOf(cfg) && model.mode == aof.mode && CrashedAt(steps, model, |log|)
    requires D.Execute(steps, model).log[..|log|] == log && D.Execute(steps, model).disk == snapshot
    requires Timely(turns, D.Execute(steps, model).clock, D.Execute(steps, model).forked, model.ttl)
    modifies aof, aof.buf
    ensures loop != null <==> Recovered(snapshot, File(log), model.lim).Loaded?
    ensures alive ==> loop != null && loop.Valid()
    ensures var o := Recovered(snapshot, File(log), model.lim);
            o.Loaded? ==>
              var w := World([], [], o.contents, [], LoadFile(snapshot, model.lim), Nothing);
              && (alive <==> Survives(w, turns, model.lim))
              && (alive ==> loop.Shows(AfterTurns(w, turns, model.lim.n)))
              && (alive ==> forall i: nat :: Welcome(turns, i, model.lim.n) ==> loop.GotAnswers(turns, i, o.contents))
    ensures !alive && loop != null ==>
              && loop.store.Valid() && loop.aof.Valid()
              && Recovered(loop.snapshot, File(loop.Look().log), model.lim) == Exhausted
  {
    hide Store.Valid, Store.Model, AofWriter.Valid, AofWriter.Log, Recovered, EventLoop.Valid, ValidConfig, D.Execute,
      D.Possible, CrashedAt, Timely, AfterTurns, Survives, EventLoop.Shows;
    alive, loop := Boot(cfg, aof, snapshot, log, model, steps);
    if alive {
      ghost var c := Recovered(snapshot, File(log), model.lim).contents;
      ghost var w := World([], [], c, [], LoadFile(snapshot, model.lim), Nothing);
      alive := loop.Serve(turns, w);
      if alive {
        forall i: nat | Welcome(turns, i, model.lim.n)
          ensures loop.GotAnswers(turns, i, c)
        {
          loop.NewcomerAnswered(w, turns, i);
        }
      }
    }
  }
}
