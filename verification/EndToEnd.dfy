/** What the running server does to its log, its store and its snapshots, as a run of the durability model. */
module EndToEnd {
  import opened Bytes
  import opened Records
  import opened Operations
  import opened AofCodec
  import opened Replay
  import opened SnapshotFile
  import opened Restart
  import opened Aging
  import opened Wire
  import opened Conversation
  import opened SerialOrder
  import D = Durability
  import DurabilityInvariant
  import CrashSafety
  import Connections

  type Steps = seq<D.Step>

  /** The operation that a command logs, if any. */
  function OpOf(cmd: Command, now: u64): (ops: seq<Op>)
    ensures |ops| <= 1
  {
    match cmd
    case Push(uid, r) => [Operations.Push(uid, r, now)]
    case Del(uid) => [Operations.Del(uid, now)]
    case Get(_, _) => []
  }

  /** The operations that are logged, in order. Evictions are not. */
  function OpsOf(all: seq<Deed>): (ops: seq<Op>)
    ensures |ops| <= |all|
  {
    if all == [] then []
    else
      OpsOf(all[..|all| - 1]) +
      match all[|all| - 1]
      case Served(_, e) => OpOf(e.cmd, e.now)
      case Drained(_) => []
  }

  function EvictionsOf(all: seq<Deed>): (evictions: seq<Eviction>)
    ensures |evictions| <= |all|
  {
    if all == [] then []
    else
      EvictionsOf(all[..|all| - 1]) +
      match all[|all| - 1]
      case Served(_, _) => []
      case Drained(gone) => [gone]
  }

  lemma DeedAppends(all: seq<Deed>, d: Deed)
    ensures OpsOf(all + [d]) == if d.Served? then OpsOf(all) + OpOf(d.e.cmd, d.e.now) else OpsOf(all)
    ensures EvictionsOf(all + [d]) == if d.Served? then EvictionsOf(all) else EvictionsOf(all) + [d.gone]
  {
    hide OpOf;
    assert (all + [d])[..|all|] == all;
  }

  /** What a command appends to the log and does to the store is one logged operation, or nothing for a GET. */
  lemma CommandIsOperation(c: Contents, cmd: Command, now: u64, n: nat)
    ensures OpOf(cmd, now) == [] ==> Connections.LogOf(cmd, now) == [] && Effect(c, cmd, now, n) == c
    ensures OpOf(cmd, now) != [] ==>
              var op := OpOf(cmd, now)[0];
              && op.ts == now && (op.Push? <==> cmd.Push?) && op.uid == cmd.uid
              && Connections.LogOf(cmd, now) == EncodeEntry(EntryOf(op)) && Effect(c, cmd, now, n) == Apply(c, op, n)
  {
    hide EncodeEntry, EntryOf, PushTo;
  }

  // ----- what a running server keeps -----

  /** What the server came up with: the store it recovered, the log it found, and the history of the runs before it. */
  datatype Origin = Origin(start: Contents, log: seq<u8>, hist: seq<Op>, evictions: seq<Eviction>)

  /** What the server has: its log with all that was in it before, its snapshot files, its store, the times it read. */
  datatype Server = Server(log: seq<u8>, snapshot: OnDisk, child: OnDisk, store: Contents, clock: nat, forked: nat)

  /** The child's file is the dump of the image that the model's child is writing. */
  ghost predicate ChildWrites(child: OnDisk, d: D.Child) {
    match d
    case NoChild => child == Missing
    case Writing(image) => child == File(Dump(image.order, image.contents, image.ts))
  }

  ghost predicate SameState(s: Server, d: D.State) {
    && !d.pending && d.live == s.store && d.log == s.log && d.disk == s.snapshot && ChildWrites(s.child, d.child)
    && d.clock <= s.clock && d.forked <= s.forked
  }

  /** `steps` is a run of the durability model, from the first start ever, that ends where the server is. */
  ghost predicate Mirrors(steps: Steps, cfg: D.Config, s: Server, all: seq<Deed>, origin: Origin) {
    && D.ValidConfig(cfg) && D.Possible(steps, cfg)
    && SameState(s, D.Execute(steps, cfg))
    && D.Execute(steps, cfg).hist == origin.hist + OpsOf(all)
    && D.Execute(steps, cfg).evictions == origin.evictions + EvictionsOf(all)
    && s.log == origin.log + EncodeLog(OpsOf(all))
    && s.store == StoreAfter(all, origin.start, cfg.lim.n)
    && Serial(all, origin.start, cfg.lim.n, cfg.ttl)
  }

  /** Time may pass. */
  lemma MirrorsLater(steps: Steps, cfg: D.Config, s: Server, all: seq<Deed>, origin: Origin, now: nat)
    requires Mirrors(steps, cfg, s, all, origin) && s.clock <= now
    ensures Mirrors(steps, cfg, s.(clock := now), all, origin)
  {
    hide EncodeLog, D.Possible, D.Execute, StoreAfter, Serial, OpsOf, EvictionsOf, ChildWrites;
  }

  /** The store, the order and the history after one more deed. */
  lemma OrderAfter(s: Server, all: seq<Deed>, origin: Origin, d: Deed, n: nat, ttl: nat)
    requires s.store == StoreAfter(all, origin.start, n) && Serial(all, origin.start, n, ttl)
    requires DoneOn(d, s.store, ttl)
    ensures StoreAfter(all + [d], origin.start, n) == AfterDeed(s.store, d, n)
    ensures Serial(all + [d], origin.start, n, ttl)
    ensures origin.hist + OpsOf(all + [d])
         == origin.hist + OpsOf(all) + (if d.Served? then OpOf(d.e.cmd, d.e.now) else [])
    ensures origin.evictions + EvictionsOf(all + [d])
         == origin.evictions + EvictionsOf(all) + (if d.Served? then [] else [d.gone])
  {
    hide StoreAfter, Serial, OpsOf, EvictionsOf, OpOf, AfterDeed, DoneOn;
    StoreAfterAppend(all, d, origin.start, n);
    SerialAppend(all, d, origin.start, n, ttl);
    DeedAppends(all, d);
  }

  lemma LogAfter(all: seq<Deed>, who: nat, e: Executed)
    ensures EncodeLog(OpsOf(all + [Served(who, e)])) == EncodeLog(OpsOf(all)) + Connections.LogOf(e.cmd, e.now)
  {
    hide EncodeLog, EncodeEntry, EntryOf, OpsOf;
    DeedAppends(all, Served(who, e));
    match e.cmd
    case Push(uid, r) => EncodeLogAppend(OpsOf(all), Operations.Push(uid, r, e.now));
    case Del(uid) => EncodeLogAppend(OpsOf(all), Operations.Del(uid, e.now));
    case Get(_, _) => assert OpsOf(all) + [] == OpsOf(all);
  }

  lemma StepsAfterOp(steps: Steps, cfg: D.Config, s: Server, op: Op) returns (steps': Steps)
    requires D.Possible(steps, cfg) && SameState(s, D.Execute(steps, cfg))
    requires s.clock <= op.ts && s.forked < op.ts && (op.Push? ==> HasRoom(s.store, op.uid, cfg.lim))
    ensures D.Possible(steps', cfg)
    ensures SameState(s.(log := s.log + EncodeEntry(EntryOf(op)), store := Apply(s.store, op, cfg.lim.n),
                         clock := op.ts),
                      D.Execute(steps', cfg))
    ensures D.Execute(steps', cfg).hist == D.Execute(steps, cfg).hist + [op]
    ensures D.Execute(steps', cfg).evictions == D.Execute(steps, cfg).evictions
  {
    hide D.Possible, D.Execute, EncodeEntry, EntryOf, Apply, HasRoom, ChildWrites;
    steps' := CrashSafety.OpSteps(steps, op, cfg);
  }

  /** A command that finds its slot is logged and applied. */
  lemma MirrorsCommand(steps: Steps, cfg: D.Config, s: Server, all: seq<Deed>, origin: Origin, who: nat, e: Executed)
    returns (steps': Steps)
    requires Mirrors(steps, cfg, s, all, origin) && e.before == s.store && s.clock <= e.now && s.forked < e.now
    requires e.cmd.Push? ==> HasRoom(s.store, e.cmd.uid, cfg.lim)
    ensures Mirrors(steps', cfg,
                    s.(log := s.log + Connections.LogOf(e.cmd, e.now), clock := e.now,
                       store := Effect(s.store, e.cmd, e.now, cfg.lim.n)),
                    all + [Served(who, e)], origin)
  {
    hide EncodeLog, D.Possible, D.Execute, StoreAfter, Serial, OpsOf, EvictionsOf, OpOf, Connections.LogOf, Effect,
      HasRoom, ChildWrites, Apply, EncodeEntry, EntryOf;
    OrderAfter(s, all, origin, Served(who, e), cfg.lim.n, cfg.ttl);
    CommandIsOperation(s.store, e.cmd, e.now, cfg.lim.n);
    LogAfter(all, who, e);
    if OpOf(e.cmd, e.now) == [] {
      steps' := steps;
      assert s.log + [] == s.log;
    } else {
      var op := OpOf(e.cmd, e.now)[0];
      assert OpOf(e.cmd, e.now) == [op];
      steps' := StepsAfterOp(steps, cfg, s, op);
    }
  }

  /** A key that the drain erases is an eviction of the model. */
  lemma MirrorsDrain(steps: Steps, cfg: D.Config, s: Server, all: seq<Deed>, origin: Origin, gone: Eviction)
    returns (steps': Steps)
    requires Mirrors(steps, cfg, s, all, origin) && s.clock <= gone.at
    requires gone.uid in s.store && s.store[gone.uid].lastWrite == gone.lastWrite && gone.at - gone.lastWrite > cfg.ttl
    ensures Mirrors(steps', cfg, s.(store := s.store - {gone.uid}, clock := gone.at), all + [Drained(gone)], origin)
  {
    hide EncodeLog, D.Possible, D.Execute, StoreAfter, Serial, OpsOf, EvictionsOf, ChildWrites;
    OrderAfter(s, all, origin, Drained(gone), cfg.lim.n, cfg.ttl);
    DeedAppends(all, Drained(gone));
    StatesNotEmpty(steps, cfg);
    CrashSafety.Extend(steps, D.Tick(gone.at), cfg);
    var ticked := steps + [D.Tick(gone.at)];
    CrashSafety.Extend(ticked, D.Evict(gone.uid), cfg);
    steps' := ticked + [D.Evict(gone.uid)];
  }

  lemma StatesNotEmpty(steps: Steps, cfg: D.Config)
    requires D.ValidConfig(cfg) && D.Possible(steps, cfg)
    ensures D.Execute(steps, cfg).states != []
  {
    hide D.Possible, D.Execute;
    CrashSafety.WriteAhead(steps, cfg);
  }

  lemma MirrorsFork(steps: Steps, cfg: D.Config, s: Server, all: seq<Deed>, origin: Origin, order: seq<u32>, ts: u64)
    returns (steps': Steps)
    requires Mirrors(steps, cfg, s, all, origin) && s.clock <= ts && s.child == Missing && Enumerates(order, s.store)
    ensures Mirrors(steps', cfg, s.(child := File(Dump(order, s.store, ts)), clock := ts, forked := Max(s.forked, ts)),
                    all, origin)
  {
    hide EncodeLog, D.Possible, D.Execute, StoreAfter, Serial, OpsOf, EvictionsOf, Enumerates, Dump;
    CrashSafety.Extend(steps, D.Fork(order, ts), cfg);
    steps' := steps + [D.Fork(order, ts)];
  }

  /** The child's rename, or its failure. */
  lemma MirrorsChildEnds(steps: Steps, cfg: D.Config, s: Server, all: seq<Deed>, origin: Origin, renamed: bool)
    returns (steps': Steps)
    requires Mirrors(steps, cfg, s, all, origin) && s.child != Missing
    ensures Mirrors(steps', cfg, s.(snapshot := if renamed then s.child else s.snapshot, child := Missing), all, origin)
  {
    hide EncodeLog, D.Possible, D.Execute, StoreAfter, Serial, OpsOf, EvictionsOf, Dump;
    var step := if renamed then D.Rename else D.ChildDies;
    CrashSafety.Extend(steps, step, cfg);
    steps' := steps + [step];
  }

  // ----- crashes -----

  lemma NothingLogged()
    ensures EncodeLog(OpsOf([])) == []
  {
  }

  /** The files of a run that crashed, cut at byte `n` of the log at an entry boundary. */
  ghost predicate CrashedAt(steps: Steps, cfg: D.Config, n: nat) {
    && D.ValidConfig(cfg) && D.Possible(steps, cfg)
    && var d := D.Execute(steps, cfg);
       && d.synced <= n <= |d.log|
       && n <= |EncodeLog(d.logged)| && Fragment(EntriesOf(d.logged), n) == []
  }

  /** A server that comes up after a crash goes on with the same run. */
  lemma MirrorsBoot(steps: Steps, cfg: D.Config, n: nat) returns (steps': Steps, origin: Origin)
    requires CrashedAt(steps, cfg, n)
    requires D.RecoveredFrom(D.Execute(steps, cfg), n, cfg).Loaded?
    ensures var d := D.Execute(steps, cfg);
            var c := D.RecoveredFrom(d, n, cfg).contents;
            && origin.start == c && origin.log == d.log[..n] && origin.hist <= d.hist && origin.evictions == d.evictions
            && Mirrors(steps', cfg, Server(d.log[..n], d.disk, Missing, c, d.clock, d.forked), [], origin)
  {
    hide D.Possible, D.Execute, EncodeLog, EntriesOf, Fragment, D.RecoveredFrom, D.RecoveryPoint;
    CrashSafety.CrashIsAlwaysPossible(steps, n, cfg);
    CrashSafety.ExtendPossible(steps, D.Crash(n), cfg);
    steps' := steps + [D.Crash(n)];
    var d' := D.Execute(steps', cfg);
    origin := Origin(d'.live, d'.log, d'.hist, d'.evictions);
    NothingLogged();
    assert d'.log + [] == d'.log;
    assert origin.hist + OpsOf([]) == origin.hist && origin.evictions + EvictionsOf([]) == origin.evictions;
  }

  /**
   A crash of the running server that leaves the first `n` bytes of its log. The restart comes up with the
   operations up to the recovery point, run over the snapshot, if and only if they fit. It then holds every key
   of the store at that point, and besides only keys that were evicted past the TTL; with no eviction since the
   snapshot it always comes up, and with exactly that store. With the whole log, that store is the server's.
   */
  lemma Restarts(steps: Steps, cfg: D.Config, s: Server, all: seq<Deed>, origin: Origin, n: nat)
    requires Mirrors(steps, cfg, s, all, origin) && n <= |s.log|
    ensures var d, o := D.Execute(steps, cfg), Recovered(s.snapshot, File(s.log[..n]), cfg.lim);
            var m := D.RecoveryPoint(d, n);
            && d.image.ops <= m <= |d.hist| && m < |d.states|
            && o == (var ops := d.hist[d.image.ops..m];
                     if Fits(d.image.contents, ops, cfg.lim) then Loaded(Run(d.image.contents, ops, cfg.lim.n))
                     else Exhausted)
            && (o.Loaded? ==> Covers(d.states[m], o.contents, d.evictions, cfg.ttl))
            && (d.image.evictions == |d.evictions| ==> o == Loaded(d.states[m]))
            && (n == |s.log| ==> d.states[m] == s.store)
  {
    hide D.Possible, D.Execute, StoreAfter, Serial, OpsOf, EvictionsOf, ChildWrites, Recovered, Covers, Fits, Run,
      EncodeLog, D.RecoveryPoint;
    var d := D.Execute(steps, cfg);
    RecoveryIs(steps, cfg, n);
    WithinStates(steps, cfg, n);
    if d.image.evictions == |d.evictions| {
      CrashSafety.CrashConsistency(steps, n, cfg);
    }
    if D.RecoveredFrom(d, n, cfg).Loaded? {
      CrashSafety.RecoveryUnderEviction(steps, n, cfg);
    }
  }

  lemma RecoveryIs(steps: Steps, cfg: D.Config, n: nat)
    requires D.ValidConfig(cfg) && D.Possible(steps, cfg) && n <= |D.Execute(steps, cfg).log|
    ensures var d := D.Execute(steps, cfg);
            var m := D.RecoveryPoint(d, n);
            && d.image.ops <= m <= |d.hist|
            && D.RecoveredFrom(d, n, cfg)
               == (var ops := d.hist[d.image.ops..m];
                   if Fits(d.image.contents, ops, cfg.lim) then Loaded(Run(d.image.contents, ops, cfg.lim.n))
                   else Exhausted)
  {
    hide D.Possible, D.Execute, DurabilityInvariant.Inv, D.RecoveredFrom, D.RecoveryPoint, Fits, Run;
    DurabilityInvariant.RunKeeps(steps, cfg);
    DurabilityInvariant.RecoveryIs(D.Execute(steps, cfg), n, cfg);
  }

  lemma WithinStates(steps: Steps, cfg: D.Config, n: nat)
    requires D.ValidConfig(cfg) && D.Possible(steps, cfg)
    requires !D.Execute(steps, cfg).pending && n <= |D.Execute(steps, cfg).log|
    ensures var d := D.Execute(steps, cfg);
            && D.RecoveryPoint(d, n) < |d.states|
            && (n == |d.log| ==> D.RecoveryPoint(d, n) == |d.states| - 1 && d.states[|d.states| - 1] == d.live)
  {
    hide D.Possible, D.Execute, EncodeLog, LoadFile, Enumerates, WellFormed, D.Survivors, DurabilityInvariant.Tracks,
      DurabilityInvariant.ImageFits, DurabilityInvariant.LoggedBy, DurabilityInvariant.Bounded;
    var d := D.Execute(steps, cfg);
    DurabilityInvariant.RunKeeps(steps, cfg);
    DurabilityInvariant.CrashBounds(d, n, cfg);
    CrashSafety.WholeLog(d);
  }

  /** After a PUSH that found no slot, every restart that finds its entry dies as the server did, evictions or not. */
  lemma FatalRestart(steps: Steps, cfg: D.Config, s: Server, all: seq<Deed>, origin: Origin, cmd: Command, now: u64)
    returns (steps': Steps)
    requires Mirrors(steps, cfg, s, all, origin) && s.clock <= now && s.forked < now
    requires cmd.Push? && !HasRoom(s.store, cmd.uid, cfg.lim)
    ensures D.Possible(steps', cfg) && D.Execute(steps', cfg).log == s.log + Connections.LogOf(cmd, now)
    ensures D.Execute(steps', cfg).disk == s.snapshot
    ensures Recovered(s.snapshot, File(s.log + Connections.LogOf(cmd, now)), cfg.lim) == Exhausted
  {
    hide EncodeLog, D.Possible, D.Execute, StoreAfter, Serial, OpsOf, EvictionsOf, ChildWrites, Recovered, HasRoom,
      EncodeEntry, EntryOf;
    var op := Operations.Push(cmd.uid, cmd.record, now);
    CrashSafety.Extend(steps, D.Log(op), cfg);
    steps' := steps + [D.Log(op)];
    var d := D.Execute(steps', cfg);
    CrashSafety.ExhaustingPushBlocksRestart(steps', cfg);
    assert d.log[..|d.log|] == d.log;
  }
}
