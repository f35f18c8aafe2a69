/**
 The server as a transition system over its log, its snapshots and its crashes. Each step is one thing
 that the event loop, the flush thread, the snapshot child or a crash does. A run may crash and restart
 any number of times; its history keeps the operations that survived.
 */
module Durability {
  import opened Bytes
  import opened Records
  import opened Operations
  import opened AofCodec
  import opened Replay
  import opened SnapshotFile
  import opened Restart
  import opened Aging

  /** `Always` writes and syncs every entry before it is applied; `Buffered` covers `everysec` and `no`. */
  datatype FsyncMode = Always | Buffered

  datatype Config = Config(lim: Limits, ttl: nat, mode: FsyncMode)

  ghost predicate ValidConfig(cfg: Config) {
    0 < cfg.lim.n <= 3854 && 0 < cfg.lim.slots < 0x1_0000_0000
  }

  /**
   A frozen store: what `fork` copied, in the order the child walks it, at time `ts`. `ops` and
   `evictions` count the operations and evictions it has seen.
   */
  datatype Image = Image(order: seq<u32>, contents: Contents, ts: u64, ops: nat, evictions: nat)

  const GENESIS := Image([], map[], 0, 0, 0)

  datatype Child = NoChild | Writing(image: Image)

  /**
   `log` is every byte handed to the log, of which the first `synced` survive any crash, and `disk` is
   `snapshot.bin`. The rest is history: `hist` the surviving operations, `logged` those in the log,
   `states[i]` the contents after `i` operations and the evictions before the next, `image` what `disk`
   holds, `acked` the operations answered with OK. `pending` is an operation logged and not yet applied.
   */
  datatype State = State(
    live: Contents, log: seq<u8>, synced: nat, disk: OnDisk, child: Child, clock: nat, forked: nat,
    pending: bool, hist: seq<Op>, logged: seq<Op>, states: seq<Contents>, image: Image,
    evictions: seq<Eviction>, acked: nat)

  const INITIAL := State(map[], [], 0, Missing, NoChild, 0, 0, false, [], [], [map[]], GENESIS, [], 0)

  datatype Step =
    | Tick(now: nat)                          // time passes
    | Log(op: Op)                             // a PUSH or DEL appends its entry
    | Apply                                   // ... is applied, and answered with OK
    | Evict(uid: u32)                         // the drain erases an expired key
    | Fork(order: seq<u32>, ts: u64)          // a snapshot child starts on a copy of the store
    | Rename                                  // ... and its file becomes snapshot.bin
    | ChildDies                               // ... or it fails
    | Sync(n: nat)                            // the log is on disk up to byte n
    | Crash(n: nat)                           // everything but n log bytes and snapshot.bin is lost; restart

  /** How many whole entries the first `n` log bytes hold. */
  function Survivors(s: State, n: nat): (w: nat)
    ensures w <= |s.logged|
  {
    WholeEntries(EntriesOf(s.logged), n)
  }

  /** Operations that the log lost and the snapshot kept, over all crashes so far. */
  function Gap(s: State): int { |s.hist| - |s.logged| }

  /** The operation after which a crash that leaves `n` log bytes finds the store. */
  function RecoveryPoint(s: State, n: nat): int {
    Max(s.image.ops, Gap(s) + Survivors(s, n))
  }

  function RecoveredFrom(s: State, n: nat, cfg: Config): Outcome
    requires n <= |s.log|
  {
    Recovered(s.disk, File(s.log[..n]), cfg.lim)
  }

  /**
   The premises on the environment are here: the clock never runs backwards, an operation after a fork
   reads a later time than the fork did, and a server that goes on after a crash found its log at an
   entry boundary.
   */
  ghost predicate Enabled(s: State, step: Step, cfg: Config) {
    match step
    case Tick(now) => s.clock <= now
    case Log(op) => !s.pending && s.clock <= op.ts && s.forked < op.ts
    case Apply =>
      && s.pending && s.hist != []
      && (s.hist[|s.hist| - 1].Push? ==> HasRoom(s.live, s.hist[|s.hist| - 1].uid, cfg.lim))
    case Evict(uid) => !s.pending && s.states != [] && uid in s.live && s.clock - s.live[uid].lastWrite > cfg.ttl
    case Fork(order, ts) => !s.pending && s.child.NoChild? && s.clock <= ts && Enumerates(order, s.live)
    case Rename => s.child.Writing?
    case ChildDies => s.child.Writing?
    case Sync(n) => s.synced <= n <= |s.log|
    case Crash(n) =>
      && s.synced <= n <= |s.log|
      && n <= |EncodeLog(s.logged)| && Fragment(EntriesOf(s.logged), n) == []
      && 0 <= RecoveryPoint(s, n) <= |s.hist| && RecoveryPoint(s, n) <= |s.states|
      && RecoveredFrom(s, n, cfg).Loaded?
  }

  ghost function After(s: State, step: Step, cfg: Config): State
    requires Enabled(s, step, cfg)
  {
    match step
    case Tick(now) => s.(clock := now)
    case Log(op) =>
      var log := s.log + EncodeEntry(EntryOf(op));
      s.(log := log, synced := if cfg.mode == Always then |log| else s.synced, clock := op.ts,
         pending := true, hist := s.hist + [op], logged := s.logged + [op])
    case Apply =>
      var live := Operations.Apply(s.live, s.hist[|s.hist| - 1], cfg.lim.n);
      s.(live := live, pending := false, states := s.states + [live], acked := |s.hist|)
    case Evict(uid) =>
      var live := s.live - {uid};
      s.(live := live, states := s.states[|s.states| - 1 := live],
         evictions := s.evictions + [Eviction(uid, s.live[uid].lastWrite, s.clock)])
    case Fork(order, ts) =>
      s.(child := Writing(Image(order, s.live, ts, |s.hist|, |s.evictions|)), clock := ts, forked := ts)
    case Rename =>
      var image := s.child.image;
      s.(disk := File(Dump(image.order, image.contents, image.ts)), image := image, child := NoChild)
    case ChildDies => s.(child := NoChild)
    case Sync(n) => s.(synced := n)
    case Crash(n) =>
      var m := RecoveryPoint(s, n);
      var live := RecoveredFrom(s, n, cfg).contents;
      s.(live := live, log := s.log[..n], child := NoChild, pending := false, hist := s.hist[..m],
         logged := s.logged[..Survivors(s, n)], states := s.states[..m] + [live],
         acked := if s.acked < m then s.acked else m)
  }

  // ----- runs -----

  ghost predicate Possible(steps: seq<Step>, cfg: Config)
    decreases |steps|, 0
  {
    steps == [] ||
    var before := steps[..|steps| - 1];
    Possible(before, cfg) && Enabled(Execute(before, cfg), steps[|steps| - 1], cfg)
  }

  /** The state after a run from an empty server. */
  ghost function Execute(steps: seq<Step>, cfg: Config): State
    requires Possible(steps, cfg)
    decreases |steps|, 1
  {
    if steps == [] then INITIAL
    else After(Execute(steps[..|steps| - 1], cfg), steps[|steps| - 1], cfg)
  }
}
