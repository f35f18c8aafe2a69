/** What a crash leaves, for every run, every crash and every byte of the log it may cut. */
module CrashSafety {
  import opened Bytes
  import opened Records
  import opened Operations
  import opened AofCodec
  import opened Replay
  import opened SnapshotFile
  import opened Restart
  import opened Aging
  import opened Durability
  import opened DurabilityInvariant

  /** What replay makes of an operation that was logged before the crash and never applied. */
  function AfterPending(live: Contents, op: Op, lim: Limits): Outcome {
    if op.Push? && !HasRoom(live, op.uid, lim) then Exhausted else Loaded(Operations.Apply(live, op, lim.n))
  }

  lemma TrackedFits(states: seq<Contents>, hist: seq<Op>, image: Image, evictions: seq<Eviction>,
                    lim: Limits, ttl: nat, m: nat)
    requires Tracks(states, hist, image, evictions, lim.n, ttl) && image.evictions == |evictions|
    requires Bounded(states, lim.slots) && image.ops <= m < |states|
    ensures Fits(image.contents, hist[image.ops..m], lim)
  {
    hide Covers, Run;
    var ops := hist[image.ops..m];
    forall i | 0 <= i <= |ops|
      ensures |Run(image.contents, ops[..i], lim.n)| <= lim.slots
    {
      assert ops[..i] == hist[image.ops..image.ops + i];
      assert states[image.ops + i] == Run(image.contents, ops[..i], lim.n);
    }
  }

  lemma ApplyGrows(live: Contents, op: Op, lim: Limits)
    requires |live| <= lim.slots
    ensures |Operations.Apply(live, op, lim.n)| <= lim.slots <==> AfterPending(live, op, lim).Loaded?
  {
    hide Operations.Apply;
    ApplySize(live, op, lim.n);
  }

  lemma ExactRecovery(s: State, n: nat, cfg: Config)
    requires Inv(s, cfg) && n <= |s.log| && s.image.evictions == |s.evictions|
    ensures s.image.ops <= RecoveryPoint(s, n) <= |s.hist| && RecoveryPoint(s, n) <= |s.states| && s.states != []
    ensures RecoveredFrom(s, n, cfg)
         == if RecoveryPoint(s, n) < |s.states| then Loaded(s.states[RecoveryPoint(s, n)])
            else AfterPending(s.live, s.hist[|s.hist| - 1], cfg.lim)
  {
    hide EncodeLog, LoadFile, Enumerates, LoggedBy, WellFormed, RecoveredFrom, Fits, Run, WholeEntries, EntriesOf,
      Aligned, Bounded, Covers, AfterPending, Operations.Apply;
    var m, k := RecoveryPoint(s, n), s.image.ops;
    RecoveryIs(s, n, cfg);
    CrashBounds(s, n, cfg);
    if m < |s.states| {
      TrackedFits(s.states, s.hist, s.image, s.evictions, cfg.lim, cfg.ttl, m);
    } else {
      TrackedFits(s.states, s.hist, s.image, s.evictions, cfg.lim, cfg.ttl, m - 1);
      RunOneMore(s.image.contents, s.hist, k, m - 1, cfg.lim.n);
      FitsOneMore(s.image.contents, s.hist[k..m - 1], s.hist[m - 1], cfg.lim);
      assert s.hist[k..m] == s.hist[k..m - 1] + [s.hist[m - 1]];
      ApplyGrows(s.live, s.hist[m - 1], cfg.lim);
      PendingLoaded(s.live, s.hist[m - 1], cfg.lim);
    }
  }

  lemma PendingLoaded(live: Contents, op: Op, lim: Limits)
    ensures AfterPending(live, op, lim).Loaded? ==>
              AfterPending(live, op, lim) == Loaded(Operations.Apply(live, op, lim.n))
  {
  }

  /**
   Crash consistency. After any run, cut the log at any byte: if nothing was evicted since the snapshot,
   the restarted store is exactly the store after `m` operations, where `m` is the larger of the
   operations in the snapshot and the whole entries in the log. Only an operation that was logged and
   not yet applied may be recovered beyond that, and it is the last one.
   */
  lemma CrashConsistency(steps: seq<Step>, n: nat, cfg: Config)
    requires ValidConfig(cfg) && Possible(steps, cfg)
    requires n <= |Execute(steps, cfg).log|
    requires Execute(steps, cfg).image.evictions == |Execute(steps, cfg).evictions|
    ensures var s := Execute(steps, cfg);
            var m := RecoveryPoint(s, n);
            && s.image.ops <= m <= |s.hist| && s.states != []
            && RecoveredFrom(s, n, cfg)
               == if m < |s.states| then Loaded(s.states[m]) else AfterPending(s.live, s.hist[|s.hist| - 1], cfg.lim)
  {
    hide Inv, RecoveredFrom, RecoveryPoint, AfterPending, Execute;
    RunKeeps(steps, cfg);
    ExactRecovery(Execute(steps, cfg), n, cfg);
  }

  /**
   Recovery under TTL eviction. Evictions are not logged, so a restart may bring evicted keys back; but
   every key live at the recovery point comes back with its write time and its records as the newest
   part, and every key that comes back besides had idled past the TTL when it was erased. The recovery
   point may again be one operation ahead, the one that was logged and not yet applied.
   */
  lemma RecoveryUnderEviction(steps: seq<Step>, n: nat, cfg: Config)
    requires ValidConfig(cfg) && Possible(steps, cfg)
    requires n <= |Execute(steps, cfg).log| && RecoveredFrom(Execute(steps, cfg), n, cfg).Loaded?
    ensures var s := Execute(steps, cfg);
            var m := RecoveryPoint(s, n);
            && s.image.ops <= m <= |s.hist| && m <= |s.states| && s.states != []
            && Covers(if m < |s.states| then s.states[m]
                      else Operations.Apply(s.live, s.hist[|s.hist| - 1], cfg.lim.n),
                      RecoveredFrom(s, n, cfg).contents, s.evictions, cfg.ttl)
  {
    hide Inv, RecoveredFrom, RecoveryPoint, Execute, Covers, Operations.Apply;
    RunKeeps(steps, cfg);
    CoveredRecovery(Execute(steps, cfg), n, cfg);
  }

  lemma CoveredRecovery(s: State, n: nat, cfg: Config)
    requires Inv(s, cfg) && n <= |s.log| && RecoveredFrom(s, n, cfg).Loaded?
    ensures var m := RecoveryPoint(s, n);
            && s.image.ops <= m <= |s.hist| && m <= |s.states| && s.states != []
            && Covers(if m < |s.states| then s.states[m]
                      else Operations.Apply(s.live, s.hist[|s.hist| - 1], cfg.lim.n),
                      RecoveredFrom(s, n, cfg).contents, s.evictions, cfg.ttl)
  {
    hide RecoveredFrom, RecoveryPoint, Fits, Run, Covers, Aligned, EncodeLog, LoadFile, Enumerates, LoggedBy,
      WellFormed, Bounded, ImageFits, Operations.Apply;
    var m, k := RecoveryPoint(s, n), s.image.ops;
    RecoveryIs(s, n, cfg);
    CrashBounds(s, n, cfg);
    if m == |s.states| {
      RunOneMore(s.image.contents, s.hist, k, m - 1, cfg.lim.n);
      CoversAfterOp(s.live, Run(s.image.contents, s.hist[k..m - 1], cfg.lim.n), s.evictions, s.hist[m - 1],
                    cfg.lim.n, cfg.ttl);
    }
  }

  lemma {:induction false} AllEntriesWhole(es: seq<LogEntry>)
    ensures WholeEntries(es, |EncodeEntries(es)|) == |es|
  {
    hide EncodeEntry;
    if es != [] {
      AllEntriesWhole(es[1..]);
    }
  }

  lemma WholeLog(s: State)
    requires s.log == EncodeLog(s.logged)
    ensures Survivors(s, |s.log|) == |s.logged|
  {
    hide EntryOf;
    AllEntriesWhole(EntriesOf(s.logged));
  }

  /** With the whole log on disk and no operation half done, the live store itself is what is covered. */
  lemma FullLogRecovery(steps: seq<Step>, cfg: Config)
    requires ValidConfig(cfg) && Possible(steps, cfg) && !Execute(steps, cfg).pending
    requires RecoveredFrom(Execute(steps, cfg), |Execute(steps, cfg).log|, cfg).Loaded?
    ensures var s := Execute(steps, cfg);
            Covers(s.live, RecoveredFrom(s, |s.log|, cfg).contents, s.evictions, cfg.ttl)
  {
    hide RecoveredFrom, Execute, Covers, Aligned, EncodeLog, LoadFile, Enumerates, LoggedBy, WellFormed, Bounded,
      ImageFits, Run, Survivors;
    var s := Execute(steps, cfg);
    RunKeeps(steps, cfg);
    WholeLog(s);
    CrashBounds(s, |s.log|, cfg);
    RecoveryUnderEviction(steps, |s.log|, cfg);
  }

  /** A restart comes up if and only if replaying the surviving operations never needs more slots than there are. */
  lemma RestartSucceedsIffFits(steps: seq<Step>, n: nat, cfg: Config)
    requires ValidConfig(cfg) && Possible(steps, cfg) && n <= |Execute(steps, cfg).log|
    ensures var s := Execute(steps, cfg);
            && s.image.ops <= RecoveryPoint(s, n) <= |s.hist|
            && (RecoveredFrom(s, n, cfg).Loaded? <==>
                Fits(s.image.contents, s.hist[s.image.ops..RecoveryPoint(s, n)], cfg.lim))
  {
    hide Inv, RecoveredFrom, RecoveryPoint, Execute, Fits, Run;
    RunKeeps(steps, cfg);
    RecoveryIs(Execute(steps, cfg), n, cfg);
  }

  /** In any run the server may crash at any boundary that keeps the synced bytes, and go on if the store loads. */
  lemma CrashIsAlwaysPossible(steps: seq<Step>, n: nat, cfg: Config)
    requires ValidConfig(cfg) && Possible(steps, cfg)
    requires Execute(steps, cfg).synced <= n <= |Execute(steps, cfg).log|
    requires RecoveredFrom(Execute(steps, cfg), n, cfg).Loaded?
    requires n <= |EncodeLog(Execute(steps, cfg).logged)| && Fragment(EntriesOf(Execute(steps, cfg).logged), n) == []
    ensures Possible(steps + [Crash(n)], cfg)
  {
    hide Execute, EncodeLog, RecoveredFrom, LoadFile, Enumerates, LoggedBy, WellFormed, Bounded, ImageHolds, Fragment,
      EntriesOf, Survivors;
    RunKeeps(steps, cfg);
    CrashBounds(Execute(steps, cfg), n, cfg);
    Extend(steps, Crash(n), cfg);
  }

  /** What a server logs after coming up on the first `n` bytes is read back by the next restart, whatever it is. */
  ghost predicate GoesOnSafely(s: State, n: nat)
    requires n <= |s.log|
  {
    forall more: seq<Op> :: ParseLog(s.log[..n] + EncodeLog(more)) == EntriesOf(s.logged[..Survivors(s, n)] + more)
  }

  /**
   The crash step asks for a cut at an entry boundary, and that is exactly when going on is safe: in any run
   and for any cut, the surviving entries and all later ones are read back if and only if no entry is torn.
   */
  lemma GoingOnIsSafeIffAtBoundary(steps: seq<Step>, n: nat, cfg: Config)
    requires ValidConfig(cfg) && Possible(steps, cfg) && n <= |Execute(steps, cfg).log|
    ensures var s := Execute(steps, cfg);
            && s.log == EncodeLog(s.logged)
            && (GoesOnSafely(s, n) <==> Fragment(EntriesOf(s.logged), n) == [])
  {
    hide Execute, Possible, EncodeLog, ParseLog, Fragment, EntryOf, WholeEntries;
    WriteAhead(steps, cfg);
    var s := Execute(steps, cfg);
    SafeToAppendIffAtBoundary(s.logged, n);
    forall more: seq<Op>
      ensures EntriesOf(s.logged[..Survivors(s, n)] + more)
           == EntriesOf(s.logged)[..WholeEntries(EntriesOf(s.logged), n)] + EntriesOf(more)
    {
    }
    hide EntriesOf;
  }

  /** Write-ahead: the log always holds every applied operation that it did not lose, and at most one more. */
  lemma WriteAhead(steps: seq<Step>, cfg: Config)
    requires ValidConfig(cfg) && Possible(steps, cfg)
    ensures var s := Execute(steps, cfg);
            && s.log == EncodeLog(s.logged)
            && 0 <= Gap(s) <= s.image.ops <= |s.hist|
            && s.logged[s.image.ops - Gap(s)..] == s.hist[s.image.ops..]
            && s.acked <= |s.states| - 1 <= |s.hist| <= |s.states| && s.live == s.states[|s.states| - 1]
  {
    hide Execute, Tracks, EncodeLog, LoadFile, Enumerates, LoggedBy, WellFormed, Bounded, ImageFits, NoneNewer,
      AllNewer;
    RunKeeps(steps, cfg);
  }

  /** In `Always` mode no crash loses an operation that was answered with OK. */
  lemma AcknowledgedSurvives(steps: seq<Step>, n: nat, cfg: Config)
    requires ValidConfig(cfg) && Possible(steps, cfg) && cfg.mode == Always
    requires Execute(steps, cfg).synced <= n <= |Execute(steps, cfg).log|
    ensures RecoveryPoint(Execute(steps, cfg), n) == |Execute(steps, cfg).hist| >= Execute(steps, cfg).acked
  {
    hide Execute, Tracks, EncodeLog, LoadFile, Enumerates, LoggedBy, WellFormed, Bounded, ImageFits, NoneNewer,
      AllNewer, Survivors;
    RunKeeps(steps, cfg);
    WholeLog(Execute(steps, cfg));
  }

  /** An operation that is applied is answered with OK: after it, nothing logged is unanswered. */
  lemma AppliedIsAcknowledged(steps: seq<Step>, cfg: Config)
    requires Possible(steps + [Step.Apply], cfg)
    ensures var s, s' := Execute(steps, cfg), Execute(steps + [Step.Apply], cfg);
            && s.hist != [] && s'.acked == |s'.hist| == |s.hist|
            && s'.live == Operations.Apply(s.live, s.hist[|s.hist| - 1], cfg.lim.n)
  {
    hide Execute, Possible, Operations.Apply;
    ExtendPossible(steps, Step.Apply, cfg);
  }

  lemma {:induction false} WholeEntriesGrow(es: seq<LogEntry>, a: nat, b: nat)
    requires a <= b
    ensures WholeEntries(es, a) <= WholeEntries(es, b)
  {
    hide EncodeEntry;
    if es != [] && |EncodeEntry(es[0])| <= a {
      WholeEntriesGrow(es[1..], a - |EncodeEntry(es[0])|, b - |EncodeEntry(es[0])|);
    }
  }

  /** In every mode, once the log is synced up to a byte no crash recovers less than what is before it. */
  lemma SyncedSurvives(steps: seq<Step>, m: nat, n: nat, cfg: Config)
    requires Possible(steps + [Sync(m)], cfg)
    requires Execute(steps + [Sync(m)], cfg).synced <= n <= |Execute(steps + [Sync(m)], cfg).log|
    ensures var s := Execute(steps + [Sync(m)], cfg);
            m <= n && RecoveryPoint(s, m) <= RecoveryPoint(s, n) && Gap(s) + Survivors(s, m) <= RecoveryPoint(s, n)
  {
    hide Execute, Possible, WholeEntries, EntriesOf;
    ExtendPossible(steps, Sync(m), cfg);
    WholeEntriesGrow(EntriesOf(Execute(steps + [Sync(m)], cfg).logged), m, n);
  }

  // ----- what the code does not promise -----

  /** A write in the same nanosecond as the snapshot, but after it, is taken for covered and lost. */
  lemma TiedWriteIsLost(uid: u32, r: Record, ts: u64, lim: Limits)
    requires lim.slots > 0
    ensures var ops := [Push(uid, r, ts)];
            && ReplayAll(map[], EntriesOf(ops), ts, lim) == Loaded(map[])
            && uid in Run(map[], ops, lim.n)
  {
    var op := Push(uid, r, ts);
    RunStep(map[], [], op, lim.n);
    assert [] + [op] == [op];
    SkippedOp(map[], op, ts, lim);
    ReplayOne(map[], EntryOf(op), ts, lim);
    assert EntriesOf([op]) == [EntryOf(op)];
  }

  lemma Extend(steps: seq<Step>, step: Step, cfg: Config)
    requires Possible(steps, cfg) && Enabled(Execute(steps, cfg), step, cfg)
    ensures Possible(steps + [step], cfg)
    ensures Execute(steps + [step], cfg) == After(Execute(steps, cfg), step, cfg)
  {
    hide Enabled, After;
    assert (steps + [step])[..|steps|] == steps;
  }

  lemma ExtendPossible(steps: seq<Step>, step: Step, cfg: Config)
    requires Possible(steps + [step], cfg)
    ensures Possible(steps, cfg) && Enabled(Execute(steps, cfg), step, cfg)
    ensures Execute(steps + [step], cfg) == After(Execute(steps, cfg), step, cfg)
  {
    hide Enabled, After;
    assert (steps + [step])[..|steps|] == steps;
  }

  lemma TwoUsersDoNotFit(r: Record, a: u64, b: u64)
    ensures !Fits(map[], [Push(1, r, a), Push(2, r, b)], Limits(1, 1))
  {
    var p, q := Push(1, r, a), Push(2, r, b);
    RunStep(map[], [], p, 1);
    RunStep(map[], [p], q, 1);
    assert [] + [p] == [p] && [p] + [q] == [p, q];
    var c := Run(map[], [p, q], 1);
    assert c.Keys == {1, 2};
    assert |c| == |c.Keys|;
    assert [p, q][..2] == [p, q];
  }

  /** An operation and its application, as two steps. */
  lemma OpSteps(steps: seq<Step>, op: Op, cfg: Config) returns (steps': seq<Step>)
    requires Possible(steps, cfg)
    requires var s := Execute(steps, cfg);
             !s.pending && s.clock <= op.ts && s.forked < op.ts && (op.Push? ==> HasRoom(s.live, op.uid, cfg.lim))
    ensures Possible(steps', cfg)
    ensures var s, s' := Execute(steps, cfg), Execute(steps', cfg);
            && s'.hist == s.hist + [op] && s'.logged == s.logged + [op] && !s'.pending
            && s'.live == Operations.Apply(s.live, op, cfg.lim.n) && s'.states == s.states + [s'.live]
            && s'.clock == op.ts && s'.forked == s.forked && s'.image == s.image && s'.evictions == s.evictions
            && s'.disk == s.disk && s'.child == s.child && s'.log == s.log + EncodeEntry(EntryOf(op))
  {
    hide Execute, Possible, EncodeEntry, RecoveredFrom, Operations.Apply, Enumerates, Fragment, RecoveryPoint;
    Extend(steps, Log(op), cfg);
    var logged := steps + [Log(op)];
    Extend(logged, Step.Apply, cfg);
    steps' := logged + [Step.Apply];
  }

  /**
   Evictions can make a restart impossible: with one slot, a user is pushed, evicted, and a second one
   pushed. The live store never held more than one user, and replaying the log needs two slots.
   */
  lemma EvictionCanBlockRestart(r: Record, ttl: nat) returns (steps: seq<Step>)
    requires ttl + 2 < 0x1_0000_0000_0000_0000
    ensures var cfg := Config(Limits(1, 1), ttl, Buffered);
            && Possible(steps, cfg)
            && Bounded(Execute(steps, cfg).states, 1)
            && RecoveredFrom(Execute(steps, cfg), |Execute(steps, cfg).log|, cfg) == Exhausted
  {
    var cfg := Config(Limits(1, 1), ttl, Buffered);
    var p, q := Push(1, r, 1), Push(2, r, ttl + 2);
    steps := OpSteps([], p, cfg);
    hide Execute, Possible, EncodeEntry, RecoveredFrom, Enumerates, Fragment, RecoveryPoint;
    Extend(steps, Tick(ttl + 2), cfg);
    steps := steps + [Tick(ttl + 2)];
    Extend(steps, Evict(1), cfg);
    steps := steps + [Evict(1)];
    assert Execute(steps, cfg).live == map[];
    steps := OpSteps(steps, q, cfg);
    assert Execute(steps, cfg).hist == [p, q];
    BlockedByTwoUsers(steps, r, ttl);
  }

  lemma BlockedByTwoUsers(steps: seq<Step>, r: Record, ttl: nat)
    requires ttl + 2 < 0x1_0000_0000_0000_0000
    requires var cfg := Config(Limits(1, 1), ttl, Buffered);
             && Possible(steps, cfg)
             && Execute(steps, cfg).hist == Execute(steps, cfg).logged == [Push(1, r, 1), Push(2, r, ttl + 2)]
             && Execute(steps, cfg).image == GENESIS
    ensures var cfg := Config(Limits(1, 1), ttl, Buffered);
            && Bounded(Execute(steps, cfg).states, 1)
            && RecoveredFrom(Execute(steps, cfg), |Execute(steps, cfg).log|, cfg) == Exhausted
  {
    hide Execute, Possible, RecoveredFrom, Survivors, Fits, Bounded;
    var cfg := Config(Limits(1, 1), ttl, Buffered);
    var s := Execute(steps, cfg);
    var n := |s.log|;
    assert s.log == EncodeLog(s.logged) && Bounded(s.states, 1) by {
      RunKeeps(steps, cfg);
      hide ImageHolds, EncodeLog, LoadFile, LoggedBy, WellFormed, Enumerates;
    }
    WholeLog(s);
    hide EncodeLog;
    RestartSucceedsIffFits(steps, n, cfg);
    TwoUsersDoNotFit(r, 1, ttl + 2);
    assert s.hist[0..2] == s.hist;
  }

  /**
   A PUSH for a new user with every slot live kills the server in the allocator, but its entry is already
   in the log: with that entry on disk, every restart dies on it again, whatever was evicted meanwhile.
   */
  lemma ExhaustingPushBlocksRestart(steps: seq<Step>, cfg: Config)
    requires ValidConfig(cfg) && Possible(steps, cfg)
    requires var s := Execute(steps, cfg);
             && s.pending && s.hist != [] && s.hist[|s.hist| - 1].Push?
             && !HasRoom(s.live, s.hist[|s.hist| - 1].uid, cfg.lim)
    ensures RecoveredFrom(Execute(steps, cfg), |Execute(steps, cfg).log|, cfg) == Exhausted
  {
    hide Execute, Inv, RecoveredFrom, HasRoom;
    RunKeeps(steps, cfg);
    FatalEntry(Execute(steps, cfg), cfg);
  }

  lemma FatalEntry(s: State, cfg: Config)
    requires Inv(s, cfg) && s.pending && s.hist != [] && s.hist[|s.hist| - 1].Push?
    requires !HasRoom(s.live, s.hist[|s.hist| - 1].uid, cfg.lim)
    ensures RecoveredFrom(s, |s.log|, cfg) == Exhausted
  {
    hide RecoveredFrom, Survivors, LoggedBy, Bounded, WellFormed, Enumerates, LoadFile, Aligned, ImageFits, EncodeLog,
      Covers, Run, Fits, HasRoom, Operations.Apply;
    var k, last := s.image.ops, |s.hist| - 1;
    WholeLog(s);
    RecoveryIs(s, |s.log|, cfg);
    RunOneMore(s.image.contents, s.hist, k, last, cfg.lim.n);
    ReplayedPushOverflows(s.live, Run(s.image.contents, s.hist[k..last], cfg.lim.n), s.evictions, s.hist[last],
                          cfg.lim, cfg.ttl);
    if Fits(s.image.contents, s.hist[k..last + 1], cfg.lim) {
      FitsEnd(s.image.contents, s.hist[k..last + 1], cfg.lim);
    }
  }

  /** The replayed store holds every live user, and the new one or an evicted one besides. */
  lemma ReplayedPushOverflows(live: Contents, replayed: Contents, evictions: seq<Eviction>, op: Op,
                              lim: Limits, ttl: nat)
    requires Covers(live, replayed, evictions, ttl) && op.Push? && !HasRoom(live, op.uid, lim)
    ensures |Operations.Apply(replayed, op, lim.n)| > lim.slots
  {
    hide Covers, Operations.Apply;
    CoversSize(live, replayed, evictions, op.uid, ttl);
    ApplySize(replayed, op, lim.n);
  }

  lemma SecondUserExhausts(r: Record, cfg: Config) returns (steps: seq<Step>)
    requires cfg.lim == Limits(1, 1)
    ensures Possible(steps, cfg)
    ensures var s := Execute(steps, cfg);
            s.pending && s.hist == [Push(1, r, 1), Push(2, r, 2)] && !HasRoom(s.live, 2, cfg.lim)
  {
    var p, q := Push(1, r, 1), Push(2, r, 2);
    steps := OpSteps([], p, cfg);
    hide Execute, Possible, EncodeEntry, RecoveredFrom, Enumerates, Fragment, RecoveryPoint;
    var live := Execute(steps, cfg).live;
    assert live.Keys == {1};
    assert |live| == |live.Keys|;
    Extend(steps, Log(q), cfg);
    steps := steps + [Log(q)];
  }
}
