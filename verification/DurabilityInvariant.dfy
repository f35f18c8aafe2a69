/** What every step of the transition system keeps, and so what holds at every point of every run. */
module DurabilityInvariant {
  import opened Bytes
  import opened Records
  import opened Operations
  import opened AofCodec
  import opened Replay
  import opened SnapshotFile
  import opened Restart
  import opened Aging
  import opened Durability

  /**
   The log against a snapshot of the first `k` operations taken at time `ts`: what the log holds from
   there on is exactly the rest of the history, all of it newer; what it holds before is not newer.
   The operations missing from the log are all among the first `k`.
   */
  ghost predicate Aligned(hist: seq<Op>, logged: seq<Op>, k: nat, ts: u64) {
    var gap := |hist| - |logged|;
    && 0 <= gap <= k <= |hist|
    && NoneNewer(logged[..k - gap], ts)
    && AllNewer(logged[k - gap..], ts)
    && logged[k - gap..] == hist[k..]
  }

  /** The contents after each operation from the snapshot on, against replaying the history over it. */
  ghost predicate Tracks(states: seq<Contents>, hist: seq<Op>, image: Image,
                         evictions: seq<Eviction>, n: nat, ttl: nat)
  {
    && image.ops < |states| <= |hist| + 1
    && image.evictions <= |evictions|
    && (forall i :: image.ops <= i < |states| ==>
          Covers(states[i], Run(image.contents, hist[image.ops..i], n), evictions, ttl))
    && (image.evictions == |evictions| ==>
          forall i :: image.ops <= i < |states| ==> states[i] == Run(image.contents, hist[image.ops..i], n))
  }

  ghost predicate ImageFits(image: Image, forked: nat, lim: Limits) {
    && WellFormed(image.contents, lim.n) && |image.contents| <= lim.slots
    && image.ts <= forked
  }

  ghost predicate ImageHolds(s: State, image: Image, cfg: Config) {
    && ImageFits(image, s.forked, cfg.lim)
    && Aligned(s.hist, s.logged, image.ops, image.ts)
    && Tracks(s.states, s.hist, image, s.evictions, cfg.lim.n, cfg.ttl)
  }

  ghost predicate Bounded(states: seq<Contents>, slots: nat) {
    forall i :: 0 <= i < |states| ==> |states[i]| <= slots
  }

  ghost predicate LoggedBy(logged: seq<Op>, clock: nat) {
    forall i :: 0 <= i < |logged| ==> logged[i].ts <= clock
  }

  ghost predicate Inv(s: State, cfg: Config) {
    && ValidConfig(cfg)
    && s.log == EncodeLog(s.logged) && s.synced <= |s.log|
    && (cfg.mode == Always ==> s.synced == |s.log|)
    && |s.states| == |s.hist| + (if s.pending then 0 else 1)
    && s.acked < |s.states| && s.live == s.states[|s.states| - 1]
    && LoggedBy(s.logged, s.clock)
    && WellFormed(s.live, cfg.lim.n) && |s.live| <= cfg.lim.slots && Bounded(s.states, cfg.lim.slots)
    && s.forked <= s.clock
    && LoadFile(s.disk, cfg.lim) == Load(Loaded(s.image.contents), s.image.ts)
    && ImageHolds(s, s.image, cfg)
    && (s.child.Writing? ==>
          Enumerates(s.child.image.order, s.child.image.contents) && ImageHolds(s, s.child.image, cfg))
  }

  lemma InitialHolds(cfg: Config)
    requires ValidConfig(cfg)
    ensures Inv(INITIAL, cfg)
  {
    hide Covers;
    CoversItself(map[], [], cfg.ttl);
    RunNothing(map[], cfg.lim.n);
    var none: seq<Op> := [];
    assert none[0..0] == none;
  }

  // ----- logging -----

  lemma AlignedAfterLog(hist: seq<Op>, logged: seq<Op>, k: nat, ts: u64, op: Op)
    requires Aligned(hist, logged, k, ts) && op.ts > ts
    ensures Aligned(hist + [op], logged + [op], k, ts)
  {
    var p := k - (|hist| - |logged|);
    assert (logged + [op])[..p] == logged[..p];
    assert (logged + [op])[p..] == logged[p..] + [op];
    assert (hist + [op])[k..] == hist[k..] + [op];
  }

  lemma TracksAfterLog(states: seq<Contents>, hist: seq<Op>, image: Image,
                       evictions: seq<Eviction>, n: nat, ttl: nat, op: Op)
    requires Tracks(states, hist, image, evictions, n, ttl)
    ensures Tracks(states, hist + [op], image, evictions, n, ttl)
  {
    hide Covers, Run;
    forall i | image.ops <= i < |states|
      ensures (hist + [op])[image.ops..i] == hist[image.ops..i]
    {
    }
  }

  lemma ImageHoldsAfterLog(s: State, image: Image, op: Op, cfg: Config)
    requires ImageHolds(s, image, cfg) && Enabled(s, Log(op), cfg)
    ensures ImageHolds(After(s, Log(op), cfg), image, cfg)
  {
    AlignedAfterLog(s.hist, s.logged, image.ops, image.ts, op);
    TracksAfterLog(s.states, s.hist, image, s.evictions, cfg.lim.n, cfg.ttl, op);
    hide Aligned, Tracks, EncodeEntry;
  }

  lemma LogKeeps(s: State, op: Op, cfg: Config)
    requires Inv(s, cfg) && Enabled(s, Log(op), cfg)
    ensures Inv(After(s, Log(op), cfg), cfg)
  {
    hide ImageHolds, EncodeLog, EncodeEntry, LoadFile, Bounded, WellFormed, Enumerates;
    EncodeLogAppend(s.logged, op);
    ImageHoldsAfterLog(s, s.image, op, cfg);
    if s.child.Writing? {
      ImageHoldsAfterLog(s, s.child.image, op, cfg);
    }
  }

  // ----- applying -----

  lemma RunOneMore(c: Contents, hist: seq<Op>, k: nat, j: nat, n: nat)
    requires k <= j < |hist|
    ensures Run(c, hist[k..j + 1], n) == Operations.Apply(Run(c, hist[k..j], n), hist[j], n)
  {
    hide Operations.Apply;
    RunStep(c, hist[k..j], hist[j], n);
    assert hist[k..j + 1] == hist[k..j] + [hist[j]];
  }

  lemma TracksAfterApply(states: seq<Contents>, hist: seq<Op>, image: Image,
                         evictions: seq<Eviction>, n: nat, ttl: nat)
    requires Tracks(states, hist, image, evictions, n, ttl) && |states| == |hist|
    ensures Tracks(states + [Operations.Apply(states[|hist| - 1], hist[|hist| - 1], n)], hist, image, evictions, n, ttl)
  {
    hide Covers, Run, Operations.Apply;
    var j := |hist| - 1;
    var live := states[j];
    RunOneMore(image.contents, hist, image.ops, j, n);
    CoversAfterOp(live, Run(image.contents, hist[image.ops..j], n), evictions, hist[j], n, ttl);
    var states' := states + [Operations.Apply(live, hist[j], n)];
    forall i | image.ops <= i < |states'|
      ensures Covers(states'[i], Run(image.contents, hist[image.ops..i], n), evictions, ttl)
    {
      if i < |states| {
        assert states'[i] == states[i];
      }
    }
  }

  lemma ApplyBounded(live: Contents, op: Op, lim: Limits)
    requires WellFormed(live, lim.n) && |live| <= lim.slots && lim.n > 0
    requires op.Push? ==> HasRoom(live, op.uid, lim)
    ensures WellFormed(Operations.Apply(live, op, lim.n), lim.n) && |Operations.Apply(live, op, lim.n)| <= lim.slots
  {
    ApplySize(live, op, lim.n);
  }

  lemma ApplyKeeps(s: State, cfg: Config)
    requires Inv(s, cfg) && Enabled(s, Step.Apply, cfg)
    ensures Inv(After(s, Step.Apply, cfg), cfg)
  {
    hide Aligned, Tracks, EncodeLog, LoadFile, WellFormed, Enumerates, Operations.Apply, ImageFits;
    ApplyBounded(s.live, s.hist[|s.hist| - 1], cfg.lim);
    TracksAfterApply(s.states, s.hist, s.image, s.evictions, cfg.lim.n, cfg.ttl);
    if s.child.Writing? {
      TracksAfterApply(s.states, s.hist, s.child.image, s.evictions, cfg.lim.n, cfg.ttl);
    }
  }

  // ----- evicting -----

  lemma TracksAfterEvict(states: seq<Contents>, hist: seq<Op>, image: Image,
                         evictions: seq<Eviction>, n: nat, ttl: nat, uid: u32, at: nat)
    requires Tracks(states, hist, image, evictions, n, ttl)
    requires uid in states[|states| - 1] && at - states[|states| - 1][uid].lastWrite > ttl
    ensures var live := states[|states| - 1];
            Tracks(states[|states| - 1 := live - {uid}], hist, image,
                   evictions + [Eviction(uid, live[uid].lastWrite, at)], n, ttl)
  {
    hide Covers, Run;
    var live := states[|states| - 1];
    var e := Eviction(uid, live[uid].lastWrite, at);
    CoversAfterEvict(live, Run(image.contents, hist[image.ops..|states| - 1], n), evictions, uid, at, ttl);
    forall i | image.ops <= i < |states| - 1
      ensures Covers(states[i], Run(image.contents, hist[image.ops..i], n), evictions + [e], ttl)
    {
      CoversWithMore(states[i], Run(image.contents, hist[image.ops..i], n), evictions, e, ttl);
    }
  }

  lemma EvictKeeps(s: State, uid: u32, cfg: Config)
    requires Inv(s, cfg) && Enabled(s, Evict(uid), cfg)
    ensures Inv(After(s, Evict(uid), cfg), cfg)
  {
    hide Aligned, Tracks, EncodeLog, LoadFile, Enumerates, ImageFits;
    assert |s.live - {uid}| <= |s.live| by {
      assert (s.live - {uid}).Keys == s.live.Keys - {uid};
      assert |s.live - {uid}| == |(s.live - {uid}).Keys| && |s.live| == |s.live.Keys|;
    }
    TracksAfterEvict(s.states, s.hist, s.image, s.evictions, cfg.lim.n, cfg.ttl, uid, s.clock);
    if s.child.Writing? {
      TracksAfterEvict(s.states, s.hist, s.child.image, s.evictions, cfg.lim.n, cfg.ttl, uid, s.clock);
    }
  }

  // ----- snapshots -----

  lemma ForkedImageHolds(s: State, order: seq<u32>, ts: u64, cfg: Config)
    requires Inv(s, cfg) && Enabled(s, Fork(order, ts), cfg)
    ensures ImageHolds(After(s, Fork(order, ts), cfg), Image(order, s.live, ts, |s.hist|, |s.evictions|), cfg)
  {
    hide ImageHolds, EncodeLog, LoadFile, Enumerates, Bounded, WellFormed;
    var image := Image(order, s.live, ts, |s.hist|, |s.evictions|);
    assert |s.logged| <= |s.hist| by {
      AlignedGap(s, s.image, cfg);
    }
    ForkedAligned(s.hist, s.logged, ts, s.clock);
    ForkedTracks(s.states, s.hist, image, s.evictions, cfg.lim.n, cfg.ttl);
    assert ImageFits(image, ts, cfg.lim);
    hide Aligned, Tracks, ImageFits;
    ImageHoldsParts(After(s, Fork(order, ts), cfg), image, cfg);
  }

  lemma AlignedGap(s: State, image: Image, cfg: Config)
    requires ImageHolds(s, image, cfg)
    ensures |s.logged| <= |s.hist| && Gap(s) <= image.ops <= |s.hist|
  {
    hide Tracks, ImageFits;
  }

  lemma ImageHoldsParts(s: State, image: Image, cfg: Config)
    ensures ImageHolds(s, image, cfg) <==>
            && ImageFits(image, s.forked, cfg.lim)
            && Aligned(s.hist, s.logged, image.ops, image.ts)
            && Tracks(s.states, s.hist, image, s.evictions, cfg.lim.n, cfg.ttl)
  {
    hide Aligned, Tracks, ImageFits;
  }

  lemma ForkedAligned(hist: seq<Op>, logged: seq<Op>, ts: u64, clock: nat)
    requires |logged| <= |hist| && LoggedBy(logged, clock) && clock <= ts
    ensures Aligned(hist, logged, |hist|, ts)
  {
    assert logged[..|logged|] == logged;
  }

  lemma ForkedTracks(states: seq<Contents>, hist: seq<Op>, image: Image, evictions: seq<Eviction>, n: nat, ttl: nat)
    requires |states| == |hist| + 1 && image.ops == |hist| && image.evictions == |evictions|
    requires image.contents == states[|hist|]
    ensures Tracks(states, hist, image, evictions, n, ttl)
  {
    hide Covers, Run;
    RunNothing(image.contents, n);
    assert hist[|hist|..|hist|] == [];
    CoversItself(image.contents, evictions, ttl);
  }

  lemma ImageHoldsAfterFork(s: State, image: Image, order: seq<u32>, ts: u64, cfg: Config)
    requires ImageHolds(s, image, cfg) && Enabled(s, Fork(order, ts), cfg) && s.forked <= s.clock
    ensures ImageHolds(After(s, Fork(order, ts), cfg), image, cfg)
  {
    hide Aligned, Tracks, Enumerates, WellFormed;
  }

  lemma ForkKeeps(s: State, order: seq<u32>, ts: u64, cfg: Config)
    requires Inv(s, cfg) && Enabled(s, Fork(order, ts), cfg)
    ensures Inv(After(s, Fork(order, ts), cfg), cfg)
  {
    hide ImageHolds, EncodeLog, LoadFile, Enumerates, Bounded, WellFormed;
    ForkedImageHolds(s, order, ts, cfg);
    ImageHoldsAfterFork(s, s.image, order, ts, cfg);
  }

  lemma RenamedFile(image: Image, forked: nat, lim: Limits)
    requires Enumerates(image.order, image.contents) && ImageFits(image, forked, lim)
    requires lim.n < 0x1_0000 && lim.slots < 0x1_0000_0000
    ensures LoadFile(File(Dump(image.order, image.contents, image.ts)), lim) == Load(Loaded(image.contents), image.ts)
  {
    hide LoadSnapshot, Dump, Enumerates, WellFormed;
    SnapshotRoundTrip(image.order, image.contents, image.ts, lim);
  }

  lemma RenameKeeps(s: State, cfg: Config)
    requires Inv(s, cfg) && Enabled(s, Rename, cfg)
    ensures Inv(After(s, Rename, cfg), cfg)
  {
    hide Aligned, Tracks, EncodeLog, Bounded, WellFormed, LoggedBy, Enumerates, LoadFile, Dump, ImageFits;
    RenamedFile(s.child.image, s.forked, cfg.lim);
  }

  lemma QuietStepKeeps(s: State, step: Step, cfg: Config)
    requires Inv(s, cfg) && Enabled(s, step, cfg)
    requires step.Tick? || step.ChildDies? || step.Sync?
    ensures Inv(After(s, step, cfg), cfg)
  {
    hide Aligned, Tracks, EncodeLog, LoadFile, Enumerates, Bounded, WellFormed, ImageFits;
  }

  // ----- crashing -----

  /** Of the first `w` logged operations, replay takes exactly those the snapshot lacks. */
  lemma ReplayedSuffix(hist: seq<Op>, logged: seq<Op>, k: nat, ts: u64, w: nat)
    requires Aligned(hist, logged, k, ts) && w <= |logged|
    ensures k <= Max(k, |hist| - |logged| + w) <= |hist|
    ensures Newer(logged[..w], ts) == hist[k..Max(k, |hist| - |logged| + w)]
  {
    hide Newer;
    var p := k - (|hist| - |logged|);
    if w <= p {
      assert logged[..w] == logged[..p][..w];
      NewerNone(logged[..w], ts);
    } else {
      assert logged[..w] == logged[..p] + logged[p..w];
      NewerConcat(logged[..p], logged[p..w], ts);
      NewerNone(logged[..p], ts);
      assert logged[p..w] == logged[p..][..w - p] == hist[k..][..w - p];
      NewerAll(logged[p..w], ts);
    }
  }

  lemma SurvivingEntries(logged: seq<Op>, n: nat)
    requires n <= |EncodeLog(logged)|
    ensures ParseLog(EncodeLog(logged)[..n]) == EntriesOf(logged[..WholeEntries(EntriesOf(logged), n)])
  {
    hide EncodeEntries, ParseLog, WholeEntries, EntryOf;
    var es := EntriesOf(logged);
    TornTail(es, n);
    assert es[..WholeEntries(es, n)] == EntriesOf(logged[..WholeEntries(es, n)]);
  }

  /** A restart applies to the snapshot the operations up to the recovery point, if the slots suffice. */
  lemma RecoveryIs(s: State, n: nat, cfg: Config)
    requires Inv(s, cfg) && n <= |s.log|
    ensures s.image.ops <= RecoveryPoint(s, n) <= |s.hist|
    ensures RecoveredFrom(s, n, cfg)
         == (var ops := s.hist[s.image.ops..RecoveryPoint(s, n)];
             if Fits(s.image.contents, ops, cfg.lim) then Loaded(Run(s.image.contents, ops, cfg.lim.n)) else Exhausted)
  {
    hide Tracks, LoadFile, EncodeLog, WholeEntries, EntriesOf, ReplayAll, ParseLog, Newer, Fits, Run, Enumerates,
      Bounded, LoggedBy, WellFormed;
    var w := Survivors(s, n);
    ImageHoldsParts(s, s.image, cfg);
    SurvivingEntries(s.logged, n);
    ReplayedSuffix(s.hist, s.logged, s.image.ops, s.image.ts, w);
    hide Aligned;
    ReplayMeans(s.image.contents, s.logged[..w], s.image.ts, cfg.lim);
  }

  lemma AlignedAfterCrash(hist: seq<Op>, logged: seq<Op>, k: nat, ts: u64, w: nat)
    requires Aligned(hist, logged, k, ts) && w <= |logged|
    ensures k <= Max(k, |hist| - |logged| + w) <= |hist|
    ensures Aligned(hist[..Max(k, |hist| - |logged| + w)], logged[..w], k, ts)
  {
    var p := k - (|hist| - |logged|);
    var m := Max(k, |hist| - |logged| + w);
    var p' := k - (m - w);
    if w <= p {
      assert p' == w;
      assert logged[..w][..w] == logged[..p][..w];
    } else {
      assert p' == p;
      assert logged[..w][..p] == logged[..p];
      assert logged[..w][p..] == logged[p..][..w - p];
      assert hist[..m][k..] == hist[k..][..w - p];
    }
  }

  lemma TracksAfterCrash(states: seq<Contents>, hist: seq<Op>, image: Image,
                         evictions: seq<Eviction>, n: nat, ttl: nat, m: nat)
    requires Tracks(states, hist, image, evictions, n, ttl)
    requires image.ops <= m <= |hist| && m <= |states|
    ensures Tracks(states[..m] + [Run(image.contents, hist[image.ops..m], n)], hist[..m], image, evictions, n, ttl)
  {
    hide Covers, Run;
    var replayed := Run(image.contents, hist[image.ops..m], n);
    var states' := states[..m] + [replayed];
    CoversItself(replayed, evictions, ttl);
    forall i | image.ops <= i < |states'|
      ensures hist[..m][image.ops..i] == hist[image.ops..i]
      ensures states'[i] == if i < m then states[i] else replayed
    {
    }
  }

  lemma CrashBounds(s: State, n: nat, cfg: Config)
    requires Inv(s, cfg) && n <= |s.log|
    ensures s.image.ops <= RecoveryPoint(s, n) <= |s.hist| && RecoveryPoint(s, n) <= |s.states|
  {
    hide EncodeLog, LoadFile, Enumerates, LoggedBy, Bounded, WellFormed, RecoveredFrom, Fits, Run;
    RecoveryIs(s, n, cfg);
  }

  lemma CutLog(logged: seq<Op>, n: nat)
    requires n <= |EncodeLog(logged)| && Fragment(EntriesOf(logged), n) == []
    ensures EncodeLog(logged)[..n] == EncodeLog(logged[..WholeEntries(EntriesOf(logged), n)])
  {
    hide EncodeEntries, WholeEntries, Fragment, EntryOf;
    var es := EntriesOf(logged);
    CutDecomposes(es, n);
    assert es[..WholeEntries(es, n)] == EntriesOf(logged[..WholeEntries(es, n)]);
  }

  lemma ImageHoldsAfterCrash(s: State, n: nat, cfg: Config)
    requires Inv(s, cfg) && Enabled(s, Crash(n), cfg)
    ensures ImageHolds(After(s, Crash(n), cfg), s.image, cfg)
  {
    hide EncodeLog, LoadFile, Enumerates, LoggedBy, Bounded, WellFormed, RecoveredFrom, Fits, Run, Fragment,
      WholeEntries, EntriesOf, ImageFits, Aligned, Tracks;
    RecoveryIs(s, n, cfg);
    CrashBounds(s, n, cfg);
    AlignedAfterCrash(s.hist, s.logged, s.image.ops, s.image.ts, Survivors(s, n));
    TracksAfterCrash(s.states, s.hist, s.image, s.evictions, cfg.lim.n, cfg.ttl, RecoveryPoint(s, n));
  }

  lemma RecoveredBounded(s: State, n: nat, cfg: Config)
    requires Inv(s, cfg) && n <= |s.log| && RecoveredFrom(s, n, cfg).Loaded?
    ensures var c := RecoveredFrom(s, n, cfg).contents;
            WellFormed(c, cfg.lim.n) && |c| <= cfg.lim.slots
  {
    hide EncodeLog, LoadFile, Enumerates, LoggedBy, Bounded, WellFormed, RecoveredFrom, Fits, Run, WholeEntries,
      EntriesOf, Aligned, Tracks;
    RecoveryIs(s, n, cfg);
    var ops := s.hist[s.image.ops..RecoveryPoint(s, n)];
    FitsEnd(s.image.contents, ops, cfg.lim);
    RunWellFormed(s.image.contents, ops, cfg.lim.n);
  }

  lemma CrashKeeps(s: State, n: nat, cfg: Config)
    requires Inv(s, cfg) && Enabled(s, Crash(n), cfg)
    ensures Inv(After(s, Crash(n), cfg), cfg)
  {
    hide EncodeLog, LoadFile, Enumerates, WellFormed, RecoveredFrom, Fragment, WholeEntries, EntriesOf, ImageHolds;
    ImageHoldsAfterCrash(s, n, cfg);
    RecoveredBounded(s, n, cfg);
    CutLog(s.logged, n);
  }

  // ----- every run -----

  lemma StepKeeps(s: State, step: Step, cfg: Config)
    requires Inv(s, cfg) && Enabled(s, step, cfg)
    ensures Inv(After(s, step, cfg), cfg)
  {
    hide Inv, Enabled, After;
    match step
    case Tick(_) => QuietStepKeeps(s, step, cfg);
    case Log(op) => LogKeeps(s, op, cfg);
    case Apply => ApplyKeeps(s, cfg);
    case Evict(uid) => EvictKeeps(s, uid, cfg);
    case Fork(order, ts) => ForkKeeps(s, order, ts, cfg);
    case Rename => RenameKeeps(s, cfg);
    case ChildDies => QuietStepKeeps(s, step, cfg);
    case Sync(_) => QuietStepKeeps(s, step, cfg);
    case Crash(n) => CrashKeeps(s, n, cfg);
  }

  lemma {:induction false} RunKeeps(steps: seq<Step>, cfg: Config)
    requires ValidConfig(cfg) && Possible(steps, cfg)
    ensures Inv(Execute(steps, cfg), cfg)
    decreases |steps|
  {
    hide Inv, Enabled, After;
    if steps == [] {
      InitialHolds(cfg);
    } else {
      var before := steps[..|steps| - 1];
      RunKeeps(before, cfg);
      StepKeeps(Execute(before, cfg), steps[|steps| - 1], cfg);
    }
  }
}
