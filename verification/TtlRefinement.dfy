/** The eviction pipeline inside the server: every interleaving of its threads is a run of the durability model. */
module TtlRefinement {
  import opened Operations
  import opened AofCodec
  import opened Replay
  import opened Restart
  import opened Aging
  import opened BitMask
  import opened Durability
  import CrashSafety
  import Spsc
  import Ttl

  type Schedule = seq<Ttl.Step>

  /** The operations that the event loop ran, in order. */
  function LoggedOps(steps: Schedule): seq<Op> {
    if steps == [] then []
    else
      var before := LoggedOps(steps[..|steps| - 1]);
      match steps[|steps| - 1]
      case Write(uid, r, ts) => before + [Push(uid, r, ts)]
      case Delete(uid, ts) => before + [Del(uid, ts)]
      case _ => before
  }

  /** A write that finds no slot ends the process, and an operation reads a later time than the last fork did. */
  predicate Survivable(s: Ttl.System, step: Ttl.Step, forked: nat, lim: Limits) {
    match step
    case Write(uid, _, ts) => ts > forked && HasRoom(s.store, uid, lim)
    case Delete(_, ts) => ts > forked
    case _ => true
  }

  /** A run of the pipeline in a server that is still up. */
  ghost predicate Up(start: Ttl.System, steps: Schedule, forked: nat, cfg: Config)
    decreases |steps|
  {
    && Ttl.Possible(start, steps, cfg.lim.n, cfg.ttl)
    && (steps == [] ||
        var before := steps[..|steps| - 1];
        && Up(start, before, forked, cfg)
        && Survivable(Ttl.Execute(start, before, cfg.lim.n, cfg.ttl), steps[|steps| - 1], forked, cfg.lim))
  }

  /**
   A run of the durability model that got to `d0`, and the evictions `e0` that happened before the pipeline's. The
   snapshot, the child and the last fork are as they were.
   */
  datatype Before = Before(d0: State, e0: seq<Eviction>)

  /** Since `b`, the two models agree on the store, the clock, the evictions, and what was logged. */
  ghost predicate Matches(b: Before, d: State, s: Ttl.System, ops: seq<Op>) {
    && d.live == s.store && d.clock == s.now && d.evictions == b.e0 + s.evictions
    && d.hist == b.d0.hist + ops && d.logged == b.d0.logged + ops && !d.pending && d.states != []
    && d.forked == b.d0.forked && d.disk == b.d0.disk && d.image == b.d0.image && d.child == b.d0.child
  }

  /** What the comparison of write times lets through is an eviction that the durability model allows. */
  lemma GuardIsEviction(b: Before, ds: seq<Step>, s: Ttl.System, ops: seq<Op>, cfg: Config) returns (ds': seq<Step>)
    requires Possible(ds, cfg) && Matches(b, Execute(ds, cfg), s, ops)
    requires Ttl.Inv(s, cfg.ttl) && Ttl.Enabled(s, Ttl.Guard)
    ensures Possible(ds', cfg) && Matches(b, Execute(ds', cfg), Ttl.After(s, Ttl.Guard, cfg.lim.n, cfg.ttl), ops)
  {
    hide Possible, Execute, Spsc.Inv, Ttl.OutHolds, Ttl.EvictionsHold;
    var c := s.loop.c;
    ds' := ds;
    if c.uid in s.store && s.store[c.uid].lastWrite == c.lastWrite {
      CrashSafety.Extend(ds, Evict(c.uid), cfg);
      ds' := ds + [Evict(c.uid)];
    }
  }

  lemma TickIsTick(b: Before, ds: seq<Step>, s: Ttl.System, ops: seq<Op>, now: nat, cfg: Config)
    returns (ds': seq<Step>)
    requires Possible(ds, cfg) && Matches(b, Execute(ds, cfg), s, ops) && s.now <= now
    ensures Possible(ds', cfg) && Matches(b, Execute(ds', cfg), s.(now := now), ops)
  {
    hide Possible, Execute;
    CrashSafety.Extend(ds, Tick(now), cfg);
    ds' := ds + [Tick(now)];
  }

  lemma OpIsLogged(b: Before, ds: seq<Step>, s: Ttl.System, ops: seq<Op>, op: Op, cfg: Config) returns (ds': seq<Step>)
    requires Possible(ds, cfg) && Matches(b, Execute(ds, cfg), s, ops)
    requires s.now <= op.ts && b.d0.forked < op.ts && (op.Push? ==> HasRoom(s.store, op.uid, cfg.lim))
    ensures Possible(ds', cfg)
    ensures Matches(b, Execute(ds', cfg), s.(store := Operations.Apply(s.store, op, cfg.lim.n), now := op.ts),
                    ops + [op])
  {
    hide Possible, Execute, Operations.Apply, HasRoom, EncodeEntry, EntryOf;
    ds' := CrashSafety.OpSteps(ds, op, cfg);
  }

  /** Sampling, the queues and the worker's check are invisible. */
  lemma InternalStep(b: Before, d: State, s: Ttl.System, ops: seq<Op>, step: Ttl.Step, cfg: Config)
    requires Matches(b, d, s, ops) && Ttl.Enabled(s, step)
    requires !step.Tick? && !step.Write? && !step.Delete? && !step.Guard?
    ensures Matches(b, d, Ttl.After(s, step, cfg.lim.n, cfg.ttl), ops)
  {
    hide Spsc.After, Spsc.Enabled;
  }

  lemma StepRefines(b: Before, ds: seq<Step>, s: Ttl.System, before: Schedule, step: Ttl.Step, cfg: Config)
    returns (ds': seq<Step>)
    requires Possible(ds, cfg) && Matches(b, Execute(ds, cfg), s, LoggedOps(before))
    requires Ttl.Inv(s, cfg.ttl) && Ttl.Enabled(s, step) && Survivable(s, step, b.d0.forked, cfg.lim)
    ensures Possible(ds', cfg)
    ensures Matches(b, Execute(ds', cfg), Ttl.After(s, step, cfg.lim.n, cfg.ttl), LoggedOps(before + [step]))
  {
    hide Possible, Execute, Matches, Ttl.Inv, HasRoom, Spsc.After, Spsc.Enabled;
    assert (before + [step])[..|before|] == before;
    match step
    case Tick(now) => ds' := TickIsTick(b, ds, s, LoggedOps(before), now, cfg);
    case Write(uid, r, ts) => ds' := OpIsLogged(b, ds, s, LoggedOps(before), Push(uid, r, ts), cfg);
    case Delete(uid, ts) => ds' := OpIsLogged(b, ds, s, LoggedOps(before), Del(uid, ts), cfg);
    case Guard => ds' := GuardIsEviction(b, ds, s, LoggedOps(before), cfg);
    case _ =>
      ds' := ds;
      InternalStep(b, Execute(ds, cfg), s, LoggedOps(before), step, cfg);
  }

  /**
   After any run of the durability model, with its snapshots, crashes and restarts, every interleaving of commands,
   sampling, checks and drains goes on as a run of that model, with the same store, clock and evictions.
   */
  lemma {:induction false} PipelineRefines(ds0: seq<Step>, e0: seq<Eviction>, start: Ttl.System, steps: Schedule,
                                           cfg: Config)
    returns (ds: seq<Step>)
    requires Possible(ds0, cfg) && Ttl.Inv(start, cfg.ttl)
    requires var d0 := Execute(ds0, cfg); Matches(Before(d0, e0), d0, start, []) && Up(start, steps, d0.forked, cfg)
    ensures Possible(ds, cfg)
    ensures Matches(Before(Execute(ds0, cfg), e0), Execute(ds, cfg),
                    Ttl.Execute(start, steps, cfg.lim.n, cfg.ttl), LoggedOps(steps))
    decreases |steps|
  {
    hide Matches, Ttl.Inv, Ttl.Enabled, Ttl.After, Enabled, After, Survivable, Execute, Possible;
    if steps == [] {
      ds := ds0;
    } else {
      var before, last := steps[..|steps| - 1], steps[|steps| - 1];
      var s := Ttl.Execute(start, before, cfg.lim.n, cfg.ttl);
      ds := PipelineRefines(ds0, e0, start, before, cfg);
      Ttl.RunKeeps(start, before, cfg.lim.n, cfg.ttl);
      hide LoggedOps;
      ds := StepRefines(Before(Execute(ds0, cfg), e0), ds, s, before, last, cfg);
      assert steps == before + [last];
    }
  }

  /**
   A restart after any such interleaving, with the log on disk and whatever snapshot there is, comes up if and only
   if the operations since the snapshot fit without evictions. Then every key that was live comes back with its
   write time and its records as the newest part, and every other key that comes back was erased after it had
   idled past the TTL.
   */
  lemma PipelineRecovery(ds0: seq<Step>, e0: seq<Eviction>, start: Ttl.System, steps: Schedule, cfg: Config)
    requires ValidConfig(cfg) && Possible(ds0, cfg) && Ttl.Inv(start, cfg.ttl)
    requires var d0 := Execute(ds0, cfg); Matches(Before(d0, e0), d0, start, []) && Up(start, steps, d0.forked, cfg)
    ensures var d0, s := Execute(ds0, cfg), Ttl.Execute(start, steps, cfg.lim.n, cfg.ttl);
            var hist := d0.hist + LoggedOps(steps);
            var o := Recovered(d0.disk, File(EncodeLog(d0.logged + LoggedOps(steps))), cfg.lim);
            && d0.image.ops <= |hist|
            && (o.Loaded? <==> Fits(d0.image.contents, hist[d0.image.ops..], cfg.lim))
            && (o.Loaded? ==> Covers(s.store, o.contents, e0 + s.evictions, cfg.ttl))
  {
    hide Up, Ttl.Execute, Ttl.Inv, Recovered, Covers, EncodeLog, Execute, Possible, LoggedOps, Fits, Survivors;
    var ds := PipelineRefines(ds0, e0, start, steps, cfg);
    var d := Execute(ds, cfg);
    CrashSafety.WriteAhead(ds, cfg);
    assert d.log[..|d.log|] == d.log && d.hist[d.image.ops..|d.hist|] == d.hist[d.image.ops..];
    CrashSafety.WholeLog(d);
    CrashSafety.RestartSucceedsIffFits(ds, |d.log|, cfg);
    if RecoveredFrom(d, |d.log|, cfg).Loaded? {
      CrashSafety.FullLogRecovery(ds, cfg);
    }
  }

  /** The first start: nothing was logged, and the queues are empty. */
  lemma PipelineStart(bufIn: seq<Ttl.Candidate>, bufOut: seq<Ttl.Candidate>, cfg: Config)
    requires IsPowerOfTwo(|bufIn|) && IsPowerOfTwo(|bufOut|) && |bufIn| < Spsc.WRAP && |bufOut| < Spsc.WRAP
    ensures var start := Ttl.Initial(map[], bufIn, bufOut, 0);
            Ttl.Inv(start, cfg.ttl) && Possible([], cfg) && Matches(Before(INITIAL, []), Execute([], cfg), start, [])
  {
    hide Ttl.Inv, IsPowerOfTwo;
    Ttl.QueuesStart(map[], bufIn, bufOut, 0, cfg.ttl);
  }
}
