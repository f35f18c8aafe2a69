/** From the ring to recovery: what the file holds at any instant, read back as operations. */
module FlushedLog {
  import opened Bytes
  import opened Operations
  import opened AofCodec
  import opened Replay
  import opened Restart
  import opened Durability
  import CrashSafety
  import AofRing

  /** The file is always a front part of what was appended. */
  lemma FileIsPrefix(buf: seq<u8>, steps: seq<AofRing.Step>)
    requires 0 < |buf| && AofRing.Possible(buf, steps)
    ensures AofRing.Execute(buf, steps).file <= AofRing.Appended(steps)
  {
    hide AofRing.Possible, AofRing.Execute, AofRing.Appended;
    var s := AofRing.Execute(buf, steps);
    AofRing.NothingLostOrDoubled(buf, steps);
    AofRing.PublishedIsAppended(buf, steps);
    assert s.file <= s.log <= AofRing.Appended(steps);
  }

  /**
   Stop the world at any instant of any interleaving: the file is a prefix of the log of the operations
   appended so far, and reading it yields exactly the operations whose entries lie wholly within it.
   */
  lemma FileYieldsWholeOperations(buf: seq<u8>, steps: seq<AofRing.Step>, ops: seq<Op>)
    requires 0 < |buf| && AofRing.Possible(buf, steps)
    requires AofRing.Appended(steps) == EncodeLog(ops)
    ensures var file := AofRing.Execute(buf, steps).file;
            && file <= EncodeLog(ops)
            && ParseLog(file) == EntriesOf(ops)[..WholeEntries(EntriesOf(ops), |file|)]
  {
    hide AofRing.Possible, AofRing.Execute, AofRing.Appended, EncodeEntries, ParseLog, WholeEntries, EntriesOf;
    var file := AofRing.Execute(buf, steps).file;
    FileIsPrefix(buf, steps);
    assert file == EncodeLog(ops)[..|file|];
    TornTail(EntriesOf(ops), |file|);
  }

  /**
   From the ring to the restarted store. Take any run of the server, whose log from byte `base` on went through
   the ring, and stop the ring at any instant of any interleaving: a restart from the bytes that reached the
   file is the crash at byte `base + |file|`. With no eviction since the snapshot it so comes up with exactly
   the store at that crash's recovery point, or dies on the one entry that had not been applied.
   */
  lemma FlushedFileRecovers(buf: seq<u8>, ringSteps: seq<AofRing.Step>, steps: seq<Step>, base: nat, cfg: Config)
    requires 0 < |buf| && AofRing.Possible(buf, ringSteps)
    requires ValidConfig(cfg) && Possible(steps, cfg) && base <= |Execute(steps, cfg).log|
    requires AofRing.Appended(ringSteps) == Execute(steps, cfg).log[base..]
    ensures var s, file := Execute(steps, cfg), AofRing.Execute(buf, ringSteps).file;
            var n := base + |file|;
            && n <= |s.log|
            && Recovered(s.disk, File(s.log[..base] + file), cfg.lim) == RecoveredFrom(s, n, cfg)
            && (s.image.evictions == |s.evictions| ==>
                && 0 <= RecoveryPoint(s, n) <= |s.hist| && s.states != []
                && Recovered(s.disk, File(s.log[..base] + file), cfg.lim)
                   == if RecoveryPoint(s, n) < |s.states| then Loaded(s.states[RecoveryPoint(s, n)])
                      else CrashSafety.AfterPending(s.live, s.hist[|s.hist| - 1], cfg.lim))
  {
    hide AofRing.Possible, AofRing.Execute, AofRing.Appended, Possible, Execute, Recovered, RecoveryPoint,
      CrashSafety.AfterPending;
    var s, file := Execute(steps, cfg), AofRing.Execute(buf, ringSteps).file;
    FileIsPrefix(buf, ringSteps);
    var n := base + |file|;
    assert file == s.log[base..][..|file|];
    assert s.log[..base] + file == s.log[..n];
    if s.image.evictions == |s.evictions| {
      CrashSafety.CrashConsistency(steps, n, cfg);
    }
  }
}
