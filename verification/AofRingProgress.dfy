/** The log ring gets somewhere: the flush thread catches up, an append ends, and a shutdown closes the file. */
module AofRingProgress {
  import opened Bytes
  import opened AofRing

  lemma Extend(buf: seq<u8>, steps: seq<Step>, step: Step)
    requires Possible(buf, steps) && Enabled(Execute(buf, steps), step)
    ensures Possible(buf, steps + [step])
    ensures Execute(buf, steps + [step]) == After(Execute(buf, steps), step)
  {
    hide Enabled, After;
    assert (steps + [step])[..|steps|] == steps;
  }

  /** How far `tail` will be when the pass is over. */
  ghost function Goal(p: Pass, head: nat, tail: nat): nat {
    match p
    case Start => head
    case GotHead(h) => h
    case Writing(h, _, _) => h
    case Storing(h) => h
    case Finished => tail
  }

  /** How many steps the pass has to go, at most. */
  ghost function ToGo(p: Pass, head: nat, tail: nat): nat {
    match p
    case Start => 4 + head
    case GotHead(h) => 3 + h
    case Writing(h, t, done) => if t + done >= h then 2 else 2 + (h - t - done)
    case Storing(h) => 1
    case Finished => 0
  }

  lemma PassGoesOn(p: Pass, buf: seq<u8>, head: nat, tail: nat)
    requires PassHolds(p, head, tail) && InBuffer(p, |buf|) && !p.Finished?
    ensures var (p', tail', _) := PassAfter(p, buf, head, tail);
            && Goal(p', head, tail') == Goal(p, head, tail) && ToGo(p', head, tail') < ToGo(p, head, tail)
  {
    hide Target;
  }

  /** The flush thread by itself ends its pass, having given up everything up to where the pass began to look. */
  lemma {:induction false} FinishPass(buf: seq<u8>, steps: seq<Step>) returns (steps': seq<Step>)
    requires 0 < |buf| && Possible(buf, steps) && Execute(buf, steps).flusher.Flushing?
    ensures Possible(buf, steps')
    ensures var s, s' := Execute(buf, steps), Execute(buf, steps');
            && s' == s.(flusher := if s.flusher.last then Exited else AtTop, tail := s'.tail, file := s'.file)
            && s'.tail == Goal(s.flusher.pass, s.head, s.tail)
    decreases var s := Execute(buf, steps); ToGo(s.flusher.pass, s.head, s.tail)
  {
    hide Possible, Execute, PassAfter;
    var s := Execute(buf, steps);
    RunKeeps(buf, steps);
    PassNeverStuck(s);
    FlushingPass(s);
    hide Inv;
    PassGoesOn(s.flusher.pass, s.buf, s.head, s.tail);
    Extend(buf, steps, FlushStep);
    steps' := steps + [FlushStep];
    if Execute(buf, steps').flusher.Flushing? {
      steps' := FinishPass(buf, steps');
    }
  }

  lemma FlushingPass(s: Ring)
    requires Inv(s) && s.flusher.Flushing?
    ensures PassHolds(s.flusher.pass, s.head, s.tail) && !s.flusher.pass.Finished?
  {
    hide WindowHolds, ProducerHolds, Written;
  }

  /** From the top of its loop, one pass writes out all that was published. */
  lemma OnePass(buf: seq<u8>, steps: seq<Step>) returns (steps': seq<Step>)
    requires 0 < |buf| && Possible(buf, steps) && Execute(buf, steps).flusher.AtTop?
    ensures Possible(buf, steps')
    ensures var s, s' := Execute(buf, steps), Execute(buf, steps');
            && s' == s.(flusher := if s.running then AtTop else Exited, tail := s.head, file := s'.file)
            && s'.file == s.log
  {
    hide Possible, Execute, PassAfter;
    Extend(buf, steps, TestRunning);
    steps' := FinishPass(buf, steps + [TestRunning]);
    CaughtUp(buf, steps');
  }

  lemma CaughtUp(buf: seq<u8>, steps: seq<Step>)
    requires 0 < |buf| && Possible(buf, steps) && Execute(buf, steps).tail == Execute(buf, steps).head
    ensures Execute(buf, steps).file == Execute(buf, steps).log
  {
    hide Possible, Execute;
    NothingLostOrDoubled(buf, steps);
  }

  /** Wherever the flush thread stands, it can by itself write out everything published; nothing it waits for. */
  lemma FlusherCatchesUp(buf: seq<u8>, steps: seq<Step>) returns (steps': seq<Step>)
    requires 0 < |buf| && Possible(buf, steps) && Execute(buf, steps).running
    ensures Possible(buf, steps')
    ensures var s, s' := Execute(buf, steps), Execute(buf, steps');
            s' == s.(flusher := AtTop, tail := s.head, file := s.log)
  {
    hide Possible, Execute;
    steps' := steps;
    RunKeeps(buf, steps);
    RunningFlusher(Execute(buf, steps));
    hide Inv;
    if Execute(buf, steps).flusher.Flushing? {
      steps' := FinishPass(buf, steps');
    }
    steps' := OnePass(buf, steps');
  }

  lemma RunningFlusher(s: Ring)
    requires Inv(s) && s.running
    ensures !s.flusher.Exited? && (s.flusher.Flushing? ==> !s.flusher.last)
  {
    hide WindowHolds, ProducerHolds, Written;
  }

  /** The copies of an entry, in any order; here from the front. */
  lemma {:induction false} CopyAll(buf: seq<u8>, steps: seq<Step>, k: nat) returns (steps': seq<Step>)
    requires 0 < |buf| && Possible(buf, steps)
    requires var p := Execute(buf, steps).producer;
             p.Copying? && k <= |p.entry| <= |Execute(buf, steps).buf| && forall i: nat :: i < k ==> i in p.copied
    ensures Possible(buf, steps')
    ensures var s, s' := Execute(buf, steps), Execute(buf, steps');
            && s'.producer.Copying? && s'.producer.entry == s.producer.entry && s'.producer.h == s.producer.h
            && s' == s.(producer := s'.producer, buf := s'.buf)
            && forall i: nat :: i < |s.producer.entry| ==> i in s'.producer.copied
    decreases |Execute(buf, steps).producer.entry| - k
  {
    hide Possible, Execute, Target;
    steps' := steps;
    if k < |Execute(buf, steps).producer.entry| {
      TargetInRange(Execute(buf, steps).producer.h, k, |Execute(buf, steps).buf|);
      Extend(buf, steps, CopyByte(k));
      steps' := CopyAll(buf, steps + [CopyByte(k)], k + 1);
    }
  }

  /** With the flush thread caught up, the spin ends and the way to the copies is free. */
  lemma RoomIsFound(buf: seq<u8>, steps: seq<Step>) returns (steps': seq<Step>)
    requires 0 < |buf| && Possible(buf, steps)
    requires var s := Execute(buf, steps); s.producer.Spinning? && s.tail == s.head
    ensures Possible(buf, steps')
    ensures var s, s' := Execute(buf, steps), Execute(buf, steps');
            s' == s.(producer := Copying(s.producer.entry, s.head, {})) && |s.producer.entry| <= |s.buf|
  {
    hide Possible, Execute;
    RunKeeps(buf, steps);
    SpinningEntry(Execute(buf, steps));
    hide Inv;
    Extend(buf, steps, LoadHead);
    var s1 := steps + [LoadHead];
    Extend(buf, s1, LoadTail);
    var s2 := s1 + [LoadTail];
    Extend(buf, s2, TestRoom);
    var s3 := s2 + [TestRoom];
    Extend(buf, s3, ReloadHead);
    steps' := s3 + [ReloadHead];
  }

  lemma SpinningEntry(s: Ring)
    requires Inv(s) && s.producer.Spinning?
    ensures 0 < |s.producer.entry| <= |s.buf|
  {
    hide WindowHolds, Written, PhasesHold;
  }

  /** An append never waits for good: however full the ring, the two threads have a way on which publishes the entry. */
  lemma AppendEnds(buf: seq<u8>, steps: seq<Step>) returns (steps': seq<Step>)
    requires 0 < |buf| && Possible(buf, steps)
    requires Execute(buf, steps).running && Execute(buf, steps).producer.Spinning?
    ensures Possible(buf, steps')
    ensures var s, s' := Execute(buf, steps), Execute(buf, steps');
            s'.producer.Idle? && s'.log == s.log + s.producer.entry && s'.running
  {
    hide Possible, Execute;
    steps' := FlusherCatchesUp(buf, steps);
    steps' := RoomIsFound(buf, steps');
    steps' := CopyAll(buf, steps', 0);
    Extend(buf, steps', Publish);
    steps' := steps' + [Publish];
  }

  // ----- shutdown -----

  lemma {:induction false} FinishSync(buf: seq<u8>, steps: seq<Step>) returns (steps': seq<Step>)
    requires 0 < |buf| && Possible(buf, steps) && Execute(buf, steps).producer.Syncing?
    ensures Possible(buf, steps') && Execute(buf, steps').producer.Closed?
    ensures Execute(buf, steps').log == Execute(buf, steps).log
    decreases var s := Execute(buf, steps); ToGo(s.producer.pass, s.head, s.tail)
  {
    hide Possible, Execute, PassAfter;
    var s := Execute(buf, steps);
    RunKeeps(buf, steps);
    PassNeverStuck(s);
    SyncingPass(s);
    hide Inv;
    PassGoesOn(s.producer.pass, s.buf, s.head, s.tail);
    Extend(buf, steps, SyncStep);
    steps' := steps + [SyncStep];
    if Execute(buf, steps').producer.Syncing? {
      steps' := FinishSync(buf, steps');
    }
  }

  lemma SyncingPass(s: Ring)
    requires Inv(s) && s.producer.Syncing?
    ensures PassHolds(s.producer.pass, s.head, s.tail) && !s.producer.pass.Finished?
  {
    hide WindowHolds, ProducerHolds, Written;
  }

  /** After the stop, the flush thread ends. */
  lemma FlusherExits(buf: seq<u8>, steps: seq<Step>) returns (steps': seq<Step>)
    requires 0 < |buf| && Possible(buf, steps) && !Execute(buf, steps).running
    ensures Possible(buf, steps')
    ensures Execute(buf, steps').flusher.Exited? && Execute(buf, steps').producer == Execute(buf, steps).producer
    ensures Execute(buf, steps').log == Execute(buf, steps).log
  {
    hide Possible, Execute;
    steps' := steps;
    if Execute(buf, steps').flusher.Flushing? {
      steps' := FinishPass(buf, steps');
    }
    if Execute(buf, steps').flusher.AtTop? {
      steps' := OnePass(buf, steps');
    }
  }

  lemma ClosedFile(s: Ring)
    requires Inv(s) && s.producer.Closed?
    ensures s.file == s.log
  {
  }

  /**
   A shutdown comes to its end wherever the flush thread stands, and the file then holds everything that was
   appended before it, once and in order.
   */
  lemma ShutdownEnds(buf: seq<u8>, steps: seq<Step>) returns (steps': seq<Step>)
    requires 0 < |buf| && Possible(buf, steps) && Execute(buf, steps).producer.Idle?
    ensures Possible(buf, steps') && Execute(buf, steps').producer.Closed?
    ensures Execute(buf, steps').file == Appended(steps)
  {
    hide Possible, Execute, Appended;
    Extend(buf, steps, StopRequest);
    steps' := FlusherExits(buf, steps + [StopRequest]);
    Extend(buf, steps', Joined);
    steps' := FinishSync(buf, steps' + [Joined]);
    RunKeeps(buf, steps');
    ClosedFile(Execute(buf, steps'));
    PublishedIsAppended(buf, steps);
  }
}
