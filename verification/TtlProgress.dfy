/** The eviction pipeline gets somewhere: an idle key can be sampled, checked, drained and erased. */
module TtlProgress {
  import opened Bytes
  import opened BitMask
  import opened Aging
  import opened Ttl
  import Spsc

  /** A queue that nobody is in the middle of using. */
  ghost predicate AtRest(q: CandidateQueue) {
    Spsc.Inv(q) && q.producer.Resting? && q.consumer.Waiting?
  }

  ghost predicate Quiet(q: CandidateQueue) {
    AtRest(q) && q.popped == q.accepted
  }

  /** `q` holds just `c`. */
  ghost predicate HoldsOnly(q: CandidateQueue, c: Candidate) {
    AtRest(q) && q.accepted == q.popped + [c]
  }

  lemma Extend(start: System, steps: seq<Step>, step: Step, n: nat, ttl: nat)
    requires Possible(start, steps, n, ttl) && Enabled(Execute(start, steps, n, ttl), step)
    ensures Possible(start, steps + [step], n, ttl)
    ensures Execute(start, steps + [step], n, ttl) == After(Execute(start, steps, n, ttl), step, n, ttl)
  {
    hide Enabled, After;
    assert (steps + [step])[..|steps|] == steps;
  }

  // ----- the four steps of a push and of a pop, on the queue alone -----

  lemma Pushing4(q: CandidateQueue, c: Candidate)
    requires Quiet(q)
    ensures Spsc.Enabled(q, Spsc.Push(c))
    ensures var q1 := Spsc.After(q, Spsc.Push(c));
            && Spsc.Inv(q1) && q1.producer.HaveHead? && Spsc.Enabled(q1, Spsc.PushLoadTail)
            && var q2 := Spsc.After(q1, Spsc.PushLoadTail);
               && Spsc.Inv(q2) && Spsc.Enabled(q2, Spsc.PushTest)
               && var q3 := Spsc.After(q2, Spsc.PushTest);
                  && q3.producer.Wrote? && Spsc.Enabled(q3, Spsc.PushStore)
                  && HoldsOnly(Spsc.After(q3, Spsc.PushStore), c)
  {
    Room(q);
    hide Spsc.Inv, And;
    Spsc.NeverStuck(q);
    Spsc.StepKeeps(q, Spsc.Push(c));
    var q1 := Spsc.After(q, Spsc.Push(c));
    Spsc.NeverStuck(q1);
    Spsc.StepKeeps(q1, Spsc.PushLoadTail);
    var q2 := Spsc.After(q1, Spsc.PushLoadTail);
    Spsc.NeverStuck(q2);
    Spsc.PushWritesIffRoom(q2);
    Spsc.StepKeeps(q2, Spsc.PushTest);
    var q3 := Spsc.After(q2, Spsc.PushTest);
    Spsc.NeverStuck(q3);
    Spsc.StepKeeps(q3, Spsc.PushStore);
  }

  lemma Room(q: CandidateQueue)
    requires Spsc.Inv(q)
    ensures 0 < |q.buf|
  {
    hide Spsc.ValidCapacity, Spsc.ProducerHolds, Spsc.ConsumerHolds;
  }

  lemma Popping4(q: CandidateQueue, c: Candidate)
    requires HoldsOnly(q, c)
    ensures Spsc.Enabled(q, Spsc.Pop)
    ensures var q1 := Spsc.After(q, Spsc.Pop);
            && Spsc.Enabled(q1, Spsc.PopLoadHead)
            && var q2 := Spsc.After(q1, Spsc.PopLoadHead);
               && Spsc.Enabled(q2, Spsc.PopTest)
               && var q3 := Spsc.After(q2, Spsc.PopTest);
                  && q3.consumer.Took? && q3.consumer.item == c && Spsc.Enabled(q3, Spsc.PopStore)
                  && Quiet(Spsc.After(q3, Spsc.PopStore))
  {
    hide Spsc.Inv, And;
    Spsc.NeverStuck(q);
    Spsc.StepKeeps(q, Spsc.Pop);
    var q1 := Spsc.After(q, Spsc.Pop);
    Spsc.NeverStuck(q1);
    Spsc.StepKeeps(q1, Spsc.PopLoadHead);
    var q2 := Spsc.After(q1, Spsc.PopLoadHead);
    Spsc.NeverStuck(q2);
    Spsc.PopTakesIffAny(q2);
    Spsc.StepKeeps(q2, Spsc.PopTest);
    var q3 := Spsc.After(q2, Spsc.PopTest);
    Spsc.NeverStuck(q3);
    Spsc.StepKeeps(q3, Spsc.PopStore);
  }

  // ----- the three parts of the pipeline -----

  /** The event loop samples the key with the write time it has. */
  lemma Sampled(start: System, steps: seq<Step>, uid: u32, n: nat, ttl: nat) returns (steps': seq<Step>)
    requires Possible(start, steps, n, ttl)
    requires var s := Execute(start, steps, n, ttl); s.loop.Serving? && uid in s.store && Quiet(s.candidates)
    ensures Possible(start, steps', n, ttl)
    ensures var s, s' := Execute(start, steps, n, ttl), Execute(start, steps', n, ttl);
            && s' == s.(candidates := s'.candidates)
            && HoldsOnly(s'.candidates, Candidate(uid, s.store[uid].lastWrite))
  {
    hide Possible, Execute, Quiet, HoldsOnly, Spsc.After, Spsc.Enabled;
    var s := Execute(start, steps, n, ttl);
    Pushing4(s.candidates, Candidate(uid, s.store[uid].lastWrite));
    QuietParts(s.candidates);
    Extend(start, steps, CollectBegin([uid]), n, ttl);
    steps' := steps + [CollectBegin([uid])];
    Extend(start, steps', CollectNext, n, ttl);
    steps' := steps' + [CollectNext];
    Extend(start, steps', CollectQueue(Spsc.PushLoadTail), n, ttl);
    steps' := steps' + [CollectQueue(Spsc.PushLoadTail)];
    Extend(start, steps', CollectQueue(Spsc.PushTest), n, ttl);
    steps' := steps' + [CollectQueue(Spsc.PushTest)];
    Extend(start, steps', CollectQueue(Spsc.PushStore), n, ttl);
    steps' := steps' + [CollectQueue(Spsc.PushStore)];
    HeldParts(Execute(start, steps', n, ttl).candidates, Candidate(uid, s.store[uid].lastWrite));
    Extend(start, steps', CollectEnd, n, ttl);
    steps' := steps' + [CollectEnd];
  }

  lemma QuietParts(q: CandidateQueue)
    requires Quiet(q)
    ensures q.producer.Resting? && q.consumer.Waiting? && 0 < |q.buf|
  {
    Room(q);
  }

  lemma HeldParts(q: CandidateQueue, c: Candidate)
    requires HoldsOnly(q, c)
    ensures q.producer.Resting? && q.consumer.Waiting?
  {
  }

  /** The worker takes the candidate out of its queue. */
  lemma Taken(start: System, steps: seq<Step>, c: Candidate, n: nat, ttl: nat) returns (steps': seq<Step>)
    requires Possible(start, steps, n, ttl)
    requires var s := Execute(start, steps, n, ttl); s.worker.Popping? && HoldsOnly(s.candidates, c)
    ensures Possible(start, steps', n, ttl)
    ensures var s, s' := Execute(start, steps, n, ttl), Execute(start, steps', n, ttl);
            s' == s.(candidates := s'.candidates, worker := Checking(c)) && Quiet(s'.candidates)
  {
    hide Possible, Execute, Quiet, HoldsOnly, Spsc.After, Spsc.Enabled;
    Popping4(Execute(start, steps, n, ttl).candidates, c);
    Extend(start, steps, WorkerPop(Spsc.Pop), n, ttl);
    steps' := steps + [WorkerPop(Spsc.Pop)];
    Extend(start, steps', WorkerPop(Spsc.PopLoadHead), n, ttl);
    steps' := steps' + [WorkerPop(Spsc.PopLoadHead)];
    Extend(start, steps', WorkerPop(Spsc.PopTest), n, ttl);
    steps' := steps' + [WorkerPop(Spsc.PopTest)];
    Extend(start, steps', WorkerPop(Spsc.PopStore), n, ttl);
    steps' := steps' + [WorkerPop(Spsc.PopStore)];
  }

  /** The worker forwards it exactly if it has expired. */
  lemma Forwarded(start: System, steps: seq<Step>, n: nat, ttl: nat) returns (steps': seq<Step>)
    requires Possible(start, steps, n, ttl)
    requires var s := Execute(start, steps, n, ttl); s.worker.Checking? && Quiet(s.expired)
    ensures Possible(start, steps', n, ttl)
    ensures var s, s' := Execute(start, steps, n, ttl), Execute(start, steps', n, ttl);
            && s' == s.(expired := s'.expired, worker := Popping)
            && if s.now - s.worker.c.lastWrite > ttl then HoldsOnly(s'.expired, s.worker.c) else s'.expired == s.expired
  {
    hide Possible, Execute, Quiet, HoldsOnly, Spsc.After, Spsc.Enabled;
    var s := Execute(start, steps, n, ttl);
    Pushing4(s.expired, s.worker.c);
    QuietParts(s.expired);
    Extend(start, steps, WorkerCheck, n, ttl);
    steps' := steps + [WorkerCheck];
    if s.now - s.worker.c.lastWrite > ttl {
      Wrote3(s.expired, s.worker.c);
      Extend(start, steps', WorkerPush(Spsc.PushLoadTail), n, ttl);
      steps' := steps' + [WorkerPush(Spsc.PushLoadTail)];
      Extend(start, steps', WorkerPush(Spsc.PushTest), n, ttl);
      steps' := steps' + [WorkerPush(Spsc.PushTest)];
      Extend(start, steps', WorkerPush(Spsc.PushStore), n, ttl);
      steps' := steps' + [WorkerPush(Spsc.PushStore)];
      HeldParts(Execute(start, steps', n, ttl).expired, s.worker.c);
    }
  }

  /** The producer is not at rest before its last step. */
  lemma Wrote3(q: CandidateQueue, c: Candidate)
    requires Quiet(q)
    ensures Spsc.Enabled(q, Spsc.Push(c))
    ensures var q1 := Spsc.After(q, Spsc.Push(c));
            && Spsc.Enabled(q1, Spsc.PushLoadTail)
            && !Spsc.After(q1, Spsc.PushLoadTail).producer.Resting?
  {
    Pushing4(q, c);
    hide Spsc.Inv, And;
  }

  /** The event loop drains it, and erases the key exactly if it was not written since it was sampled. */
  lemma DrainedOnce(start: System, steps: seq<Step>, c: Candidate, n: nat, ttl: nat) returns (steps': seq<Step>)
    requires Possible(start, steps, n, ttl)
    requires var s := Execute(start, steps, n, ttl); s.loop.Serving? && HoldsOnly(s.expired, c)
    ensures Possible(start, steps', n, ttl)
    ensures var s, s' := Execute(start, steps, n, ttl), Execute(start, steps', n, ttl);
            && Quiet(s'.expired)
            && if c.uid in s.store && s.store[c.uid].lastWrite == c.lastWrite then
                 s' == s.(expired := s'.expired, loop := Draining, store := s.store - {c.uid},
                          evictions := s.evictions + [Eviction(c.uid, c.lastWrite, s.now)])
               else s' == s.(expired := s'.expired, loop := Draining)
  {
    hide Possible, Execute, Quiet, HoldsOnly, Spsc.After, Spsc.Enabled;
    Popping4(Execute(start, steps, n, ttl).expired, c);
    Extend(start, steps, DrainBegin, n, ttl);
    steps' := steps + [DrainBegin];
    Extend(start, steps', DrainQueue(Spsc.Pop), n, ttl);
    steps' := steps' + [DrainQueue(Spsc.Pop)];
    Extend(start, steps', DrainQueue(Spsc.PopLoadHead), n, ttl);
    steps' := steps' + [DrainQueue(Spsc.PopLoadHead)];
    Extend(start, steps', DrainQueue(Spsc.PopTest), n, ttl);
    steps' := steps' + [DrainQueue(Spsc.PopTest)];
    Extend(start, steps', DrainQueue(Spsc.PopStore), n, ttl);
    steps' := steps' + [DrainQueue(Spsc.PopStore)];
    Extend(start, steps', Guard, n, ttl);
    steps' := steps' + [Guard];
  }

  /**
   Eviction happens. With the queues empty, the loop sampling a key and the worker and the drain taking their turns
   erase it, if and only if it has gone without a write for longer than the TTL. Nothing else changes.
   */
  lemma IdleKeyIsEvicted(start: System, steps: seq<Step>, uid: u32, n: nat, ttl: nat) returns (steps': seq<Step>)
    requires Possible(start, steps, n, ttl)
    requires var s := Execute(start, steps, n, ttl);
             s.loop.Serving? && s.worker.Popping? && uid in s.store && Quiet(s.candidates) && Quiet(s.expired)
    ensures Possible(start, steps', n, ttl)
    ensures var s, s' := Execute(start, steps, n, ttl), Execute(start, steps', n, ttl);
            && Quiet(s'.candidates) && Quiet(s'.expired) && s'.now == s.now && s'.worker.Popping?
            && if s.now - s.store[uid].lastWrite > ttl then
                 && s'.store == s.store - {uid}
                 && s'.evictions == s.evictions + [Eviction(uid, s.store[uid].lastWrite, s.now)]
               else s'.store == s.store && s'.evictions == s.evictions
  {
    hide Possible, Execute, Quiet, HoldsOnly;
    var s := Execute(start, steps, n, ttl);
    var c := Candidate(uid, s.store[uid].lastWrite);
    steps' := Sampled(start, steps, uid, n, ttl);
    steps' := Taken(start, steps', c, n, ttl);
    steps' := Forwarded(start, steps', n, ttl);
    if s.now - c.lastWrite > ttl {
      steps' := DrainedOnce(start, steps', c, n, ttl);
    }
  }
}
