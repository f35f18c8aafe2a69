/**
 The TTL pipeline: the event loop samples keys into one queue, the worker checks them and sends the
 expired ones back through another, and the event loop drains those and erases. Every step of either
 thread, down to single loads and stores on the queues, may interleave with the other's.
 */
module Ttl {
  import opened Bytes
  import opened Records
  import opened BitMask
  import opened Aging
  import Spsc

  /** What the event loop saw of a key when it sampled it. */
  datatype Candidate = Candidate(uid: u32, lastWrite: u64)

  type CandidateQueue = Spsc.Queue<Candidate>

  datatype EventLoop =
    | Serving                               // running commands
    | Draining                              // inside `expired_out.pop()`
    | Guarding(c: Candidate)                // popped; about to compare write times
    | Collecting(rest: seq<u32>)            // inside `for_each`, with these keys to go

  datatype Worker =
    | Popping                               // inside `candidates_in.pop()`
    | Checking(c: Candidate)                // popped; about to read the clock
    | Pushing                               // inside `expired_out.push(c)`

  datatype System = System(store: Contents, now: nat, candidates: CandidateQueue, expired: CandidateQueue,
                           loop: EventLoop, worker: Worker, evictions: seq<Eviction>)

  datatype Step =
    | Tick(now: nat)
    | Write(uid: u32, r: Record, ts: u64)
    | Delete(uid: u32, ts: u64)
    | DrainBegin
    | DrainQueue(q: Spsc.Step<Candidate>)
    | Guard
    | CollectBegin(order: seq<u32>)
    | CollectNext
    | CollectQueue(q: Spsc.Step<Candidate>)
    | CollectEnd
    | WorkerPop(q: Spsc.Step<Candidate>)
    | WorkerCheck
    | WorkerPush(q: Spsc.Step<Candidate>)

  /** `now.saturating_sub(last_write) > ttl`. */
  predicate Expired(c: Candidate, now: nat, ttl: nat) {
    (if now < c.lastWrite then 0 else now - c.lastWrite) > ttl
  }

  predicate PopStep(q: Spsc.Step<Candidate>) { q.Pop? || q.PopLoadHead? || q.PopTest? || q.PopStore? }
  predicate PushTail(q: Spsc.Step<Candidate>) { q.PushLoadTail? || q.PushTest? || q.PushStore? }

  ghost predicate Enabled(s: System, step: Step) {
    match step
    case Tick(now) => s.now <= now
    case Write(_, _, ts) => s.loop.Serving? && s.now <= ts
    case Delete(_, ts) => s.loop.Serving? && s.now <= ts
    case DrainBegin => s.loop.Serving?
    case DrainQueue(q) => s.loop.Draining? && PopStep(q) && Spsc.Enabled(s.expired, q)
    case Guard => s.loop.Guarding?
    case CollectBegin(order) => s.loop.Serving? && forall uid :: uid in order ==> uid in s.store
    case CollectNext =>
      && s.loop.Collecting? && s.loop.rest != [] && s.loop.rest[0] in s.store
      && s.candidates.producer.Resting? && 0 < |s.candidates.buf|
    case CollectQueue(q) => s.loop.Collecting? && PushTail(q) && Spsc.Enabled(s.candidates, q)
    case CollectEnd => s.loop.Collecting? && s.loop.rest == [] && s.candidates.producer.Resting?
    case WorkerPop(q) => s.worker.Popping? && PopStep(q) && Spsc.Enabled(s.candidates, q)
    case WorkerCheck => s.worker.Checking? && s.expired.producer.Resting? && 0 < |s.expired.buf|
    case WorkerPush(q) => s.worker.Pushing? && PushTail(q) && Spsc.Enabled(s.expired, q)
  }

  ghost function After(s: System, step: Step, n: nat, ttl: nat): System
    requires Enabled(s, step)
  {
    match step
    case Tick(now) => s.(now := now)
    case Write(uid, r, ts) => s.(store := PushTo(s.store, uid, r, ts, n), now := ts)
    case Delete(uid, ts) => s.(store := s.store - {uid}, now := ts)
    case DrainBegin => s.(loop := Draining)
    case DrainQueue(q) =>
      var queue := Spsc.After(s.expired, q);
      s.(expired := queue,
         loop := if q.PopStore? then Guarding(s.expired.consumer.item)
                 else if q.PopTest? && queue.consumer.Waiting? then Serving
                 else Draining)
    case Guard =>
      var c := s.loop.c;
      if c.uid in s.store && s.store[c.uid].lastWrite == c.lastWrite then
        s.(store := s.store - {c.uid}, loop := Draining,
           evictions := s.evictions + [Eviction(c.uid, s.store[c.uid].lastWrite, s.now)])
      else s.(loop := Draining)
    case CollectBegin(order) => s.(loop := Collecting(order))
    case CollectNext =>
      var uid := s.loop.rest[0];
      s.(candidates := Spsc.After(s.candidates, Spsc.Push(Candidate(uid, s.store[uid].lastWrite))),
         loop := Collecting(s.loop.rest[1..]))
    case CollectQueue(q) => s.(candidates := Spsc.After(s.candidates, q))
    case CollectEnd => s.(loop := Serving)
    case WorkerPop(q) =>
      s.(candidates := Spsc.After(s.candidates, q),
         worker := if q.PopStore? then Checking(s.candidates.consumer.item) else Popping)
    case WorkerCheck =>
      var c := s.worker.c;
      if Expired(c, s.now, ttl) then s.(expired := Spsc.After(s.expired, Spsc.Push(c)), worker := Pushing)
      else s.(worker := Popping)
    case WorkerPush(q) =>
      var queue := Spsc.After(s.expired, q);
      s.(expired := queue, worker := if queue.producer.Resting? then Popping else Pushing)
  }

  ghost function Initial(store: Contents, bufIn: seq<Candidate>, bufOut: seq<Candidate>, now: nat): System {
    System(store, now, Spsc.Initial(bufIn), Spsc.Initial(bufOut), Serving, Popping, [])
  }

  // ----- the invariant -----

  ghost predicate AllExpired(cs: seq<Candidate>, now: nat, ttl: nat) {
    forall c :: c in cs ==> Expired(c, now, ttl)
  }

  /** Everything in the second queue, or on its way in or out, has expired. */
  ghost predicate OutHolds(q: CandidateQueue, now: nat, ttl: nat) {
    && AllExpired(q.accepted, now, ttl)
    && match q.producer
       case Resting => true
       case HaveHead(c, _) => Expired(c, now, ttl)
       case HaveBoth(c, _, _, _) => Expired(c, now, ttl)
       case Wrote(c, _) => Expired(c, now, ttl)
  }

  ghost predicate EvictionsHold(evictions: seq<Eviction>, ttl: nat) {
    forall i :: 0 <= i < |evictions| ==> evictions[i].at - evictions[i].lastWrite > ttl
  }

  ghost predicate Inv(s: System, ttl: nat) {
    && Spsc.Inv(s.candidates) && Spsc.Inv(s.expired)
    && OutHolds(s.expired, s.now, ttl)
    && (s.loop.Guarding? ==> Expired(s.loop.c, s.now, ttl))
    && EvictionsHold(s.evictions, ttl)
  }

  lemma InitialHolds(store: Contents, bufIn: seq<Candidate>, bufOut: seq<Candidate>, now: nat, ttl: nat)
    requires Spsc.ValidCapacity(|bufIn|) && Spsc.ValidCapacity(|bufOut|)
    ensures Inv(Initial(store, bufIn, bufOut, now), ttl)
  {
    hide Spsc.Inv, Spsc.ValidCapacity;
    Spsc.InitialHolds(bufIn);
    Spsc.InitialHolds(bufOut);
  }

  /** Expiry is for good, because the clock does not run backwards. */
  lemma OutHoldsLater(q: CandidateQueue, now: nat, later: nat, ttl: nat)
    requires OutHolds(q, now, ttl) && now <= later
    ensures OutHolds(q, later, ttl)
  {
  }

  lemma OutHoldsAfter(q: CandidateQueue, step: Spsc.Step<Candidate>, now: nat, ttl: nat)
    requires OutHolds(q, now, ttl) && Spsc.Enabled(q, step)
    requires step.Push? ==> Expired(step.item, now, ttl)
    ensures OutHolds(Spsc.After(q, step), now, ttl)
  {
    hide And, Spsc.SeesFull, Spsc.WrappingInc, Expired;
  }

  lemma ServingStepKeeps(s: System, step: Step, n: nat, ttl: nat)
    requires Inv(s, ttl) && Enabled(s, step)
    requires step.Tick? || step.Write? || step.Delete? || step.DrainBegin? || step.CollectBegin? || step.CollectEnd?
    ensures Inv(After(s, step, n, ttl), ttl)
  {
    hide Spsc.Inv, OutHolds;
    OutHoldsLater(s.expired, s.now, After(s, step, n, ttl).now, ttl);
  }

  lemma QueueStepKeeps(s: System, step: Step, n: nat, ttl: nat)
    requires Inv(s, ttl) && Enabled(s, step)
    requires step.CollectNext? || step.CollectQueue? || step.WorkerPop? || step.WorkerPush? || step.WorkerCheck?
    ensures Inv(After(s, step, n, ttl), ttl)
  {
    hide Spsc.Inv, Spsc.After, OutHolds, EvictionsHold, And;
    match step
    case CollectNext =>
      Spsc.StepKeeps(s.candidates, Spsc.Push(Candidate(s.loop.rest[0], s.store[s.loop.rest[0]].lastWrite)));
    case CollectQueue(q) => Spsc.StepKeeps(s.candidates, q);
    case WorkerPop(q) => Spsc.StepKeeps(s.candidates, q);
    case WorkerPush(q) =>
      Spsc.StepKeeps(s.expired, q);
      OutHoldsAfter(s.expired, q, s.now, ttl);
    case WorkerCheck =>
      if Expired(s.worker.c, s.now, ttl) {
        Spsc.StepKeeps(s.expired, Spsc.Push(s.worker.c));
        OutHoldsAfter(s.expired, Spsc.Push(s.worker.c), s.now, ttl);
      }
  }

  lemma DrainQueueKeeps(s: System, q: Spsc.Step<Candidate>, n: nat, ttl: nat)
    requires Inv(s, ttl) && Enabled(s, DrainQueue(q))
    ensures Inv(After(s, DrainQueue(q), n, ttl), ttl)
  {
    hide Spsc.Inv, Spsc.After, EvictionsHold, Expired, And;
    Spsc.StepKeeps(s.expired, q);
    OutHoldsAfter(s.expired, q, s.now, ttl);
    if q.PopStore? {
      Spsc.TookAccepted(s.expired);
    }
  }

  lemma GuardKeeps(s: System, n: nat, ttl: nat)
    requires Inv(s, ttl) && Enabled(s, Guard)
    ensures Inv(After(s, Guard, n, ttl), ttl)
  {
    hide Spsc.Inv, OutHolds;
  }

  lemma StepKeeps(s: System, step: Step, n: nat, ttl: nat)
    requires Inv(s, ttl) && Enabled(s, step)
    ensures Inv(After(s, step, n, ttl), ttl)
  {
    hide Inv, Enabled, After;
    match step
    case DrainQueue(q) => DrainQueueKeeps(s, q, n, ttl);
    case Guard => GuardKeeps(s, n, ttl);
    case CollectNext => QueueStepKeeps(s, step, n, ttl);
    case CollectQueue(_) => QueueStepKeeps(s, step, n, ttl);
    case WorkerPop(_) => QueueStepKeeps(s, step, n, ttl);
    case WorkerCheck => QueueStepKeeps(s, step, n, ttl);
    case WorkerPush(_) => QueueStepKeeps(s, step, n, ttl);
    case _ => ServingStepKeeps(s, step, n, ttl);
  }

  // ----- every interleaving -----

  ghost predicate Possible(start: System, steps: seq<Step>, n: nat, ttl: nat)
    decreases |steps|, 0
  {
    steps == [] ||
    var before := steps[..|steps| - 1];
    Possible(start, before, n, ttl) && Enabled(Execute(start, before, n, ttl), steps[|steps| - 1])
  }

  ghost function Execute(start: System, steps: seq<Step>, n: nat, ttl: nat): System
    requires Possible(start, steps, n, ttl)
    decreases |steps|, 1
  {
    if steps == [] then start
    else After(Execute(start, steps[..|steps| - 1], n, ttl), steps[|steps| - 1], n, ttl)
  }

  lemma {:induction false} RunKeeps(start: System, steps: seq<Step>, n: nat, ttl: nat)
    requires Inv(start, ttl) && Possible(start, steps, n, ttl)
    ensures Inv(Execute(start, steps, n, ttl), ttl)
    decreases |steps|
  {
    hide Inv, Enabled, After;
    if steps != [] {
      RunKeeps(start, steps[..|steps| - 1], n, ttl);
      StepKeeps(Execute(start, steps[..|steps| - 1], n, ttl), steps[|steps| - 1], n, ttl);
    }
  }

  /** The capacities that the compile-time assertion lets through will do. */
  lemma QueuesStart(store: Contents, bufIn: seq<Candidate>, bufOut: seq<Candidate>, now: nat, ttl: nat)
    requires IsPowerOfTwo(|bufIn|) && IsPowerOfTwo(|bufOut|) && |bufIn| < Spsc.WRAP && |bufOut| < Spsc.WRAP
    ensures Inv(Initial(store, bufIn, bufOut, now), ttl)
  {
    hide Inv, Initial, And;
    Spsc.CapacityFromTest(|bufIn|);
    Spsc.CapacityFromTest(|bufOut|);
    InitialHolds(store, bufIn, bufOut, now, ttl);
  }

  /**
   Eviction safety. In every interleaving of writes, deletes, sampling, checks and drains, a key that the
   drain erases had, at that moment, gone without a write for longer than the TTL: also when it was
   deleted and created again, or sampled more than once, while its candidate was on the way.
   */
  lemma EvictionSafety(store: Contents, bufIn: seq<Candidate>, bufOut: seq<Candidate>, now: nat,
                       steps: seq<Step>, n: nat, ttl: nat)
    requires IsPowerOfTwo(|bufIn|) && IsPowerOfTwo(|bufOut|) && |bufIn| < Spsc.WRAP && |bufOut| < Spsc.WRAP
    requires Possible(Initial(store, bufIn, bufOut, now), steps, n, ttl)
    ensures var s := Execute(Initial(store, bufIn, bufOut, now), steps, n, ttl);
            && EvictionsHold(s.evictions, ttl)
            && (s.loop.Guarding? && s.loop.c.uid in s.store && s.store[s.loop.c.uid].lastWrite == s.loop.c.lastWrite ==>
                s.now - s.store[s.loop.c.uid].lastWrite > ttl)
  {
    hide Possible, Execute, Initial, And, Spsc.Inv, EvictionsHold, OutHolds;
    QueuesStart(store, bufIn, bufOut, now, ttl);
    RunKeeps(Initial(store, bufIn, bufOut, now), steps, n, ttl);
  }
}
