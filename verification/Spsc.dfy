/**
 The lock-free single-producer single-consumer queue at the granularity of single loads and stores, with
 64-bit counters that wrap. Between any two steps of one side the other side may take any number of steps.
 */
module Spsc {
  import opened Bytes
  import opened Modular
  import opened BitMask

  const WRAP: nat := 0x1_0000_0000_0000_0000

  /** `seen` is history: how many items had been popped when the tail was loaded. */
  datatype Producer<T> =
    | Resting
    | HaveHead(item: T, h: u64)
    | HaveBoth(item: T, h: u64, t: u64, seen: nat)
    | Wrote(item: T, h: u64)

  /** `seen` is history: how many items had been published when the head was loaded. */
  datatype Consumer<T> =
    | Waiting
    | HaveTail(t: u64)
    | HaveEnds(t: u64, h: u64, seen: nat)
    | Took(t: u64, item: T)

  /** `accepted` and `popped` are history: the items whose head store or tail store has been made. */
  datatype Queue<T> = Queue(buf: seq<T>, head: u64, tail: u64, producer: Producer<T>, consumer: Consumer<T>,
                            accepted: seq<T>, popped: seq<T>)

  datatype Step<T> =
    | Push(item: T) | PushLoadTail | PushTest | PushStore
    | Pop | PopLoadHead | PopTest | PopStore

  function WrappingSub(a: u64, b: u64): u64 { (a - b) % 0x1_0000_0000_0000_0000 }
  function WrappingInc(a: u64): u64 { (a + 1) % 0x1_0000_0000_0000_0000 }

  /** The queue is full as the producer sees it. */
  predicate SeesFull(h: u64, t: u64, cap: nat) { WrappingSub(h, t) >= cap }

  ghost predicate Enabled<T>(q: Queue<T>, step: Step<T>) {
    && 0 < |q.buf|
    && match step
       case Push(_) => q.producer.Resting?
       case PushLoadTail => q.producer.HaveHead?
       case PushTest => q.producer.HaveBoth? && And(q.producer.h, |q.buf| - 1) < |q.buf|
       case PushStore => q.producer.Wrote?
       case Pop => q.consumer.Waiting?
       case PopLoadHead => q.consumer.HaveTail?
       case PopTest => q.consumer.HaveEnds? && And(q.consumer.t, |q.buf| - 1) < |q.buf|
       case PopStore => q.consumer.Took?
  }

  ghost function After<T>(q: Queue<T>, step: Step<T>): Queue<T>
    requires Enabled(q, step)
  {
    var p, c := q.producer, q.consumer;
    match step
    case Push(item) => q.(producer := HaveHead(item, q.head))
    case PushLoadTail => q.(producer := HaveBoth(p.item, p.h, q.tail, |q.popped|))
    case PushTest =>
      if SeesFull(p.h, p.t, |q.buf|) then q.(producer := Resting)
      else q.(buf := q.buf[And(p.h, |q.buf| - 1) := p.item], producer := Wrote(p.item, p.h))
    case PushStore => q.(head := WrappingInc(p.h), producer := Resting, accepted := q.accepted + [p.item])
    case Pop => q.(consumer := HaveTail(q.tail))
    case PopLoadHead => q.(consumer := HaveEnds(c.t, q.head, |q.accepted|))
    case PopTest =>
      if c.t == c.h then q.(consumer := Waiting)
      else q.(consumer := Took(c.t, q.buf[And(c.t, |q.buf| - 1)]))
    case PopStore => q.(tail := WrappingInc(c.t), consumer := Waiting, popped := q.popped + [c.item])
  }

  ghost function Initial<T>(buf: seq<T>): Queue<T> {
    Queue(buf, 0, 0, Resting, Waiting, [], [])
  }

  // ----- wrapped counters against unbounded ones -----

  /** `cap` is a power of two below 2^64. */
  ghost predicate ValidCapacity(cap: nat) {
    exists k: nat :: k < 64 && cap == Pow2(k)
  }

  lemma Pow64()
    ensures Pow2(64) == WRAP
  {
    assert Pow2(4) == 16 by { assert Pow2(0) == 1 && Pow2(1) == 2 && Pow2(2) == 4 && Pow2(3) == 8; }
    hide Pow2;
    PowSplit(4, 4);
    assert Pow2(8) == 0x100;
    PowSplit(8, 8);
    assert Pow2(16) == 0x1_0000;
    PowSplit(16, 16);
    assert Pow2(32) == 0x1_0000_0000;
    PowSplit(32, 32);
  }

  lemma CapacityDivides(cap: nat) returns (k: nat, m: nat)
    requires ValidCapacity(cap)
    ensures cap == Pow2(k) && m >= 2 && WRAP == cap * m && 0 < cap < WRAP
  {
    k :| k < 64 && cap == Pow2(k);
    m := Pow2(64 - k);
    Pow64();
    PowSplit(k, 64 - k);
    PowGrows(64 - k);
    hide Pow2;
    Doubles(cap, m);
  }

  lemma Doubles(a: nat, m: nat)
    requires m >= 2
    ensures a * m >= 2 * a
  {
    AtLeast(a, m - 1);
    assert a * m == a * (m - 1) + a;
  }

  /** The masked slot of a wrapped counter is the slot of the unbounded one. */
  lemma SlotAgrees(count: nat, cap: nat)
    requires ValidCapacity(cap)
    ensures 0 < cap < WRAP
    ensures And(count % WRAP, cap - 1) == count % cap < cap
  {
    hide Pow2, And;
    var k, m := CapacityDivides(cap);
    MaskIsMod(count % WRAP, k);
    ModOfMod(count, cap, m);
  }

  lemma PowGrows(k: nat)
    requires k > 0
    ensures Pow2(k) >= 2
  {
  }

  /** The wrapped difference of two counters less than 2^64 apart is their difference. */
  lemma DifferenceAgrees(a: nat, b: nat)
    requires b <= a < b + WRAP
    ensures WrappingSub(a % WRAP, b % WRAP) == a - b
  {
    var qa, qb := a / WRAP, b / WRAP;
    var d := a % WRAP - b % WRAP;
    if d >= 0 {
      assert a - b == WRAP * (qa - qb) + d;
      assert qa == qb;
    } else {
      assert a - b == WRAP * (qa - qb) + d;
      assert qa == qb + 1;
      ModIs(d + WRAP, WRAP, 0, d + WRAP);
    }
  }

  lemma IncrementAgrees(a: nat)
    ensures WrappingInc(a % WRAP) == (a + 1) % WRAP
  {
    var q, r := a / WRAP, a % WRAP;
    if r + 1 < WRAP {
      ModIs(a + 1, WRAP, q, r + 1);
    } else {
      ModIs(a + 1, WRAP, q + 1, 0);
    }
  }

  /** Counters at most a queue apart are equal when their wrapped values are. */
  lemma EqualityAgrees(a: nat, b: nat)
    requires b <= a < b + WRAP
    ensures a % WRAP == b % WRAP <==> a == b
  {
    if a > b {
      CellsDiffer(b, a, WRAP);
    }
  }

  // ----- the invariant -----

  /** The slots hold the items that are published and not yet popped. */
  ghost predicate Window<T>(buf: seq<T>, accepted: seq<T>, popped: seq<T>) {
    && 0 < |buf|
    && |popped| <= |accepted| <= |popped| + |buf|
    && popped == accepted[..|popped|]
    && forall i :: |popped| <= i < |accepted| ==> buf[i % |buf|] == accepted[i]
  }

  ghost predicate ProducerHolds<T>(q: Queue<T>)
    requires 0 < |q.buf|
  {
    match q.producer
    case Resting => true
    case HaveHead(_, h) => h == q.head
    case HaveBoth(_, h, t, seen) =>
      h == q.head && t == seen % WRAP && seen <= |q.popped| && |q.accepted| <= seen + |q.buf|
    case Wrote(item, h) => h == q.head && |q.accepted| < |q.popped| + |q.buf| && q.buf[|q.accepted| % |q.buf|] == item
  }

  ghost predicate ConsumerHolds<T>(q: Queue<T>) {
    match q.consumer
    case Waiting => true
    case HaveTail(t) => t == q.tail
    case HaveEnds(t, h, seen) => t == q.tail && h == seen % WRAP && |q.popped| <= seen <= |q.accepted|
    case Took(t, item) => t == q.tail && |q.popped| < |q.accepted| && item == q.accepted[|q.popped|]
  }

  ghost predicate Inv<T>(q: Queue<T>) {
    && ValidCapacity(|q.buf|)
    && Window(q.buf, q.accepted, q.popped)
    && q.head == |q.accepted| % WRAP && q.tail == |q.popped| % WRAP
    && ProducerHolds(q)
    && ConsumerHolds(q)
  }

  lemma InitialHolds<T>(buf: seq<T>)
    requires ValidCapacity(|buf|)
    ensures Inv(Initial(buf))
  {
    SlotAgrees(0, |buf|);
  }

  /** A push is refused exactly when the queue was full at the instant its tail was loaded. */
  lemma RefusedIffFull<T>(q: Queue<T>)
    requires Inv(q) && q.producer.HaveBoth?
    ensures SeesFull(q.producer.h, q.producer.t, |q.buf|) <==> |q.accepted| - q.producer.seen == |q.buf|
  {
    hide Window, ConsumerHolds, ValidCapacity, And, Pow2;
    SlotAgrees(0, |q.buf|);
    assert q.producer.seen <= |q.accepted| by { CountsOrdered(q); }
    DifferenceAgrees(|q.accepted|, q.producer.seen);
  }

  lemma CountsOrdered<T>(q: Queue<T>)
    requires Inv(q)
    ensures |q.popped| <= |q.accepted| <= |q.popped| + |q.buf|
  {
    hide ProducerHolds, ConsumerHolds, ValidCapacity;
  }

  /** A pop reports empty exactly when the queue was empty at the instant its head was loaded. */
  lemma EmptyIffEmpty<T>(q: Queue<T>)
    requires Inv(q) && q.consumer.HaveEnds?
    ensures q.consumer.t == q.consumer.h <==> q.consumer.seen == |q.popped|
  {
    hide Window, ProducerHolds, ValidCapacity, And, Pow2;
    SlotAgrees(0, |q.buf|);
    CountsOrdered(q);
    EqualityAgrees(q.consumer.seen, |q.popped|);
  }

  /** The test of a push: the item is written to its slot exactly if there was room when the tail was loaded. */
  lemma PushWritesIffRoom<T>(q: Queue<T>)
    requires Inv(q) && Enabled(q, PushTest)
    ensures var q', room := After(q, PushTest), |q.accepted| - q.producer.seen < |q.buf|;
            && (q'.producer.Wrote? <==> room) && (q'.producer.Resting? <==> !room)
            && (room ==> q'.producer.item == q.producer.item)
            && q'.accepted == q.accepted && q'.popped == q.popped && q'.consumer == q.consumer
  {
    RefusedIffFull(q);
    assert |q.accepted| - q.producer.seen <= |q.buf|;
    hide Window, ConsumerHolds, ValidCapacity, And, Pow2, SeesFull;
  }

  /** The test of a pop: an item is taken exactly if one was there when the head was loaded, and it is the oldest. */
  lemma PopTakesIffAny<T>(q: Queue<T>)
    requires Inv(q) && Enabled(q, PopTest)
    ensures var q', any := After(q, PopTest), q.consumer.seen > |q.popped|;
            && (q'.consumer.Took? <==> any) && (q'.consumer.Waiting? <==> !any)
            && (any ==> |q.popped| < |q.accepted| && q'.consumer.item == q.accepted[|q.popped|])
            && q'.accepted == q.accepted && q'.popped == q.popped && q'.producer == q.producer
  {
    EmptyIffEmpty(q);
    SlotAgrees(|q.popped|, |q.buf|);
    hide And, Pow2, ValidCapacity, ProducerHolds;
  }

  lemma WriteKeepsWindow<T>(buf: seq<T>, accepted: seq<T>, popped: seq<T>, item: T)
    requires Window(buf, accepted, popped) && |accepted| < |popped| + |buf|
    ensures Window(buf[|accepted| % |buf| := item], accepted, popped)
  {
    forall i | |popped| <= i < |accepted|
      ensures i % |buf| != |accepted| % |buf|
    {
      CellsDiffer(i, |accepted|, |buf|);
    }
  }

  lemma PushTestKeeps<T>(q: Queue<T>)
    requires Inv(q) && Enabled(q, PushTest)
    ensures Inv(After(q, PushTest))
  {
    RefusedIffFull(q);
    SlotAgrees(|q.accepted|, |q.buf|);
    if !SeesFull(q.producer.h, q.producer.t, |q.buf|) {
      hide And, Pow2, ValidCapacity, SeesFull;
      CountsOrdered(q);
      WriteKeepsWindow(q.buf, q.accepted, q.popped, q.producer.item);
      hide Window;
    }
  }

  lemma PushStoreKeeps<T>(q: Queue<T>)
    requires Inv(q) && Enabled(q, PushStore)
    ensures Inv(After(q, PushStore))
  {
    hide And, Pow2, ValidCapacity;
    IncrementAgrees(|q.accepted|);
    hide WrappingInc;
  }

  lemma PopTestKeeps<T>(q: Queue<T>)
    requires Inv(q) && Enabled(q, PopTest)
    ensures Inv(After(q, PopTest))
  {
    EmptyIffEmpty(q);
    SlotAgrees(|q.popped|, |q.buf|);
    hide And, Pow2, ValidCapacity, ProducerHolds;
  }

  lemma PopStoreKeeps<T>(q: Queue<T>)
    requires Inv(q) && Enabled(q, PopStore)
    ensures Inv(After(q, PopStore))
  {
    hide And, Pow2, ValidCapacity;
    IncrementAgrees(|q.popped|);
    hide WrappingInc;
  }

  lemma LoadKeeps<T>(q: Queue<T>, step: Step<T>)
    requires Inv(q) && Enabled(q, step)
    requires step.Push? || step.PushLoadTail? || step.Pop? || step.PopLoadHead?
    ensures Inv(After(q, step))
  {
    hide And, Pow2, ValidCapacity;
  }

  /** The masked index is always in bounds: neither side ever gets stuck in the middle of an operation. */
  lemma NeverStuck<T>(q: Queue<T>)
    requires Inv(q)
    ensures match q.producer
            case Resting => forall item :: Enabled(q, Push(item))
            case HaveHead(_, _) => Enabled(q, PushLoadTail)
            case HaveBoth(_, _, _, _) => Enabled(q, PushTest)
            case Wrote(_, _) => Enabled(q, PushStore)
    ensures match q.consumer
            case Waiting => Enabled(q, Pop)
            case HaveTail(_) => Enabled(q, PopLoadHead)
            case HaveEnds(_, _, _) => Enabled(q, PopTest)
            case Took(_, _) => Enabled(q, PopStore)
  {
    SlotAgrees(|q.accepted|, |q.buf|);
    SlotAgrees(|q.popped|, |q.buf|);
    hide And, Pow2, ValidCapacity, Window;
  }

  lemma StepKeeps<T>(q: Queue<T>, step: Step<T>)
    requires Inv(q) && Enabled(q, step)
    ensures Inv(After(q, step))
  {
    hide Inv, Enabled, After;
    match step
    case PushTest => PushTestKeeps(q);
    case PushStore => PushStoreKeeps(q);
    case PopTest => PopTestKeeps(q);
    case PopStore => PopStoreKeeps(q);
    case _ => LoadKeeps(q, step);
  }

  // ----- one operation alone -----

  /** `q'` is `q` but for the producer's part, or but for the consumer's. */
  ghost predicate Pushed<T>(q: Queue<T>, q': Queue<T>, accepted: seq<T>) {
    && Inv(q') && q'.producer.Resting? && q'.consumer == q.consumer && |q'.buf| == |q.buf|
    && q'.accepted == accepted && q'.popped == q.popped
  }

  ghost predicate Popped<T>(q: Queue<T>, q': Queue<T>, popped: seq<T>) {
    && Inv(q') && q'.consumer.Waiting? && q'.producer == q.producer && |q'.buf| == |q.buf|
    && q'.accepted == q.accepted && q'.popped == popped
  }

  /** After the tail is loaded, with room: the item is written and published. */
  ghost function PushRest<T>(q: Queue<T>): Queue<T>
    requires Inv(q) && q.producer.HaveBoth?
  {
    NeverStuck(q);
    StepKeeps(q, PushTest);
    var q1 := After(q, PushTest);
    NeverStuck(q1);
    if q1.producer.Wrote? then After(q1, PushStore) else q1
  }

  /** The steps of `push`, with nothing in between. */
  ghost function PushAlone<T>(q: Queue<T>, item: T): Queue<T>
    requires Inv(q) && q.producer.Resting?
  {
    NeverStuck(q);
    StepKeeps(q, Push(item));
    var q1 := After(q, Push(item));
    NeverStuck(q1);
    StepKeeps(q1, PushLoadTail);
    PushRest(After(q1, PushLoadTail))
  }

  lemma PushRestMeans<T>(q: Queue<T>)
    requires Inv(q) && q.producer.HaveBoth?
    ensures Pushed(q, PushRest(q), if |q.accepted| - q.producer.seen < |q.buf| then q.accepted + [q.producer.item]
                                   else q.accepted)
  {
    hide Inv, And;
    NeverStuck(q);
    StepKeeps(q, PushTest);
    PushWritesIffRoom(q);
    var q1 := After(q, PushTest);
    NeverStuck(q1);
    if q1.producer.Wrote? {
      StepKeeps(q1, PushStore);
    }
  }

  /** A push that is alone is accepted if the queue has room, and otherwise changes nothing that was in it. */
  lemma PushAloneMeans<T>(q: Queue<T>, item: T)
    requires Inv(q) && q.producer.Resting?
    ensures Pushed(q, PushAlone(q, item),
                   if |q.accepted| - |q.popped| < |q.buf| then q.accepted + [item] else q.accepted)
  {
    hide Inv, And, PushRest;
    NeverStuck(q);
    StepKeeps(q, Push(item));
    var q1 := After(q, Push(item));
    NeverStuck(q1);
    StepKeeps(q1, PushLoadTail);
    PushRestMeans(After(q1, PushLoadTail));
  }

  ghost function PopRest<T>(q: Queue<T>): Queue<T>
    requires Inv(q) && q.consumer.HaveEnds?
  {
    NeverStuck(q);
    StepKeeps(q, PopTest);
    var q1 := After(q, PopTest);
    NeverStuck(q1);
    if q1.consumer.Took? then After(q1, PopStore) else q1
  }

  /** The steps of `pop`, with nothing in between. */
  ghost function PopAlone<T>(q: Queue<T>): Queue<T>
    requires Inv(q) && q.consumer.Waiting?
  {
    NeverStuck(q);
    StepKeeps(q, Pop);
    var q1 := After(q, Pop);
    NeverStuck(q1);
    StepKeeps(q1, PopLoadHead);
    PopRest(After(q1, PopLoadHead))
  }

  lemma PopRestMeans<T>(q: Queue<T>)
    requires Inv(q) && q.consumer.HaveEnds?
    ensures q.consumer.seen > |q.popped| ==> |q.popped| < |q.accepted|
    ensures Popped(q, PopRest(q),
                   if q.consumer.seen > |q.popped| then q.popped + [q.accepted[|q.popped|]] else q.popped)
  {
    hide Inv, And;
    NeverStuck(q);
    StepKeeps(q, PopTest);
    PopTakesIffAny(q);
    var q1 := After(q, PopTest);
    NeverStuck(q1);
    if q1.consumer.Took? {
      StepKeeps(q1, PopStore);
    }
  }

  /** A pop that is alone takes the oldest item, or nothing from an empty queue. */
  lemma PopAloneMeans<T>(q: Queue<T>)
    requires Inv(q) && q.consumer.Waiting?
    ensures Popped(q, PopAlone(q), if |q.popped| < |q.accepted| then q.popped + [q.accepted[|q.popped|]] else q.popped)
  {
    hide Inv, And, PopRest;
    NeverStuck(q);
    StepKeeps(q, Pop);
    var q1 := After(q, Pop);
    NeverStuck(q1);
    StepKeeps(q1, PopLoadHead);
    PopRestMeans(After(q1, PopLoadHead));
  }

  // ----- every interleaving -----

  ghost predicate Possible<T>(buf: seq<T>, steps: seq<Step<T>>)
    decreases |steps|, 0
  {
    steps == [] ||
    var before := steps[..|steps| - 1];
    Possible(buf, before) && Enabled(Execute(buf, before), steps[|steps| - 1])
  }

  ghost function Execute<T>(buf: seq<T>, steps: seq<Step<T>>): Queue<T>
    requires Possible(buf, steps)
    decreases |steps|, 1
  {
    if steps == [] then Initial(buf) else After(Execute(buf, steps[..|steps| - 1]), steps[|steps| - 1])
  }

  lemma {:induction false} RunKeeps<T>(buf: seq<T>, steps: seq<Step<T>>)
    requires ValidCapacity(|buf|) && Possible(buf, steps)
    ensures Inv(Execute(buf, steps))
    decreases |steps|
  {
    hide Inv, Enabled, After, Initial, ValidCapacity;
    if steps == [] {
      InitialHolds(buf);
    } else {
      RunKeeps(buf, steps[..|steps| - 1]);
      StepKeeps(Execute(buf, steps[..|steps| - 1]), steps[|steps| - 1]);
    }
  }

  /**
   Linearisation: in every interleaving, with stale counters and counters that have wrapped, the items
   popped are the first of the items accepted, in order, and never more than the capacity are between.
   */
  lemma FirstInFirstOut<T>(buf: seq<T>, steps: seq<Step<T>>)
    requires IsPowerOfTwo(|buf|) && |buf| < WRAP && Possible(buf, steps)
    ensures var q := Execute(buf, steps);
            && q.popped <= q.accepted && |q.accepted| - |q.popped| <= |buf|
  {
    hide Execute, Possible, And;
    CapacityFromTest(|buf|);
    RunKeeps(buf, steps);
    CountsOrdered(Execute(buf, steps));
    SameCapacity(buf, steps);
    hide ProducerHolds, ConsumerHolds, ValidCapacity;
  }

  lemma {:induction false} SameCapacity<T>(buf: seq<T>, steps: seq<Step<T>>)
    requires Possible(buf, steps)
    ensures |Execute(buf, steps).buf| == |buf|
    decreases |steps|
  {
    if steps != [] {
      SameCapacity(buf, steps[..|steps| - 1]);
    }
  }

  lemma CapacityFromTest(cap: nat)
    requires IsPowerOfTwo(cap) && cap < WRAP
    ensures ValidCapacity(cap)
  {
    var k := OnlyPowersPass(cap);
    if k >= 64 {
      LargePower(k);
    }
  }

  lemma LargePower(k: nat)
    requires k >= 64
    ensures Pow2(k) >= WRAP
  {
    hide Pow2;
    Pow64();
    PowSplit(64, k - 64);
    assert Pow2(64) * Pow2(k - 64) >= Pow2(64);
  }

  /** An item in the consumer's hands is one that was accepted. */
  lemma TookAccepted<T>(q: Queue<T>)
    requires Inv(q) && q.consumer.Took?
    ensures q.consumer.item in q.accepted
  {
    hide Window, ProducerHolds, ValidCapacity;
  }
}
