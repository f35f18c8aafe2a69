/**
 The byte ring between the event loop and the flush thread, at the granularity of single loads, stores
 and byte copies. Every interleaving of the two threads is a run of this system.
 */
module AofRing {
  import opened Bytes
  import opened Modular

  /** Where `flush_once` or `flush_sync` stands: `t` and `h` are its local copies of the counters. */
  datatype Pass =
    | Start                                   // about to load head
    | GotHead(h: nat)                         // about to load tail
    | Writing(h: nat, t: nat, done: nat)      // `done` bytes of the h - t pending ones are written
    | Storing(h: nat)                         // all written; about to store tail
    | Finished

  /** Where the event loop stands in `ring_write` and `shutdown`. */
  datatype Producer =
    | Idle
    | Spinning(entry: seq<u8>)                            // about to load head in the spin loop
    | LoadedHead(entry: seq<u8>, h: nat)                  // about to load tail
    | LoadedBoth(entry: seq<u8>, h: nat, t: nat)          // about to test for room
    | HasRoom(entry: seq<u8>)                             // about to load head again
    | Copying(entry: seq<u8>, h: nat, copied: set<nat>)   // inside the one or two copies
    | Stopping                                            // running is false; joining the flush thread
    | Syncing(pass: Pass)                                 // joined; inside flush_sync
    | Closed

  /** Where the flush thread stands in `flush_loop`. */
  datatype Flusher =
    | AtTop                                   // about to test running
    | Flushing(pass: Pass, last: bool)        // inside flush_once; `last` for the final drain
    | Exited

  /** `log` is the history: the concatenation of all published entries. */
  datatype Ring = Ring(buf: seq<u8>, head: nat, tail: nat, file: seq<u8>, running: bool,
                       producer: Producer, flusher: Flusher, log: seq<u8>)

  datatype Step =
    | Append(entry: seq<u8>) | LoadHead | LoadTail | TestRoom | ReloadHead | CopyByte(i: nat) | Publish
    | StopRequest | Joined | SyncStep
    | TestRunning | FlushStep

  /** Where byte `i` of an entry goes: `offset + i`, or past the end of the first fragment the buffer's start. */
  function Target(h: nat, i: nat, size: nat): nat
    requires size > 0
  {
    var offset := h % size;
    var first := size - offset;
    if i < first then offset + i else i - first
  }

  lemma TargetInRange(h: nat, i: nat, size: nat)
    requires 0 < size && i < size
    ensures Target(h, i, size) < size
    ensures Target(h, i, size) == (h + i) % size
  {
    var offset := h % size;
    if i < size - offset {
      assert h + i == size * (h / size) + (offset + i);
      ModIs(h + i, size, h / size, offset + i);
    } else {
      assert h + i == size * (h / size + 1) + (i - (size - offset));
      ModIs(h + i, size, h / size + 1, i - (size - offset));
    }
  }

  /** The pending bytes fit in the buffer. Every reachable pass has this. */
  ghost predicate InBuffer(p: Pass, size: nat) {
    0 < size && (p.Writing? ==> p.h - p.t <= size)
  }

  /** One step of a flush pass: the new position, the new tail, and the bytes appended to the file. */
  function PassAfter(p: Pass, buf: seq<u8>, head: nat, tail: nat): (r: (Pass, nat, seq<u8>))
    requires InBuffer(p, |buf|)
  {
    match p
    case Start => (GotHead(head), tail, [])
    case GotHead(h) => (if h == tail then Finished else Writing(h, tail, 0), tail, [])
    case Writing(h, t, done) =>
      if t + done >= h then (Storing(h), tail, [])
      else
        TargetInRange(t, done, |buf|);
        (Writing(h, t, done + 1), tail, [buf[Target(t, done, |buf|)]])
    case Storing(h) => (Finished, h, [])
    case Finished => (Finished, tail, [])
  }

  ghost predicate Enabled(s: Ring, step: Step) {
    match step
    case Append(entry) => s.producer.Idle? && 0 < |entry| <= |s.buf|
    case LoadHead => s.producer.Spinning?
    case LoadTail => s.producer.LoadedHead?
    case TestRoom => s.producer.LoadedBoth?
    case ReloadHead => s.producer.HasRoom?
    case CopyByte(i) => s.producer.Copying? && i < |s.producer.entry| && i < |s.buf|
    case Publish => s.producer.Copying? && forall i: nat :: i < |s.producer.entry| ==> i in s.producer.copied
    case StopRequest => s.producer.Idle?
    case Joined => s.producer.Stopping? && s.flusher.Exited?
    case SyncStep => s.producer.Syncing? && InBuffer(s.producer.pass, |s.buf|)
    case TestRunning => s.flusher.AtTop?
    case FlushStep => s.flusher.Flushing? && InBuffer(s.flusher.pass, |s.buf|)
  }

  ghost function After(s: Ring, step: Step): Ring
    requires Enabled(s, step)
  {
    match step
    case Append(entry) => s.(producer := Spinning(entry))
    case LoadHead => s.(producer := LoadedHead(s.producer.entry, s.head))
    case LoadTail => s.(producer := LoadedBoth(s.producer.entry, s.producer.h, s.tail))
    case TestRoom =>
      var p := s.producer;
      s.(producer := if p.h - p.t + |p.entry| <= |s.buf| then HasRoom(p.entry) else Spinning(p.entry))
    case ReloadHead => s.(producer := Copying(s.producer.entry, s.head, {}))
    case CopyByte(i) =>
      var p := s.producer;
      TargetInRange(p.h, i, |s.buf|);
      s.(buf := s.buf[Target(p.h, i, |s.buf|) := p.entry[i]], producer := p.(copied := p.copied + {i}))
    case Publish => s.(head := s.producer.h + |s.producer.entry|, log := s.log + s.producer.entry, producer := Idle)
    case StopRequest => s.(running := false, producer := Stopping)
    case Joined => s.(producer := Syncing(Start))
    case SyncStep =>
      var (p, tail, written) := PassAfter(s.producer.pass, s.buf, s.head, s.tail);
      s.(producer := if p.Finished? then Closed else Syncing(p), tail := tail, file := s.file + written)
    case TestRunning => s.(flusher := Flushing(Start, !s.running))
    case FlushStep =>
      var (p, tail, written) := PassAfter(s.flusher.pass, s.buf, s.head, s.tail);
      s.(flusher := if !p.Finished? then Flushing(p, s.flusher.last) else if s.flusher.last then Exited else AtTop,
         tail := tail, file := s.file + written)
  }

  ghost function Initial(buf: seq<u8>): Ring {
    Ring(buf, 0, 0, [], true, Idle, AtTop, [])
  }

  // ----- the invariant -----

  /** How many bytes of its range a pass has written. */
  ghost function Written(p: Pass, tail: nat): int {
    match p
    case Writing(_, _, done) => done
    case Storing(h) => h - tail
    case _ => 0
  }

  ghost predicate PassHolds(p: Pass, head: nat, tail: nat) {
    match p
    case GotHead(h) => tail <= h <= head
    case Writing(h, t, done) => t == tail && tail + done <= h <= head
    case Storing(h) => tail <= h <= head
    case _ => true
  }

  /** The pass that is under way, in whichever thread it runs. */
  ghost function ActivePass(s: Ring): Pass {
    if s.producer.Syncing? then s.producer.pass
    else if s.flusher.Flushing? then s.flusher.pass
    else Finished
  }

  /** The cells from `tail` to `head` hold the published bytes that are not yet given up. */
  ghost predicate WindowHolds(buf: seq<u8>, head: nat, tail: nat, log: seq<u8>) {
    && tail <= head <= tail + |buf| && 0 < |buf| && |log| == head
    && forall k :: tail <= k < head ==> buf[k % |buf|] == log[k]
  }

  ghost predicate Copied(buf: seq<u8>, entry: seq<u8>, h: nat, copied: set<nat>)
    requires 0 < |buf|
  {
    forall i :: i in copied ==> i < |entry| && buf[(h + i) % |buf|] == entry[i]
  }

  ghost predicate ProducerHolds(s: Ring)
    requires 0 < |s.buf|
  {
    match s.producer
    case Spinning(entry) => 0 < |entry| <= |s.buf|
    case LoadedHead(entry, h) => 0 < |entry| <= |s.buf| && h == s.head
    case LoadedBoth(entry, h, t) => 0 < |entry| <= |s.buf| && h == s.head && t <= s.tail
    case HasRoom(entry) => 0 < |entry| && s.head + |entry| <= s.tail + |s.buf|
    case Copying(entry, h, copied) =>
      0 < |entry| && h == s.head && s.head + |entry| <= s.tail + |s.buf| && Copied(s.buf, entry, h, copied)
    case _ => true
  }

  /** The two threads never flush at the same time, and nothing is appended once the flusher may go. */
  ghost predicate PhasesHold(s: Ring) {
    && (s.running <==> !(s.producer.Stopping? || s.producer.Syncing? || s.producer.Closed?))
    && (s.producer.Syncing? || s.producer.Closed? ==> s.flusher.Exited?)
    && (s.flusher.Exited? || (s.flusher.Flushing? && s.flusher.last) ==> !s.running)
    && (s.producer.Syncing? ==> !s.producer.pass.Finished?)
    && (s.flusher.Flushing? ==> !s.flusher.pass.Finished?)
    && (s.producer.Syncing? && !s.producer.pass.Start? ==> s.producer.pass.h == s.head)
    && (s.producer.Closed? ==> s.tail == s.head)
  }

  ghost predicate Inv(s: Ring) {
    && WindowHolds(s.buf, s.head, s.tail, s.log)
    && PassHolds(ActivePass(s), s.head, s.tail)
    && s.file == s.log[..s.tail + Written(ActivePass(s), s.tail)]
    && ProducerHolds(s)
    && PhasesHold(s)
  }

  lemma InitialHolds(buf: seq<u8>)
    requires 0 < |buf|
    ensures Inv(Initial(buf))
  {
  }

  // ----- the event loop's steps -----

  lemma CopyKeepsWindow(buf: seq<u8>, head: nat, tail: nat, log: seq<u8>, i: nat, b: u8)
    requires WindowHolds(buf, head, tail, log) && head + i < tail + |buf|
    ensures WindowHolds(buf[(head + i) % |buf| := b], head, tail, log)
  {
    forall k | tail <= k < head
      ensures k % |buf| != (head + i) % |buf|
    {
      CellsDiffer(k, head + i, |buf|);
    }
  }

  lemma CopyAdds(buf: seq<u8>, entry: seq<u8>, h: nat, copied: set<nat>, i: nat)
    requires 0 < |buf| && |entry| <= |buf| && i < |entry| && Copied(buf, entry, h, copied)
    ensures Copied(buf[(h + i) % |buf| := entry[i]], entry, h, copied + {i})
  {
    forall j | j in copied && j != i
      ensures (h + j) % |buf| != (h + i) % |buf|
    {
      if j < i {
        CellsDiffer(h + j, h + i, |buf|);
      } else {
        CellsDiffer(h + i, h + j, |buf|);
      }
    }
  }

  lemma PublishKeepsWindow(buf: seq<u8>, head: nat, tail: nat, log: seq<u8>, entry: seq<u8>, copied: set<nat>)
    requires WindowHolds(buf, head, tail, log) && head + |entry| <= tail + |buf|
    requires Copied(buf, entry, head, copied) && forall i: nat :: i < |entry| ==> i in copied
    ensures WindowHolds(buf, head + |entry|, tail, log + entry)
  {
    forall k | tail <= k < head + |entry|
      ensures buf[k % |buf|] == (log + entry)[k]
    {
      if k >= head {
        assert k - head in copied;
        assert buf[(head + (k - head)) % |buf|] == entry[k - head];
      }
    }
  }

  lemma CopyByteKeeps(s: Ring, i: nat)
    requires Inv(s) && Enabled(s, CopyByte(i))
    ensures Inv(After(s, CopyByte(i)))
  {
    hide WindowHolds, Copied, Target;
    var p := s.producer;
    TargetInRange(p.h, i, |s.buf|);
    CopyKeepsWindow(s.buf, s.head, s.tail, s.log, i, p.entry[i]);
    RoomBound(s);
    CopyAdds(s.buf, p.entry, p.h, p.copied, i);
  }

  lemma RoomBound(s: Ring)
    requires Inv(s) && s.producer.Copying?
    ensures |s.producer.entry| <= |s.buf|
  {
  }

  lemma PublishKeeps(s: Ring)
    requires Inv(s) && Enabled(s, Publish)
    ensures Inv(After(s, Publish))
  {
    var p := s.producer;
    PublishKeepsWindow(s.buf, s.head, s.tail, s.log, p.entry, p.copied);
    var n := s.tail + Written(ActivePass(s), s.tail);
    assert n <= |s.log|;
    hide Copied, WindowHolds;
    assert (s.log + p.entry)[..n] == s.log[..n];
  }

  lemma ControlStepKeeps(s: Ring, step: Step)
    requires Inv(s) && Enabled(s, step)
    requires !step.CopyByte? && !step.Publish? && !step.SyncStep? && !step.FlushStep?
    ensures Inv(After(s, step))
  {
    hide PassAfter, Target;
  }

  // ----- flush passes -----

  /** A step of a pass appends to the file the next byte of the log, whatever the other thread is doing. */
  lemma PassKeeps(p: Pass, buf: seq<u8>, head: nat, tail: nat, log: seq<u8>, file: seq<u8>)
    requires WindowHolds(buf, head, tail, log) && PassHolds(p, head, tail) && InBuffer(p, |buf|)
    requires file == log[..tail + Written(p, tail)]
    ensures var (p', tail', written) := PassAfter(p, buf, head, tail);
            && tail <= tail' <= head && WindowHolds(buf, head, tail', log) && PassHolds(p', head, tail')
            && file + written == log[..tail' + Written(p', tail')]
  {
    match p
    case Writing(h, t, done) =>
      if t + done < h {
        TargetInRange(t, done, |buf|);
        assert log[..tail + done + 1] == log[..tail + done] + [log[tail + done]];
      }
    case _ =>
  }

  /** A pass never reads outside the buffer, so it can always take its next step. */
  lemma PassNeverStuck(s: Ring)
    requires Inv(s)
    ensures s.flusher.Flushing? ==> Enabled(s, FlushStep)
    ensures s.producer.Syncing? ==> Enabled(s, SyncStep)
  {
    hide Copied;
  }

  /** Once the flush thread has caught up, the spin of `ring_write` ends: a fresh look at the counters finds room. */
  lemma SpinEndsWhenFlushed(s: Ring)
    requires Inv(s) && s.producer.Spinning? && s.tail == s.head
    ensures Enabled(s, LoadHead) && Enabled(After(s, LoadHead), LoadTail)
    ensures After(After(After(s, LoadHead), LoadTail), TestRoom).producer == HasRoom(s.producer.entry)
  {
  }

  lemma SyncStepKeeps(s: Ring)
    requires Inv(s) && Enabled(s, SyncStep)
    ensures Inv(After(s, SyncStep))
  {
    hide WindowHolds, Copied;
    PassKeeps(s.producer.pass, s.buf, s.head, s.tail, s.log, s.file);
  }

  lemma FlushStepKeeps(s: Ring)
    requires Inv(s) && Enabled(s, FlushStep)
    ensures Inv(After(s, FlushStep))
  {
    hide WindowHolds, Copied, PassAfter;
    PassKeeps(s.flusher.pass, s.buf, s.head, s.tail, s.log, s.file);
  }

  lemma StepKeeps(s: Ring, step: Step)
    requires Inv(s) && Enabled(s, step)
    ensures Inv(After(s, step))
  {
    hide Inv, Enabled, After;
    match step
    case CopyByte(i) => CopyByteKeeps(s, i);
    case Publish => PublishKeeps(s);
    case SyncStep => SyncStepKeeps(s);
    case FlushStep => FlushStepKeeps(s);
    case _ => ControlStepKeeps(s, step);
  }

  // ----- every interleaving -----

  ghost predicate Possible(buf: seq<u8>, steps: seq<Step>)
    decreases |steps|, 0
  {
    steps == [] ||
    var before := steps[..|steps| - 1];
    Possible(buf, before) && Enabled(Execute(buf, before), steps[|steps| - 1])
  }

  ghost function Execute(buf: seq<u8>, steps: seq<Step>): Ring
    requires Possible(buf, steps)
    decreases |steps|, 1
  {
    if steps == [] then Initial(buf) else After(Execute(buf, steps[..|steps| - 1]), steps[|steps| - 1])
  }

  lemma {:induction false} RunKeeps(buf: seq<u8>, steps: seq<Step>)
    requires 0 < |buf| && Possible(buf, steps)
    ensures Inv(Execute(buf, steps))
    decreases |steps|
  {
    hide Inv, Enabled, After, Initial;
    if steps == [] {
      InitialHolds(buf);
    } else {
      RunKeeps(buf, steps[..|steps| - 1]);
      StepKeeps(Execute(buf, steps[..|steps| - 1]), steps[|steps| - 1]);
    }
  }

  /** The bytes the ring holds between two positions. */
  ghost function RingBytes(buf: seq<u8>, from: nat, to: nat): seq<u8>
    requires 0 < |buf| && from <= to
  {
    seq(to - from, i requires 0 <= i < to - from => buf[(from + i) % |buf|])
  }

  /**
   In every interleaving the file followed by what the ring still has to give is exactly the published
   entries, in order: nothing lost, doubled, reordered or half written, and never more than a ring full.
   */
  lemma NothingLostOrDoubled(buf: seq<u8>, steps: seq<Step>)
    requires 0 < |buf| && Possible(buf, steps)
    ensures var s := Execute(buf, steps);
            && 0 < |s.buf| && s.tail <= |s.file| <= s.head <= s.tail + |s.buf|
            && s.file + RingBytes(s.buf, |s.file|, s.head) == s.log
  {
    hide Possible, Execute;
    RunKeeps(buf, steps);
    var s := Execute(buf, steps);
    var rest := RingBytes(s.buf, |s.file|, s.head);
    assert forall i :: 0 <= i < |rest| ==> rest[i] == s.log[|s.file| + i];
  }

  /** The cells that the event loop has yet to write are none of those that a flush pass may still read. */
  lemma NoCellShared(buf: seq<u8>, steps: seq<Step>, i: nat, k: nat)
    requires 0 < |buf| && Possible(buf, steps)
    requires var s := Execute(buf, steps);
             s.producer.Copying? && i < |s.producer.entry| && s.tail <= k < s.head
    ensures var s := Execute(buf, steps);
            && i < |s.buf| && Target(s.producer.h, i, |s.buf|) != k % |s.buf|
            && (s.flusher.Flushing? && s.flusher.pass.Writing? ==>
                s.tail == s.flusher.pass.t && s.flusher.pass.h <= s.head)
  {
    hide Possible, Execute, Copied;
    RunKeeps(buf, steps);
    var s := Execute(buf, steps);
    TargetInRange(s.producer.h, i, |s.buf|);
    CellsDiffer(k, s.head + i, |s.buf|);
  }

  /** What the event loop was asked to append, in order. */
  function Appended(steps: seq<Step>): seq<u8> {
    if steps == [] then []
    else
      var before := Appended(steps[..|steps| - 1]);
      match steps[|steps| - 1]
      case Append(entry) => before + entry
      case _ => before
  }

  /** The entry being written, if any. */
  function InFlight(p: Producer): seq<u8> {
    match p
    case Spinning(entry) => entry
    case LoadedHead(entry, _) => entry
    case LoadedBoth(entry, _, _) => entry
    case HasRoom(entry) => entry
    case Copying(entry, _, _) => entry
    case _ => []
  }

  lemma StepAppends(s: Ring, step: Step)
    requires Enabled(s, step)
    ensures var s' := After(s, step);
            s'.log + InFlight(s'.producer) == s.log + InFlight(s.producer) + (if step.Append? then step.entry else [])
  {
    hide PassAfter, Target;
  }

  lemma {:induction false} PublishedIsAppended(buf: seq<u8>, steps: seq<Step>)
    requires Possible(buf, steps)
    ensures var s := Execute(buf, steps); s.log + InFlight(s.producer) == Appended(steps)
    decreases |steps|
  {
    if steps != [] {
      hide After, Enabled, InFlight;
      PublishedIsAppended(buf, steps[..|steps| - 1]);
      StepAppends(Execute(buf, steps[..|steps| - 1]), steps[|steps| - 1]);
    }
  }

  /** After stop, join and the last drain the file holds every appended entry, wherever the flusher stood. */
  lemma CleanShutdown(buf: seq<u8>, steps: seq<Step>)
    requires 0 < |buf| && Possible(buf, steps) && Execute(buf, steps).producer.Closed?
    ensures Execute(buf, steps).file == Appended(steps)
  {
    hide Possible, Execute, Appended;
    RunKeeps(buf, steps);
    PublishedIsAppended(buf, steps);
  }
}
