/** What replaying log entries over a loaded snapshot leaves in a store of a given size. */
module Replay {
  import opened Bytes
  import opened Records
  import opened Operations
  import opened AofCodec

  /** `Exhausted` is the allocator's assertion: a new user arrived with every slot live. */
  datatype Outcome = Loaded(contents: Contents) | Exhausted

  /** The compiled N and the number of slots. */
  datatype Limits = Limits(n: nat, slots: nat)

  predicate HasRoom(c: Contents, uid: u32, lim: Limits) {
    uid in c || |c| < lim.slots
  }

  /** An entry that replay acts on, if it is newer than the snapshot. */
  predicate Known(e: LogEntry) {
    (e.opcode == OPCODE_PUSH && |e.payload| == 17) || e.opcode == OPCODE_DEL
  }

  function ReplayEntry(c: Contents, e: LogEntry, since: u64, lim: Limits): Outcome {
    if e.ts <= since then Loaded(c)
    else if e.opcode == OPCODE_PUSH && |e.payload| == 17 then
      if HasRoom(c, e.uid, lim) then Loaded(PushTo(c, e.uid, DecodeRecord(e.payload), e.ts, lim.n)) else Exhausted
    else if e.opcode == OPCODE_DEL then Loaded(c - {e.uid})
    else Loaded(c)
  }

  function ReplayAll(c: Contents, es: seq<LogEntry>, since: u64, lim: Limits): Outcome
    decreases es
  {
    if es == [] then Loaded(c)
    else
      match ReplayEntry(c, es[0], since, lim)
      case Exhausted => Exhausted
      case Loaded(c') => ReplayAll(c', es[1..], since, lim)
  }

  function Then(o: Outcome, es: seq<LogEntry>, since: u64, lim: Limits): Outcome {
    match o
    case Exhausted => Exhausted
    case Loaded(c) => ReplayAll(c, es, since, lim)
  }

  /** Replay composes: a log read in two parts gives what it gives in one. */
  lemma {:induction false} ReplayConcat(c: Contents, a: seq<LogEntry>, b: seq<LogEntry>, since: u64, lim: Limits)
    ensures ReplayAll(c, a + b, since, lim) == Then(ReplayAll(c, a, since, lim), b, since, lim)
    decreases a
  {
    hide ReplayEntry;
    if a == [] {
      assert a + b == b;
    } else {
      assert (a + b)[1..] == a[1..] + b;
      match ReplayEntry(c, a[0], since, lim)
      case Exhausted =>
      case Loaded(c') => ReplayConcat(c', a[1..], b, since, lim);
    }
  }

  /** An entry of a future version, inserted anywhere between entries, changes nothing. */
  lemma UnknownEntryIsSkipped(c: Contents, a: seq<LogEntry>, e: LogEntry, b: seq<LogEntry>, since: u64, lim: Limits)
    requires !Known(e)
    ensures ReplayAll(c, a + [e] + b, since, lim) == ReplayAll(c, a + b, since, lim)
  {
    hide ReplayAll;
    assert a + [e] + b == a + ([e] + b);
    ReplayConcat(c, a, [e] + b, since, lim);
    ReplayConcat(c, a, b, since, lim);
    match ReplayAll(c, a, since, lim)
    case Exhausted =>
    case Loaded(c') =>
      ReplayConcat(c', [e], b, since, lim);
      ReplayOne(c', e, since, lim);
  }

  lemma ReplayOne(c: Contents, e: LogEntry, since: u64, lim: Limits)
    ensures ReplayAll(c, [e], since, lim) == ReplayEntry(c, e, since, lim)
  {
    hide ReplayEntry;
    assert [e][1..] == [];
  }

  // ----- logs that the server itself wrote -----

  /** The operations that replay does not skip. */
  function Newer(ops: seq<Op>, since: u64): (r: seq<Op>)
    ensures |r| <= |ops| && forall i :: 0 <= i < |r| ==> r[i].ts > since
  {
    if ops == [] then []
    else if ops[0].ts <= since then Newer(ops[1..], since)
    else [ops[0]] + Newer(ops[1..], since)
  }

  lemma {:induction false} NewerConcat(a: seq<Op>, b: seq<Op>, since: u64)
    ensures Newer(a + b, since) == Newer(a, since) + Newer(b, since)
  {
    if a == [] {
      assert a + b == b;
    } else {
      assert (a + b)[1..] == a[1..] + b;
      NewerConcat(a[1..], b, since);
    }
  }

  ghost predicate AllNewer(ops: seq<Op>, since: u64) {
    forall i :: 0 <= i < |ops| ==> ops[i].ts > since
  }

  ghost predicate NoneNewer(ops: seq<Op>, since: u64) {
    forall i :: 0 <= i < |ops| ==> ops[i].ts <= since
  }

  lemma {:induction false} NewerAll(ops: seq<Op>, since: u64)
    ensures Newer(ops, since) == ops <==> AllNewer(ops, since)
  {
    if ops != [] {
      NewerAll(ops[1..], since);
      assert ops == [ops[0]] + ops[1..];
    }
  }

  lemma {:induction false} NewerNone(ops: seq<Op>, since: u64)
    ensures Newer(ops, since) == [] <==> NoneNewer(ops, since)
  {
    if ops != [] {
      NewerNone(ops[1..], since);
      assert ops == [ops[0]] + ops[1..];
    }
  }

  /**
   The timestamp cutoff keeps exactly the operations after the first `k`, those the snapshot lacks,
   if and only if the clock separates them: no earlier operation is newer than the snapshot, and
   no later one is as old as it.
   */
  lemma CutoffExactIffClockSeparates(ops: seq<Op>, k: nat, since: u64)
    requires k <= |ops|
    ensures Newer(ops, since) == ops[k..] <==> NoneNewer(ops[..k], since) && AllNewer(ops[k..], since)
  {
    hide Newer;
    var a, b := ops[..k], ops[k..];
    assert ops == a + b;
    NewerConcat(a, b, since);
    NewerAll(b, since);
    NewerNone(a, since);
    if Newer(ops, since) == b {
      assert AllNewer(b, since);
    }
    hide AllNewer, NoneNewer;
  }

  /** No prefix of the operations ever needs more slots than there are. */
  ghost predicate Fits(c: Contents, ops: seq<Op>, lim: Limits) {
    forall i :: 0 <= i <= |ops| ==> |Run(c, ops[..i], lim.n)| <= lim.slots
  }

  lemma RunFromSecond(c: Contents, ops: seq<Op>, i: nat, n: nat)
    requires 1 <= i <= |ops|
    ensures Run(c, ops[..i], n) == Run(Apply(c, ops[0], n), ops[1..][..i - 1], n)
  {
    assert ops[..i] == [ops[0]] + ops[1..][..i - 1];
    RunConcat(c, [ops[0]], ops[1..][..i - 1], n);
    RunStep(c, [], ops[0], n);
    assert [] + [ops[0]] == [ops[0]];
  }

  lemma FitsFromSecond(c: Contents, ops: seq<Op>, lim: Limits)
    requires ops != []
    ensures Fits(c, ops, lim) <==> |c| <= lim.slots && Fits(Apply(c, ops[0], lim.n), ops[1..], lim)
  {
    hide Run, Apply;
    RunNothing(c, lim.n);
    assert ops[..0] == [];
    var c1 := Apply(c, ops[0], lim.n);
    forall i | 1 <= i <= |ops|
      ensures Run(c, ops[..i], lim.n) == Run(c1, ops[1..][..i - 1], lim.n)
    {
      RunFromSecond(c, ops, i, lim.n);
    }
    if Fits(c, ops, lim) {
      forall j | 0 <= j <= |ops[1..]|
        ensures |Run(c1, ops[1..][..j], lim.n)| <= lim.slots
      {
        assert Run(c, ops[..j + 1], lim.n) == Run(c1, ops[1..][..j + 1 - 1], lim.n);
      }
    }
  }

  lemma RunNothing(c: Contents, n: nat)
    ensures Run(c, [], n) == c
  {
  }

  lemma ReplayOp(c: Contents, op: Op, since: u64, lim: Limits)
    requires op.ts > since && |c| <= lim.slots
    ensures ReplayEntry(c, EntryOf(op), since, lim)
         == if |Apply(c, op, lim.n)| <= lim.slots then Loaded(Apply(c, op, lim.n)) else Exhausted
  {
    ApplySize(c, op, lim.n);
    if op.Push? {
      RecordRoundTrip(op.record);
    }
  }

  /**
   Replaying the server's own log gives the operations newer than the snapshot, applied in order,
   if and only if the slots suffice all the way; otherwise the process dies in the allocator.
   */
  lemma {:induction false} ReplayMeans(c: Contents, ops: seq<Op>, since: u64, lim: Limits)
    requires |c| <= lim.slots
    ensures ReplayAll(c, EntriesOf(ops), since, lim)
         == if Fits(c, Newer(ops, since), lim) then Loaded(Run(c, Newer(ops, since), lim.n)) else Exhausted
    decreases ops
  {
    hide Run, Apply, EntryOf, Fits;
    if ops == [] {
      RunNothing(c, lim.n);
      FitsNothing(c, lim);
    } else {
      var es := EntriesOf(ops);
      assert es[1..] == EntriesOf(ops[1..]);
      if ops[0].ts <= since {
        SkippedOp(c, ops[0], since, lim);
        ReplayMeans(c, ops[1..], since, lim);
      } else {
        var newer := Newer(ops, since);
        assert newer[1..] == Newer(ops[1..], since);
        ReplayOp(c, ops[0], since, lim);
        FitsFromSecond(c, newer, lim);
        var c' := Apply(c, ops[0], lim.n);
        if |c'| <= lim.slots {
          ReplayMeans(c', ops[1..], since, lim);
          RunFromSecond(c, newer, |newer|, lim.n);
          assert newer[..|newer|] == newer;
          assert newer[1..][..|newer| - 1] == newer[1..];
        } else {
          FitsStart(c', newer[1..], lim);
        }
      }
    }
  }

  lemma SkippedOp(c: Contents, op: Op, since: u64, lim: Limits)
    requires op.ts <= since
    ensures ReplayEntry(c, EntryOf(op), since, lim) == Loaded(c)
  {
  }

  lemma FitsNothing(c: Contents, lim: Limits)
    requires |c| <= lim.slots
    ensures Fits(c, [], lim)
  {
    RunNothing(c, lim.n);
    var none: seq<Op> := [];
    assert none[..0] == none;
  }

  lemma FitsEnd(c: Contents, ops: seq<Op>, lim: Limits)
    requires Fits(c, ops, lim)
    ensures |Run(c, ops, lim.n)| <= lim.slots
  {
    hide Run;
    assert ops[..|ops|] == ops;
  }

  lemma FitsOneMore(c: Contents, ops: seq<Op>, op: Op, lim: Limits)
    requires Fits(c, ops, lim)
    ensures Fits(c, ops + [op], lim) <==> |Run(c, ops + [op], lim.n)| <= lim.slots
  {
    hide Run;
    var more := ops + [op];
    assert more[..|more|] == more;
    forall i | 0 <= i <= |ops|
      ensures more[..i] == ops[..i]
    {
    }
  }

  lemma FitsStart(c: Contents, ops: seq<Op>, lim: Limits)
    ensures Fits(c, ops, lim) ==> |c| <= lim.slots
  {
    assert ops[..0] == [];
    RunNothing(c, lim.n);
  }
}
