/** Logged operations, and what a whole history of them leaves in a store. */
module Operations {
  import opened Bytes
  import opened Records

  /** The two operations that change the store on behalf of a client. */
  datatype Op =
    | Push(uid: u32, record: Record, ts: u64)
    | Del(uid: u32, ts: u64)

  function Apply(c: Contents, op: Op, n: nat): Contents {
    match op
    case Push(uid, r, ts) => PushTo(c, uid, r, ts, n)
    case Del(uid, _) => c - {uid}
  }

  lemma ApplySize(c: Contents, op: Op, n: nat)
    ensures |Apply(c, op, n)|
         == |c| + if op.Push? then (if op.uid in c then 0 else 1) else (if op.uid in c then -1 else 0)
  {
    hide PushBuffer;
    var c' := Apply(c, op, n);
    assert |c'| == |c'.Keys| && |c| == |c.Keys|;
    if op.Push? {
      assert c'.Keys == c.Keys + {op.uid};
    } else {
      assert c'.Keys == c.Keys - {op.uid};
    }
  }

  /** Applies the operations in order. */
  function Run(c: Contents, ops: seq<Op>, n: nat): Contents
    decreases |ops|
  {
    if ops == [] then c else Apply(Run(c, ops[..|ops| - 1], n), ops[|ops| - 1], n)
  }

  lemma RunStep(c: Contents, ops: seq<Op>, op: Op, n: nat)
    ensures Run(c, ops + [op], n) == Apply(Run(c, ops, n), op, n)
  {
    assert (ops + [op])[..|ops|] == ops;
  }

  lemma {:induction false} RunConcat(c: Contents, a: seq<Op>, b: seq<Op>, n: nat)
    ensures Run(c, a + b, n) == Run(Run(c, a, n), b, n)
    decreases |b|
  {
    if b == [] {
      assert a + b == a;
    } else {
      var last := |b| - 1;
      RunConcat(c, a, b[..last], n);
      assert (a + b)[..|a| + last] == a + b[..last];
    }
  }

  lemma {:induction false} RunWellFormed(c: Contents, ops: seq<Op>, n: nat)
    requires WellFormed(c, n) && n > 0
    ensures WellFormed(Run(c, ops, n), n)
    decreases |ops|
  {
    if ops != [] {
      RunWellFormed(c, ops[..|ops| - 1], n);
    }
  }

  /** The records pushed to `uid` since it was last deleted, with the time of the last push. */
  function PushedSince(ops: seq<Op>, uid: u32): (b: Buffer)
    decreases |ops|
  {
    if ops == [] then EMPTY_BUFFER
    else
      var before := PushedSince(ops[..|ops| - 1], uid);
      match ops[|ops| - 1]
      case Push(u, r, ts) => if u == uid then Buffer(before.records + [r], ts) else before
      case Del(u, _) => if u == uid then EMPTY_BUFFER else before
  }

  lemma NewestOfNewest<T>(s: seq<T>, x: T, n: nat)
    ensures Newest(Newest(s, n) + [x], n) == Newest(s + [x], n)
  {
  }

  /**
   A user is present exactly when something was pushed to it since its last deletion, and then it holds
   the newest N of those records: nothing of another user, nothing from before the deletion.
   */
  lemma {:induction false} HistoryDecidesContents(ops: seq<Op>, uid: u32, n: nat)
    requires n > 0
    ensures var pushed := PushedSince(ops, uid);
            var c := Run(map[], ops, n);
            if pushed.records == [] then uid !in c
            else uid in c && c[uid] == Buffer(Newest(pushed.records, n), pushed.lastWrite)
    decreases |ops|
  {
    if ops != [] {
      var before := ops[..|ops| - 1];
      HistoryDecidesContents(before, uid, n);
      match ops[|ops| - 1]
      case Push(u, r, ts) =>
        if u == uid {
          NewestOfNewest(PushedSince(before, uid).records, r, n);
        }
      case Del(u, _) =>
    }
  }
}
