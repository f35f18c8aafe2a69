/** Why a client that is looked after long enough is served to its end, however its calls are cut, delayed and mixed. */
module Fairness {
  import opened Bytes
  import opened Records
  import opened Conversation

  /**
   A connection that will be served to its end: no call to come fails, and among them are enough that move a byte
   for all that is still to be read and answered. Calls that block may come anywhere between.
   */
  ghost predicate OnTrack(p: Progress, n: nat) {
    && Waiting(p.v) && Patient(p.script) && !p.v.state.Process? && !p.v.state.Gone?
    && (Reading(p.v) ==> p.v.out == [])
    && (p.v.state.WriteResponse? ==> p.v.out != [] && p.v.pending == [])
    && (Settled(p.v) || Grants(p.script) >= Calls(p.v, n))
  }

  lemma FreshOnTrack(stream: seq<u8>, script: seq<Event>, n: nat)
    requires Patient(script) && Grants(script) >= |stream| * (8 + 17 * n)
    ensures OnTrack(Progress(View(ReadHeader, [], [], stream, []), script), n)
  {
  }

  /** A connection of the server that has not ended, with enough calls to come. */
  lemma ValidOnTrack(v: View, script: seq<Event>, stream: seq<u8>, h: seq<Executed>, n: nat)
    requires Holds(v, stream, h, n) && !v.state.Process? && !v.state.Gone?
    requires Patient(script) && Grants(script) >= Calls(v, n)
    ensures OnTrack(Progress(v, script), n)
  {
    hide Holds, Waiting, Settled, Patient, Calls;
    HoldsWaiting(v, stream, h, n);
    if Reading(v) {
      NothingOut(v, stream, h, n);
    } else if v.state.WriteResponse? {
      PendingEmpty(v, stream, h, n);
    }
  }

  /** There is a call to come until nothing is left to do. */
  lemma CallsToCome(p: Progress, n: nat)
    requires OnTrack(p, n) && !Settled(p.v)
    ensures p.script != []
  {
    hide Waiting, Patient;
    EnoughToRead(p.v, n);
  }

  lemma AtTheEnd(v: View, script: seq<Event>, n: nat)
    requires OnTrack(Progress(v, script), n)
    ensures Settled(v) <==> v.state.Dropped? || (!v.state.WriteResponse? && v.incoming == [])
  {
    hide Waiting, Patient, Calls;
  }

  lemma CallsShrink(before: nat, after: nat, n: nat)
    requires after <= before
    ensures before * (8 + 17 * n) - (before - after) >= after * (8 + 17 * n)
  {
    if after < before {
      CallsSuffice(before, after, 0, n);
    }
  }

  // ----- reading -----

  ghost function Handle(p: Progress, c: Contents, n: nat): Progress
    requires Waiting(p.v)
  {
    var r := ReadLoop(p.v, p.script);
    Progress(AfterHandling(r.v, c, n), r.script)
  }

  /** While reading goes on, no more calls are spent than bytes were read. */
  lemma StillReading(p: Progress, r: Progress, n: nat)
    requires OnTrack(p, n) && Reading(p.v) && Reading(r.v) && ReadOn(p.v, r.v) && Waiting(r.v) && Patient(r.script)
    requires Grants(r.script) + |p.v.incoming| >= Grants(p.script) + |r.v.incoming| || r.v.incoming == []
    ensures OnTrack(r, n) && (Settled(p.v) ==> Settled(r.v))
  {
    hide Waiting, Patient;
    CallsShrink(|p.v.incoming|, |r.v.incoming|, n);
  }

  /** A whole frame was read, and has paid for its answer. */
  lemma FrameHandled(p: Progress, r: Progress, c: Contents, n: nat)
    requires OnTrack(p, n) && Reading(p.v) && r.v.state.Process? && ReadOn(p.v, r.v) && Patient(r.script)
    requires |r.v.incoming| < |p.v.incoming| && Grants(r.script) + |p.v.incoming| >= Grants(p.script) + |r.v.incoming|
    ensures OnTrack(Progress(AfterHandling(r.v, c, n), r.script), n)
  {
    hide Patient, AfterHandling;
    HandlingEnds(r.v, c, n);
    var v' := AfterHandling(r.v, c, n);
    if v'.state.WriteResponse? {
      CallsSuffice(|p.v.incoming|, |r.v.incoming|, |v'.out|, n);
    }
  }

  lemma ReadOnTrack(p: Progress, c: Contents, n: nat)
    requires OnTrack(p, n)
    ensures var p' := Handle(p, c, n);
            && OnTrack(p', n) && (Settled(p.v) ==> Settled(p'.v))
            && (if Reading(p.v) && p.script != [] then |p'.script| < |p.script| else p' == p)
  {
    hide ReadLoop, Waiting, Patient, Calls, ReadOn;
    var r := ReadLoop(p.v, p.script);
    ReadLoopUses(p.v, p.script);
    ReadLoopIs(p.v, p.script);
    ReadLoopTakes(p.v, p.script);
    ReadLoopPays(p.v, p.script);
    NotEnded(p.script, |p.script| - |r.script|);
    if Reading(p.v) && p.script != [] {
      if Reading(r.v) {
        StillReading(p, r, n);
      } else if r.v.state.Process? {
        FrameHandled(p, r, c, n);
        SettledStays(p, r);
      }
    }
  }

  lemma NotEnded(script: seq<Event>, used: nat)
    requires Patient(script) && used <= |script|
    ensures used > 0 ==> !Ends(script[used - 1])
    ensures Patient(script[used..])
  {
  }

  /** Without a call that fails or finds it closed, the connection does not end, however often calls block. */
  lemma StaysWithUs(v: View, script: seq<Event>)
    requires Waiting(v) && !v.state.Gone? && Patient(script)
    ensures !ReadLoop(v, script).v.state.Gone?
  {
    hide ReadLoop, Waiting, Patient;
    ReadLoopIs(v, script);
    NotEnded(script, |script| - |ReadLoop(v, script).script|);
  }

  lemma WritesToUs(v: View, script: seq<Event>)
    requires v.state.WriteResponse? && v.out != [] && Patient(script)
    ensures !WriteLoop(v, script).v.state.Gone?
  {
    hide WriteLoop, Patient;
    WriteLoopIs(v, script);
    NotEnded(script, |script| - |WriteLoop(v, script).script|);
  }

  lemma SettledStays(p: Progress, r: Progress)
    requires Reading(p.v) && |r.v.incoming| < |p.v.incoming|
    ensures !Settled(p.v)
  {
  }

  // ----- writing -----

  lemma WriteOnTrack(p: Progress, n: nat)
    requires OnTrack(p, n)
    ensures var p' := WriteLoop(p.v, p.script);
            && OnTrack(p', n) && (Settled(p.v) ==> Settled(p'.v))
            && (if p.v.state.WriteResponse? && p.script != [] then |p'.script| < |p.script| else p' == p)
  {
    hide WriteLoop, Patient, Waiting, Calls;
    if p.v.state.WriteResponse? {
      var p' := WriteLoop(p.v, p.script);
      WriteLoopIs(p.v, p.script);
      WriteLoopSends(p.v, p.script);
      NotEnded(p.script, |p.script| - |p'.script|);
      CallsLeft(p.v, p'.v, n);
      NothingPending(p'.v);
    } else {
      NothingToWrite(p.v, p.script);
    }
  }

  lemma CallsLeft(v: View, v': View, n: nat)
    requires v'.incoming == v.incoming
    ensures Calls(v', n) + |v.out| == Calls(v, n) + |v'.out|
  {
  }

  lemma NothingPending(v: View)
    requires v.pending == [] && (v.state.ReadHeader? || v.state.WriteResponse?)
    ensures Waiting(v)
  {
  }

  lemma NothingToWrite(v: View, script: seq<Event>)
    requires !v.state.WriteResponse?
    ensures WriteLoop(v, script) == Progress(v, script)
  {
  }
}
