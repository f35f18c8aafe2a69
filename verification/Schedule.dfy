/** What a schedule of events does to the clients and the store, as a function of nothing else. */
module Schedules {
  import opened Bytes
  import opened Records
  import opened Replay
  import opened Aging
  import opened SnapshotFile
  import opened Conversation
  import opened Fairness
  import opened SerialOrder
  import Ttl

  /** What `epoll_wait`, the queue of expired keys, the snapshot timer and the snapshot child report. */
  datatype Turn =
    | Accept(stream: seq<u8>, script: seq<Event>)
    | Readable(who: nat, now: u64)
    | Writable(who: nat)
    | Drain(c: Ttl.Candidate, now: u64)
    | Fork(now: u64)
    | ChildEnds(renamed: bool)

  function TimeAfter(t: Turn, time: nat): nat {
    match t
    case Readable(_, now) => now
    case Drain(_, now) => now
    case Fork(now) => now
    case _ => time
  }

  function ForkAfter(t: Turn, forked: nat): nat {
    if t.Fork? then Max(forked, t.now) else forked
  }

  /**
   The premises on the schedule: the clock does not run backwards, a command reads a later time than the fork
   before it, and what the queue of expired keys yields has expired.
   */
  ghost predicate Timely(turns: seq<Turn>, time: nat, forked: nat, ttl: nat) {
    turns == [] ||
    var t := turns[0];
    && time <= TimeAfter(t, time)
    && (t.Readable? ==> forked < t.now)
    && (t.Drain? ==> Ttl.Expired(t.c, t.now, ttl))
    && Timely(turns[1..], TimeAfter(t, time), ForkAfter(t, forked), ttl)
  }

  /** What the drain does with a candidate: nothing, if the key is gone or was written since it was sampled. */
  function DrainedBy(c: Ttl.Candidate, now: nat, store: Contents): seq<Deed> {
    if c.uid in store && store[c.uid].lastWrite == c.lastWrite then [Drained(Eviction(c.uid, c.lastWrite, now))] else []
  }

  /** What the snapshot child is writing: the store when it was forked, and that time. */
  datatype Saving = Nothing | Saving(store: Contents, ts: u64)

  /**
   Every client as it stands with the system-call results to come, and all it ever sends; the store and all that was
   done to it; what loading `snapshot.bin` would give, and what the child is writing.
   */
  datatype World = World(clients: seq<Progress>, streams: seq<seq<u8>>, store: Contents, all: seq<Deed>,
                         disk: Load, child: Saving)

  /** What a read of the client comes to, before its frame is run. */
  ghost function ReadOf(w: World, who: nat): Progress
    requires who < |w.clients|
  {
    var p := w.clients[who];
    if Waiting(p.v) then ReadLoop(p.v, p.script) else p
  }

  ghost function RanBy(w: World, who: nat, now: u64, n: nat): (ran: seq<Executed>)
    requires who < |w.clients|
    ensures |ran| <= 1
  {
    Ran(ReadOf(w, who).v, w.store, now, n)
  }

  function ServedBy(who: nat, ran: seq<Executed>): seq<Deed> {
    if ran == [] then [] else [Served(who, ran[0])]
  }

  function StoreBy(c: Contents, ran: seq<Executed>, n: nat): Contents {
    if ran == [] then c else Effect(c, ran[0].cmd, ran[0].now, n)
  }

  /** The commands `ran` of `who` have joined the order, and the store has changed as they change it. */
  ghost predicate Noted(who: nat, ran: seq<Executed>, before: seq<Deed>, all: seq<Deed>, lim: Limits,
                        c: Contents, c': Contents)
  {
    && all == before + ServedBy(who, ran) && c' == StoreBy(c, ran, lim.n)
    && (ran != [] && ran[0].cmd.Push? ==> HasRoom(c, ran[0].cmd.uid, lim))
  }

  lemma SameEnd(h: seq<Executed>, a: seq<Executed>, b: seq<Executed>)
    requires h + a == h + b
    ensures a == b
  {
    assert a == (h + a)[|h|..] && b == (h + b)[|h|..];
  }

  ghost function AfterTurn(w: World, t: Turn, n: nat): World {
    match t
    case Accept(stream, script) =>
      w.(clients := w.clients + [Progress(View(ReadHeader, [], [], stream, []), script)],
         streams := w.streams + [stream])
    case Readable(who, now) =>
      if who < |w.clients| then
        var p, ran := ReadOf(w, who), RanBy(w, who, now, n);
        w.(clients := w.clients[who := Progress(AfterHandling(p.v, w.store, n), p.script)],
           store := StoreBy(w.store, ran, n), all := w.all + ServedBy(who, ran))
      else w
    case Writable(who) =>
      if who < |w.clients| then
        w.(clients := w.clients[who := WriteLoop(w.clients[who].v, w.clients[who].script)])
      else w
    case Drain(c, now) =>
      var gone := DrainedBy(c, now, w.store);
      w.(store := if gone == [] then w.store else w.store - {c.uid}, all := w.all + gone)
    case Fork(now) => if w.child.Nothing? then w.(child := Saving(w.store, now)) else w
    case ChildEnds(renamed) =>
      var saved := if renamed && w.child.Saving? then Load(Loaded(w.child.store), w.child.ts) else w.disk;
      w.(disk := saved, child := Nothing)
  }

  /** A drained key is gone exactly if it was not written since it was sampled; nothing else is touched. */
  lemma DrainLeads(w: World, c: Ttl.Candidate, now: u64, n: nat)
    ensures AfterTurn(w, Drain(c, now), n)
         == if c.uid in w.store && w.store[c.uid].lastWrite == c.lastWrite then
              w.(store := w.store - {c.uid}, all := w.all + [Drained(Eviction(c.uid, c.lastWrite, now))])
            else w
  {
    assert w.all + [] == w.all;
  }

  lemma ReadLeads(w: World, who: nat, now: u64, all: seq<Deed>, store: Contents, lim: Limits)
    requires who < |w.clients| && Noted(who, RanBy(w, who, now, lim.n), w.all, all, lim, w.store, store)
    ensures var w' := AfterTurn(w, Readable(who, now), lim.n);
            && w' == w.(clients := w'.clients, all := all, store := store) && |w'.clients| == |w.clients|
            && w'.clients[who] == Progress(AfterHandling(ReadOf(w, who).v, w.store, lim.n), ReadOf(w, who).script)
            && forall i :: 0 <= i < |w.clients| && i != who ==> w'.clients[i] == w.clients[i]
    ensures !Fatal(w, Readable(who, now), lim)
  {
    hide RanBy, ReadOf, AfterHandling, HasRoom;
  }

  /** The turn runs a PUSH for a new user with every slot live. */
  ghost predicate Fatal(w: World, t: Turn, lim: Limits) {
    && t.Readable? && t.who < |w.clients|
    && var ran := RanBy(w, t.who, t.now, lim.n);
       ran != [] && ran[0].cmd.Push? && !HasRoom(w.store, ran[0].cmd.uid, lim)
  }

  ghost function AfterTurns(w: World, turns: seq<Turn>, n: nat): World
    decreases turns
  {
    if turns == [] then w else AfterTurns(AfterTurn(w, turns[0], n), turns[1..], n)
  }

  ghost predicate Survives(w: World, turns: seq<Turn>, lim: Limits)
    decreases turns
  {
    turns == [] || (!Fatal(w, turns[0], lim) && Survives(AfterTurn(w, turns[0], lim.n), turns[1..], lim))
  }

  lemma {:induction false} AfterTurnsConcat(w: World, a: seq<Turn>, b: seq<Turn>, n: nat)
    ensures AfterTurns(w, a + b, n) == AfterTurns(AfterTurns(w, a, n), b, n)
    decreases a
  {
    hide AfterTurn;
    if a == [] {
      assert a + b == b;
    } else {
      assert (a + b)[1..] == a[1..] + b;
      AfterTurnsConcat(AfterTurn(w, a[0], n), a[1..], b, n);
    }
  }

  // ----- what the turns come to -----

  /** A writing turn with calls enough sends the whole answer, and the client may ask again. */
  lemma WriteTurnSends(w: World, who: nat, n: nat)
    requires who < |w.clients|
    requires var p := w.clients[who];
             p.v.state.WriteResponse? && p.v.out != [] && Willing(p.script) && |p.script| >= |p.v.out|
    ensures var v, w' := w.clients[who].v, AfterTurn(w, Writable(who), n);
            && |w'.clients| == |w.clients|
            && w'.clients[who].v == v.(state := ReadHeader, out := [], sent := v.sent + v.out)
  {
    hide WriteLoop;
    WritesFinish(w.clients[who].v, w.clients[who].script);
  }

  /** The drain of the loop does to the store what the guard of the eviction pipeline does. */
  lemma DrainIsGuard(w: World, s: Ttl.System, c: Ttl.Candidate, now: u64, n: nat, ttl: nat)
    requires s.loop == Ttl.Guarding(c) && s.store == w.store && s.now == now
    ensures var w', s' := AfterTurn(w, Drain(c, now), n), Ttl.After(s, Ttl.Guard, n, ttl);
            && w'.store == s'.store
            && (w'.all == w.all <==> s'.evictions == s.evictions)
            && (w'.all != w.all ==>
                exists gone :: w'.all == w.all + [Drained(gone)] && s'.evictions == s.evictions + [gone])
  {
    DrainLeads(w, c, now, n);
    var gone := Eviction(c.uid, c.lastWrite, now);
    assert w.all + [Drained(gone)] != w.all && s.evictions + [gone] != s.evictions;
  }

  /** The child's file is not touched until the child ends. */
  lemma {:induction false} ChildKeeps(w: World, turns: seq<Turn>, n: nat)
    requires w.child.Saving? && forall t :: t in turns ==> !t.ChildEnds?
    ensures AfterTurns(w, turns, n).child == w.child
    decreases turns
  {
    hide ReadOf, RanBy, AfterHandling, WriteLoop, DrainedBy, StoreBy, ServedBy;
    if turns != [] {
      assert turns[0] in turns;
      ChildKeeps(AfterTurn(w, turns[0], n), turns[1..], n);
    }
  }

  /** Whatever happens between a fork and its rename, the snapshot then loads to the store at the fork. */
  lemma SnapshotIsStoreAtFork(w: World, now: u64, turns: seq<Turn>, n: nat)
    requires w.child.Nothing? && forall t :: t in turns ==> !t.ChildEnds?
    ensures AfterTurns(w, [Fork(now)] + turns + [ChildEnds(true)], n).disk == Load(Loaded(w.store), now)
  {
    var w1 := AfterTurn(w, Fork(now), n);
    ChildKeeps(w1, turns, n);
    var w2 := AfterTurns(w1, turns, n);
    OneTurn(w, Fork(now), n);
    OneTurn(w2, ChildEnds(true), n);
    hide AfterTurns;
    AfterTurnsConcat(w, [Fork(now)], turns, n);
    AfterTurnsConcat(w, [Fork(now)] + turns, [ChildEnds(true)], n);
  }

  lemma OneTurn(w: World, t: Turn, n: nat)
    ensures AfterTurns(w, [t], n) == AfterTurn(w, t, n)
  {
    hide AfterTurn;
    assert [t][1..] == [];
  }

  // ----- every client that is looked after is served to its end -----

  /** How many times over the client was both read from and written to; the flags are for the round under way. */
  function Rounds(turns: seq<Turn>, who: nat, read: bool, written: bool): nat {
    if turns == [] then 0
    else
      var r := read || (turns[0].Readable? && turns[0].who == who);
      var w := written || (turns[0].Writable? && turns[0].who == who);
      if r && w then 1 + Rounds(turns[1..], who, false, false) else Rounds(turns[1..], who, r, w)
  }

  /** The client is on track, and is read from and written to as many times over as it has calls to come. */
  ghost predicate Looked(w: World, turns: seq<Turn>, who: nat, n: nat)
    requires who < |w.clients|
  {
    OnTrack(w.clients[who], n) && Rounds(turns, who, false, false) >= |w.clients[who].script|
  }

  /** One turn of anyone: a client on track stays so, and spends calls if the turn is one it waits for. */
  lemma TurnOnTrack(w: World, t: Turn, who: nat, n: nat)
    requires who < |w.clients| && OnTrack(w.clients[who], n)
    ensures var w' := AfterTurn(w, t, n);
            && who < |w'.clients|
            && var p, p' := w.clients[who], w'.clients[who];
               && OnTrack(p', n) && (Settled(p.v) ==> Settled(p'.v)) && (p' == p || |p'.script| < |p.script|)
               && (t == Writable(who) && p.v.state.WriteResponse? && !Settled(p.v) ==> |p'.script| < |p.script|)
               && (t.Readable? && t.who == who && Reading(p.v) && !Settled(p.v) ==> |p'.script| < |p.script|)
  {
    hide ReadLoop, WriteLoop, AfterHandling, Ran, DrainedBy, StoreBy, ServedBy, Waiting, Patient, Calls, Settled;
    var p := w.clients[who];
    assert Waiting(p.v);
    ReadOnTrack(p, w.store, n);
    WriteOnTrack(p, n);
    if !Settled(p.v) {
      CallsToCome(p, n);
    }
    hide OnTrack;
  }

  /** Where a client stands within a round that began with `left` calls to come. */
  ghost predicate InRound(p: Progress, read: bool, written: bool, left: nat) {
    || Settled(p.v)
    || |p.script| < left
    || (|p.script| == left && (read ==> !Reading(p.v)) && (written ==> !p.v.state.WriteResponse?))
  }

  lemma RoundGoesOn(p: Progress, p': Progress, read: bool, written: bool, r: bool, w: bool, left: nat)
    requires InRound(p, read, written, left) && (p' == p || |p'.script| < |p.script|)
    requires Settled(p.v) ==> Settled(p'.v)
    requires r && !read && Reading(p.v) && !Settled(p.v) ==> |p'.script| < |p.script|
    requires w && !written && p.v.state.WriteResponse? && !Settled(p.v) ==> |p'.script| < |p.script|
    ensures InRound(p', r, w, left)
  {
    hide Settled;
  }

  lemma {:induction false} RoundsSpend(w: World, turns: seq<Turn>, who: nat, n: nat,
                                       read: bool, written: bool, left: nat)
    requires who < |w.clients| && OnTrack(w.clients[who], n) && InRound(w.clients[who], read, written, left)
    requires !(read && written)
    ensures var w' := AfterTurns(w, turns, n);
            && who < |w'.clients| && OnTrack(w'.clients[who], n)
            && (Settled(w.clients[who].v) ==> Settled(w'.clients[who].v))
            && (Settled(w'.clients[who].v) || |w'.clients[who].script| + Rounds(turns, who, read, written) <= left)
    decreases turns
  {
    hide AfterTurn, OnTrack, Settled;
    if turns != [] {
      var t, w1 := turns[0], AfterTurn(w, turns[0], n);
      TurnOnTrack(w, t, who, n);
      var p, p1 := w.clients[who], w1.clients[who];
      var r, wr := read || (t.Readable? && t.who == who), written || (t.Writable? && t.who == who);
      RoundGoesOn(p, p1, read, written, r, wr, left);
      if r && wr {
        RoundEnds(p1, n, left);
        RoundsSpend(w1, turns[1..], who, n, false, false, if left > 0 then left - 1 else 0);
      } else {
        RoundsSpend(w1, turns[1..], who, n, r, wr, left);
      }
    }
  }

  lemma RoundEnds(p: Progress, n: nat, left: nat)
    requires OnTrack(p, n) && InRound(p, true, true, left)
    ensures Settled(p.v) || (left > 0 && InRound(p, false, false, left - 1))
    ensures Settled(p.v) ==> InRound(p, false, false, 0)
  {
    hide Waiting, Patient, Calls;
  }

  /**
   Fair service. Whatever else happens in between, to this client and to the others: a client that no call fails,
   with calls enough to come that move a byte, is settled once it has been read from and written to as many times
   over as it has calls to come. It was read to its end or its first bad frame, and every answer is sent.
   */
  lemma FairService(w: World, turns: seq<Turn>, who: nat, n: nat)
    requires who < |w.clients| && Looked(w, turns, who, n)
    ensures var w' := AfterTurns(w, turns, n); who < |w'.clients| && Settled(w'.clients[who].v)
  {
    hide AfterTurns, OnTrack, Settled;
    var left := |w.clients[who].script|;
    RoundsSpend(w, turns, who, n, false, false, left);
    var w' := AfterTurns(w, turns, n);
    if !Settled(w'.clients[who].v) {
      CallsToCome(w'.clients[who], n);
    }
  }

  /** How many clients came. */
  function Accepts(turns: seq<Turn>): nat {
    if turns == [] then 0 else (if turns[0].Accept? then 1 else 0) + Accepts(turns[1..])
  }

  /** Clients are numbered as they come, and what one sends stays what it is. */
  lemma {:induction false} ClientsCome(w: World, turns: seq<Turn>, n: nat)
    requires |w.streams| == |w.clients|
    ensures var w' := AfterTurns(w, turns, n);
            && |w'.clients| == |w'.streams| == |w.clients| + Accepts(turns) && w.streams <= w'.streams
    decreases turns
  {
    hide ReadOf, RanBy, AfterHandling, WriteLoop, DrainedBy, StoreBy, ServedBy;
    if turns != [] {
      ClientsCome(AfterTurn(w, turns[0], n), turns[1..], n);
    }
  }

  /** The client that comes with turn `i` is looked after long enough, whatever it sends. */
  ghost predicate Welcome(turns: seq<Turn>, i: nat, n: nat) {
    && i < |turns| && turns[i].Accept?
    && Patient(turns[i].script) && Grants(turns[i].script) >= |turns[i].stream| * (8 + 17 * n)
    && Rounds(turns[i + 1..], Accepts(turns[..i]), false, false) >= |turns[i].script|
  }

  /** It is served to its end, too. */
  lemma NewcomerServed(w: World, turns: seq<Turn>, i: nat, n: nat)
    requires w.clients == [] && w.streams == [] && Welcome(turns, i, n)
    ensures var who, w' := Accepts(turns[..i]), AfterTurns(w, turns, n);
            && who < |w'.clients| == |w'.streams| && Settled(w'.clients[who].v) && w'.streams[who] == turns[i].stream
  {
    hide AfterTurns, OnTrack, Settled, Grants, Patient, Accepts, Rounds;
    var stream, script := turns[i].stream, turns[i].script;
    var w1 := AfterTurns(w, turns[..i], n);
    var w2 := AfterTurn(w1, turns[i], n);
    ClientsCome(w, turns[..i], n);
    FreshOnTrack(stream, script, n);
    ClientsCome(w2, turns[i + 1..], n);
    FairService(w2, turns[i + 1..], |w1.clients|, n);
    SplitAt(w, turns, i, n);
  }

  lemma SplitAt(w: World, turns: seq<Turn>, i: nat, n: nat)
    requires i < |turns|
    ensures AfterTurns(w, turns, n)
         == AfterTurns(AfterTurn(AfterTurns(w, turns[..i], n), turns[i], n), turns[i + 1..], n)
  {
    hide AfterTurn, AfterTurns;
    OneTurn(AfterTurns(w, turns[..i], n), turns[i], n);
    AfterTurnsConcat(w, turns[..i], [turns[i]], n);
    AfterTurnsConcat(w, turns[..i] + [turns[i]], turns[i + 1..], n);
    assert turns == turns[..i] + [turns[i]] + turns[i + 1..];
  }
}
