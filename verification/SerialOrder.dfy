/** All that the event loop does to the store, in the one order in which it does it, and what each client sees of it. */
module SerialOrder {
  import opened Bytes
  import opened Records
  import opened Aging
  import opened Wire
  import opened Conversation

  /** A command of connection `who`, or a key that the drain erased. */
  datatype Deed = Served(who: nat, e: Executed) | Drained(gone: Eviction)

  /** The commands of one connection. */
  function Share(all: seq<Deed>, who: nat): seq<Executed> {
    if all == [] then []
    else
      var before, last := Share(all[..|all| - 1], who), all[|all| - 1];
      if last.Served? && last.who == who then before + [last.e] else before
  }

  lemma ShareAppend(all: seq<Deed>, d: Deed, who: nat)
    ensures Share(all + [d], who) == if d.Served? && d.who == who then Share(all, who) + [d.e] else Share(all, who)
  {
    assert (all + [d])[..|all|] == all;
  }

  lemma {:induction false} NoShare(all: seq<Deed>, who: nat)
    requires forall i :: 0 <= i < |all| && all[i].Served? ==> all[i].who != who
    ensures Share(all, who) == []
    decreases |all|
  {
    if all != [] {
      NoShare(all[..|all| - 1], who);
    }
  }

  function AfterDeed(c: Contents, d: Deed, n: nat): Contents {
    match d
    case Served(_, e) => Effect(c, e.cmd, e.now, n)
    case Drained(gone) => c - {gone.uid}
  }

  /** The store after all deeds, one by one, on `c`. */
  function StoreAfter(all: seq<Deed>, c: Contents, n: nat): Contents {
    if all == [] then c else AfterDeed(StoreAfter(all[..|all| - 1], c, n), all[|all| - 1], n)
  }

  lemma StoreAfterAppend(all: seq<Deed>, d: Deed, c: Contents, n: nat)
    ensures StoreAfter(all + [d], c, n) == AfterDeed(StoreAfter(all, c, n), d, n)
  {
    hide AfterDeed;
    assert (all + [d])[..|all|] == all;
  }

  /** A deed fits the store it is done on: a command ran on it, and an erased key had idled past the TTL in it. */
  ghost predicate DoneOn(d: Deed, c: Contents, ttl: nat) {
    match d
    case Served(_, e) => e.before == c
    case Drained(gone) =>
      gone.uid in c && c[gone.uid].lastWrite == gone.lastWrite && gone.at - gone.lastWrite > ttl
  }

  /** Each deed was done on the store that those before it left. */
  ghost predicate Serial(all: seq<Deed>, c: Contents, n: nat, ttl: nat) {
    forall i :: 0 <= i < |all| ==> DoneOn(all[i], StoreAfter(all[..i], c, n), ttl)
  }

  lemma SerialAppend(all: seq<Deed>, d: Deed, c: Contents, n: nat, ttl: nat)
    requires Serial(all, c, n, ttl) && DoneOn(d, StoreAfter(all, c, n), ttl)
    ensures Serial(all + [d], c, n, ttl)
  {
    hide StoreAfter, DoneOn;
    forall i | 0 <= i <= |all|
      ensures (all + [d])[..i] == all[..i]
    {
    }
    assert all[..|all|] == all;
  }

  // ----- the answers are a function of the order -----

  /** A deed without its time, its store and its answer. */
  datatype Act = Do(who: nat, cmd: Command) | Drop(uid: u32)

  function ActOf(d: Deed): Act {
    match d
    case Served(who, e) => Do(who, e.cmd)
    case Drained(gone) => Drop(gone.uid)
  }

  function ActsOf(all: seq<Deed>): (acts: seq<Act>)
    ensures |acts| == |all|
  {
    seq(|all|, i requires 0 <= i < |all| => ActOf(all[i]))
  }

  /** The store after a list of acts, with the write times left out. */
  function RunActs(c: Contents, acts: seq<Act>, n: nat): Contents {
    if acts == [] then c
    else
      var before := RunActs(c, acts[..|acts| - 1], n);
      match acts[|acts| - 1]
      case Do(_, cmd) => Effect(before, cmd, 0, n)
      case Drop(uid) => before - {uid}
  }

  /** The commands of one client. */
  function CommandsBy(acts: seq<Act>, who: nat): seq<Command> {
    if acts == [] then []
    else
      var before, last := CommandsBy(acts[..|acts| - 1], who), acts[|acts| - 1];
      if last.Do? && last.who == who then before + [last.cmd] else before
  }

  /** The answers that one client gets when the acts are done one after the other on `c`. */
  function Answers(c: Contents, acts: seq<Act>, who: nat, n: nat): seq<u8> {
    if acts == [] then []
    else
      var front, last := acts[..|acts| - 1], acts[|acts| - 1];
      Answers(c, front, who, n) + if last.Do? && last.who == who then Respond(RunActs(c, front, n), last.cmd) else []
  }

  /** The same users with the same records. */
  ghost predicate Alike(a: Contents, b: Contents) {
    a.Keys == b.Keys && forall uid :: uid in a ==> a[uid].records == b[uid].records
  }

  /** No answer shows a write time. */
  lemma AlikeAnswerAlike(a: Contents, b: Contents, cmd: Command)
    requires Alike(a, b)
    ensures Respond(a, cmd) == Respond(b, cmd)
  {
    hide RecordsResponse, StatusResponse, Latest;
  }

  lemma AlikeAfterEffect(a: Contents, b: Contents, cmd: Command, at: u64, bt: u64, n: nat)
    requires Alike(a, b)
    ensures Alike(Effect(a, cmd, at, n), Effect(b, cmd, bt, n))
  {
    hide Newest;
  }

  lemma AlikeAfterDrop(a: Contents, b: Contents, uid: u32)
    requires Alike(a, b)
    ensures Alike(a - {uid}, b - {uid})
  {
  }

  lemma AlikeItself(c: Contents)
    ensures Alike(c, c)
  {
  }

  lemma ActsFront(all: seq<Deed>)
    requires all != []
    ensures ActsOf(all)[..|all| - 1] == ActsOf(all[..|all| - 1])
  {
  }

  /** Write times decide which keys are drained, and nothing else that a client can see. */
  lemma {:induction false} TimesDoNotMatter(all: seq<Deed>, c: Contents, n: nat)
    ensures Alike(StoreAfter(all, c, n), RunActs(c, ActsOf(all), n))
    decreases |all|
  {
    hide Effect, Alike;
    if all == [] {
      AlikeItself(c);
    } else {
      var front, last := all[..|all| - 1], all[|all| - 1];
      TimesDoNotMatter(front, c, n);
      ActsFront(all);
      var a, b := StoreAfter(front, c, n), RunActs(c, ActsOf(front), n);
      match last
      case Served(_, e) => AlikeAfterEffect(a, b, e.cmd, e.now, 0, n);
      case Drained(gone) => AlikeAfterDrop(a, b, gone.uid);
    }
  }

  lemma {:induction false} ShareIsCommandsBy(all: seq<Deed>, who: nat)
    ensures CommandsOf(Share(all, who)) == CommandsBy(ActsOf(all), who)
    decreases |all|
  {
    if all != [] {
      ShareIsCommandsBy(all[..|all| - 1], who);
      ActsFront(all);
    }
  }

  lemma AnsweredFront(h: seq<Executed>, e: Executed, n: nat)
    requires Answered(h + [e], n)
    ensures Answered(h, n) && e.response == Respond(e.before, e.cmd)
  {
    hide Acceptable, Respond;
    assert (h + [e])[|h|] == e;
    assert forall i :: 0 <= i < |h| ==> (h + [e])[i] == h[i];
  }

  lemma SerialFront(all: seq<Deed>, c: Contents, n: nat, ttl: nat)
    requires all != [] && Serial(all, c, n, ttl)
    ensures Serial(all[..|all| - 1], c, n, ttl)
    ensures DoneOn(all[|all| - 1], StoreAfter(all[..|all| - 1], c, n), ttl)
  {
    hide StoreAfter, DoneOn;
    forall i | 0 <= i < |all|
      ensures all[..|all| - 1][..i] == all[..i]
    {
    }
  }

  lemma NoAnswers(c: Contents, who: nat, n: nat)
    ensures Answers(c, [], who, n) == [] == Responses([])
  {
  }

  /** What each client was answered is what the acts, done one after the other, answer it. */
  lemma {:induction false} ResponsesAreAnswers(all: seq<Deed>, who: nat, c: Contents, n: nat, ttl: nat)
    requires Answered(Share(all, who), n) && Serial(all, c, n, ttl)
    ensures Responses(Share(all, who)) == Answers(c, ActsOf(all), who, n)
    decreases |all|
  {
    hide Respond, Alike, Answered, StoreAfter, RunActs, Serial, Responses;
    if all == [] {
      NoAnswers(c, who, n);
    } else {
      var front, last := all[..|all| - 1], all[|all| - 1];
      SerialFront(all, c, n, ttl);
      ActsFront(all);
      if last.Served? && last.who == who {
        AnsweredFront(Share(front, who), last.e, n);
        ResponsesAppend(Share(front, who), last.e);
        TimesDoNotMatter(front, c, n);
        AlikeAnswerAlike(last.e.before, RunActs(c, ActsOf(front), n), last.e.cmd);
      }
      ResponsesAreAnswers(front, who, c, n, ttl);
    }
  }

  /**
   Chunking independence: the bytes that a settled connection has sent are a function of the order of commands
   and evictions and of the store at the start, and its own commands in that order are those of its stream. No
   choice of read and write sizes enters, and no time but through what was evicted.
   */
  lemma ChunkingIndependence(v: View, stream: seq<u8>, all: seq<Deed>, who: nat, c: Contents, n: nat, ttl: nat)
    requires Holds(v, stream, Share(all, who), n) && Settled(v) && Serial(all, c, n, ttl)
    ensures CommandsBy(ActsOf(all), who) == ParseStream(stream, n).commands
    ensures v.sent == Answers(c, ActsOf(all), who, n)
  {
    hide Answers, Serial, ParseStream, Responses, CommandsOf, Settled, CommandsBy, ActsOf, Share;
    SettledMeansParsed(v, stream, Share(all, who), n);
    ShareIsCommandsBy(all, who);
    ResponsesAreAnswers(all, who, c, n, ttl);
  }

  /** At every moment a client's commands are the first of its stream, and what it was sent the first of its answers. */
  lemma SharePrefix(v: View, stream: seq<u8>, all: seq<Deed>, who: nat, c: Contents, n: nat, ttl: nat)
    requires Holds(v, stream, Share(all, who), n) && Serial(all, c, n, ttl)
    ensures CommandsBy(ActsOf(all), who) <= ParseStream(stream, n).commands
    ensures v.sent <= Answers(c, ActsOf(all), who, n)
  {
    hide Answers, Serial, ParseStream, Responses, CommandsOf, CommandsBy, ActsOf, Share;
    RunCommandsArePrefix(v, stream, Share(all, who), n);
    ShareIsCommandsBy(all, who);
    ResponsesAreAnswers(all, who, c, n, ttl);
  }

  /** One client's commands and nothing between them. */
  function DoAll(who: nat, cmds: seq<Command>): seq<Act> {
    seq(|cmds|, i requires 0 <= i < |cmds| => Do(who, cmds[i]))
  }

  /** A client that is alone, while nothing is evicted, sees its own commands only. */
  lemma {:induction false} AloneIsDoAll(acts: seq<Act>, who: nat)
    requires forall i :: 0 <= i < |acts| ==> acts[i].Do? && acts[i].who == who
    ensures acts == DoAll(who, CommandsBy(acts, who))
    decreases |acts|
  {
    if acts != [] {
      AloneIsDoAll(acts[..|acts| - 1], who);
      assert acts == acts[..|acts| - 1] + [acts[|acts| - 1]];
    }
  }
}
