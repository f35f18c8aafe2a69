/** How a store that evicts idle keys relates to one that replays the same operations and never evicts. */
module Aging {
  import opened Bytes
  import opened Records
  import opened Operations

  /** One TTL eviction: the key, its last write, and the time it was erased. None of it is logged. */
  datatype Eviction = Eviction(uid: u32, lastWrite: u64, at: nat)

  ghost predicate WasEvicted(evictions: seq<Eviction>, uid: u32, lastWrite: u64, ttl: nat) {
    exists i :: 0 <= i < |evictions| && evictions[i].uid == uid && evictions[i].lastWrite == lastWrite
             && evictions[i].at - lastWrite > ttl
  }

  predicate IsSuffix<T(==)>(a: seq<T>, b: seq<T>) {
    |a| <= |b| && a == b[|b| - |a|..]
  }

  /**
   `live` is `replayed` minus what was evicted: every live key is replayed with the same write time and
   with its records as the newest part, and every other replayed key had idled past the TTL when erased.
   */
  ghost predicate Covers(live: Contents, replayed: Contents, evictions: seq<Eviction>, ttl: nat) {
    && (forall uid :: uid in live ==>
          && uid in replayed
          && live[uid].lastWrite == replayed[uid].lastWrite
          && IsSuffix(live[uid].records, replayed[uid].records))
    && (forall uid :: uid in replayed && uid !in live ==>
          WasEvicted(evictions, uid, replayed[uid].lastWrite, ttl))
  }

  lemma CoversItself(c: Contents, evictions: seq<Eviction>, ttl: nat)
    ensures Covers(c, c, evictions, ttl)
  {
  }

  /** Eviction only ever makes the live store the smaller one. */
  lemma CoversSize(live: Contents, replayed: Contents, evictions: seq<Eviction>, uid: u32, ttl: nat)
    requires Covers(live, replayed, evictions, ttl)
    ensures |live| <= |replayed|
    ensures uid in replayed && uid !in live ==> |live| < |replayed|
  {
    hide WasEvicted, IsSuffix;
    assert live.Keys <= replayed.Keys;
    KeysSize(live, replayed, uid);
  }

  lemma KeysSize(a: Contents, b: Contents, uid: u32)
    requires a.Keys <= b.Keys
    ensures |a| <= |b| && (uid in b && uid !in a ==> |a| < |b|)
  {
    assert |a| == |a.Keys| && |b| == |b.Keys|;
    SubsetSize(a.Keys, b.Keys);
    if uid in b && uid !in a {
      SubsetSize(a.Keys, b.Keys - {uid});
    }
  }

  lemma EvictedStays(evictions: seq<Eviction>, e: Eviction, uid: u32, lastWrite: u64, ttl: nat)
    requires WasEvicted(evictions, uid, lastWrite, ttl)
    ensures WasEvicted(evictions + [e], uid, lastWrite, ttl)
  {
    var i :| 0 <= i < |evictions| && evictions[i].uid == uid && evictions[i].lastWrite == lastWrite
             && evictions[i].at - lastWrite > ttl;
    assert (evictions + [e])[i] == evictions[i];
  }

  lemma CoversWithMore(live: Contents, replayed: Contents, evictions: seq<Eviction>, e: Eviction, ttl: nat)
    requires Covers(live, replayed, evictions, ttl)
    ensures Covers(live, replayed, evictions + [e], ttl)
  {
    hide WasEvicted;
    forall uid | uid in replayed && uid !in live
      ensures WasEvicted(evictions + [e], uid, replayed[uid].lastWrite, ttl)
    {
      EvictedStays(evictions, e, uid, replayed[uid].lastWrite, ttl);
    }
  }

  lemma CoversAfterEvict(live: Contents, replayed: Contents, evictions: seq<Eviction>, uid: u32, at: nat, ttl: nat)
    requires Covers(live, replayed, evictions, ttl)
    requires uid in live && at - live[uid].lastWrite > ttl
    ensures Covers(live - {uid}, replayed, evictions + [Eviction(uid, live[uid].lastWrite, at)], ttl)
  {
    var e := Eviction(uid, live[uid].lastWrite, at);
    CoversWithMore(live, replayed, evictions, e, ttl);
    assert (evictions + [e])[|evictions|] == e;
    assert WasEvicted(evictions + [e], uid, replayed[uid].lastWrite, ttl);
    hide WasEvicted, IsSuffix;
  }

  lemma SuffixesNest<T>(s: seq<T>, i: nat, j: nat)
    requires i <= j <= |s|
    ensures IsSuffix(s[j..], s[i..])
  {
    assert s[i..][j - i..] == s[j..];
  }

  lemma SuffixAfterPush<T>(a: seq<T>, b: seq<T>, x: T, n: nat)
    requires IsSuffix(a, b)
    ensures IsSuffix(Newest(a + [x], n), Newest(b + [x], n))
  {
    var s, d := b + [x], |b| - |a|;
    assert a + [x] == s[d..] && s == s[0..];
    hide IsSuffix, Newest;
    NewestTail(s, 0, n);
    NewestTail(s, d, n);
    SuffixesNest(s, if |s| <= n then 0 else |s| - n, if |s| - d <= n then d else |s| - n);
  }

  lemma NewestTail<T>(s: seq<T>, d: nat, n: nat)
    requires d <= |s|
    ensures Newest(s[d..], n) == s[if |s| - d <= n then d else |s| - n..]
  {
    if |s| - d > n {
      assert s[d..][|s| - d - n..] == s[|s| - n..];
    }
  }

  lemma PushedIsSuffix(live: Contents, replayed: Contents, evictions: seq<Eviction>,
                       uid: u32, r: Record, ts: u64, n: nat, ttl: nat)
    requires Covers(live, replayed, evictions, ttl)
    ensures IsSuffix(PushBuffer(GetOrEmpty(live, uid), r, ts, n).records,
                     PushBuffer(GetOrEmpty(replayed, uid), r, ts, n).records)
  {
    hide WasEvicted, Newest;
    assert IsSuffix(GetOrEmpty(live, uid).records, GetOrEmpty(replayed, uid).records);
    hide IsSuffix;
    SuffixAfterPush(GetOrEmpty(live, uid).records, GetOrEmpty(replayed, uid).records, r, n);
  }

  lemma CoversAfterPush(live: Contents, replayed: Contents, evictions: seq<Eviction>,
                        uid: u32, r: Record, ts: u64, n: nat, ttl: nat)
    requires Covers(live, replayed, evictions, ttl)
    ensures Covers(PushTo(live, uid, r, ts, n), PushTo(replayed, uid, r, ts, n), evictions, ttl)
  {
    hide WasEvicted, Newest, IsSuffix, GetOrEmpty;
    PushedIsSuffix(live, replayed, evictions, uid, r, ts, n, ttl);
  }

  lemma CoversAfterDel(live: Contents, replayed: Contents, evictions: seq<Eviction>, uid: u32, ttl: nat)
    requires Covers(live, replayed, evictions, ttl)
    ensures Covers(live - {uid}, replayed - {uid}, evictions, ttl)
  {
    hide WasEvicted, IsSuffix;
  }

  lemma CoversAfterOp(live: Contents, replayed: Contents, evictions: seq<Eviction>, op: Op, n: nat, ttl: nat)
    requires Covers(live, replayed, evictions, ttl)
    ensures Covers(Apply(live, op, n), Apply(replayed, op, n), evictions, ttl)
  {
    hide Covers, PushTo;
    match op
    case Push(uid, r, ts) => CoversAfterPush(live, replayed, evictions, uid, r, ts, n, ttl);
    case Del(uid, _) => CoversAfterDel(live, replayed, evictions, uid, ttl);
  }
}
