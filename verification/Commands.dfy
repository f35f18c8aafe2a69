/** The commands' work on the log and the store, in the order the server does it. */
module Commands {
  import opened Bytes
  import opened Records
  import opened Operations
  import opened AofCodec
  import opened Replay
  import opened Stores
  import opened AofWriters
  import opened Wire
  import Recovery

  /** The log entry is appended before the store is touched; `ok` is false when no slot is left for it. */
  method LogAndPush(store: Store, aof: AofWriter, uid: u32, rec: Record, now: u64) returns (ok: bool)
    requires store.Valid() && aof.Valid() && store.mem != aof.buf
    modifies store, store.mem, aof, aof.buf
    ensures store.Valid() && aof.Valid()
    ensures aof.Log() == old(aof.Log()) + EncodeEntry(EntryOf(Operations.Push(uid, rec, now)))
    ensures ok == HasRoom(old(store.Model()), uid, Recovery.LimitsOf(store.cfg))
    ensures ok ==> store.Model() == PushTo(old(store.Model()), uid, rec, now, store.cfg.capacity)
    ensures !ok ==> store.Model() == old(store.Model())
  {
    hide Store.Valid, Store.Model, AofWriter.Log, AofWriter.Valid, PushTo, EncodeEntry, EntryOf;
    aof.Append(Operations.Push(uid, rec, now));
    ok := store.CreateAndPush(uid, rec, now);
  }

  /** The log entry first, then the erasure; deleting an absent user is no error. */
  method LogAndErase(store: Store, aof: AofWriter, uid: u32, now: u64)
    requires store.Valid() && aof.Valid() && store.mem != aof.buf
    modifies store, store.mem, aof, aof.buf
    ensures store.Valid() && aof.Valid()
    ensures aof.Log() == old(aof.Log()) + EncodeEntry(EntryOf(Operations.Del(uid, now)))
    ensures store.Model() == old(store.Model()) - {uid}
  {
    hide Store.Valid, Store.Model, AofWriter.Log, AofWriter.Valid, EncodeEntry, EntryOf;
    aof.Append(Operations.Del(uid, now));
    store.Erase(uid);
  }

  /** Reads the newest records of a user, newest first. */
  method Lookup(store: Store, uid: u32, count: u16) returns (found: bool, records: seq<Record>)
    requires store.Valid()
    ensures found == (uid in store.Model())
    ensures found ==> records == Latest(store.Model()[uid].records, count) && |records| <= store.cfg.capacity
  {
    hide Store.Valid, Store.Model;
    found, records := uid in store.rings, [];
    if found {
      store.RingOf(uid);
      records := store.GetLast(uid, count);
      assert records == Latest(store.Stored(uid), count);
    }
  }
}
