/** What a restart makes of the two files on disk. */
module Restart {
  import opened Bytes
  import opened AofCodec
  import opened Replay
  import opened SnapshotFile

  datatype OnDisk = Missing | File(bytes: seq<u8>)

  function BytesOf(f: OnDisk): seq<u8> {
    if f.Missing? then [] else f.bytes
  }

  function LoadFile(f: OnDisk, lim: Limits): Load {
    match f
    case Missing => Load(Loaded(map[]), 0)
    case File(bytes) => LoadSnapshot(map[], bytes, lim)
  }

  /** The store a restart comes up with: the snapshot, then the log entries newer than it. */
  function Recovered(snapshot: OnDisk, aof: OnDisk, lim: Limits): Outcome {
    var load := LoadFile(snapshot, lim);
    Then(load.outcome, ParseLog(BytesOf(aof)), load.ts, lim)
  }
}
