/** The in-memory key-value store and its write batches. Encoding of keys and values is the
    identity here: a value is a number or the record of a node. */
module Database {
  import opened MerkleSpec
  import opened VersionList

  datatype DbKey = LatestVersionKey | RecentVersionKey | NodeKey(key: Key)

  /** What is stored of a node: its version list, its fourteen internals, and of each child
      only the version list. */
  datatype Record = Record(children: seq<Option<seq<VersionInfo>>>,
                           internals: seq<Option<Digest>>,
                           versions: seq<VersionInfo>,
                           path: nat)

  datatype DbValue = Number(n: nat) | Stored(record: Record)

  type Table = map<DbKey, DbValue>

  datatype Write = Put(key: DbKey, value: DbValue) | Remove(key: DbKey)

  function ApplyOne(m: Table, w: Write): Table {
    match w
    case Put(k, v) => m[k := v]
    case Remove(k) => m - {k}
  }

  /** The table after the writes have been replayed in order. */
  function Replay(m: Table, ws: seq<Write>): Table {
    if ws == [] then m else ApplyOne(Replay(m, ws[..|ws| - 1]), ws[|ws| - 1])
  }

  class MemoryDB {
    var db: Table

    constructor ()
      ensures db == map[]
    {
      db := map[];
    }

    method Get(key: DbKey) returns (r: Option<DbValue>)
      ensures r == if key in db then Some(db[key]) else None
    {
      if key in db {
        r := Some(db[key]);
      } else {
        r := None;
      }
    }

    method Set(key: DbKey, value: DbValue)
      modifies this
      ensures db == old(db)[key := value]
    {
      db := db[key := value];
    }

    method Delete(key: DbKey)
      modifies this
      ensures db == old(db) - {key}
    {
      db := db - {key};
    }

    method NewBatch() returns (b: Batch)
      ensures fresh(b) && b.db == this && b.writes == [] && b.size == 0
    {
      b := new Batch(this);
    }
  }

  class Batch {
    const db: MemoryDB
    var writes: seq<Write>
    var size: nat

    constructor (db: MemoryDB)
      ensures this.db == db && writes == [] && size == 0
    {
      this.db := db;
      writes := [];
      size := 0;
    }

    /** The table the store will hold once the pending writes are flushed. */
    ghost function Staged(): Table
      reads this, db
    {
      Replay(db.db, writes)
    }

    method Set(key: DbKey, value: DbValue, length: nat)
      modifies this
      ensures Staged() == old(Staged())[key := value]
      ensures size == old(size) + length
    {
      writes := writes + [Put(key, value)];
      size := size + length;
      assert writes[..|writes| - 1] == old(writes);
    }

    method Delete(key: DbKey, length: nat)
      modifies this
      ensures Staged() == old(Staged()) - {key}
      ensures size == old(size) + length
    {
      writes := writes + [Remove(key)];
      size := size + length;
      assert writes[..|writes| - 1] == old(writes);
    }

    /** Replays the writes, in order, on the store. */
    method Write()
      modifies db
      ensures db.db == old(Staged())
    {
      var i := 0;
      while i < |writes|
        invariant 0 <= i <= |writes|
        invariant db.db == Replay(old(db.db), writes[..i])
      {
        assert writes[..i + 1][..i] == writes[..i];
        match writes[i] {
          case Put(k, v) => db.db := db.db[k := v];
          case Remove(k) => db.db := db.db - {k};
        }
        i := i + 1;
      }
      assert writes[..i] == writes;
    }

    method Reset()
      modifies this
      ensures writes == [] && size == 0
      ensures Staged() == db.db
    {
      writes := [];
      size := 0;
    }
  }

  function RecAt(m: Table, key: Key): Option<Record> {
    if NodeKey(key) in m && m[NodeKey(key)].Stored? then Some(m[NodeKey(key)].record) else None
  }

  /** The version list stored for a node, empty if there is no record. */
  function VersionsAt(m: Table, key: Key): seq<VersionInfo> {
    match RecAt(m, key)
    case None => []
    case Some(r) => r.versions
  }

  function Listed(o: Option<seq<VersionInfo>>): seq<VersionInfo> {
    match o
    case None => []
    case Some(vs) => vs
  }
}
