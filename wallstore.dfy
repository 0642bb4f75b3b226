/** The archive: an object store of captured walls keyed by the composite
    key path `["timestamp", "videoId"]`, its `put`, the cursor sweep that
    deletes expired records, and the schema upgrade that recreates it. */
module WallStore {
  import opened KeyOrder
  import opened Timestamps
  import opened Wrappers

  /** One tile of the end-screen wall. */
  datatype Item = Item(link: string, title: string, length: string)

  /** One captured wall: its bucket, the video it followed (`""` when
      unknown), the number of columns it was shown in, and its tiles in
      screen order. */
  datatype Wall = Wall(timestamp: int, videoId: string, colCount: nat, items: seq<Item>)

  /** The version `indexedDB.open` asks for. */
  const SchemaVersion: nat := 1

  /** The key the key path extracts from a record. */
  function KeyOf(w: Wall): (k: Key)
    ensures k.0 == w.timestamp && k.1 == w.videoId
  {
    (w.timestamp, w.videoId)
  }

  /** Every record sits under the key its own fields give it. */
  ghost predicate Keyed(m: map<Key, Wall>) {
    forall k :: k in m ==> KeyOf(m[k]) == k
  }

  /** `store.put(data)`: insert, or replace wholesale the record with the
      same key. */
  function Put(m: map<Key, Wall>, w: Wall): (r: map<Key, Wall>)
    ensures KeyOf(w) in r && r[KeyOf(w)] == w
    ensures forall k :: k in m && k != KeyOf(w) ==> k in r && r[k] == m[k]
    ensures r.Keys == m.Keys + {KeyOf(w)}
    ensures |r| == if KeyOf(w) in m then |m| else |m| + 1
  {
    m[KeyOf(w) := w]
  }

  /** The records a complete sweep with cutoff `c` leaves: exactly those
      whose timestamp is not below `c`. */
  function Sweep(m: map<Key, Wall>, c: int): (r: map<Key, Wall>)
    ensures forall k :: k in r ==> k in m && r[k] == m[k] && r[k].timestamp >= c
    ensures forall k :: k in m && m[k].timestamp >= c ==> k in r
  {
    map k | k in m && m[k].timestamp >= c :: m[k]
  }

  /** What a sweep has left once the cursor has visited the keys in `done`. */
  ghost function Swept(m: map<Key, Wall>, c: int, done: set<Key>): map<Key, Wall> {
    map k | k in m && (k !in done || m[k].timestamp >= c) :: m[k]
  }

  /** The store's contents once the upgrade check of `openDB` has run: a
      database older than the schema gets its object store dropped and
      recreated empty. */
  function AfterOpen(version: nat, m: map<Key, Wall>): (r: map<Key, Wall>)
    ensures version < SchemaVersion ==> r == map[]
    ensures version >= SchemaVersion ==> r == m
  {
    if version < SchemaVersion then map[] else m
  }

  /** The cursor's position: before the first key, or at a key. */
  predicate After(pos: Option<Key>, k: Key) {
    match pos
    case None => true
    case Some(p) => KeyLess(p, k)
  }

  /** Keys strictly ascending: each visited once, in cursor order. */
  ghost predicate Ascending(ks: seq<Key>) {
    forall i, j :: 0 <= i < j < |ks| ==> KeyLess(ks[i], ks[j])
  }

  lemma PutKeyed(m: map<Key, Wall>, w: Wall)
    requires Keyed(m)
    ensures Keyed(Put(m, w))
  {
  }

  /** Overwrite law: a second put under the same key leaves only the second
      record, as if the first had never been written. */
  lemma PutOverwrites(m: map<Key, Wall>, w1: Wall, w2: Wall)
    requires KeyOf(w1) == KeyOf(w2)
    ensures Put(Put(m, w1), w2) == Put(m, w2)
  {
  }

  /** In a keyed store the sweep is a range delete on the key: it keeps
      exactly the keys whose timestamp component is at least the cutoff. */
  lemma SweepByKeyRange(m: map<Key, Wall>, c: int)
    requires Keyed(m)
    ensures Sweep(m, c).Keys == set k | k in m && k.0 >= c
  {
    forall k | k in m
      ensures m[k].timestamp == k.0
    {
      assert KeyOf(m[k]) == k;
    }
  }

  lemma SweepKeyed(m: map<Key, Wall>, c: int)
    requires Keyed(m)
    ensures Keyed(Sweep(m, c))
  {
  }

  /** A second sweep with the same cutoff deletes nothing. */
  lemma SweepIdempotent(m: map<Key, Wall>, c: int)
    ensures Sweep(Sweep(m, c), c) == Sweep(m, c)
  {
  }

  /** Two sweeps in a row act as one sweep with the later (larger) cutoff. */
  lemma SweepTwice(m: map<Key, Wall>, c1: int, c2: int)
    ensures Sweep(Sweep(m, c1), c2) == Sweep(m, if c1 <= c2 then c2 else c1)
  {
  }

  /** A sweep only shrinks the store. */
  lemma SweepShrinks(m: map<Key, Wall>, c: int)
    ensures Sweep(m, c).Keys <= m.Keys && |Sweep(m, c)| <= |m|
  {
    assert Sweep(m, c).Keys <= m.Keys;
    SubsetCard(Sweep(m, c).Keys, m.Keys);
  }

  lemma {:induction false} SubsetCard(a: set<Key>, b: set<Key>)
    requires a <= b
    ensures |a| <= |b|
  {
    if a != {} {
      var x :| x in a;
      SubsetCard(a - {x}, b - {x});
    }
  }

  lemma SweptNothing(m: map<Key, Wall>, c: int)
    ensures Swept(m, c, {}) == m
  {
  }

  lemma SweptEverything(m: map<Key, Wall>, c: int, done: set<Key>)
    requires m.Keys <= done
    ensures Swept(m, c, done) == Sweep(m, c)
  {
  }

  /** Visiting one more key deletes it when it is expired and changes nothing else. */
  lemma SweptStep(m: map<Key, Wall>, c: int, done: set<Key>, k: Key)
    requires k in m && k !in done
    ensures m[k].timestamp < c ==> Swept(m, c, done + {k}) == Swept(m, c, done) - {k}
    ensures m[k].timestamp >= c ==> Swept(m, c, done + {k}) == Swept(m, c, done)
  {
  }

  /** One `cursor.continue()`: the least key after the position is a key
      not yet visited, greater than every visited key, and moving the
      position to it keeps "visited" equal to "not after the position". */
  lemma CursorAdvance(start: map<Key, Wall>, c: int, done: set<Key>, pos: Option<Key>, k: Key)
    requires done <= start.Keys
    requires forall x :: x in start ==> (x in done <==> !After(pos, x))
    requires k in Swept(start, c, done) && After(pos, k)
    requires forall x :: x in Swept(start, c, done) && After(pos, x) ==> !KeyLess(x, k)
    ensures k in start && k !in done
    ensures forall x :: x in done ==> KeyLess(x, k)
    ensures forall x :: x in start ==> (x in done + {k} <==> !After(Some(k), x))
  {
    KeyLessIrreflexive(k);
    forall x | x in done
      ensures KeyLess(x, k)
    {
      var p := pos.value;
      if x != p {
        KeyLessTotal(x, p);
        KeyLessTransitive(x, p, k);
      }
    }
    forall x | x in start
      ensures x in done + {k} <==> !After(Some(k), x)
    {
      if x in done {
        if KeyLess(k, x) {
          KeyLessIrreflexive(x);
          KeyLessTransitive(x, k, x);
        }
      } else if x != k {
        assert x in Swept(start, c, done) && After(pos, x);
        KeyLessTotal(x, k);
      }
    }
  }

  /** The version a database at `version` has once either `openDB` has
      opened it; a newer database is left as it is. */
  function OpenedVersion(version: nat): (v: nat)
    ensures version <= SchemaVersion ==> v == SchemaVersion
    ensures version > SchemaVersion ==> v == version
  {
    if version <= SchemaVersion then SchemaVersion else version
  }

  /** The writer can reach the object store: its `openDB` opens the
      database (it is not newer than the schema) and, after the upgrade
      check, the object store exists. */
  predicate Writable(version: nat, hasStore: bool) {
    version < SchemaVersion || (version == SchemaVersion && hasStore)
  }

  class Store {
    /** The on-disk version of the database; 0 while it does not exist. */
    var version: nat
    /** Whether the database holds the object store `walls`. */
    var hasStore: bool
    /** The records of the object store `walls`. */
    var walls: map<Key, Wall>

    ghost predicate Valid()
      reads this
    {
      && Keyed(walls)
      && (!hasStore ==> walls == map[])
      && (version == 0 ==> !hasStore)
    }

    /** A browser profile in which the database has never been opened. */
    constructor ()
      ensures Valid() && version == 0 && !hasStore && walls == map[]
    {
      version := 0;
      hasStore := false;
      walls := map[];
    }

    /** The writer's `openDB`: opening at `SchemaVersion` upgrades an older
        database by dropping and recreating the object store; a newer
        database cannot be opened at an older version, and the request fails. */
    method Open() returns (ok: bool)
      requires Valid()
      modifies this
      ensures Valid()
      ensures ok == (old(version) <= SchemaVersion)
      ensures version == OpenedVersion(old(version))
      ensures hasStore == if old(version) < SchemaVersion then true else old(hasStore)
      ensures walls == if ok then AfterOpen(old(version), old(walls)) else old(walls)
    {
      if version > SchemaVersion {
        return false;
      }
      if version < SchemaVersion {
        walls := map[];
        hasStore := true;
        version := SchemaVersion;
      }
      return true;
    }

    /** The reader's `openDB`: the same open request, but without an upgrade
        handler, so a database it creates has no object store. */
    method ReaderOpen() returns (ok: bool)
      requires Valid()
      modifies this
      ensures Valid()
      ensures ok == (old(version) <= SchemaVersion)
      ensures version == OpenedVersion(old(version))
      ensures hasStore == old(hasStore) && walls == old(walls)
    {
      if version > SchemaVersion {
        return false;
      }
      version := SchemaVersion;
      return true;
    }

    /** `saveWall`: open the database, then put the record. The transaction
        cannot be started when the object store is missing. */
    method SaveWall(data: Wall) returns (saved: bool)
      requires Valid()
      modifies this
      ensures Valid()
      ensures saved == Writable(old(version), old(hasStore))
      ensures version == OpenedVersion(old(version))
      ensures hasStore == if old(version) < SchemaVersion then true else old(hasStore)
      ensures walls == if saved then Put(AfterOpen(old(version), old(walls)), data) else old(walls)
    {
      var ok := Open();
      saved := ok && hasStore;
      if saved {
        PutKeyed(walls, data);
        walls := Put(walls, data);
      }
    }

    /** `cleanup`: open the database and walk every record with a cursor in
        ascending key order, deleting each record whose timestamp is below
        the cutoff bucket of `now - 7 days`. `visited` is the sequence of
        keys the cursor stood on. The transaction cannot be started when the
        object store is missing. */
    method Cleanup(now: int) returns (swept: bool, ghost visited: seq<Key>)
      requires Valid()
      modifies this
      ensures Valid()
      ensures swept == Writable(old(version), old(hasStore))
      ensures version == OpenedVersion(old(version))
      ensures hasStore == if old(version) < SchemaVersion then true else old(hasStore)
      ensures walls == if swept then Sweep(AfterOpen(old(version), old(walls)), Cutoff(now)) else old(walls)
      ensures swept ==> Ascending(visited)
      ensures swept ==> forall k :: k in visited <==> k in AfterOpen(old(version), old(walls))
    {
      var cutoff := Cutoff(now);
      visited := [];
      var ok := Open();
      swept := ok && hasStore;
      if !swept {
        return;
      }
      ghost var start := walls;
      ghost var done: set<Key> := {};
      var pos: Option<Key> := None;
      SweptNothing(start, cutoff);
      while exists k :: k in walls && After(pos, k)
        invariant Valid()
        invariant version == SchemaVersion && hasStore
        invariant done <= start.Keys
        invariant forall x :: x in start ==> (x in done <==> !After(pos, x))
        invariant walls == Swept(start, cutoff, done)
        invariant Ascending(visited)
        invariant forall x :: x in visited <==> x in done
        invariant pos.None? <==> visited == []
        invariant pos.Some? ==> pos.value == visited[|visited| - 1]
        decreases start.Keys - done
      {
        var ahead := set k | k in walls && After(pos, k);
        LeastKeyExists(ahead);
        var k :| IsLeast(k, ahead);
        CursorAdvance(start, cutoff, done, pos, k);
        SweptStep(start, cutoff, done, k);
        if walls[k].timestamp < cutoff {
          walls := walls - {k};
        }
        done := done + {k};
        visited := visited + [k];
        pos := Some(k);
      }
      SweptEverything(start, cutoff, done);
    }
  }

  /** A fresh profile in which the archive is first opened by the reader:
      the reader creates the database at version 1 without the object
      store, the writer's upgrade handler never runs again, and the capture
      that follows cannot save its record. The database is left as it was,
      at version 1 without the object store, so no later save or cleanup
      can succeed either. */
  method ReaderFirstBlocksCapture(data: Wall) returns (saved: bool, swept: bool, writable: bool)
    ensures !saved && !swept && !writable
  {
    var store := new Store();
    var readerOk := store.ReaderOpen();
    saved := store.SaveWall(data);
    ghost var visited;
    swept, visited := store.Cleanup(0);
    writable := Writable(store.version, store.hasStore);
  }

  /** A fresh profile in which the writer opens the database first: the
      upgrade creates the object store, and the record is saved. */
  method WriterFirstSavesCapture(data: Wall) returns (saved: bool, walls: map<Key, Wall>)
    ensures saved && walls == map[KeyOf(data) := data]
  {
    var store := new Store();
    saved := store.SaveWall(data);
    var readerOk := store.ReaderOpen();
    walls := store.walls;
  }
}
