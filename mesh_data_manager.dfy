/** Blob placement and the metadata index of the asset data manager.

    Binary payloads (vertex buffers, textures) are appended to growable flat
    "storage" files; two storage tables (one per blob class) record each
    file's name and tracked size, and a meta table maps a sequential id to
    where each blob lives. The table store is modelled as maps keyed by
    natural numbers, the filesystem under the base directory as a map from
    path to contents, and every call as atomic. */
module MeshDataManager {
  import opened Wrappers

  type byte = x: int | 0 <= x < 256

  /** Default soft cap of a texture storage file: 1 GiB. */
  const DefaultTextureStorageSize: nat := 1024 * 1024 * 1024
  /** Default soft cap of a vertex storage file: 20 MiB. */
  const DefaultVertexStorageSize: nat := 1024 * 1024 * 20
  /** Length of the random alphanumeric name given to a new storage file. */
  const StorageNameLength: nat := 32

  /** Location record of one stored blob. */
  datatype BinaryDataInfo = BinaryDataInfo(isVertex: bool, storageId: nat, offset: nat, size: nat)

  /** One growable storage file: its name relative to the base directory and
      its size as last recorded. */
  datatype Storage = Storage(relativePath: string, currentSize: nat) {

    /** The file's path: the base directory joined with the relative name. */
    function ConstructPath(basePath: string): string {
      basePath + "/" + relativePath
    }
  }

  /** What a storable payload offers: a declared size estimate (used only to
      pick a storage file) and its serialised bytes. The two are unrelated. */
  datatype BinData<-P> = BinData(calcSize: P -> nat, encode: P -> seq<byte>)

  predicate IsAlphanumeric(c: char) {
    ('a' <= c <= 'z') || ('A' <= c <= 'Z') || ('0' <= c <= '9')
  }

  /** What the random name generator yields: 32 alphanumeric characters. */
  predicate IsStorageName(s: string) {
    |s| == StorageNameLength && forall i :: 0 <= i < |s| ==> IsAlphanumeric(s[i])
  }

  /** Distinct relative names give distinct paths under one base directory. */
  lemma ConstructPathInjective(basePath: string, s: Storage, t: Storage)
    ensures s.ConstructPath(basePath) == t.ConstructPath(basePath) <==> s.relativePath == t.relativePath
  {
    var n := |basePath| + 1;
    if s.ConstructPath(basePath) == t.ConstructPath(basePath) {
      assert s.relativePath == s.ConstructPath(basePath)[n..];
      assert t.relativePath == t.ConstructPath(basePath)[n..];
    }
  }

  /** A table whose keys are exactly 0 .. len-1: the shape every table keeps
      when each insert uses the row count as its key. */
  ghost predicate Dense<V>(t: map<nat, V>) {
    forall k: nat :: k in t <==> k < |t|
  }

  /** Insert under key = the table's row count. The key is unused, the table
      stays dense and grows by one, and no earlier row changes. */
  function InsertAtLen<V>(t: map<nat, V>, v: V): (r: map<nat, V>)
    requires Dense(t)
    ensures |t| !in t
    ensures Dense(r) && |r| == |t| + 1
    ensures |t| in r && r[|t|] == v
    ensures forall k :: k in t ==> k in r && r[k] == t[k]
  {
    var r := t[|t| := v];
    assert |t| !in t;
    assert forall k: nat :: k in r <==> k < |r| by {
      forall k: nat ensures k in r <==> k < |r| {
        if k < |t| { assert k in t; }
      }
    }
    r
  }

  /** A storage file with `currentSize` has headroom for `requested` more bytes. */
  predicate Fits(s: Storage, threshold: nat, requested: nat) {
    s.currentSize + requested <= threshold
  }

  /** First-fit search over the keys `from` .. len-1 in ascending order: the
      lowest key whose record fits, every lower key failing the test; None
      when no key from `from` on fits. */
  function FirstFit(table: map<nat, Storage>, threshold: nat, requested: nat, from: nat): (r: Option<nat>)
    requires Dense(table)
    ensures r.Some? ==> from <= r.value < |table| && r.value in table && Fits(table[r.value], threshold, requested)
    ensures r.Some? ==> forall k :: from <= k < r.value ==> k in table && !Fits(table[k], threshold, requested)
    ensures r.None? ==> forall k :: from <= k < |table| ==> k in table && !Fits(table[k], threshold, requested)
    decreases |table| - from
  {
    if from >= |table| then None
    else if (assert from in table; Fits(table[from], threshold, requested)) then Some(from)
    else FirstFit(table, threshold, requested, from + 1)
  }

  /** The first draw, from index `from` on, whose path is absent from `files`;
      every earlier draw names an existing file. None when every draw exists. */
  function FirstAbsent(files: map<string, seq<byte>>, basePath: string, draws: seq<string>, from: nat): (r: Option<nat>)
    ensures r.Some? ==> from <= r.value < |draws| && Storage(draws[r.value], 0).ConstructPath(basePath) !in files
    ensures r.Some? ==> forall i :: from <= i < r.value ==> Storage(draws[i], 0).ConstructPath(basePath) in files
    ensures r.None? ==> forall i :: from <= i < |draws| ==> Storage(draws[i], 0).ConstructPath(basePath) in files
    decreases |draws| - from
  {
    if from >= |draws| then None
    else if Storage(draws[from], 0).ConstructPath(basePath) !in files then Some(from)
    else FirstAbsent(files, basePath, draws, from + 1)
  }

  /** The state a store call reads and changes, as one value: both storage
      tables, the meta table, the files under the base directory, the two
      thresholds, and (for the proofs only) the class and encoded bytes of
      every blob stored so far. */
  datatype Snapshot = Snapshot(
    vertexTable: map<nat, Storage>,
    textureTable: map<nat, Storage>,
    meta: map<nat, BinaryDataInfo>,
    files: map<string, seq<byte>>,
    basePath: string,
    vertexThreshold: nat,
    textureThreshold: nat,
    blobs: map<nat, (bool, seq<byte>)>)
  {
    /** The storage table a class selects. */
    function Table(isVertex: bool): map<nat, Storage> {
      if isVertex then vertexTable else textureTable
    }

    /** The size threshold a class selects. */
    function Threshold(isVertex: bool): nat {
      if isVertex then vertexThreshold else textureThreshold
    }

    /** Contents of a file, or empty if it does not exist yet. */
    function FileOrEmpty(path: string): seq<byte> {
      if path in files then files[path] else []
    }
  }

  /** A storage record has a generated name, its file exists and the
      recorded size is the file's length. */
  ghost predicate Backed(st: Snapshot, s: Storage) {
    && IsStorageName(s.relativePath)
    && s.ConstructPath(st.basePath) in st.files
    && |st.files[s.ConstructPath(st.basePath)]| == s.currentSize
  }

  /** Record `k` of the class's table, if present, is backed by its file. */
  ghost predicate BackedAt(st: Snapshot, isVertex: bool, k: nat) {
    k in st.Table(isVertex) ==> Backed(st, st.Table(isVertex)[k])
  }

  /** Two distinct storage records (in either table) have distinct names. */
  ghost predicate NamesDiffer(st: Snapshot, c1: bool, k1: nat, c2: bool, k2: nat) {
    k1 in st.Table(c1) && k2 in st.Table(c2) && (c1 != c2 || k1 != k2) ==>
      st.Table(c1)[k1].relativePath != st.Table(c2)[k2].relativePath
  }

  /** Blob `id`, if recorded, is where its location record says: the record
      is tagged as a vertex blob (whatever its class), and the bytes at
      [offset, offset + size) of its storage file are the bytes stored. */
  ghost predicate BlobIntact(st: Snapshot, id: nat) {
    id in st.meta && id in st.blobs ==>
      var info := st.meta[id];
      var cls := st.blobs[id].0;
      && info.isVertex
      && info.storageId in st.Table(cls)
      && var path := st.Table(cls)[info.storageId].ConstructPath(st.basePath);
      && path in st.files
      && info.offset + info.size <= |st.files[path]|
      && st.files[path][info.offset .. info.offset + info.size] == st.blobs[id].1
  }

  /** The invariant every call keeps: dense tables, every storage record
      backed by its file, unique names, every recorded blob intact. */
  ghost predicate Consistent(st: Snapshot) {
    && Dense(st.vertexTable) && Dense(st.textureTable) && Dense(st.meta)
    && st.meta.Keys == st.blobs.Keys
    && (forall c, k {:trigger BackedAt(st, c, k)} :: BackedAt(st, c, k))
    && (forall c1, k1, c2, k2 {:trigger NamesDiffer(st, c1, k1, c2, k2)} :: NamesDiffer(st, c1, k1, c2, k2))
    && (forall id {:trigger BlobIntact(st, id)} :: BlobIntact(st, id))
  }

  /** Where a store of `requested` declared bytes goes: the first-fit record
      of the class's table, else a new empty record under key = row count
      named by the first draw whose file is absent, else None. */
  ghost function Placement(st: Snapshot, requested: nat, isVertex: bool, draws: seq<string>): (r: Option<(nat, Storage)>)
    requires Dense(st.vertexTable) && Dense(st.textureTable)
    ensures r.Some? && r.value.0 in st.Table(isVertex) ==>
      && st.Table(isVertex)[r.value.0] == r.value.1 && Fits(r.value.1, st.Threshold(isVertex), requested)
      && (forall k :: 0 <= k < r.value.0 ==> k in st.Table(isVertex) && !Fits(st.Table(isVertex)[k], st.Threshold(isVertex), requested))
    ensures r.Some? && r.value.0 !in st.Table(isVertex) ==>
      && r.value.0 == |st.Table(isVertex)|
      && (forall k :: k in st.Table(isVertex) ==> !Fits(st.Table(isVertex)[k], st.Threshold(isVertex), requested))
      && FirstAbsent(st.files, st.basePath, draws, 0).Some?
      && r.value.1 == Storage(draws[FirstAbsent(st.files, st.basePath, draws, 0).value], 0)
      && r.value.1.relativePath in draws
      && r.value.1.ConstructPath(st.basePath) !in st.files
    ensures r.None? ==>
      && (forall k :: k in st.Table(isVertex) ==> !Fits(st.Table(isVertex)[k], st.Threshold(isVertex), requested))
      && (forall i :: 0 <= i < |draws| ==> Storage(draws[i], 0).ConstructPath(st.basePath) in st.files)
  {
    match FirstFit(st.Table(isVertex), st.Threshold(isVertex), requested, 0)
    case Some(k) => Some((k, st.Table(isVertex)[k]))
    case None =>
      match FirstAbsent(st.files, st.basePath, draws, 0)
      case Some(i) => Some((|st.Table(isVertex)|, Storage(draws[i], 0)))
      case None => None
  }

  /** The state after one store placed at (`key`, `s`): `encoded` appended
      to the chosen file (created empty if absent), the record written back
      under `key` with the new file length, and the location record added
      under id = the meta table's row count, tagged as a vertex blob. */
  ghost function AfterStore(st: Snapshot, isVertex: bool, key: nat, s: Storage, encoded: seq<byte>): Snapshot {
    var path := s.ConstructPath(st.basePath);
    var before := st.FileOrEmpty(path);
    var updated := Storage(s.relativePath, |before| + |encoded|);
    st.(files := st.files[path := before + encoded],
        vertexTable := if isVertex then st.vertexTable[key := updated] else st.vertexTable,
        textureTable := if isVertex then st.textureTable else st.textureTable[key := updated],
        meta := st.meta[|st.meta| := BinaryDataInfo(true, key, |before|, |encoded|)],
        blobs := st.blobs[|st.meta| := (isVertex, encoded)])
  }

  /** Writing a record under `key` before a store at `key` leaves no trace:
      the store overwrites it. */
  lemma AfterStoreOverwritesRecord(st: Snapshot, mid: Snapshot, isVertex: bool, key: nat, s: Storage, encoded: seq<byte>)
    requires mid == st.(vertexTable := if isVertex then st.vertexTable[key := s] else st.vertexTable,
                        textureTable := if isVertex then st.textureTable else st.textureTable[key := s])
    ensures AfterStore(mid, isVertex, key, s, encoded) == AfterStore(st, isVertex, key, s, encoded)
  {
    var updated := Storage(s.relativePath, |st.FileOrEmpty(s.ConstructPath(st.basePath))| + |encoded|);
    assert st.Table(isVertex)[key := s][key := updated] == st.Table(isVertex)[key := updated];
  }

  /** What one store changes: the chosen file only grows, by exactly the
      encoded bytes at its end; no other file changes; the chosen record's
      size becomes the file's new length and no other record of either
      table changes; the location record lands under the next id, with
      offset = old length and size = encoded length, and no earlier id
      changes. */
  lemma StoreIsAppendOnly(st: Snapshot, isVertex: bool, key: nat, s: Storage, encoded: seq<byte>)
    ensures var r := AfterStore(st, isVertex, key, s, encoded);
      var path := s.ConstructPath(st.basePath);
      var before := st.FileOrEmpty(path);
      && path in r.files && |r.files[path]| == |before| + |encoded|
      && r.files[path][..|before|] == before && r.files[path][|before|..] == encoded
      && (forall p :: p != path ==> (p in r.files <==> p in st.files) && (p in st.files ==> r.files[p] == st.files[p]))
      && key in r.Table(isVertex)
      && r.Table(isVertex)[key] == Storage(s.relativePath, |r.files[path]|)
      && (forall k :: k != key ==> (k in r.Table(isVertex) <==> k in st.Table(isVertex)))
      && (forall k :: k != key && k in st.Table(isVertex) ==> r.Table(isVertex)[k] == st.Table(isVertex)[k])
      && r.Table(!isVertex) == st.Table(!isVertex)
      && |st.meta| in r.meta && r.meta[|st.meta|] == BinaryDataInfo(true, key, |before|, |encoded|)
      && (forall id :: id != |st.meta| ==> (id in r.meta <==> id in st.meta))
      && (forall id :: id in st.meta && id != |st.meta| ==> r.meta[id] == st.meta[id])
      && r.basePath == st.basePath
      && r.vertexThreshold == st.vertexThreshold && r.textureThreshold == st.textureThreshold
  {
    var path := s.ConstructPath(st.basePath);
    var before := st.FileOrEmpty(path);
    assert (before + encoded)[..|before|] == before;
  }

  /** What a store may be given as its placement: an existing record under
      its own key, or a new empty record under key = row count whose name is
      a storage name with no file yet. */
  ghost predicate PlacementOk(st: Snapshot, isVertex: bool, key: nat, s: Storage) {
    || (key in st.Table(isVertex) && st.Table(isVertex)[key] == s)
    || (&& key !in st.Table(isVertex) && key == |st.Table(isVertex)|
        && IsStorageName(s.relativePath) && s.ConstructPath(st.basePath) !in st.files
        && s.currentSize == 0)
  }

  lemma PlacementIsOk(st: Snapshot, requested: nat, isVertex: bool, draws: seq<string>)
    requires Dense(st.vertexTable) && Dense(st.textureTable)
    requires forall i :: 0 <= i < |draws| ==> IsStorageName(draws[i])
    requires Placement(st, requested, isVertex, draws).Some?
    ensures PlacementOk(st, isVertex, Placement(st, requested, isVertex, draws).value.0,
                        Placement(st, requested, isVertex, draws).value.1)
  {
    var s := Placement(st, requested, isVertex, draws).value.1;
    if Placement(st, requested, isVertex, draws).value.0 !in st.Table(isVertex) {
      var i :| 0 <= i < |draws| && draws[i] == s.relativePath;
    }
  }

  /** A record other than the chosen one keeps its value, and its file is
      not the chosen file. */
  lemma OtherRecordUntouched(st: Snapshot, isVertex: bool, key: nat, s: Storage, encoded: seq<byte>, c: bool, k: nat)
    requires Consistent(st) && PlacementOk(st, isVertex, key, s)
    requires k in st.Table(c) && (c != isVertex || k != key)
    ensures st.Table(c)[k].ConstructPath(st.basePath) != s.ConstructPath(st.basePath)
    ensures var st' := AfterStore(st, isVertex, key, s, encoded);
      k in st'.Table(c) && st'.Table(c)[k] == st.Table(c)[k]
  {
    assert BackedAt(st, c, k);
    if key in st.Table(isVertex) {
      assert NamesDiffer(st, c, k, isVertex, key);
      ConstructPathInjective(st.basePath, st.Table(c)[k], s);
    }
  }

  /** A store keeps the three tables dense and the meta and blob ids equal. */
  lemma {:induction false} StoreKeepsDense(st: Snapshot, isVertex: bool, key: nat, s: Storage, encoded: seq<byte>)
    requires Consistent(st) && PlacementOk(st, isVertex, key, s)
    ensures var st' := AfterStore(st, isVertex, key, s, encoded);
      && Dense(st'.vertexTable) && Dense(st'.textureTable) && Dense(st'.meta)
      && st'.meta.Keys == st'.blobs.Keys
  {
    var st' := AfterStore(st, isVertex, key, s, encoded);
    var table := st.Table(isVertex);
    var before := st.FileOrEmpty(s.ConstructPath(st.basePath));
    var updated := Storage(s.relativePath, |before| + |encoded|);
    assert st'.Table(isVertex) == table[key := updated];
    if key in table {
      assert st'.Table(isVertex).Keys == table.Keys;
    } else {
      assert st'.Table(isVertex) == InsertAtLen(table, updated);
    }
    assert st'.meta == InsertAtLen(st.meta, BinaryDataInfo(true, key, |before|, |encoded|));
  }

  /** After a store every record is still backed by its file. */
  lemma {:induction false} StoreKeepsBacked(st: Snapshot, isVertex: bool, key: nat, s: Storage, encoded: seq<byte>)
    requires Consistent(st) && PlacementOk(st, isVertex, key, s)
    ensures var st' := AfterStore(st, isVertex, key, s, encoded);
      forall c, k {:trigger BackedAt(st', c, k)} :: BackedAt(st', c, k)
  {
    var st' := AfterStore(st, isVertex, key, s, encoded);
    var path := s.ConstructPath(st.basePath);
    var before := st.FileOrEmpty(path);
    assert st'.files[path] == before + encoded;
    if key in st.Table(isVertex) {
      assert BackedAt(st, isVertex, key);
    }
    forall c: bool, k: nat ensures BackedAt(st', c, k) {
      if k in st'.Table(c) && (c != isVertex || k != key) {
        OtherRecordUntouched(st, isVertex, key, s, encoded, c, k);
        assert BackedAt(st, c, k);
      }
    }
  }

  /** After a store the record names are still pairwise distinct. */
  lemma {:induction false} StoreKeepsNames(st: Snapshot, isVertex: bool, key: nat, s: Storage, encoded: seq<byte>)
    requires Consistent(st) && PlacementOk(st, isVertex, key, s)
    ensures var st' := AfterStore(st, isVertex, key, s, encoded);
      forall c1, k1, c2, k2 {:trigger NamesDiffer(st', c1, k1, c2, k2)} :: NamesDiffer(st', c1, k1, c2, k2)
  {
    var st' := AfterStore(st, isVertex, key, s, encoded);
    forall c1: bool, k1: nat, c2: bool, k2: nat ensures NamesDiffer(st', c1, k1, c2, k2) {
      if k1 in st'.Table(c1) && k2 in st'.Table(c2) && (c1 != c2 || k1 != k2) {
        if c1 == isVertex && k1 == key {
          OtherRecordUntouched(st, isVertex, key, s, encoded, c2, k2);
        } else if c2 == isVertex && k2 == key {
          OtherRecordUntouched(st, isVertex, key, s, encoded, c1, k1);
        } else {
          OtherRecordUntouched(st, isVertex, key, s, encoded, c1, k1);
          OtherRecordUntouched(st, isVertex, key, s, encoded, c2, k2);
          assert NamesDiffer(st, c1, k1, c2, k2);
        }
      }
    }
  }

  /** A blob recorded before a store still reads back as the bytes stored:
      either its file is not the chosen one, or the chosen file only grew
      past the blob's end. */
  lemma EarlierBlobIntact(st: Snapshot, isVertex: bool, key: nat, s: Storage, encoded: seq<byte>, id: nat)
    requires Consistent(st) && PlacementOk(st, isVertex, key, s)
    requires id in st.meta
    ensures BlobIntact(AfterStore(st, isVertex, key, s, encoded), id)
  {
    var st' := AfterStore(st, isVertex, key, s, encoded);
    var path := s.ConstructPath(st.basePath);
    var before := st.FileOrEmpty(path);
    assert BlobIntact(st, id);
    var info := st.meta[id];
    var cls := st.blobs[id].0;
    assert |st.meta| !in st.meta;
    assert st'.meta[id] == info && st'.blobs[id] == st.blobs[id];
    if cls == isVertex && info.storageId == key {
      assert before == st.files[path];
      assert st'.files[path] == before + encoded;
      assert (before + encoded)[info.offset .. info.offset + info.size] == before[info.offset .. info.offset + info.size];
    } else {
      OtherRecordUntouched(st, isVertex, key, s, encoded, cls, info.storageId);
    }
  }

  /** After a store every blob recorded earlier still reads back as the
      bytes stored, and so does the new one. */
  lemma {:induction false} StoreKeepsBlobs(st: Snapshot, isVertex: bool, key: nat, s: Storage, encoded: seq<byte>)
    requires Consistent(st) && PlacementOk(st, isVertex, key, s)
    ensures var st' := AfterStore(st, isVertex, key, s, encoded);
      forall id {:trigger BlobIntact(st', id)} :: BlobIntact(st', id)
  {
    var st' := AfterStore(st, isVertex, key, s, encoded);
    var path := s.ConstructPath(st.basePath);
    var before := st.FileOrEmpty(path);
    forall id: nat ensures BlobIntact(st', id) {
      if id in st.meta {
        EarlierBlobIntact(st, isVertex, key, s, encoded, id);
      } else if id == |st.meta| {
        assert st'.files[path] == before + encoded;
        assert key in st'.Table(isVertex) && st'.Table(isVertex)[key].ConstructPath(st.basePath) == path;
        assert (before + encoded)[|before| .. |before| + |encoded|] == encoded;
      }
    }
  }

  /** A store keeps the invariant: the chosen file only grows at its end,
      every other file is untouched, a new record's name is unused, and so
      every blob recorded earlier still reads back as the bytes stored. */
  lemma AppendKeepsConsistent(st: Snapshot, requested: nat, isVertex: bool, draws: seq<string>, encoded: seq<byte>)
    requires Consistent(st)
    requires forall i :: 0 <= i < |draws| ==> IsStorageName(draws[i])
    requires Placement(st, requested, isVertex, draws).Some?
    ensures Consistent(AfterStore(st, isVertex, Placement(st, requested, isVertex, draws).value.0,
                                  Placement(st, requested, isVertex, draws).value.1, encoded))
  {
    var key := Placement(st, requested, isVertex, draws).value.0;
    var s := Placement(st, requested, isVertex, draws).value.1;
    PlacementIsOk(st, requested, isVertex, draws);
    StoreKeepsDense(st, isVertex, key, s, encoded);
    StoreKeepsBacked(st, isVertex, key, s, encoded);
    StoreKeepsNames(st, isVertex, key, s, encoded);
    StoreKeepsBlobs(st, isVertex, key, s, encoded);
  }

  /** The invariant does not mention the thresholds: changing either keeps it. */
  lemma ThresholdsFreeOfInvariant(st: Snapshot, vertexThreshold: nat, textureThreshold: nat)
    requires Consistent(st)
    ensures Consistent(st.(vertexThreshold := vertexThreshold, textureThreshold := textureThreshold))
  {
    var st' := st.(vertexThreshold := vertexThreshold, textureThreshold := textureThreshold);
    forall c: bool, k: nat ensures BackedAt(st', c, k) {
      assert BackedAt(st, c, k);
    }
    forall c1: bool, k1: nat, c2: bool, k2: nat ensures NamesDiffer(st', c1, k1, c2, k2) {
      assert NamesDiffer(st, c1, k1, c2, k2);
    }
    forall id: nat ensures BlobIntact(st', id) {
      assert BlobIntact(st, id);
    }
  }

  /** The bytes a reader finds at a location record, looking the storage id
      up in the table of class `cls`; None when the record, the file or the
      range is missing. */
  ghost function ReadAt(st: Snapshot, cls: bool, info: BinaryDataInfo): Option<seq<byte>> {
    if info.storageId in st.Table(cls) then
      var path := st.Table(cls)[info.storageId].ConstructPath(st.basePath);
      if path in st.files && info.offset + info.size <= |st.files[path]| then
        Some(st.files[path][info.offset .. info.offset + info.size])
      else None
    else None
  }

  /** Store then look up: the new id is the old row count, the meta table
      grows by exactly that id (so the next store gets the next id), the
      record points at the chosen storage key with size = encoded length and
      is tagged as a vertex blob whatever the class, and reading it back in
      the class's table yields exactly the encoded bytes. */
  lemma StoreThenLookup(st: Snapshot, requested: nat, isVertex: bool, draws: seq<string>, encoded: seq<byte>)
    requires Consistent(st)
    requires forall i :: 0 <= i < |draws| ==> IsStorageName(draws[i])
    requires Placement(st, requested, isVertex, draws).Some?
    ensures var key := Placement(st, requested, isVertex, draws).value.0;
      var st' := AfterStore(st, isVertex, key, Placement(st, requested, isVertex, draws).value.1, encoded);
      && Dense(st'.meta) && |st'.meta| == |st.meta| + 1
      && |st.meta| in st'.meta
      && st'.meta[|st.meta|].isVertex
      && st'.meta[|st.meta|].storageId == key
      && st'.meta[|st.meta|].size == |encoded|
      && ReadAt(st', isVertex, st'.meta[|st.meta|]) == Some(encoded)
  {
    var key := Placement(st, requested, isVertex, draws).value.0;
    var st' := AfterStore(st, isVertex, key, Placement(st, requested, isVertex, draws).value.1, encoded);
    AppendKeepsConsistent(st, requested, isVertex, draws, encoded);
    assert BlobIntact(st', |st.meta|);
  }

  /** What the constant class tag does to a texture blob: its record claims
      the vertex class, so a reader that picks the table by the tag looks the
      storage id up in the vertex table. There it finds no record at all, or
      the record of a different file (names are distinct across tables). */
  lemma TextureTagMisroutes(st: Snapshot, requested: nat, draws: seq<string>, encoded: seq<byte>)
    requires Consistent(st)
    requires forall i :: 0 <= i < |draws| ==> IsStorageName(draws[i])
    requires Placement(st, requested, false, draws).Some?
    ensures var key := Placement(st, requested, false, draws).value.0;
      var st' := AfterStore(st, false, key, Placement(st, requested, false, draws).value.1, encoded);
      && |st.meta| in st'.meta
      && var info := st'.meta[|st.meta|];
      && info.isVertex
      && info.storageId == key && key in st'.textureTable
      && (key !in st'.vertexTable ==> ReadAt(st', info.isVertex, info) == None)
      && (key in st'.vertexTable ==>
            st'.vertexTable[key].ConstructPath(st.basePath) != st'.textureTable[key].ConstructPath(st.basePath))
  {
    var key := Placement(st, requested, false, draws).value.0;
    var st' := AfterStore(st, false, key, Placement(st, requested, false, draws).value.1, encoded);
    AppendKeepsConsistent(st, requested, false, draws, encoded);
    if key in st'.vertexTable {
      assert NamesDiffer(st', true, key, false, key);
      ConstructPathInjective(st.basePath, st'.vertexTable[key], st'.textureTable[key]);
    }
  }

  class DataManager {
    /** Storage table of the vertex class, keyed by storage id. */
    var vertexTable: map<nat, Storage>
    /** Storage table of the texture class, keyed by storage id. */
    var textureTable: map<nat, Storage>
    /** Meta table: blob id to location record. */
    var meta: map<nat, BinaryDataInfo>
    /** The filesystem: full path to file contents. */
    var files: map<string, seq<byte>>
    /** Resolved directory holding the storage files. */
    const basePath: string
    var textureThreshold: nat
    var vertexThreshold: nat

    /** For each blob id, the class it was stored under and its encoded bytes. */
    ghost var blobs: map<nat, (bool, seq<byte>)>

    ghost function State(): Snapshot
      reads this
    {
      Snapshot(vertexTable, textureTable, meta, files, basePath, vertexThreshold, textureThreshold, blobs)
    }

    ghost predicate Valid()
      reads this
    {
      Consistent(State())
    }

    /** A freshly created store: three empty tables and default thresholds. */
    constructor (basePath: string, files: map<string, seq<byte>>)
      ensures Valid()
      ensures this.basePath == basePath && this.files == files
      ensures vertexTable == map[] && textureTable == map[] && meta == map[]
      ensures textureThreshold == DefaultTextureStorageSize
      ensures vertexThreshold == DefaultVertexStorageSize
    {
      this.basePath := basePath;
      this.files := files;
      vertexTable := map[];
      textureTable := map[];
      meta := map[];
      blobs := map[];
      textureThreshold := DefaultTextureStorageSize;
      vertexThreshold := DefaultVertexStorageSize;
    }

    /** Store a payload: pick a storage file, append the encoding, write the
        new file length back into the storage record, then record the
        location under the next id. None: no draw named an absent file, so
        the name loop would still be running (nothing has changed). */
    method StoreBinaryData<P>(data: P, bin: BinData<P>, isVertex: bool, draws: seq<string>)
      returns (id: Option<nat>)
      requires Valid()
      requires forall i :: 0 <= i < |draws| ==> IsStorageName(draws[i])
      modifies this`vertexTable, this`textureTable, this`files, this`meta, this`blobs
      ensures Valid()
      ensures id.None? <==> Placement(old(State()), bin.calcSize(data), isVertex, draws).None?
      ensures id.None? ==> State() == old(State())
      ensures id.Some? ==>
        && id.value == old(|meta|)
        && State() == AfterStore(old(State()), isVertex,
                                 Placement(old(State()), bin.calcSize(data), isVertex, draws).value.0,
                                 Placement(old(State()), bin.calcSize(data), isVertex, draws).value.1,
                                 bin.encode(data))
    {
      var size := bin.calcSize(data);
      ghost var st := State();

      ghost var placed := Placement(st, size, isVertex, draws);

      var storage := FoundOrCreateStorage(size, isVertex, draws);
      if storage.None? {
        return None;
      }
      var key, record := storage.value.0, storage.value.1;
      ghost var mid := State();
      var encoded := bin.encode(data);
      var newId := AppendToStorage(key, record, encoded, isVertex);
      id := Some(newId);
      AfterStoreOverwritesRecord(st, mid, isVertex, key, record, encoded);
      AppendKeepsConsistent(st, size, isVertex, draws, encoded);
    }

    /** The write half of a store: append `encoded` to the storage file of
        `record` (created empty if absent), write the record back under
        `key` with the file's new length, and add the location record under
        the next id. */
    method AppendToStorage(key: nat, record: Storage, encoded: seq<byte>, isVertex: bool)
      returns (newId: nat)
      modifies this`vertexTable, this`textureTable, this`files, this`meta, this`blobs
      ensures newId == old(|meta|)
      ensures State() == AfterStore(old(State()), isVertex, key, record, encoded)
    {
      var path := record.ConstructPath(basePath);
      var before := if path in files then files[path] else [];
      var offset := |before|;
      files := files[path := before + encoded];
      var written := |files[path]| - offset;
      var updated := record.(currentSize := |files[path]|);
      SaveStorage(key, updated, isVertex);
      var info := BinaryDataInfo(true, key, offset, written);
      newId := SaveBinaryMeta(info);
      blobs := blobs[newId := (isVertex, encoded)];
    }

    /** First-fit scan of the class's table in key order; when nothing fits,
        create a new storage record. The table changes only when a record is
        created. */
    method FoundOrCreateStorage(requestedSize: nat, isVertex: bool, draws: seq<string>)
      returns (r: Option<(nat, Storage)>)
      requires Dense(vertexTable) && Dense(textureTable)
      requires forall i :: 0 <= i < |draws| ==> IsStorageName(draws[i])
      modifies this`vertexTable, this`textureTable
      ensures r == Placement(old(State()), requestedSize, isVertex, draws)
      ensures r.None? ==> vertexTable == old(vertexTable) && textureTable == old(textureTable)
      ensures r.Some? ==>
        && vertexTable == (if isVertex then old(vertexTable)[r.value.0 := r.value.1] else old(vertexTable))
        && textureTable == (if isVertex then old(textureTable) else old(textureTable)[r.value.0 := r.value.1])
    {
      var table := if isVertex then vertexTable else textureTable;
      var threshold := if isVertex then vertexThreshold else textureThreshold;
      var key := 0;
      while key < |table|
        invariant key <= |table|
        invariant FirstFit(table, threshold, requestedSize, 0) == FirstFit(table, threshold, requestedSize, key)
      {
        assert key in table;
        var value := table[key];
        if threshold >= value.currentSize + requestedSize {
          assert table[key := value] == table;
          return Some((key, value));
        }
        key := key + 1;
      }
      r := CreateStorage(isVertex, draws);
    }

    /** Create a storage record with a fresh name and size 0, inserted under
        key = the table's row count. */
    method CreateStorage(isVertex: bool, draws: seq<string>) returns (r: Option<(nat, Storage)>)
      requires Dense(vertexTable) && Dense(textureTable)
      requires forall i :: 0 <= i < |draws| ==> IsStorageName(draws[i])
      modifies this`vertexTable, this`textureTable
      ensures r.None? <==> FirstAbsent(files, basePath, draws, 0).None?
      ensures r.None? ==> vertexTable == old(vertexTable) && textureTable == old(textureTable)
      ensures r.Some? ==>
        && r.value.0 == |old(State()).Table(isVertex)|
        && r.value.0 !in old(State()).Table(isVertex)
        && r.value.1 == Storage(draws[FirstAbsent(files, basePath, draws, 0).value], 0)
        && vertexTable == (if isVertex then old(vertexTable)[r.value.0 := r.value.1] else old(vertexTable))
        && textureTable == (if isVertex then old(textureTable) else old(textureTable)[r.value.0 := r.value.1])
      ensures Dense(vertexTable) && Dense(textureTable)
    {
      var storage := GenerateStorageFile(draws);
      if storage.None? {
        return None;
      }
      if isVertex {
        var len := |vertexTable|;
        vertexTable := InsertAtLen(vertexTable, storage.value);
        r := Some((len, storage.value));
      } else {
        var len := |textureTable|;
        textureTable := InsertAtLen(textureTable, storage.value);
        r := Some((len, storage.value));
      }
    }

    /** Draw names until one names no existing file. `draws` stands for the
        successive outputs of the random generator: the first is always
        taken, each later one only when the previous name exists. None when
        every draw exists (the source would keep drawing). */
    method GenerateStorageFile(draws: seq<string>) returns (r: Option<Storage>)
      requires forall i :: 0 <= i < |draws| ==> IsStorageName(draws[i])
      ensures r.None? <==> FirstAbsent(files, basePath, draws, 0).None?
      ensures r.Some? ==> r.value == Storage(draws[FirstAbsent(files, basePath, draws, 0).value], 0)
      ensures r.Some? ==> r.value.ConstructPath(basePath) !in files && IsStorageName(r.value.relativePath)
    {
      if |draws| == 0 {
        return None;
      }
      var i := 0;
      var storage := Storage(draws[0], 0);
      while storage.ConstructPath(basePath) in files
        invariant 0 <= i < |draws|
        invariant storage == Storage(draws[i], 0)
        invariant FirstAbsent(files, basePath, draws, 0) == FirstAbsent(files, basePath, draws, i)
        decreases |draws| - i
      {
        if i + 1 == |draws| {
          return None;
        }
        i := i + 1;
        storage := storage.(relativePath := draws[i]);
      }
      r := Some(storage);
    }

    /** Write a storage record back under its key in the class's table. */
    method SaveStorage(key: nat, storage: Storage, isVertex: bool)
      modifies this`vertexTable, this`textureTable
      ensures vertexTable == (if isVertex then old(vertexTable)[key := storage] else old(vertexTable))
      ensures textureTable == (if isVertex then old(textureTable) else old(textureTable)[key := storage])
    {
      if isVertex {
        vertexTable := vertexTable[key := storage];
      } else {
        textureTable := textureTable[key := storage];
      }
    }

    /** Record a location under id = the meta table's row count. */
    method SaveBinaryMeta(info: BinaryDataInfo) returns (id: nat)
      modifies this`meta
      ensures id == old(|meta|)
      ensures meta == old(meta)[id := info]
      ensures Dense(old(meta)) ==> id !in old(meta) && Dense(meta)
    {
      id := |meta|;
      ghost var before := meta;
      meta := meta[id := info];
      if Dense(before) {
        ghost var inserted := InsertAtLen(before, info);
        assert inserted == meta;
      }
    }

    /** Point lookup of a location record by id. */
    method GetBinaryMeta(id: nat) returns (r: Option<BinaryDataInfo>)
      ensures r.Some? <==> id in meta
      ensures r.Some? ==> r.value == meta[id]
      ensures Valid() ==> (r.Some? <==> id < |meta|)
    {
      if id !in meta {
        return None;
      }
      r := Some(meta[id]);
    }

    method SetTextureStorageWorkSize(size: nat)
      modifies this`textureThreshold
      ensures old(Valid()) ==> Valid()
      ensures textureThreshold == size
    {
      ghost var st := State();
      textureThreshold := size;
      if Consistent(st) {
        ThresholdsFreeOfInvariant(st, vertexThreshold, size);
      }
    }

    method SetVertexStorageWorkSize(size: nat)
      modifies this`vertexThreshold
      ensures old(Valid()) ==> Valid()
      ensures vertexThreshold == size
    {
      ghost var st := State();
      vertexThreshold := size;
      if Consistent(st) {
        ThresholdsFreeOfInvariant(st, size, textureThreshold);
      }
    }
  }
}
