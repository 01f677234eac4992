# Blob placement and metadata index of the asset `DataManager`

This project models the core of `DataManager` in
`src/assets/mesh_data_manager.rs`. The data manager stores binary payloads
such as vertex buffers and textures. It appends each payload to a growable
flat "storage" file. It keeps three tables in an embedded key-value store:

- a vertex storage table and a texture storage table, mapping a storage id
  to a `Storage` record (the file's relative name and its tracked size);
- a meta table, mapping a blob id to a `BinaryDataInfo` location record
  (class tag, storage id, offset, size).

A store works in four steps:

1. It picks the first storage record of the blob's class, in key order,
   that still has headroom for the declared size. If none has, it creates
   a record with a fresh random 32-character name under key = the table's
   row count.
2. It appends the encoded payload to that file. The file's old length is
   the blob's offset.
3. It writes the record back with its size set to the new file length.
4. It records the location under id = the meta table's row count.

Lookups read a location record by id.

## How the model is built

- `DataManager` is a class with one field per table, a field for the
  files, the base directory and the two thresholds.
- The tables are `map<nat, _>`, like the store's `u64`-keyed tables.
  The invariant says their keys are exactly `0 .. len-1`. So a scan in key
  order is a loop over `0 .. len-1`, and "row count" is the next unused key.
- The filesystem under the base directory is `files: map<string, seq<byte>>`,
  keyed by full path. A path is the base directory, `/`, then the relative
  name.
- The payload's `calc_size` and its serde/bincode encoding are two
  arbitrary total functions passed in as a `BinData` value. They are
  unrelated, as in the source.
- The random name generator is an oracle sequence `draws` of
  storage names (32 alphanumeric characters each). The name loop takes
  `draws[0]`, then `draws[1]`, … until a name has no file.
- A ghost field `blobs` remembers, per id, the class a blob was stored
  under and its encoded bytes. It lets the invariant say that every
  recorded blob still reads back as exactly those bytes.
- `Snapshot` is the whole state as one value. The specification functions
  `FirstFit`, `FirstAbsent`, `Placement` and `AfterStore` describe a store
  on snapshots. Each method is proved to agree with them, and the lemmas
  prove what those functions promise.

The invariant `Consistent` (the class's `Valid()`) holds that:

- the three tables are dense;
- every storage record has a generated name, its file exists, and its
  recorded size is the file's length;
- storage names are pairwise distinct across both tables;
- every recorded blob is tagged as a vertex blob, and its bytes sit at
  `[offset, offset + size)` of its storage file.

Three behaviours of the code are worth stating, and the model keeps them:

- The location record's class tag is the constant `true`
  (`src/assets/mesh_data_manager.rs:185`), not the class the blob was
  stored under. `StoreThenLookup` and the invariant state this.
  `TextureTagMisroutes` shows what follows for a texture blob: a reader that
  picks the table by the tag finds no record, or the record of another file.
- The name loop retries without limit
  (`src/assets/mesh_data_manager.rs:265-267`). Here it runs until the
  oracle sequence is used up; `None` then means the source would still be
  looping.
- The declared size is not the encoded size. So a shared file's recorded
  size can exceed its class threshold, and no such bound is proved.

## Model

| member | source | states |
|---|---|---|
| MeshDataManager.ConstructPathInjective | src/assets/mesh_data_manager.rs:34-37 | Under one base directory, two records have the same path exactly when they have the same relative name. |
| MeshDataManager.InsertAtLen | src/assets/mesh_data_manager.rs:204-212 | Inserting under key = row count uses an unused key. The table stays dense and grows by one, the new row holds the value, and no earlier row changes. |
| MeshDataManager.FirstFit | src/assets/mesh_data_manager.rs:232-241 | First fit in key order: the result is the lowest key whose `currentSize + requested <= threshold`, and every lower key fails the test. None means no key fits. |
| MeshDataManager.FirstAbsent | src/assets/mesh_data_manager.rs:259-268 | The result is the first draw whose path has no file, and every earlier draw's file exists. None means every draw exists. |
| MeshDataManager.Placement | src/assets/mesh_data_manager.rs:224-257 | Where a store goes. An existing key holds the same record, fits, and is the lowest fitting key. A new key equals the row count; then nothing in the class's table fits, and the record is the first draw with no file, with size 0. None means nothing fits and every draw exists. |
| MeshDataManager.StoreIsAppendOnly | src/assets/mesh_data_manager.rs:169-190 | After a store the chosen file is its old bytes followed by the encoded bytes, and no other file changes. The chosen record's size is the new file length; no other record in either table changes. The location `(true, key, old length, encoded length)` is under id = old row count, and no earlier id changes. |
| MeshDataManager.AfterStoreOverwritesRecord | src/assets/mesh_data_manager.rs:178-182 | Writing the chosen record into the table before the store leaves no trace, because the store writes it back under the same key. |
| MeshDataManager.PlacementIsOk | src/assets/mesh_data_manager.rs:224-268 | A placement is either the existing record under its own key, or a new empty record under key = row count with a generated name that has no file. |
| MeshDataManager.OtherRecordUntouched | src/assets/mesh_data_manager.rs:214-222 | Under the invariant, a record other than the chosen one keeps its value across a store, and its file is not the chosen file. |
| MeshDataManager.StoreKeepsDense | src/assets/mesh_data_manager.rs:248-257 | A store keeps both storage tables and the meta table dense, whether it reused a record or created one. |
| MeshDataManager.StoreKeepsBacked | src/assets/mesh_data_manager.rs:169-182 | After a store every storage record still has its file, and its recorded size is still the file's length. |
| MeshDataManager.StoreKeepsNames | src/assets/mesh_data_manager.rs:259-268 | After a store the storage names are still pairwise distinct, because a new record takes a name that has no file. |
| MeshDataManager.EarlierBlobIntact | src/assets/mesh_data_manager.rs:169-177 | A blob recorded before a store still reads back as its bytes: its file is another one, or the chosen file only grew past the blob's end. |
| MeshDataManager.StoreKeepsBlobs | src/assets/mesh_data_manager.rs:169-190 | After a store every recorded blob, old and new, reads back from its location as the bytes stored. |
| MeshDataManager.AppendKeepsConsistent | src/assets/mesh_data_manager.rs:163-191 | A store from any placement keeps the whole invariant: dense tables, backed records, distinct names, intact blobs. |
| MeshDataManager.ThresholdsFreeOfInvariant | src/assets/mesh_data_manager.rs:271-277 | Changing either threshold keeps the invariant. |
| MeshDataManager.StoreThenLookup | src/assets/mesh_data_manager.rs:184-202 | Store then look up. The new id is the old row count, and the meta table grows by exactly that id, so the next store gets the next id. The record points at the chosen key with size = encoded length. It is tagged as a vertex blob whatever the class. Reading it in the class's table yields exactly the encoded bytes. |
| MeshDataManager.TextureTagMisroutes | src/assets/mesh_data_manager.rs:184-190 | After a texture store the record is tagged vertex while its storage id is a texture key. Looking that id up in the vertex table, as the tag directs, finds no record, or a record whose file differs from the blob's file. |
| MeshDataManager.DataManager.constructor | src/assets/mesh_data_manager.rs:151-160 | A fresh manager has empty tables, default thresholds of 20 MiB (vertex) and 1 GiB (texture), and satisfies the invariant. |
| MeshDataManager.DataManager.StoreBinaryData | src/assets/mesh_data_manager.rs:163-191 | The manager keeps the invariant. It returns the old meta row count as the id and moves to the state `AfterStore` gives for the placement `Placement` chooses. None, with nothing changed, exactly when no record of the class fits and every draw names an existing file. |
| MeshDataManager.DataManager.AppendToStorage | src/assets/mesh_data_manager.rs:169-190 | Appends the encoding, writes the record back with the new file length, and records the location under the old row count: the state `AfterStore` describes. |
| MeshDataManager.DataManager.FoundOrCreateStorage | src/assets/mesh_data_manager.rs:224-246 | The result of the key-order scan is `Placement`. The tables change only when a record is created, and then only by that one row. |
| MeshDataManager.DataManager.CreateStorage | src/assets/mesh_data_manager.rs:248-257 | The new record is the first absent draw with size 0. It is inserted under key = the old row count, which was unused. Only the class's table changes, and both tables stay dense. |
| MeshDataManager.DataManager.GenerateStorageFile | src/assets/mesh_data_manager.rs:259-269 | Returns the first draw whose path has no file, with size 0; that name is a 32-character alphanumeric name. None exactly when every draw exists. |
| MeshDataManager.DataManager.SaveStorage | src/assets/mesh_data_manager.rs:214-222 | Writes the record under its key in the class's table. Nothing else in either table changes. |
| MeshDataManager.DataManager.SaveBinaryMeta | src/assets/mesh_data_manager.rs:204-212 | Returns the old row count as the id and inserts there. On a dense table the id was unused and the table stays dense. |
| MeshDataManager.DataManager.GetBinaryMeta | src/assets/mesh_data_manager.rs:193-202 | Some(record) exactly when the id is in the meta table. Under the invariant, exactly when id < the number of stores so far, so an id never returned yields None. |
| MeshDataManager.DataManager.SetTextureStorageWorkSize | src/assets/mesh_data_manager.rs:271-273 | Sets only the texture threshold and keeps the invariant. |
| MeshDataManager.DataManager.SetVertexStorageWorkSize | src/assets/mesh_data_manager.rs:275-277 | Sets only the vertex threshold and keeps the invariant. |

## Left out

- `create_or_open` opening or creating the database file and canonicalising paths is file and database I/O. The constructor stands for a fresh store with empty tables and a given base directory and files. Reopening an existing database is not modelled.
- redb transactions and commits are not modelled. Every call is atomic and calls run one after another. The race between the separate read and write transactions and the file append is not modelled either.
- bincode encoding (`bincode_options` and the `Value` impls of the two records) is not modelled. Table rows are values, and a payload's encoding is an arbitrary function.
- `unwrap` and `expect` panics are not modelled, and neither is the file open or write failing.
- `usize` overflow of `current_size + requested_size` is not modelled; sizes are unbounded naturals.
- The `continue` on an iteration error in the table scan is not modelled; every row reads successfully.
- `fs::exists` reporting an error (which the source treats as "absent") is not modelled; existence is membership in `files`.
- `PathBuf::join` is simplified to the base directory, `/` and the relative name. Generated names have no separator, so this is the join the source performs.
- src/util/mod.rs (the random generator) is not part of this model. It is replaced by the oracle sequence `draws`.
- src/assets/vertex_data.rs, src/main.rs, src/assets/asset_loader.rs and src/base_objects/base_object.rs are not part of this model. A payload's declared size is an arbitrary input.
- GenerateStorageFile: the source's loop is unbounded. The model bounds it by the length of `draws` and returns None where the source would keep drawing.
- StoreBinaryData: returns `Option` only for that exhausted-draws case; the source always returns an id.
- Decoding a blob back into a payload is not modelled. The round trip ends at the encoded bytes.
