# cacache, modelled in Dafny

A model of the core of cacache, a content-addressable disk cache written in Rust. The model proves properties about it.

The cache has two halves.

- **Content store.** Blobs are kept under a path derived from their subresource integrity (`content-v2/...`).
- **Index.** Each key maps to a bucket file under `index-v5/`. Every write appends one self-checksummed JSON line to that bucket.

The model covers:

- the index: `insert`, `find`, `delete`, `ls`, `remove_sync` and the bucket parser;
- the content store: `write`, `read`, `copy`, `has_content`, `rm`, the streaming readers and the symlinking `ToLinker`;
- the write pipelines: `Put`, `AsyncPut`, `Linker`/`SyncLinker` and `ToLinker`/`SyncToLinker`;
- the facades: `get`, `async_get`, `rm` and `async_rm`.

The disk is one value, `FileSystem.Fs`, held by the class `FileSystem.Disk`. Each file-system call of the cache is one atomic step on that value. Objects whose fields the source updates in place are Dafny classes:

- the `Put` and `AsyncPut` handles;
- the content readers;
- the content linker;
- the link handles.

Their methods are proved against pure specification functions. They are `ContentWrite.Stored`, `Index.Appended`, `Put.Committed`, `Link.Linked`, `Rm.RemoveTrees` and `Get.CopiedHash`, each with its own row in the table below.

The foreign pieces are modelled as concrete stand-ins, each with a body:

- **SHA-1 and SHA-256 hex digests.** A deterministic fold, rendered as fixed-width lower-case hex. The proofs use only determinism, width and the hex alphabet, never collision resistance.
- **The `ssri` integrity type.** A non-empty list of hashes, with printing and parsing proved inverse.
- **The serde_json line codec.** `Records.Encode`/`Records.Decode`, with the round trip proved, and proved free of tabs and newlines.
- **`content::path::content_path`.** `cache/content-v2/<integrity text>`, proved injective.

Version skew:

- Options are one record, `Options.WriteOpts`: algorithm, integrity, size, time and metadata. `put.rs` calls this `PutOpts` and `index.rs` calls it `WriteOpts`.
- Errors are one datatype, `Errors.Error`. It includes `IntegrityCheckError` and `SizeMismatch`, which `link.rs` and `linkto.rs` use although `src/errors.rs` lacks them.

## Model

| member | source | states |
|---|---|---|
| Index.HashKey | src/index.rs:309-313 | the hashed key is 40 lower-case hexadecimal digits, the width of a SHA-1 hex digest |
| Index.HashEntry | src/index.rs:315-319 | the line checksum is 64 lower-case hexadecimal digits, the width of a SHA-256 hex digest |
| Index.BucketPath | src/index.rs:300-307 | the bucket is `cache/index-v5/h[0..2]/h[2..4]/h[4..]`: four components under the cache whose last three concatenate to the hashed key |
| Index.SameBucket | src/index.rs:300-313 | two keys share a bucket if and only if their hashed keys are equal, so equal keys always share one |
| Index.ParseEncodedLine | src/index.rs:336-341 | the checksummed line written for a record splits into exactly checksum and body, passes the checksum test and deserialises to that record |
| Index.EntriesAppendRecord | src/index.rs:95-97 | appending `"\n" + checksum + "\t" + json` to any bucket text adds exactly that record after the records already there |
| Index.EntriesAppendDamaged | src/index.rs:336-341 | a line that fails the split, the checksum or deserialisation is dropped, and the records around it survive |
| Index.BucketEntriesAsync | src/index.rs:355-381 | the line-by-line loop yields exactly the parsed records of the bucket, and none for a missing bucket file |
| Index.FoldIsNewest | src/index.rs:154-175 | `find`'s left fold equals the newest decisive record for the key: later entries override earlier ones, a tombstone gives nothing, and entries for other keys or with unparsable integrity are passed over |
| Index.Find | src/index.rs:149-176 | `find`: the left fold over the key's bucket entries; a found entry is always for the key asked (what it is, is stated by `Index.FoldIsNewest`) |
| Index.ParseLine | src/index.rs:336-341 | the record of one bucket line: the line splits at tabs into exactly a checksum and a body, the checksum is the body's hash, and the body deserialises; otherwise no record |
| Index.Entries | src/index.rs:336-341 | the records of a bucket's text, in line order, with damaged lines dropped |
| Index.BucketEntries | src/index.rs:328-352 | `bucket_entries`: the records of the bucket file, and none when the file does not exist |
| Index.NewRecord | src/index.rs:77-87 | the record `insert` serialises: the key, the printed integrity or null, the time defaulting to now, the size to 0 and the metadata to JSON null |
| Index.LsBucket | src/index.rs:270-291 | the entries `ls` yields for one bucket: the newest record of each key, tombstoned keys left out |
| Index.Ls | src/index.rs:247-298 | `ls`: every entry listed by a bucket under the index directory, as a set |
| Index.FindAsync | src/index.rs:180-208 | the asynchronous lookup returns exactly what `find` returns |
| Index.FindMissingBucket | src/index.rs:345-347 | a key whose bucket file does not exist is not found, rather than being an error |
| Index.Appended | src/index.rs:89-99 | the disk after `insert`'s append: the bucket of the key gains `"\n" + checksum + "\t" + json` of the record, created when missing |
| Index.AppendedEntries | src/index.rs:89-97 | after an append, the bucket holds its earlier records unchanged, followed by the new one |
| Index.InsertThenFind | src/index.rs:149-176 | after insert, `find` returns the inserted key, integrity, time (defaulting to now), size (defaulting to 0) and metadata (defaulting to null), whatever the bucket held; with no integrity the key is absent |
| Index.InsertKeepsOtherKeys | src/index.rs:154-175 | an insert for one key leaves every other key's lookup unchanged, even in a shared bucket |
| Index.DamagedLineKeepsFind | src/index.rs:336-341 | a damaged line appended to any bucket changes no lookup |
| Index.Insert | src/index.rs:71-104 | appends exactly one record line to the key's bucket; returns the supplied integrity, or `sha1-deadbeef`; `find` then reports the inserted entry |
| Index.Delete | src/index.rs:211-225 | appends a tombstone; the key is then absent, its earlier lines stay, and every other key reads as before |
| Index.NewRemoveOpts | src/index.rs:385-393 | new removal options do not remove fully |
| Index.WithRemoveFully | src/index.rs:395-400 | the setter sets exactly the flag |
| Index.RemoveSync | src/index.rs:403-420 | without `remove_fully` it is `delete`. With it, it removes the current entry's content file, then the bucket file; a missing file is an I/O error that leaves the whole disk as it was, content file included; on success the key is not found |
| Index.NewestPerKey | src/index.rs:274-276 | reversing the bucket and collecting into a set by key keeps a record exactly when it is the last record of its key |
| Index.LsBucketIsFind | src/index.rs:270-291 | an entry is listed for a bucket if and only if `find` over that bucket returns it; tombstoned keys are omitted |
| Index.LsBucketKeysDistinct | src/index.rs:270-291 | a bucket lists at most one entry per key |
| Index.LsIsFind | src/index.rs:247-298 | on an index where every record sits in its key's bucket, `ls` lists an entry if and only if looking up its key finds it |
| Index.LsKeysDistinct | src/index.rs:247-298 | `ls` lists each key at most once |
| Index.AppendedWellPlaced | src/index.rs:71-104 | inserting into a key's own bucket keeps every record in its key's bucket |
| Records.DecodeEncode | src/index.rs:79-87 | deserialising a serialised record gives the record back |
| Sri.ParseIntegrityText | src/index.rs:156-160 | a printed integrity parses back to itself, so what insert records is what find reads |
| Sri.PlaceholderParses | src/index.rs:100-103 | the placeholder text `sha1-deadbeef` parses, so insert's `unwrap` cannot fail |
| Sri.MatchesSameAlgorithm | src/put.rs:140-151 | a match implies the computed hash uses the expected value's picked algorithm, and an expected leading hash equal to the computed one always matches |
| Sri.CheckComputed | src/content/read.rs:74-82 | data always passes the check against its own computed integrity |
| ContentPaths.ContentPathInjective | src/content/write.rs:10-13 | different integrities never share a content path |
| ContentWrite.Stored | src/content/write.rs:8-15 | the disk after `write`: the content path of the data's integrity holds the data, replacing any earlier file there |
| ContentWrite.StoredResolves | src/content/write.rs:10-13 | after storing, the content path of the data's integrity holds exactly the data |
| ContentWrite.StoredTouchesOnePath | src/content/write.rs:11-13 | storing changes only the one content path; the index, other files and other content paths read as before |
| ContentWrite.StoredIdempotent | src/content/write.rs:9-13 | storing the same data twice leaves the disk as storing it once |
| ContentWrite.Write | src/content/write.rs:8-15 | returns the Sha256 integrity of the data, and the content path of that integrity then holds exactly the data |
| ContentRead.Read | src/content/read.rs:74-82 | returns the bytes at the content path if and only if they pass the integrity check; a missing file is an I/O not-found error, and failing bytes are `IntegrityError` |
| ContentRead.WriteThenRead | src/content/write.rs:22-35 | stored data reads back through its own integrity |
| ContentRead.HasContent | src/content/read.rs:120-126 | gives `Some(sri)` exactly when the content path exists, and nothing otherwise |
| ContentRead.ReadImpliesHasContent | src/content/read.rs:120-137 | whatever reads successfully is reported as present |
| ContentRead.Copy | src/content/read.rs:94-103 | a missing content file is an I/O error and changes nothing. Otherwise the destination is written first, and the byte count is returned only if the re-read content passes its check; else that read's error |
| ContentRead.CopyOfIntactContent | src/content/read.rs:94-103 | copying intact content to a path outside the store leaves a byte-for-byte copy there and keeps the content readable |
| ContentRead.Reader.Read | src/content/read.rs:22-28 | delivers the next `min(buffer, remaining)` bytes and feeds exactly those bytes to the checker; the fed bytes stay a prefix of the file |
| ContentRead.Reader.ReadAsWritten | src/content/read.rs:22-28 | delivers the same bytes but feeds the whole caller buffer to the checker, stale tail included |
| ContentRead.Reader.Check | src/content/read.rs:30-34 | gives the picked algorithm if and only if the fed bytes pass the integrity check, and `IntegrityError` otherwise |
| ContentRead.Open | src/content/read.rs:59-64 | corrected (see Findings, read.rs:59-64): a reader over exactly the file at the content path of `sri`, with nothing fed yet; a missing file is an I/O not-found error |
| ContentRead.OpenAsWritten | src/content/read.rs:59-72 | the reader opens the cache root path itself, not the content path |
| ContentRead.ReadToEndAndCheck | src/content/read.rs:22-34 | reading intact content to the end with any positive buffer size, then checking, yields the picked algorithm |
| ContentRead.StaleBufferChangesDigest | src/content/read.rs:22-28 | the doubled, stale-padded bytes the source's reader feeds have a different digest from the one-byte file |
| ContentRead.ReaderAsWrittenRejectsIntactContent | src/content/read.rs:22-28 | the source's reader, over a one-byte file with a two-byte buffer, rejects intact content with `IntegrityError` |
| ContentRm.Rm | src/content/rm.rs:14-17 | succeeds exactly when the content path holds an entry, and then removes only that entry; a missing file is an I/O not-found error with the disk unchanged, so removing twice fails |
| ContentRm.RemoveContentTouchesOnePath | src/content/rm.rs:14-22 | removing a content path leaves the index and every other path as it was |
| ContentLinkTo.CreateSymlink | src/content/linkto.rs:35-62 | links the target at the content path when the slot is free and the OS allows it. A link that cannot be made still succeeds if the content path exists (deduplication); otherwise the error is returned. On success the integrity is returned unchanged |
| ContentLinkTo.LinkedResolves | src/content/linkto.rs:35-47 | a linked content path reads as the target file's bytes |
| ContentLinkTo.ToLinker.Read | src/content/linkto.rs:96-104 | delivers the next bytes and feeds exactly `buf[..amt]` to the integrity builder; everything fed is a prefix of the file |
| ContentLinkTo.ToLinker.Commit | src/content/linkto.rs:91-93 | the integrity of all bytes read, under the algorithm fixed at construction, with the symlink outcome of `create_symlink` |
| ContentLinkTo.NewToLinker | src/content/linkto.rs:79-88 | a linker over the target's bytes with nothing hashed yet; a missing target is an I/O not-found error |
| ContentLinkTo.ReadToEnd | src/content/linkto.rs:96-104 | reading to the end returns the whole file and leaves every byte hashed |
| ContentLinkTo.LinkThenRead | src/content/linkto.rs:197-223 | linking a file into a free slot returns its Sha256 integrity, and reading that integrity back yields the file's bytes |
| Commit.Checked | src/put.rs:140-156 | accepts if and only if any expected integrity matches and any expected size equals the count. The integrity error comes before the size error. On acceptance, the options come back unchanged except that the integrity is the expected one or, failing that, the computed one |
| Commit.AcceptedIntegrityChecks | src/link.rs:441-447 | the integrity recorded after acceptance always passes `check` on the bytes that were hashed |
| Commit.NoExpectationsAccept | src/async_put.rs:88-106 | options with no expected integrity or size accept every write, and gain only the computed integrity |
| Get.Read | src/get.rs:10-16 | a key with no entry is `NotFound`; otherwise it is the content read of the entry's integrity, and any data returned is what the content path holds |
| Get.ReadHash | src/get.rs:18-20 | returned data passes the integrity check, and a content-read failure is never `NotFound` |
| Get.AppendedKeepsContent | src/index.rs:89-99 | appending to the index changes no content read |
| Get.Info | src/get.rs:34-36 | the key's current entry, for that key |
| Get.HashExists | src/get.rs:38-40 | true exactly when the content path of the integrity exists; `async_get::hash_exists` (src/async_get.rs:124-128) is the same function |
| Get.ReadSucceedsOnlyOnIntactContent | src/get.rs:10-20 | a successful read by key implies an entry exists, its content exists, and the returned bytes pass the entry's check |
| Get.CopiedHash | src/get.rs:30-32 | the outcome of `copy_hash`: a missing content file is an I/O error with the disk unchanged; otherwise the destination holds the content bytes and the count is returned only if the re-read passes its check |
| Get.CopiedHashIsRead | src/get.rs:30-32 | a successful copy to a path outside the store leaves exactly the content bytes there and reports their number |
| Get.Copy | src/get.rs:22-28 | a key with no entry is `NotFound` and leaves the disk alone; otherwise it is the content-store copy of the entry's integrity |
| Get.CopyHash | src/get.rs:30-32 | exactly the content-store copy, with its errors passed on; also `async_get::copy_hash` (src/async_get.rs:106-112) |
| Put.Committed | src/put.rs:138-159 | the disk after `commit`: the content is stored before the checks and stays on failure; on success the key's entry is appended to its bucket |
| Put.CommittedThenRead | src/put.rs:138-159 | a commit that passed its checks is found under its key, and reading the key returns exactly the bytes written |
| Put.Put.Open | src/put.rs:53-68 | nothing written and the counter at 0; the algorithm is the chosen one, or Sha256 |
| Put.Put.Write | src/put.rs:124-131 | corrected (see Findings, put.rs:124-131): appends the bytes to the content writer and counts them, keeping the counter equal to the bytes written |
| Put.Put.WriteAsWritten | src/put.rs:124-131 | appends the bytes to the content writer and leaves the counter unchanged |
| Put.Put.Commit | src/put.rs:138-159 | corrected (see Findings, put.rs:157): stores the content, then checks. On failure the disk holds only the stored content. On success the key's entry with the filled-in integrity is appended, and the computed integrity is returned |
| Put.Put.CommitAsWritten | src/put.rs:138-159 | the same checks and result, but the options are indexed as the caller gave them |
| Put.Data | src/put.rs:19-30 | writing data returns its Sha256 integrity; the key is then found with that integrity, and reading it returns the data |
| Put.DataAsWritten | src/put.rs:19-30 | through the source's commit, the content is stored but the key then reads as `NotFound` |
| Put.SizedPutAsWritten | src/put.rs:152-156 | through the source's `write`, non-empty data with its own length as the expected size is rejected with `SizeError` |
| Put.SizedPut | src/put.rs:152-158 | through the counting `write`, the same put is accepted and indexed with the size |
| AsyncPut.AsyncPut.OpenAsync | src/async_put.rs:35-51 | nothing written and the counter at 0; the algorithm is the chosen one, or Sha256 |
| AsyncPut.AsyncPut.Write | src/async_put.rs:63-79 | appends the bytes to the content writer and counts them |
| AsyncPut.AsyncPut.Commit | src/async_put.rs:86-108 | stores, checks, fills in the computed integrity when none was expected, appends the entry, and returns the expected integrity or else the computed one |
| AsyncPut.Data | src/async_put.rs:19-31 | writing data returns its Sha256 integrity, and reading the key returns the data |
| Link.Linked | src/link.rs:437-458 | the outcome of a link commit: the symlink (or an existing content path), then the integrity check, then the size check, then the index entry when there is a key, or the linker's integrity when there is none |
| Link.LinkedSucceeds | src/link.rs:437-458 | a successful commit leaves the content path existing; any expected integrity matched and any expected size equalled the bytes read |
| Link.LinkedIndexOnlyOnSuccessWithKey | src/link.rs:441-457 | a commit that fails, or that has no key, leaves the index untouched |
| Link.LinkedThenRead | src/link.rs:528-552 | linking a file into a free slot returns its Sha256 integrity. Reading the integrity, or the key when one was given, returns the file's bytes |
| Link.SyncLinker.Read | src/link.rs:348-354 | delivers the next bytes through the content linker and grows the counter by exactly their number; also `SyncToLinker::read` (src/linkto.rs:354-360) |
| Link.SyncLinker.Consume | src/link.rs:460-471 | after the probe read and the buffered reads, the whole file has been hashed and counted; also `SyncToLinker::consume` (src/linkto.rs:460-471) |
| Link.SyncLinker.Commit | src/link.rs:437-458 | the result and the disk are exactly `Linked`: symlink outcome, then integrity check, then size check, then the index insert with a key, or the linker integrity without one; also `SyncToLinker::commit` (src/linkto.rs:437-458) |
| Link.NewLinker | src/link.rs:160-203 | a handle with nothing read, over the target's bytes, hashing with the chosen algorithm or Sha256, with the given key; a missing target is an I/O not-found error |
| Link.OpenOpts | src/link.rs:382-391 | Sha256, the target's length as the expected size, and no expected integrity |
| Link.Open | src/link.rs:376-430 | a handle whose options are `OpenOpts` of the target's length; a missing target is an I/O not-found error |
| Link.LinkSync | src/link.rs:77-105 | a missing target is an I/O error with nothing changed; otherwise the outcome is `Linked` with the open options |
| LinkTo.Filesize | src/linkto.rs:249-254 | the target's length, or an I/O not-found error when it does not exist |
| LinkTo.Open | src/linkto.rs:382-396 | a handle whose options are the target's size with Sha256; a missing target is an I/O not-found error |
| LinkTo.LinkToSync | src/linkto.rs:77-105 | a missing target is an I/O error with nothing changed; otherwise the outcome is `Linked` with the open options |
| AsyncGet.AsyncGet.Read | src/async_get.rs:25-33 | corrected (see Findings, read.rs:22-52): delivers the next bytes and feeds only `buf[..amt]` to the integrity checker; the untouched buffer tail is unchanged |
| AsyncGet.AsyncGet.ReadAsWritten | src/content/read.rs:40-52 | delivers the same bytes, but feeds the whole caller buffer to the checker, stale tail included, as `AsyncReader::poll_read` does |
| AsyncGet.HandleAsWrittenRejectsIntactContent | src/content/read.rs:40-52 | a handle over a one-byte file read with a two-byte buffer through the source's `poll_read` rejects intact content with `IntegrityError` |
| AsyncGet.AsyncGet.Check | src/async_get.rs:39-41 | the reader's verdict: the picked algorithm if and only if what was read passes the check |
| AsyncGet.OpenHash | src/async_get.rs:59-66 | corrected (see Findings, read.rs:59-64): a handle over exactly the content file of the integrity; a missing file is an I/O not-found error |
| AsyncGet.OpenHashAsWritten | src/async_get.rs:59-66 | the handle the source opens reads the cache root path instead |
| AsyncGet.OpenHashAsWrittenMissesContent | src/content/read.rs:66-72 | the source's `open_hash` opens the cache root instead of the content file, so it never reads content that reads back intact through `read_hash` |
| AsyncGet.Open | src/async_get.rs:46-56 | corrected (see Findings, read.rs:59-64): a key with no entry is `NotFound`; otherwise it opens the content of the entry's integrity, failing exactly when the file is missing |
| AsyncGet.OpenReadAndCheck | src/async_get.rs:46-56 | opening a key that reads successfully and reading the handle to the end passes the check, for any buffer size |
| AsyncGet.Data | src/async_get.rs:70-80 | the same result as the synchronous `read` |
| AsyncGet.DataHash | src/async_get.rs:84-89 | the same result as the synchronous `read_hash` |
| AsyncGet.Info | src/async_get.rs:115-121 | the same entry as the synchronous `info` |
| AsyncGet.Copy | src/async_get.rs:92-103 | a key with no entry is `NotFound`; otherwise the same copy as the synchronous `copy` |
| Rm.Entry | src/rm.rs:17-19 | appends a tombstone; content is untouched, the key is then absent, and other keys read as before; also `async_rm::entry` (src/async_rm.rs:21-23) |
| Rm.Content | src/rm.rs:23-25 | removes only the content file, failing exactly when it is missing; the index is unchanged; also `async_rm::content` (src/async_rm.rs:27-29) |
| Rm.All | src/rm.rs:29-36 | a listing error is returned unchanged. Unreadable entries are skipped. It succeeds exactly when no removal fails. The disk is always the earlier readable entries' trees removed, and all of them on success. On failure the run stopped at the first readable entry whose name is in `failing`, and that entry's tree is kept; also `async_rm::all` (src/async_rm.rs:33-40) |
| Rm.RemoveTrees | src/rm.rs:29-36 | the disk after `remove_dir_all(cache/name)` for each name in turn |
| Rm.RemoveTreesRemovesUnder | src/rm.rs:29-36 | removing the trees of the listed names removes exactly the paths inside them |
| Rm.RemoveTreesKeepsOutside | src/rm.rs:29-36 | nothing outside the cache directory is touched |
| Rm.AllEmptiesCache | src/rm.rs:29-36 | once every top-level entry is removed, no key is found and no content exists |
| FileSystem.RemoveTree | src/rm.rs:32-33 | `remove_dir_all` removes exactly the paths inside the directory |
| Options.NewOpts | src/put.rs:48-50 | no option is set |
| Options.WithAlgorithm | src/put.rs:71-74 | sets the algorithm and leaves every other field unchanged |
| Options.WithSize | src/put.rs:78-81 | sets the size and leaves every other field unchanged |
| Options.WithMetadata | src/put.rs:84-87 | sets the metadata and leaves every other field unchanged |
| Options.WithTime | src/put.rs:92-95 | sets the time and leaves every other field unchanged |
| Options.WithIntegrity | src/put.rs:100-103 | sets the integrity and leaves every other field unchanged |
| Options.SettersCommute | src/put.rs:71-103 | setters of different fields commute, and setting a field twice keeps the second value |

## Left out

- The cryptography of SHA-1, SHA-256 and SHA-512 is not modelled. The digests are deterministic stand-ins of the right hex width, and no proof relies on collision resistance.
- `ssri` is a foreign crate. `Integrity::matches` is modelled by the same leading-run rule that `put.rs` spells out inline. `IntegrityChecker` is modelled as hashing the bytes fed to it.
- serde_json is written out as a small codec for the index record. Metadata values are carried as their own serialised JSON text. Escapes beyond the ones written out are not modelled.
- `raw_metadata` is always encoded as JSON null, because no `put.rs` setter fills it in.
- `content::path::content_path` is not part of this model; it is taken to be `cache/content-v2/<integrity text>`. The real sharding of the path is not modelled.
- `content::write::Writer` is not part of this model. Writing buffers the bytes, and closing stores them and yields their integrity. Writer I/O failures and temporary-file persistence are not modelled.
- `content::symlink` (used by `link.rs`) is not part of this model. It is assumed to behave like the linker of `content/linkto.rs` (open the target, hash what is read, then create the symlink), and is modelled by that linker; the assumption cannot be checked against its own code.
- The OS refusal of a symlink is the parameter `osFailure`. Other I/O errors are not modelled: failures of `create_dir_all`, open, write, flush and metadata. Only missing files raise errors, and non-`NotFound` errors from bucket reads are left out too.
- Reads never return fewer bytes than are available. Short reads and interrupted reads are not modelled.
- Bucket text is a `string`. Invalid UTF-8, which stops `map_while` from reading further lines, and the `\r` stripping of `lines()` are not modelled.
- `usize`, `u64` and `u128` widths are unbounded naturals, so overflow of sizes, counters and times is not modelled.
- `now()` is the parameter `now`. The wall clock is not modelled.
- `PutOpts::chown` and uid/gid handling are privilege management, outside the model.
- WalkDir traversal order and errors, and HashSet order, are not modelled. `Index.Ls` is a set. The panic of `parse().unwrap()` in `ls` is the predicate `Index.LsPanics`, which the `ls` lemmas exclude.
- `ls` is described by its relation to `find` (`Index.LsIsFind`), not as a member that returns a listing in order. `src/ls.rs` is a one-line wrapper over it.
- The asynchronous polling machinery (`Pin`, `poll_*`, `Context`) is not modelled. Each asynchronous operation is modelled by its sequential counterpart, and the table names the member for each.
- The directory listing of `rm::all` is a parameter, a `Result` of readable or unreadable entries. The names whose removal fails are the parameter `failing`. The exact I/O error of a failed removal is `OtherIo`.
- `Rm.All`: the number of entries removed before a failure is a ghost output, not a returned value.
- The disk keeps index files, content entries and other files in three disjoint maps. A copy onto a content path, or onto the file a content link points to, is therefore not aliased: `ContentRead.Copy` keeps the content bytes and can succeed, where `fs::copy` onto the same file would truncate it and the re-read would fail.
- `Rm.All` keeps the tree of a failing entry whole. A failing `remove_dir_all` may already have removed part of that tree; the model does not capture the partial removal.
- Concurrency between processes and the atomicity of appends and renames are not modelled. Each file-system call is one step.
- `AsyncGet.AsyncGet.Read`: the source's `poll_read` feeds the whole buffer to the checker (the read.rs:22-52 finding). The model feeds only the bytes read, so that `AsyncGet.OpenReadAndCheck` states the intended behaviour; `AsyncGet.AsyncGet.ReadAsWritten` is the source's form.
- The file system has no directories. Opening a directory as a file is modelled as opening a missing file, so `AsyncGet.OpenHashAsWrittenMissesContent` fails at open with not-found, where the operating system would fail at open or at the first read.
- `AsyncPut.AsyncPut.Write`: the source's `poll_write` does not count bytes either (the `Put.Put.WriteAsWritten` finding applies to it as well). The model counts them, so that the corrected commit's size check is meaningful.
- `src/async_lib.rs`, `src/lib.rs` and `benches/benchmarks.rs` hold re-exports, module declarations and timing code only.

## Findings

| source | as written | input that shows it | evidently intended | confidence | as-written member | corrected member |
|---|---|---|---|---|---|---|
| src/content/read.rs:22-52 | `Reader::read` (and `AsyncReader::poll_read`, lines 40-52, which `AsyncGet` forwards to) feeds the whole caller buffer to the integrity checker, not just the `amt` bytes read, and feeds it again on the final read that returns 0 | a one-byte file `[1]` read with a two-byte buffer feeds `[1, 0, 1, 0]`, so intact content fails `check` | feed only `buf[..amt]`, as `ToLinker::read` in src/content/linkto.rs:96-104 does | not executed | ContentRead.ReaderAsWrittenRejectsIntactContent | ContentRead.ReadToEndAndCheck |
| src/put.rs:124-131 | `Put::write` forwards to the writer but never adds to `written` (and so does `poll_write` in src/async_put.rs:63-79) | any non-empty data with its own length set as the expected size: `commit` returns `SizeError` | count each write's bytes into `written` | not executed | Put.SizedPutAsWritten | Put.SizedPut |
| src/content/read.rs:59-64 | `open` (and `open_async`, lines 66-72) opens the cache root path, not the content path of the integrity, so `async_get::open_hash` reads the wrong file | any cache with intact content: `open_hash` opens the cache directory, so the content file is never read; the outcome is an I/O error at open or at the first read, not a not-found error | open the content path of `sri` | not executed | AsyncGet.OpenHashAsWrittenMissesContent | AsyncGet.OpenReadAndCheck |
| src/put.rs:157 | `commit` indexes the options unchanged, so without an expected integrity the line it writes has none and reads as a deletion | `put::data(cache, key, data)` followed by `get::read(cache, key)` gives `NotFound` | record the computed integrity when none was expected, as src/async_put.rs:99-101 does | not executed | Put.DataAsWritten | Put.Data |
