/** Reading from the cache by key or by integrity (`get`). A key is looked
    up in the index and its entry's integrity is then read from the content
    store; a key with no entry is `NotFound`. */
module Get {
  import opened Wrappers
  import opened Bytes
  import opened Sri
  import opened Errors
  import opened FileSystem
  import opened ContentPaths
  import opened Index
  import opened Records
  import ContentRead

  /** `read`: the data the key's current entry points to. */
  function Read(fs: Fs, cache: Path, key: string): (r: Result<seq<byte>>)
    ensures Find(fs, cache, key).None? ==> r == Err(NotFound)
    ensures Find(fs, cache, key).Some? ==> r == ReadHash(fs, cache, Find(fs, cache, key).value.integrity)
    ensures r.Ok? ==> Resolve(fs, ContentPath(cache, Find(fs, cache, key).value.integrity)) == Some(r.value)
  {
    match Find(fs, cache, key)
    case None => Err(NotFound)
    case Some(entry) => ReadHash(fs, cache, entry.integrity)
  }

  /** `read_hash`: the content-store read, with its errors passed on. */
  function ReadHash(fs: Fs, cache: Path, sri: Integrity): (r: Result<seq<byte>>)
    ensures r.Ok? ==> Check(sri, r.value).Some?
    ensures r.Err? ==> r.error != NotFound
  {
    ContentRead.Read(fs, cache, sri)
  }

  /** Appending to the index leaves the content store, and so every
      content read, as it was. */
  lemma AppendedKeepsContent(fs: Fs, cache: Path, key: string, r: Record, sri: Integrity)
    ensures ReadHash(Appended(fs, cache, key, r), cache, sri) == ReadHash(fs, cache, sri)
  {
    var after := Appended(fs, cache, key, r);
    assert after.content == fs.content && after.files == fs.files;
    assert Resolve(after, ContentPath(cache, sri)) == Resolve(fs, ContentPath(cache, sri));
  }

  /** `info`: the key's current index entry. */
  function Info(fs: Fs, cache: Path, key: string): (r: Option<Entry>)
    ensures r.Some? ==> r.value.key == key
  {
    Find(fs, cache, key)
  }

  /** `hash_exists`: whether the content path of `sri` holds a file. */
  function HashExists(fs: Fs, cache: Path, sri: Integrity): (b: bool)
    ensures b <==> Exists(fs, ContentPath(cache, sri))
  {
    ContentRead.HasContent(fs, cache, sri).Some?
  }

  /** Every successful read by key is a read of data whose content exists
      and that passes its entry's integrity check. */
  lemma ReadSucceedsOnlyOnIntactContent(fs: Fs, cache: Path, key: string)
    requires Read(fs, cache, key).Ok?
    ensures Info(fs, cache, key).Some?
    ensures HashExists(fs, cache, Info(fs, cache, key).value.integrity)
    ensures Check(Info(fs, cache, key).value.integrity, Read(fs, cache, key).value).Some?
  {
  }

  /** The disk and result a content-store copy of `sri` to `to` leaves:
      a missing content file is an I/O error and changes nothing; otherwise
      the bytes are written to `to` first and the byte count is returned
      only when the content still passes its check. */
  ghost predicate CopiedHash(before: Fs, after: Fs, cache: Path, sri: Integrity, to: Path, r: Result<nat>) {
    match Resolve(before, ContentPath(cache, sri))
    case None => r == Err(Io(FileNotFound)) && after == before
    case Some(copied) =>
      after == WriteFile(before, to, copied) &&
      r == (match ContentRead.Read(after, cache, sri) case Ok(_) => Ok(|copied|) case Err(e) => Err(e))
  }

  /** A successful copy to a path outside the content store leaves there
      exactly the bytes of the content file, and reports their number. */
  lemma CopiedHashIsRead(before: Fs, after: Fs, cache: Path, sri: Integrity, to: Path, r: Result<nat>)
    requires CopiedHash(before, after, cache, sri, to, r) && r.Ok?
    requires to !in before.content
    ensures Resolve(after, to) == Some(Resolve(before, ContentPath(cache, sri)).value)
    ensures r.value == |Resolve(after, to).value|
  {
  }

  /** `copy` (and `copy_async`): copies the key's content to `to`; a key with
      no entry is `NotFound` and leaves the disk alone. */
  method Copy(disk: Disk, cache: Path, key: string, to: Path) returns (r: Result<nat>)
    modifies disk
    ensures old(Find(disk.fs, cache, key)).None? ==> r == Err(NotFound) && disk.fs == old(disk.fs)
    ensures old(Find(disk.fs, cache, key)).Some? ==>
      CopiedHash(old(disk.fs), disk.fs, cache, old(Find(disk.fs, cache, key)).value.integrity, to, r)
  {
    var entry := Find(disk.fs, cache, key);
    if entry.None? {
      return Err(NotFound);
    }
    r := CopyHash(disk, cache, entry.value.integrity, to);
  }

  /** `copy_hash`: the content-store copy, with its errors passed on. */
  method CopyHash(disk: Disk, cache: Path, sri: Integrity, to: Path) returns (r: Result<nat>)
    modifies disk
    ensures CopiedHash(old(disk.fs), disk.fs, cache, sri, to, r)
  {
    r := ContentRead.Copy(disk, cache, sri, to);
  }
}
