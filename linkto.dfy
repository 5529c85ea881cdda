/** Creating a symbolic link in the cache to a file outside it
    (`linkto`). The handle types of this file, `ToLinker` and
    `SyncToLinker`, have the same fields and the same `read`, `consume` and
    `commit` as the linker handles of `link`, so they are modelled by
    `Link.SyncLinker`; what this file adds is `filesize` and the entry
    points built on it. */
module LinkTo {
  import opened Wrappers
  import opened Sri
  import opened Errors
  import opened FileSystem
  import opened Link

  /** `filesize`: the target's length, or an I/O error when its metadata
      cannot be read because it does not exist. */
  function Filesize(fs: Fs, target: Path): (r: Result<nat>)
    ensures r.Ok? <==> target in fs.files
    ensures r.Ok? ==> r.value == |fs.files[target]|
    ensures r.Err? ==> r.error == Io(FileNotFound)
  {
    if target in fs.files then Ok(|fs.files[target]|) else Err(Io(FileNotFound))
  }

  /** `SyncToLinker::open` (with a key) and `SyncToLinker::open_hash`
      (without), and the asynchronous `ToLinker::open`/`open_hash`: the
      target's size becomes the expected size. */
  method Open(fs: Fs, cache: Path, key: Option<string>, target: Path) returns (r: Result<SyncLinker>)
    ensures r.Err? <==> target !in fs.files
    ensures r.Err? ==> r.error == Io(FileNotFound)
    ensures r.Ok? ==>
      && fresh(r.value) && fresh(r.value.linker) && r.value.Valid()
      && r.value.opts == OpenOpts(|fs.files[target]|) && r.value.cache == cache && r.value.key == key
      && r.value.linker.target == target && r.value.linker.remaining == fs.files[target]
      && r.value.linker.algorithm == Sha256 && r.value.linker.fed == []
  {
    var size := Filesize(fs, target);
    if size.Err? {
      return Err(size.error);
    }
    r := NewLinker(OpenOpts(size.value), fs, cache, key, target);
  }

  /** `link_to_sync` (with a key) and `link_to_hash_sync` (without), and
      the asynchronous `link_to`/`link_to_hash`: open, then commit. */
  method LinkToSync(disk: Disk, cache: Path, key: Option<string>, target: Path, now: nat, osFailure: bool)
    returns (r: Result<Integrity>)
    modifies disk
    ensures old(target !in disk.fs.files) ==> r == Err(Io(FileNotFound)) && disk.fs == old(disk.fs)
    ensures old(target in disk.fs.files) ==>
      var contents := old(disk.fs.files[target]);
      (r, disk.fs) == Linked(old(disk.fs), cache, key, target, contents, Sha256, OpenOpts(|contents|), now, osFailure)
  {
    var handle := Open(disk.fs, cache, key, target);
    if handle.Err? {
      return Err(handle.error);
    }
    var h := handle.value;
    ghost var before := disk.fs;
    ghost var contents := before.files[target];
    assert h.linker.contents == [] + h.linker.remaining == contents;
    r := h.Commit(disk, now, osFailure);
    assert (r, disk.fs) == Linked(before, cache, key, target, contents, Sha256, OpenOpts(|contents|), now, osFailure);
  }
}
