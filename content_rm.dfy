/** Removing one blob from the content store (`content::rm`). */
module ContentRm {
  import opened Sri
  import opened Errors
  import opened FileSystem
  import opened ContentPaths

  /** `rm` (and `rm_async`): removes the file at the content path of `sri`.
      A missing file is an error, so removing twice fails the second time;
      the index and every other path are left alone. */
  method Rm(disk: Disk, cache: Path, sri: Integrity) returns (r: Result<()>)
    modifies disk
    ensures r.Ok? <==> ContentPath(cache, sri) in old(disk.fs.content)
    ensures r.Err? ==> r.error == Io(FileNotFound) && disk.fs == old(disk.fs)
    ensures r.Ok? ==> disk.fs == RemoveContent(old(disk.fs), ContentPath(cache, sri))
    ensures ContentPath(cache, sri) !in disk.fs.content
  {
    var cpath := ContentPath(cache, sri);
    if cpath !in disk.fs.content {
      return Err(Io(FileNotFound));
    }
    disk.fs := RemoveContent(disk.fs, cpath);
    r := Ok(());
  }

  /** Removing a content path leaves the index and every other path as it
      was. */
  lemma RemoveContentTouchesOnePath(fs: Fs, cpath: Path, p: Path)
    requires p != cpath
    ensures RemoveContent(fs, cpath).index == fs.index
    ensures Resolve(RemoveContent(fs, cpath), p) == Resolve(fs, p)
    ensures !Exists(RemoveContent(fs, cpath), cpath) <==> cpath !in fs.files
  {
  }
}
