/** Placing data in the content store (`content::write`). The store is
    content-addressed: the path of a blob is a function of its integrity,
    and the integrity is computed from the bytes. */
module ContentWrite {
  import opened Wrappers
  import opened Bytes
  import opened Sri
  import opened FileSystem
  import opened ContentPaths

  /** The disk after `data` has been stored under its `algorithm`
      integrity; an earlier file at that path is replaced. */
  function Stored(fs: Fs, cache: Path, data: seq<byte>, algorithm: Algorithm): Fs {
    PlaceContent(fs, ContentPath(cache, Compute(data, algorithm)), Data(data))
  }

  /** Reading the content path of stored data gives the data back. */
  lemma StoredResolves(fs: Fs, cache: Path, data: seq<byte>, algorithm: Algorithm)
    ensures Resolve(Stored(fs, cache, data, algorithm), ContentPath(cache, Compute(data, algorithm))) == Some(data)
  {
  }

  /** Storing changes only the one content path: the index, the other files
      and every other content path read as before. */
  lemma StoredTouchesOnePath(fs: Fs, cache: Path, data: seq<byte>, algorithm: Algorithm, p: Path)
    requires p != ContentPath(cache, Compute(data, algorithm))
    ensures Resolve(Stored(fs, cache, data, algorithm), p) == Resolve(fs, p)
    ensures Stored(fs, cache, data, algorithm).index == fs.index
    ensures Stored(fs, cache, data, algorithm).files == fs.files
  {
  }

  /** Storing the same data twice leaves the disk as storing it once. */
  lemma StoredIdempotent(fs: Fs, cache: Path, data: seq<byte>, algorithm: Algorithm)
    ensures Stored(Stored(fs, cache, data, algorithm), cache, data, algorithm) == Stored(fs, cache, data, algorithm)
  {
  }

  /** `write`: computes the Sha256 integrity of `data`, stores the bytes at
      its content path (replacing any earlier file there) and returns it. */
  method Write(disk: Disk, cache: Path, data: seq<byte>) returns (sri: Integrity)
    modifies disk
    ensures sri == Compute(data, Sha256)
    ensures disk.fs == Stored(old(disk.fs), cache, data, Sha256)
    ensures Resolve(disk.fs, ContentPath(cache, sri)) == Some(data)
  {
    sri := Compute(data, Sha256);
    var cpath := ContentPath(cache, sri);
    disk.fs := PlaceContent(disk.fs, cpath, Data(data));
  }
}
