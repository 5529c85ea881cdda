/** Adding a file to the content store by symbolic link
    (`content::linkto`): the file is read through a linker that hashes
    exactly the bytes it delivers, and committing places a link to the file
    at the content path of the computed integrity. */
module ContentLinkTo {
  import opened Wrappers
  import opened Bytes
  import opened Sri
  import opened Errors
  import opened FileSystem
  import opened ContentPaths
  import opened ContentRead

  /** `create_symlink`: places a link to `target` at the content path of
      `sri`. When the link cannot be made (an entry is already there, or the
      OS refuses, which `osFailure` stands for) the call still succeeds if
      the content path exists, since any valid file for the integrity will
      do; otherwise the error is returned. On success `sri` is returned
      unchanged. */
  method CreateSymlink(disk: Disk, sri: Integrity, cache: Path, target: Path, osFailure: bool) returns (r: Result<Integrity>)
    modifies disk
    ensures var cpath := ContentPath(cache, sri);
      var linked := cpath !in old(disk.fs.content) && !osFailure;
      && disk.fs == (if linked then PlaceContent(old(disk.fs), cpath, Link(target)) else old(disk.fs))
      && (r.Err? <==> !linked && !Exists(old(disk.fs), cpath))
      && (r.Ok? ==> r.value == sri)
      && (r.Err? ==> r.error == Io(if cpath in old(disk.fs.content) then AlreadyExists else OtherIo))
  {
    var cpath := ContentPath(cache, sri);
    if cpath !in disk.fs.content && !osFailure {
      disk.fs := PlaceContent(disk.fs, cpath, Link(target));
      return Ok(sri);
    }
    if !Exists(disk.fs, cpath) {
      return Err(Io(if cpath in disk.fs.content then AlreadyExists else OtherIo));
    }
    r := Ok(sri);
  }

  /** A file linked into the store reads back, through the link, as the
      target file's bytes. */
  lemma LinkedResolves(fs: Fs, cpath: Path, target: Path)
    requires target in fs.files
    ensures Resolve(PlaceContent(fs, cpath, Link(target)), cpath) == Some(fs.files[target])
  {
  }

  /** A streaming reader over the file to be linked (`ToLinker` and
      `AsyncToLinker`): it hashes, under `algorithm`, every byte it
      delivers. */
  class ToLinker {
    const target: Path
    const cache: Path
    const algorithm: Algorithm
    var remaining: seq<byte>
    var fed: seq<byte>
    ghost const contents: seq<byte>

    ghost predicate Valid()
      reads this
    {
      fed + remaining == contents
    }

    constructor (cache: Path, algorithm: Algorithm, target: Path, contents: seq<byte>)
      ensures Valid() && this.contents == contents && remaining == contents && fed == []
      ensures this.cache == cache && this.algorithm == algorithm && this.target == target
    {
      this.target := target;
      this.cache := cache;
      this.algorithm := algorithm;
      this.remaining := contents;
      this.fed := [];
      this.contents := contents;
    }

    /** `Read::read`: delivers the next bytes of the file into `buf` and, when
        there were any, feeds exactly `buf[..amt]` to the integrity
        builder. */
    method Read(buf: array<byte>) returns (amt: nat)
      requires Valid()
      modifies this, buf
      ensures Valid()
      ensures amt == Min(buf.Length, |old(remaining)|)
      ensures buf[..amt] == old(remaining)[..amt] && buf[amt..] == old(buf[amt..])
      ensures remaining == old(remaining)[amt..]
      ensures fed == old(fed) + old(remaining)[..amt]
    {
      amt := Min(buf.Length, |remaining|);
      forall i | 0 <= i < amt {
        buf[i] := remaining[i];
      }
      if amt > 0 {
        fed := fed + buf[..amt];
      }
      assert old(remaining) == old(remaining)[..amt] + old(remaining)[amt..];
      remaining := remaining[amt..];
    }

    /** `commit`: the integrity of everything read so far, under the
        algorithm fixed at construction, with a link to the target placed at
        its content path. */
    method Commit(disk: Disk, osFailure: bool) returns (r: Result<Integrity>)
      modifies disk
      ensures var sri := Compute(fed, algorithm);
      var cpath := ContentPath(cache, sri);
      var linked := cpath !in old(disk.fs.content) && !osFailure;
      && disk.fs == (if linked then PlaceContent(old(disk.fs), cpath, Link(target)) else old(disk.fs))
      && (r.Err? <==> !linked && !Exists(old(disk.fs), cpath))
      && (r.Ok? ==> r.value == sri)
      && (r.Err? ==> r.error == Io(if cpath in old(disk.fs.content) then AlreadyExists else OtherIo))
    {
      r := CreateSymlink(disk, Compute(fed, algorithm), cache, target, osFailure);
    }
  }

  /** `ToLinker::new`: opens the target file; a missing target is an I/O
      error. */
  method NewToLinker(fs: Fs, cache: Path, algorithm: Algorithm, target: Path) returns (r: Result<ToLinker>)
    ensures r.Err? <==> target !in fs.files
    ensures r.Err? ==> r.error == Io(FileNotFound)
    ensures r.Ok? ==>
      fresh(r.value) && r.value.Valid() && r.value.fed == [] && r.value.remaining == fs.files[target] &&
      r.value.cache == cache && r.value.algorithm == algorithm && r.value.target == target
  {
    if target !in fs.files {
      return Err(Io(FileNotFound));
    }
    var linker := new ToLinker(cache, algorithm, target, fs.files[target]);
    r := Ok(linker);
  }

  /** Reads the linker to the end, as `read_to_end` does, with a buffer of
      `bufSize` bytes; afterwards everything the file holds has been
      hashed. */
  method ReadToEnd(linker: ToLinker, bufSize: nat) returns (data: seq<byte>)
    requires linker.Valid() && bufSize > 0
    modifies linker
    ensures linker.Valid() && linker.remaining == [] && linker.fed == linker.contents
    ensures data == old(linker.remaining)
  {
    var buf := new byte[bufSize](_ => 0);
    data := [];
    var amt := linker.Read(buf);
    data := data + buf[..amt];
    while amt > 0
      invariant linker.Valid()
      invariant data + linker.remaining == old(linker.remaining)
      invariant amt == 0 ==> linker.remaining == []
      decreases |linker.remaining| + (if amt > 0 then 1 else 0)
    {
      amt := linker.Read(buf);
      data := data + buf[..amt];
    }
    assert linker.fed + [] == linker.fed;
  }

  /** Linking a file into an empty slot of the store, after reading it to the
      end: the result is the Sha256 integrity of the file, and reading the
      content back through it yields the file's bytes. */
  method LinkThenRead(disk: Disk, cache: Path, target: Path) returns (r: Result<Integrity>)
    requires target in disk.fs.files && ContentPath(cache, Compute(disk.fs.files[target], Sha256)) !in disk.fs.content
    modifies disk
    ensures r == Ok(Compute(old(disk.fs.files[target]), Sha256))
    ensures ContentRead.Read(disk.fs, cache, r.value) == Ok(old(disk.fs.files[target]))
  {
    var made := NewToLinker(disk.fs, cache, Sha256, target);
    var linker := made.value;
    var data := ReadToEnd(linker, 16384);
    r := linker.Commit(disk, false);
    assert linker.fed == old(disk.fs.files[target]);
    LinkedResolves(old(disk.fs), ContentPath(cache, r.value), target);
    CheckComputed(linker.fed, Sha256);
  }
}
