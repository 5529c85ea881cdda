/** Adding a file outside the cache to the cache by symbolic link
    (`link`): a linker handle reads the file through the content linker,
    counting the bytes, and `commit` reads whatever is left, links the file
    into the content store, checks the expected integrity and size and,
    when a key was given, appends the index entry. The asynchronous
    `Linker` behaves as `SyncLinker`, with each poll one step. */
module Link {
  import opened Wrappers
  import opened Bytes
  import opened Sri
  import opened Errors
  import opened FileSystem
  import opened ContentPaths
  import opened Options
  import opened Index
  import opened Commit
  import opened ContentLinkTo
  import ContentRead
  import Get

  /** `BUF_SIZE` */
  const BufSize: nat := 16 * 1024
  /** `PROBE_SIZE` */
  const ProbeSize: nat := 8

  /** What committing a linker over a target holding `contents` returns and
      leaves on disk: a link that cannot be made fails unless the content
      path already exists; a failed check leaves the link in place but
      writes no entry; otherwise the entry is appended when there is a key,
      and the linker's own integrity is returned when there is none. */
  function Linked(fs: Fs, cache: Path, key: Option<string>, target: Path, contents: seq<byte>,
                  algorithm: Algorithm, opts: WriteOpts, now: nat, osFailure: bool): (Result<Integrity>, Fs)
  {
    var computed := Compute(contents, algorithm);
    var cpath := ContentPath(cache, computed);
    var linked := cpath !in fs.content && !osFailure;
    if !linked && !Exists(fs, cpath) then
      (Err(Io(if cpath in fs.content then AlreadyExists else OtherIo)), fs)
    else
      var placed := if linked then PlaceContent(fs, cpath, Link(target)) else fs;
      match Checked(opts, computed, |contents|, LinkErrors)
      case Err(e) => (Err(e), placed)
      case Ok(filled) =>
        if key.None? then (Ok(computed), placed)
        else (Ok(filled.sri.value), Appended(placed, cache, key.value, NewRecord(key.value, filled, now)))
  }

  /** A successful commit always leaves the content path of the linker's
      integrity existing, and an expected integrity it returned matched the
      bytes read. */
  lemma LinkedSucceeds(fs: Fs, cache: Path, key: Option<string>, target: Path, contents: seq<byte>,
                       algorithm: Algorithm, opts: WriteOpts, now: nat, osFailure: bool)
    requires target in fs.files
    requires Linked(fs, cache, key, target, contents, algorithm, opts, now, osFailure).0.Ok?
    ensures var (r, after) := Linked(fs, cache, key, target, contents, algorithm, opts, now, osFailure);
      && Exists(after, ContentPath(cache, Compute(contents, algorithm)))
      && (opts.sri.Some? ==> Matches(opts.sri.value, Compute(contents, algorithm)))
      && (opts.size.Some? ==> opts.size.value == |contents|)
  {
    var computed := Compute(contents, algorithm);
    var cpath := ContentPath(cache, computed);
    var (r, after) := Linked(fs, cache, key, target, contents, algorithm, opts, now, osFailure);
    if key.Some? {
      assert after.content == (if cpath !in fs.content && !osFailure then PlaceContent(fs, cpath, Link(target)) else fs).content;
    }
  }

  /** A commit that fails, or that has no key, writes no index entry. */
  lemma LinkedIndexOnlyOnSuccessWithKey(fs: Fs, cache: Path, key: Option<string>, target: Path, contents: seq<byte>,
                                        algorithm: Algorithm, opts: WriteOpts, now: nat, osFailure: bool)
    requires Linked(fs, cache, key, target, contents, algorithm, opts, now, osFailure).0.Err? || key.None?
    ensures Linked(fs, cache, key, target, contents, algorithm, opts, now, osFailure).1.index == fs.index
  {
  }

  /** Linking a target into an empty slot with the options `open` builds
      (Sha256, the target's length as the size, no expected integrity):
      the commit returns the target's integrity and, with a key, reading the
      key gives the target's bytes back; without one, reading the integrity
      does. */
  lemma LinkedThenRead(fs: Fs, cache: Path, key: Option<string>, target: Path, now: nat)
    requires target in fs.files
    requires ContentPath(cache, Compute(fs.files[target], Sha256)) !in fs.content
    ensures var contents := fs.files[target];
      var opts := WithSize(WithAlgorithm(NewOpts(), Sha256), |contents|);
      var (r, after) := Linked(fs, cache, key, target, contents, Sha256, opts, now, false);
      && r == Ok(Compute(contents, Sha256))
      && ContentRead.Read(after, cache, r.value) == Ok(contents)
      && (key.Some? ==> Get.Read(after, cache, key.value) == Ok(contents))
  {
    var contents := fs.files[target];
    var sri := Compute(contents, Sha256);
    var cpath := ContentPath(cache, sri);
    var opts := WithSize(WithAlgorithm(NewOpts(), Sha256), |contents|);
    var placed := PlaceContent(fs, cpath, Link(target));
    var filled := opts.(sri := Some(sri));
    assert Checked(opts, sri, |contents|, LinkErrors) == Ok(filled);
    LinkedResolves(fs, cpath, target);
    CheckComputed(contents, Sha256);
    assert ContentRead.Read(placed, cache, sri) == Ok(contents);
    if key.Some? {
      InsertThenFind(placed, cache, key.value, filled, now);
      Get.AppendedKeepsContent(placed, cache, key.value, NewRecord(key.value, filled, now), sri);
    }
  }

  /** A linker handle (`SyncLinker`, and `Linker`): `read` counts the bytes
      delivered through it. */
  class SyncLinker {
    const cache: Path
    const key: Option<string>
    const linker: ToLinker
    var read: nat
    var opts: WriteOpts

    /** The content linker works in the same cache and has hashed exactly
        the bytes counted. */
    ghost predicate Valid()
      reads this, linker
    {
      linker.Valid() && linker.cache == cache && read == |linker.fed|
    }

    constructor (opts: WriteOpts, cache: Path, key: Option<string>, linker: ToLinker)
      requires linker.Valid() && linker.cache == cache && linker.fed == []
      ensures Valid() && this.opts == opts && this.cache == cache && this.key == key && this.linker == linker
      ensures read == 0
    {
      this.cache := cache;
      this.key := key;
      this.linker := linker;
      this.read := 0;
      this.opts := opts;
    }

    /** `Read::read`: reads through the content linker and counts what it
        delivers. */
    method Read(buf: array<byte>) returns (amt: nat)
      requires Valid()
      modifies this, linker, buf
      ensures Valid() && opts == old(opts)
      ensures amt == ContentRead.Min(buf.Length, |old(linker.remaining)|)
      ensures buf[..amt] == old(linker.remaining)[..amt] && buf[amt..] == old(buf[amt..])
      ensures linker.remaining == old(linker.remaining)[amt..]
      ensures read == old(read) + amt
    {
      amt := linker.Read(buf);
      read := read + amt;
    }

    /** `consume`: an eight-byte probe read and, when it found data, reads
        of `BUF_SIZE` bytes until the file is exhausted; afterwards the whole
        file has been hashed and counted. */
    method Consume()
      requires Valid()
      modifies this, linker
      ensures Valid() && opts == old(opts)
      ensures linker.remaining == [] && linker.fed == linker.contents && read == |linker.contents|
    {
      var probe := new byte[ProbeSize](_ => 0);
      var amt := Read(probe);
      if amt > 0 {
        var buf := new byte[BufSize](_ => 0);
        amt := Read(buf);
        while amt > 0
          invariant Valid() && opts == old(opts)
          invariant amt == 0 ==> linker.remaining == []
          decreases |linker.remaining| + (if amt > 0 then 1 else 0)
        {
          amt := Read(buf);
        }
      }
      assert linker.fed + [] == linker.fed;
    }

    /** `commit`: consumes the rest of the file, links it into the content
        store, checks it, fills in the integrity when none was expected and
        writes the entry when there is a key. */
    method Commit(disk: Disk, now: nat, osFailure: bool) returns (r: Result<Integrity>)
      requires Valid()
      modifies this, linker, disk
      ensures (r, disk.fs) == Linked(old(disk.fs), cache, key, linker.target, linker.contents,
                                     linker.algorithm, old(opts), now, osFailure)
    {
      Consume();
      var linkerSri := linker.Commit(disk, osFailure);
      if linkerSri.Err? {
        return Err(linkerSri.error);
      }
      var checked := Checked(opts, linkerSri.value, read, LinkErrors);
      if checked.Err? {
        return Err(checked.error);
      }
      opts := checked.value;
      if key.Some? {
        var sri := Insert(disk, cache, key.value, opts, now);
        return Ok(sri);
      }
      r := Ok(linkerSri.value);
    }
  }

  /** `WriteOpts::link_sync` and `WriteOpts::link_hash_sync` (and the
      asynchronous `link`/`link_hash` factories): a handle over the target
      with nothing read yet, hashing with the chosen algorithm (Sha256 when
      none was chosen); a target that cannot be opened is an I/O error. */
  method NewLinker(opts: WriteOpts, fs: Fs, cache: Path, key: Option<string>, target: Path) returns (r: Result<SyncLinker>)
    ensures r.Err? <==> target !in fs.files
    ensures r.Err? ==> r.error == Io(FileNotFound)
    ensures r.Ok? ==>
      && fresh(r.value) && fresh(r.value.linker) && r.value.Valid()
      && r.value.opts == opts && r.value.cache == cache && r.value.key == key && r.value.read == 0
      && r.value.linker.target == target && r.value.linker.remaining == fs.files[target]
      && r.value.linker.algorithm == opts.algorithm.GetOr(Sha256)
  {
    var made := NewToLinker(fs, cache, opts.algorithm.GetOr(Sha256), target);
    if made.Err? {
      return Err(made.error);
    }
    var handle := new SyncLinker(opts, cache, key, made.value);
    r := Ok(handle);
  }

  /** The options `open` and `open_hash` build from the target's length. */
  function OpenOpts(size: nat): (o: WriteOpts)
    ensures o.algorithm == Some(Sha256) && o.size == Some(size) && o.sri.None?
  {
    WithSize(WithAlgorithm(NewOpts(), Sha256), size)
  }

  /** `SyncLinker::open` (with a key) and `SyncLinker::open_hash` (without):
      the target's length becomes the expected size; a missing target is an
      I/O error. */
  method Open(fs: Fs, cache: Path, key: Option<string>, target: Path) returns (r: Result<SyncLinker>)
    ensures r.Err? <==> target !in fs.files
    ensures r.Err? ==> r.error == Io(FileNotFound)
    ensures r.Ok? ==>
      && fresh(r.value) && fresh(r.value.linker) && r.value.Valid()
      && r.value.opts == OpenOpts(|fs.files[target]|) && r.value.cache == cache && r.value.key == key
      && r.value.linker.target == target && r.value.linker.remaining == fs.files[target]
      && r.value.linker.algorithm == Sha256 && r.value.linker.fed == []
  {
    if target !in fs.files {
      return Err(Io(FileNotFound));
    }
    var size := |fs.files[target]|;
    r := NewLinker(OpenOpts(size), fs, cache, key, target);
  }

  /** `link_sync` (with a key) and `link_hash_sync` (without), and their
      asynchronous forms: open, then commit. */
  method LinkSync(disk: Disk, cache: Path, key: Option<string>, target: Path, now: nat, osFailure: bool)
    returns (r: Result<Integrity>)
    modifies disk
    ensures old(target !in disk.fs.files) ==> r == Err(Io(FileNotFound)) && disk.fs == old(disk.fs)
    ensures old(target in disk.fs.files) ==>
      var contents := old(disk.fs.files[target]);
      (r, disk.fs) == Linked(old(disk.fs), cache, key, target, contents, Sha256, OpenOpts(|contents|), now, osFailure)
  {
    var handle := Open(disk.fs, cache, key, target);
    if handle.Err? {
      return Err(handle.error);
    }
    var h := handle.value;
    ghost var before := disk.fs;
    ghost var contents := before.files[target];
    assert h.linker.contents == [] + h.linker.remaining == contents;
    assert h.opts == OpenOpts(|contents|);
    r := h.Commit(disk, now, osFailure);
    assert (r, disk.fs) == Linked(before, cache, key, target, contents, Sha256, OpenOpts(|contents|), now, osFailure);
  }
}
