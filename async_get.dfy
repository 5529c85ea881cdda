/** Reading from the cache asynchronously (`async_get`). Lookups go through
    `find_async`; the whole-value reads agree with their synchronous
    counterparts in `Get`, and `AsyncGet` is a streaming handle over a
    content reader. */
module AsyncGet {
  import opened Wrappers
  import opened Bytes
  import opened Sri
  import opened Errors
  import opened FileSystem
  import opened ContentPaths
  import opened Index
  import opened ContentRead
  import Get

  /** A streaming handle over one content file (`AsyncGet`). */
  class AsyncGet {
    const reader: Reader

    ghost predicate Valid()
      reads this, reader
    {
      reader.Valid()
    }

    constructor (reader: Reader)
      ensures this.reader == reader
    {
      this.reader := reader;
    }

    /** `poll_read` over the corrected content reader: the next bytes, of
        which exactly `buf[..amt]` go to the checker. */
    method Read(buf: array<byte>) returns (amt: nat)
      requires Valid()
      modifies reader, buf
      ensures Valid()
      ensures amt == Min(buf.Length, |old(reader.remaining)|)
      ensures buf[..amt] == old(reader.remaining)[..amt] && buf[amt..] == old(buf[amt..])
      ensures reader.remaining == old(reader.remaining)[amt..]
      ensures reader.fed == old(reader.fed) + old(reader.remaining)[..amt]
    {
      amt := reader.Read(buf);
    }

    /** `poll_read` as the source has it: `AsyncReader::poll_read` feeds the
        whole caller buffer, `buf[..]`, to the checker, stale tail included,
        and the whole buffer again on the final read that returns 0. */
    method ReadAsWritten(buf: array<byte>) returns (amt: nat)
      modifies reader, buf
      ensures amt == Min(buf.Length, |old(reader.remaining)|)
      ensures buf[..amt] == old(reader.remaining)[..amt] && buf[amt..] == old(buf[amt..])
      ensures reader.remaining == old(reader.remaining)[amt..]
      ensures reader.fed == old(reader.fed) + buf[..]
    {
      amt := reader.ReadAsWritten(buf);
    }

    /** `check`: the content reader's verdict on what it has read. */
    function Check(): (r: Result<Algorithm>)
      reads this, reader
      ensures r.Ok? <==> Sri.Check(reader.sri, reader.fed).Some?
      ensures r.Ok? ==> r.value == PickAlgorithm(reader.sri)
      ensures r.Err? ==> r.error == IntegrityError
    {
      reader.Check()
    }
  }

  /** A handle over content stored from one byte, read to the end with a
      two-byte buffer through the source's `poll_read`: the checker is fed
      `[1, 0]` twice and rejects content that is intact. */
  method HandleAsWrittenRejectsIntactContent() returns (r: Result<Algorithm>)
    ensures r == Err(IntegrityError)
  {
    var data: seq<byte> := [1];
    var reader := new Reader(data, Compute(data, Sha256));
    var handle := new AsyncGet(reader);
    var buf := new byte[2](_ => 0);
    var amt := handle.ReadAsWritten(buf);
    assert amt == 1 && buf[..] == [1, 0];
    amt := handle.ReadAsWritten(buf);
    assert amt == 0 && reader.fed == [1, 0, 1, 0];
    ContentRead.StaleBufferChangesDigest();
    r := handle.Check();
  }

  /** `open_hash` reading from the content path of `sri`, as the function
      evidently intends. */
  method OpenHash(fs: Fs, cache: Path, sri: Integrity) returns (r: Result<AsyncGet>)
    ensures Resolve(fs, ContentPath(cache, sri)).None? <==> r.Err?
    ensures r.Err? ==> r.error == Io(FileNotFound)
    ensures r.Ok? ==>
      && fresh(r.value) && fresh(r.value.reader) && r.value.Valid()
      && r.value.reader.sri == sri && r.value.reader.fed == []
      && Some(r.value.reader.remaining) == Resolve(fs, ContentPath(cache, sri))
  {
    var made := ContentRead.Open(fs, cache, sri);
    if made.Err? {
      return Err(made.error);
    }
    var handle := new AsyncGet(made.value);
    r := Ok(handle);
  }

  /** `open_hash` as the source has it: through `read::open_async`, which
      opens the cache root rather than the content path. */
  method OpenHashAsWritten(fs: Fs, cache: Path, sri: Integrity) returns (r: Result<AsyncGet>)
    ensures Resolve(fs, cache).None? <==> r.Err?
    ensures r.Err? ==> r.error == Io(FileNotFound)
    ensures r.Ok? ==>
      && fresh(r.value) && fresh(r.value.reader) && r.value.Valid()
      && r.value.reader.sri == sri && r.value.reader.fed == []
      && Some(r.value.reader.remaining) == Resolve(fs, cache)
  {
    var made := ContentRead.OpenAsWritten(fs, cache, sri);
    if made.Err? {
      return Err(made.error);
    }
    var handle := new AsyncGet(made.value);
    r := Ok(handle);
  }

  /** The source's `open_hash` opens the cache directory, so the content
      file is never read, even when it is intact. The file system here has no
      directories: the cache root is a path that holds no file, and the open
      fails at once, where the operating system would fail at open or at the
      first read. */
  method OpenHashAsWrittenMissesContent(fs: Fs, cache: Path, data: seq<byte>) returns (r: Result<AsyncGet>)
    requires Resolve(fs, cache).None?
    ensures r == Err(Io(FileNotFound))
    ensures Get.ReadHash(ContentWrite.Stored(fs, cache, data, Sha256), cache, Compute(data, Sha256)) == Ok(data)
  {
    var sri := Compute(data, Sha256);
    var stored := ContentWrite.Stored(fs, cache, data, Sha256);
    ContentWrite.StoredTouchesOnePath(fs, cache, data, Sha256, cache);
    r := OpenHashAsWritten(stored, cache, sri);
    ContentRead.WriteThenRead(fs, cache, data, Sha256);
  }

  /** `open`: looks the key up and opens its content; a key with no entry is
      `NotFound`. */
  method Open(fs: Fs, cache: Path, key: string) returns (r: Result<AsyncGet>)
    ensures Find(fs, cache, key).None? ==> r == Err(NotFound)
    ensures Find(fs, cache, key).Some? ==>
      var cpath := ContentPath(cache, Find(fs, cache, key).value.integrity);
      (r.Err? <==> Resolve(fs, cpath).None?) &&
      (r.Ok? ==> fresh(r.value) && fresh(r.value.reader) && r.value.Valid() &&
                 r.value.reader.sri == Find(fs, cache, key).value.integrity && r.value.reader.fed == [] &&
                 Some(r.value.reader.remaining) == Resolve(fs, cpath))
  {
    var entry := FindAsync(fs, cache, key);
    if entry.None? {
      return Err(NotFound);
    }
    r := OpenHash(fs, cache, entry.value.integrity);
  }

  /** Opening a key whose read succeeds and reading the handle to the end
      passes the check, for any buffer size. */
  method OpenReadAndCheck(fs: Fs, cache: Path, key: string, bufSize: nat) returns (r: Result<Algorithm>)
    requires Get.Read(fs, cache, key).Ok? && bufSize > 0
    ensures r == Ok(PickAlgorithm(Find(fs, cache, key).value.integrity))
  {
    ghost var sri := Find(fs, cache, key).value.integrity;
    assert Get.Read(fs, cache, key) == ContentRead.Read(fs, cache, sri);
    var handle := Open(fs, cache, key);
    var reader := handle.value.reader;
    assert reader.contents == [] + reader.remaining == Resolve(fs, ContentPath(cache, sri)).value;
    r := ReadToEndAndCheck(reader, bufSize);
  }

  /** `data`: the same result as the synchronous `read`. */
  method Data(fs: Fs, cache: Path, key: string) returns (r: Result<seq<byte>>)
    ensures r == Get.Read(fs, cache, key)
  {
    var entry := FindAsync(fs, cache, key);
    if entry.None? {
      return Err(NotFound);
    }
    r := DataHash(fs, cache, entry.value.integrity);
  }

  /** `data_hash`: the content-store read of `sri`. */
  method DataHash(fs: Fs, cache: Path, sri: Integrity) returns (r: Result<seq<byte>>)
    ensures r == Get.ReadHash(fs, cache, sri)
  {
    r := ContentRead.Read(fs, cache, sri);
  }

  /** `info`: the same entry as the synchronous `info`. */
  method Info(fs: Fs, cache: Path, key: string) returns (r: Option<Entry>)
    ensures r == Get.Info(fs, cache, key)
  {
    r := FindAsync(fs, cache, key);
  }

  /** `copy`: looks the key up with `find_async` and copies its content as
      the synchronous `copy` does. */
  method Copy(disk: Disk, cache: Path, key: string, to: Path) returns (r: Result<nat>)
    modifies disk
    ensures old(Find(disk.fs, cache, key)).None? ==> r == Err(NotFound) && disk.fs == old(disk.fs)
    ensures old(Find(disk.fs, cache, key)).Some? ==>
      Get.CopiedHash(old(disk.fs), disk.fs, cache, old(Find(disk.fs, cache, key)).value.integrity, to, r)
  {
    var entry := FindAsync(disk.fs, cache, key);
    if entry.None? {
      return Err(NotFound);
    }
    r := Get.CopyHash(disk, cache, entry.value.integrity, to);
  }
}
