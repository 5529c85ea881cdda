/** Writing data to the cache under a key (`put`): a `Put` handle buffers
    what is written through the content writer, and `commit` stores the
    content, checks it against the expected integrity and size, and appends
    the index entry. */
module Put {
  import opened Wrappers
  import opened Bytes
  import opened Sri
  import opened Errors
  import opened Records
  import opened FileSystem
  import opened ContentPaths
  import opened Options
  import opened Index
  import opened ContentWrite
  import opened Commit
  import ContentRead
  import Get

  /** The disk after `commit` has stored `data` and, when the checks pass,
      appended the key's entry. The content is stored before the checks, so
      it stays in the store even when they fail. */
  function Committed(fs: Fs, cache: Path, key: string, data: seq<byte>, algorithm: Algorithm,
                     checked: Result<WriteOpts>, now: nat): Fs {
    var stored := Stored(fs, cache, data, algorithm);
    match checked
    case Err(_) => stored
    case Ok(filled) => Appended(stored, cache, key, NewRecord(key, filled, now))
  }

  /** A committed write that passed its checks is found under its key, and
      reading the key gives back exactly the bytes written. */
  lemma CommittedThenRead(fs: Fs, cache: Path, key: string, data: seq<byte>, algorithm: Algorithm,
                          opts: WriteOpts, now: nat)
    requires Checked(opts, Compute(data, algorithm), |data|, PutErrors).Ok?
    requires opts.sri.None? || opts.sri.value == Compute(data, algorithm)
    ensures var checked := Checked(opts, Compute(data, algorithm), |data|, PutErrors);
      var after := Committed(fs, cache, key, data, algorithm, checked, now);
      && Find(after, cache, key) == InsertedEntry(key, checked.value, now)
      && Get.Read(after, cache, key) == Ok(data)
  {
    var sri := Compute(data, algorithm);
    var checked := Checked(opts, sri, |data|, PutErrors);
    var stored := Stored(fs, cache, data, algorithm);
    InsertThenFind(stored, cache, key, checked.value, now);
    Get.AppendedKeepsContent(stored, cache, key, NewRecord(key, checked.value, now), sri);
    ContentRead.WriteThenRead(fs, cache, data, algorithm);
  }

  /** An open write handle (`Put`). `buffer` is what has been handed to the
      content writer; `written` is the count `commit` compares with the
      expected size. */
  class Put {
    const cache: Path
    const key: string
    const algorithm: Algorithm
    const opts: WriteOpts
    var written: nat
    var buffer: seq<byte>

    /** Every byte handed to the writer has been counted. */
    ghost predicate Counted()
      reads this
    {
      written == |buffer|
    }

    /** `PutOpts::open`: nothing written yet; the content is hashed with the
        chosen algorithm, Sha256 when none was chosen. */
    constructor Open(opts: WriteOpts, cache: Path, key: string)
      ensures this.opts == opts && this.cache == cache && this.key == key
      ensures algorithm == opts.algorithm.GetOr(Sha256)
      ensures written == 0 && buffer == [] && Counted()
    {
      this.cache := cache;
      this.key := key;
      this.algorithm := opts.algorithm.GetOr(Sha256);
      this.opts := opts;
      this.written := 0;
      this.buffer := [];
    }

    /** `Write::write` with the count it evidently means to keep: the bytes
        go to the content writer and are added to `written`. */
    method Write(buf: seq<byte>) returns (n: nat)
      modifies this
      ensures n == |buf| && buffer == old(buffer) + buf && written == old(written) + n
      ensures old(Counted()) ==> Counted()
    {
      buffer := buffer + buf;
      written := written + |buf|;
      n := |buf|;
    }

    /** `Write::write` as the source has it: the bytes go to the content
        writer but `written` is never increased. */
    method WriteAsWritten(buf: seq<byte>) returns (n: nat)
      modifies this
      ensures n == |buf| && buffer == old(buffer) + buf && written == old(written)
    {
      buffer := buffer + buf;
      n := |buf|;
    }

    /** `commit`, recording the computed integrity in the index when the
        caller supplied none, as the asynchronous and linking commits do:
        the content is stored, then checked, and on success the key's entry
        is appended and the computed integrity returned. */
    method Commit(disk: Disk, now: nat) returns (r: Result<Integrity>)
      modifies disk
      ensures var checked := Checked(opts, Compute(buffer, algorithm), written, PutErrors);
        && disk.fs == Committed(old(disk.fs), cache, key, buffer, algorithm, checked, now)
        && r == (if checked.Ok? then Ok(Compute(buffer, algorithm)) else Err(checked.error))
    {
      var writerSri := Compute(buffer, algorithm);
      disk.fs := Stored(disk.fs, cache, buffer, algorithm);
      var checked := Checked(opts, writerSri, written, PutErrors);
      if checked.Err? {
        return Err(checked.error);
      }
      var _ := Insert(disk, cache, key, checked.value, now);
      r := Ok(writerSri);
    }

    /** `commit` as the source has it: the checks are the same, but the
        options are indexed as the caller gave them, so without an expected
        integrity the line written has none and reads as a deletion. */
    method CommitAsWritten(disk: Disk, now: nat) returns (r: Result<Integrity>)
      modifies disk
      ensures var checked := Checked(opts, Compute(buffer, algorithm), written, PutErrors);
        && disk.fs == Committed(old(disk.fs), cache, key, buffer, algorithm, if checked.Ok? then Ok(opts) else checked, now)
        && r == (if checked.Ok? then Ok(Compute(buffer, algorithm)) else Err(checked.error))
    {
      var writerSri := Compute(buffer, algorithm);
      disk.fs := Stored(disk.fs, cache, buffer, algorithm);
      var checked := Checked(opts, writerSri, written, PutErrors);
      if checked.Err? {
        return Err(checked.error);
      }
      var _ := Insert(disk, cache, key, opts, now);
      r := Ok(writerSri);
    }
  }

  /** `data`: writes `data` under `key` with Sha256; reading the key then
      gives the data back. */
  method Data(disk: Disk, cache: Path, key: string, data: seq<byte>, now: nat) returns (r: Result<Integrity>)
    modifies disk
    ensures r == Ok(Compute(data, Sha256))
    ensures Find(disk.fs, cache, key) == Some(Entry(key, Compute(data, Sha256), now, 0, Null))
    ensures Get.Read(disk.fs, cache, key) == Ok(data)
  {
    var opts := WithAlgorithm(NewOpts(), Sha256);
    var writer := new Put.Open(opts, cache, key);
    var _ := writer.Write(data);
    assert writer.buffer == data && writer.written == |data| && writer.algorithm == Sha256;
    ghost var before := disk.fs;
    r := writer.Commit(disk, now);
    CommittedThenRead(before, cache, key, data, Sha256, opts, now);
  }

  /** `data` as the source has it: the write succeeds and the content is
      stored, but the key reads as absent. */
  method DataAsWritten(disk: Disk, cache: Path, key: string, data: seq<byte>, now: nat) returns (r: Result<Integrity>)
    modifies disk
    ensures r == Ok(Compute(data, Sha256))
    ensures Resolve(disk.fs, ContentPath(cache, r.value)) == Some(data)
    ensures Get.Read(disk.fs, cache, key) == Err(NotFound)
  {
    var opts := WithAlgorithm(NewOpts(), Sha256);
    var writer := new Put.Open(opts, cache, key);
    var _ := writer.Write(data);
    assert writer.buffer == data && writer.written == |data| && writer.algorithm == Sha256;
    ghost var before := disk.fs;
    r := writer.CommitAsWritten(disk, now);
    var stored := Stored(before, cache, data, Sha256);
    assert disk.fs == Appended(stored, cache, key, NewRecord(key, opts, now));
    InsertThenFind(stored, cache, key, opts, now);
    assert disk.fs.content == stored.content;
    StoredResolves(before, cache, data, Sha256);
  }

  /** A write of non-empty data with its own length as the expected size,
      through the source's `write`: the commit reports `SizeError`. */
  method SizedPutAsWritten(disk: Disk, cache: Path, key: string, data: seq<byte>, now: nat) returns (r: Result<Integrity>)
    requires |data| > 0
    modifies disk
    ensures r == Err(SizeError)
  {
    var writer := new Put.Open(WithSize(NewOpts(), |data|), cache, key);
    var _ := writer.WriteAsWritten(data);
    assert writer.written == 0;
    r := writer.Commit(disk, now);
  }

  /** The same write through the counting `write` is accepted and indexed
      with the size. */
  method SizedPut(disk: Disk, cache: Path, key: string, data: seq<byte>, now: nat) returns (r: Result<Integrity>)
    modifies disk
    ensures r == Ok(Compute(data, Sha256))
    ensures Find(disk.fs, cache, key) == Some(Entry(key, Compute(data, Sha256), now, |data|, Null))
  {
    var opts := WithSize(NewOpts(), |data|);
    var writer := new Put.Open(opts, cache, key);
    var _ := writer.Write(data);
    assert writer.buffer == data && writer.written == |data| && writer.algorithm == Sha256;
    ghost var before := disk.fs;
    r := writer.Commit(disk, now);
    CommittedThenRead(before, cache, key, data, Sha256, opts, now);
  }
}
