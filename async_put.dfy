/** The asynchronous write handle (`async_put`). Its `commit` records the
    computed integrity when the caller supplied none and returns what the
    index insert returns. The polling machinery is not modelled: each write
    is one step. */
module AsyncPut {
  import opened Wrappers
  import opened Bytes
  import opened Sri
  import opened Errors
  import opened Records
  import opened FileSystem
  import opened Options
  import opened Index
  import opened ContentWrite
  import opened Commit
  import opened Put
  import Get

  /** An open asynchronous write handle (`AsyncPut`), with the same state as
      `Put`. */
  class AsyncPut {
    const cache: Path
    const key: string
    const algorithm: Algorithm
    const opts: WriteOpts
    var written: nat
    var buffer: seq<byte>

    ghost predicate Counted()
      reads this
    {
      written == |buffer|
    }

    /** `PutOpts::open_async` */
    constructor OpenAsync(opts: WriteOpts, cache: Path, key: string)
      ensures this.opts == opts && this.cache == cache && this.key == key
      ensures algorithm == opts.algorithm.GetOr(Sha256)
      ensures written == 0 && buffer == [] && Counted()
    {
      this.cache := cache;
      this.key := key;
      this.algorithm := opts.algorithm.GetOr(Sha256);
      this.opts := opts;
      this.written := 0;
      this.buffer := [];
    }

    /** `poll_write`, counting the bytes as `commit`'s size check needs (the
        source forwards them without counting, as `Put` does). */
    method Write(buf: seq<byte>) returns (n: nat)
      modifies this
      ensures n == |buf| && buffer == old(buffer) + buf && written == old(written) + n
      ensures old(Counted()) ==> Counted()
    {
      buffer := buffer + buf;
      written := written + |buf|;
      n := |buf|;
    }

    /** `commit`: stores the content, checks it, fills in the integrity when
        none was expected, appends the key's entry and returns the integrity
        the entry records: the expected one when there was one, the computed
        one otherwise. */
    method Commit(disk: Disk, now: nat) returns (r: Result<Integrity>)
      modifies disk
      ensures var checked := Checked(opts, Compute(buffer, algorithm), written, PutErrors);
        && disk.fs == Committed(old(disk.fs), cache, key, buffer, algorithm, checked, now)
        && r == (if checked.Ok? then Ok(opts.sri.GetOr(Compute(buffer, algorithm))) else Err(checked.error))
    {
      var writerSri := Compute(buffer, algorithm);
      disk.fs := Stored(disk.fs, cache, buffer, algorithm);
      var checked := Checked(opts, writerSri, written, PutErrors);
      if checked.Err? {
        return Err(checked.error);
      }
      var sri := Insert(disk, cache, key, checked.value, now);
      r := Ok(sri);
    }
  }

  /** `data`: writes `data` under `key` with Sha256; reading the key then
      gives the data back. */
  method Data(disk: Disk, cache: Path, key: string, data: seq<byte>, now: nat) returns (r: Result<Integrity>)
    modifies disk
    ensures r == Ok(Compute(data, Sha256))
    ensures Find(disk.fs, cache, key) == Some(Entry(key, Compute(data, Sha256), now, 0, Null))
    ensures Get.Read(disk.fs, cache, key) == Ok(data)
  {
    var opts := WithAlgorithm(NewOpts(), Sha256);
    var writer := new AsyncPut.OpenAsync(opts, cache, key);
    var _ := writer.Write(data);
    assert writer.buffer == data && writer.written == |data| && writer.algorithm == Sha256;
    ghost var before := disk.fs;
    r := writer.Commit(disk, now);
    CommittedThenRead(before, cache, key, data, Sha256, opts, now);
  }
}
