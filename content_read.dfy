/** Reading from the content store (`content::read`): whole-file reads
    that re-verify the bytes against the integrity, copies, existence tests
    and a streaming reader that feeds what it reads to an integrity
    checker. */
module ContentRead {
  import opened Wrappers
  import opened Bytes
  import opened Sri
  import opened Errors
  import opened FileSystem
  import opened ContentPaths
  import opened ContentWrite
  import Digests

  /** `read` (and `read_async`): the bytes at the content path of `sri` when
      they pass the integrity check; a missing file is an I/O error and
      bytes that fail the check are an `IntegrityError`. */
  function Read(fs: Fs, cache: Path, sri: Integrity): (r: Result<seq<byte>>)
    ensures r.Ok? <==> Resolve(fs, ContentPath(cache, sri)).Some? && Check(sri, Resolve(fs, ContentPath(cache, sri)).value).Some?
    ensures r.Ok? ==> Resolve(fs, ContentPath(cache, sri)) == Some(r.value)
    ensures r.Err? ==> r.error == (if Exists(fs, ContentPath(cache, sri)) then IntegrityError else Io(FileNotFound))
  {
    match Resolve(fs, ContentPath(cache, sri))
    case None => Err(Io(FileNotFound))
    case Some(ret) => if Check(sri, ret).Some? then Ok(ret) else Err(IntegrityError)
  }

  /** Data that was stored reads back through its own integrity. */
  lemma WriteThenRead(fs: Fs, cache: Path, data: seq<byte>, algorithm: Algorithm)
    ensures Read(Stored(fs, cache, data, algorithm), cache, Compute(data, algorithm)) == Ok(data)
  {
    StoredResolves(fs, cache, data, algorithm);
    CheckComputed(data, algorithm);
  }

  /** `has_content` (and `has_content_async`): `sri` itself when its content
      path exists, nothing otherwise. */
  function HasContent(fs: Fs, cache: Path, sri: Integrity): (r: Option<Integrity>)
    ensures r.Some? <==> Exists(fs, ContentPath(cache, sri))
    ensures r.Some? ==> r.value == sri
  {
    if Exists(fs, ContentPath(cache, sri)) then Some(sri) else None
  }

  /** Whatever reads successfully is there. */
  lemma ReadImpliesHasContent(fs: Fs, cache: Path, sri: Integrity)
    requires Read(fs, cache, sri).Ok?
    ensures HasContent(fs, cache, sri) == Some(sri)
  {
  }

  /** `copy` (and `copy_async`): copies the content file to `to` first, then
      reads the content path again and checks it. The copied byte count is
      returned only when the check passes; on an `IntegrityError` the
      destination has already been written. */
  method Copy(disk: Disk, cache: Path, sri: Integrity, to: Path) returns (r: Result<nat>)
    modifies disk
    ensures old(Resolve(disk.fs, ContentPath(cache, sri))).None? ==> r == Err(Io(FileNotFound)) && disk.fs == old(disk.fs)
    ensures old(Resolve(disk.fs, ContentPath(cache, sri))).Some? ==>
      var copied := old(Resolve(disk.fs, ContentPath(cache, sri))).value;
      disk.fs == WriteFile(old(disk.fs), to, copied) &&
      r == (match Read(disk.fs, cache, sri) case Ok(_) => Ok(|copied|) case Err(e) => Err(e))
  {
    var cpath := ContentPath(cache, sri);
    var copied := Resolve(disk.fs, cpath);
    if copied.None? {
      return Err(Io(FileNotFound));
    }
    disk.fs := WriteFile(disk.fs, to, copied.value);
    var ret := |copied.value|;
    var data := Resolve(disk.fs, cpath);
    if data.None? {
      return Err(Io(FileNotFound));
    }
    if Check(sri, data.value).Some? {
      r := Ok(ret);
    } else {
      r := Err(IntegrityError);
    }
  }

  /** A copy of intact content to a path outside the store hands back the
      whole file and leaves a byte-for-byte copy at the destination. */
  lemma CopyOfIntactContent(fs: Fs, cache: Path, sri: Integrity, to: Path)
    requires Read(fs, cache, sri).Ok?
    requires to !in fs.content && forall p | p in fs.content :: fs.content[p] != Link(to)
    ensures Read(WriteFile(fs, to, Read(fs, cache, sri).value), cache, sri) == Read(fs, cache, sri)
    ensures Resolve(WriteFile(fs, to, Read(fs, cache, sri).value), to) == Some(Read(fs, cache, sri).value)
  {
  }

  function Min(a: nat, b: nat): nat {
    if a < b then a else b
  }

  /** A streaming reader over one content file (`Reader`/`AsyncReader`).
      `remaining` is what the file still holds, `fed` what the integrity
      checker has been given so far. */
  class Reader {
    var remaining: seq<byte>
    var fed: seq<byte>
    const sri: Integrity
    ghost const contents: seq<byte>

    /** Everything read so far went to the checker, in file order. */
    ghost predicate Valid()
      reads this
    {
      fed + remaining == contents
    }

    constructor (contents: seq<byte>, sri: Integrity)
      ensures Valid() && this.contents == contents && this.sri == sri
      ensures remaining == contents && fed == []
    {
      this.remaining := contents;
      this.fed := [];
      this.sri := sri;
      this.contents := contents;
    }

    /** `Read::read`: fills the front of `buf` with the next bytes of the
        file and feeds exactly those bytes, `buf[..amt]`, to the checker. */
    method Read(buf: array<byte>) returns (amt: nat)
      requires Valid()
      modifies this, buf
      ensures Valid()
      ensures amt == Min(buf.Length, |old(remaining)|)
      ensures buf[..amt] == old(remaining)[..amt] && buf[amt..] == old(buf[amt..])
      ensures remaining == old(remaining)[amt..]
      ensures fed == old(fed) + old(remaining)[..amt]
    {
      amt := Min(buf.Length, |remaining|);
      forall i | 0 <= i < amt {
        buf[i] := remaining[i];
      }
      fed := fed + buf[..amt];
      assert old(remaining) == old(remaining)[..amt] + old(remaining)[amt..];
      remaining := remaining[amt..];
    }

    /** `Read::read` as the source has it: the same bytes are delivered, but
        the whole caller buffer, `buf[..]`, is fed to the checker, including
        the stale tail beyond `amt` and the whole buffer again on the final
        read that returns 0. */
    method ReadAsWritten(buf: array<byte>) returns (amt: nat)
      modifies this, buf
      ensures amt == Min(buf.Length, |old(remaining)|)
      ensures buf[..amt] == old(remaining)[..amt] && buf[amt..] == old(buf[amt..])
      ensures remaining == old(remaining)[amt..]
      ensures fed == old(fed) + buf[..]
    {
      amt := Min(buf.Length, |remaining|);
      forall i | 0 <= i < amt {
        buf[i] := remaining[i];
      }
      fed := fed + buf[..];
      remaining := remaining[amt..];
    }

    /** `check`: the algorithm when the bytes fed so far pass the integrity
        check, `IntegrityError` otherwise. */
    function Check(): (r: Result<Algorithm>)
      reads this
      ensures r.Ok? <==> Sri.Check(sri, fed).Some?
      ensures r.Ok? ==> r.value == PickAlgorithm(sri)
      ensures r.Err? ==> r.error == IntegrityError
    {
      match Sri.Check(sri, fed)
      case Some(a) => Ok(a)
      case None => Err(IntegrityError)
    }
  }

  /** `open` with the content path it evidently means: a reader over the
      file that holds the content of `sri`. */
  method Open(fs: Fs, cache: Path, sri: Integrity) returns (r: Result<Reader>)
    ensures Resolve(fs, ContentPath(cache, sri)).None? <==> r.Err?
    ensures r.Err? ==> r.error == Io(FileNotFound)
    ensures r.Ok? ==>
      fresh(r.value) && r.value.Valid() && r.value.sri == sri && r.value.fed == [] &&
      Some(r.value.remaining) == Resolve(fs, ContentPath(cache, sri))
  {
    var file := Resolve(fs, ContentPath(cache, sri));
    if file.None? {
      return Err(Io(FileNotFound));
    }
    var reader := new Reader(file.value, sri);
    r := Ok(reader);
  }

  /** `open` (and `open_async`) as the source has them: the file opened is
      the cache root itself, not the content path of `sri`. */
  method OpenAsWritten(fs: Fs, cache: Path, sri: Integrity) returns (r: Result<Reader>)
    ensures Resolve(fs, cache).None? <==> r.Err?
    ensures r.Err? ==> r.error == Io(FileNotFound)
    ensures r.Ok? ==>
      fresh(r.value) && r.value.Valid() && r.value.sri == sri && r.value.fed == [] &&
      Some(r.value.remaining) == Resolve(fs, cache)
  {
    var file := Resolve(fs, cache);
    if file.None? {
      return Err(Io(FileNotFound));
    }
    var reader := new Reader(file.value, sri);
    r := Ok(reader);
  }

  /** Reading a content file to the end through `Read`, with a buffer of any
      positive size, and then checking, accepts intact content. */
  method ReadToEndAndCheck(reader: Reader, bufSize: nat) returns (r: Result<Algorithm>)
    requires reader.Valid() && reader.fed == [] && bufSize > 0
    requires Sri.Check(reader.sri, reader.contents).Some?
    modifies reader
    ensures r == Ok(PickAlgorithm(reader.sri))
  {
    var buf := new byte[bufSize](_ => 0);
    var amt := reader.Read(buf);
    while amt > 0
      invariant reader.Valid()
      invariant amt == 0 ==> reader.remaining == []
      decreases |reader.remaining| + (if amt > 0 then 1 else 0)
    {
      amt := reader.Read(buf);
    }
    assert reader.fed == reader.contents;
    r := reader.Check();
  }

  /** The bytes the source's reader feeds differ in digest from the file.
      The calculation is over the stand-in digest; for SHA-256 the same step
      rests on the digests of `[1]` and `[1, 0, 1, 0]` differing. */
  lemma StaleBufferChangesDigest()
    ensures Compute([1, 0, 1, 0], Sha256).first != Compute([1], Sha256).first
  {
    assert Digests.FoldBytes([1], 3) == 772;
    var fed: seq<byte> := [1, 0, 1, 0];
    assert fed[1..] == [0, 1, 0] && fed[2..] == [1, 0] && fed[3..] == [0];
    calc {
      Digests.FoldBytes(fed, 3);
      Digests.FoldBytes(fed[1..], 772);
      Digests.FoldBytes(fed[2..], 198404);
      Digests.FoldBytes(fed[3..], 50989829);
      Digests.FoldBytes([], 13104386053);
    }
    Digests.HexLastDigit(772, 64);
    Digests.HexLastDigit(13104386053, 64);
  }

  /** Content stored from one byte, read to the end with a two-byte buffer:
      the reader as the source writes it feeds the checker `[1, 0]` and then
      `[1, 0]` again, and rejects content that is intact. */
  method ReaderAsWrittenRejectsIntactContent() returns (r: Result<Algorithm>)
    ensures r == Err(IntegrityError)
  {
    var data: seq<byte> := [1];
    var sri := Compute(data, Sha256);
    var reader := new Reader(data, sri);
    var buf := new byte[2](_ => 0);
    var amt := reader.ReadAsWritten(buf);
    assert amt == 1 && buf[..] == [1, 0];
    amt := reader.ReadAsWritten(buf);
    assert amt == 0 && reader.fed == [1, 0, 1, 0];
    StaleBufferChangesDigest();
    r := reader.Check();
  }
}
