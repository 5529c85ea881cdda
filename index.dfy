/** The key index (`index.rs`). Each key hashes to a bucket file. Every
    write appends one line, `"\n" + sha256hex(json) + "\t" + json`, and
    readers keep only lines whose checksum matches. Lookups fold over the
    surviving records so that the newest decisive record for the key wins,
    and a record without an integrity (a tombstone) deletes the key. */
module Index {
  import opened Wrappers
  import opened Text
  import opened Sri
  import opened Records
  import opened FileSystem
  import opened Options
  import opened Errors
  import opened ContentPaths
  import Digests

  const IndexVersion: string := "5"

  /** `index-v{INDEX_VERSION}` */
  const IndexDir: string := "index-v" + IndexVersion

  /** An index entry as callers see it (`Metadata`), with its integrity
      parsed. */
  datatype Entry = Entry(key: string, integrity: Integrity, time: nat, size: nat, metadata: Json)

  // ---------------------------------------------------------------------
  // Buckets

  /** `hash_key`: hex SHA-1 of the key. */
  function HashKey(key: string): (h: string)
    ensures |h| == 40 && Digests.IsHex(h)
  {
    Digests.Sha1Hex(key)
  }

  /** `hash_entry`: hex SHA-256 of a serialised record. */
  function HashEntry(json: string): (h: string)
    ensures |h| == 64 && Digests.IsHex(h)
  {
    Digests.Sha256Hex(json)
  }

  /** `bucket_path`: `cache/index-v5/h[0..2]/h[2..4]/h[4..]` for `h` the
      hashed key. */
  function BucketPath(cache: Path, key: string): (p: Path)
    ensures |p| == |cache| + 4 && p[..|cache|] == cache && p[|cache|] == IndexDir
    ensures |p[|cache| + 1]| == 2 && |p[|cache| + 2]| == 2
    ensures p[|cache| + 1] + p[|cache| + 2] + p[|cache| + 3] == HashKey(key)
  {
    var h := HashKey(key);
    assert h == h[0..2] + h[2..4] + h[4..];
    cache + [IndexDir, h[0..2], h[2..4], h[4..]]
  }

  /** Two keys share a bucket exactly when their hashed keys are equal; in
      particular equal keys always do. */
  lemma SameBucket(cache: Path, k1: string, k2: string)
    ensures BucketPath(cache, k1) == BucketPath(cache, k2) <==> HashKey(k1) == HashKey(k2)
  {
    var p1, p2 := BucketPath(cache, k1), BucketPath(cache, k2);
    var n := |cache|;
    if p1 == p2 {
      assert HashKey(k1) == p1[n + 1] + p1[n + 2] + p1[n + 3];
    }
  }

  // ---------------------------------------------------------------------
  // Lines of a bucket

  /** The line an insert writes for a serialised record. */
  function RecordLine(json: string): string {
    HashEntry(json) + "\t" + json
  }

  /** The record a bucket line holds: the line must split at tabs into
      exactly a checksum and a body, the checksum must be the body's hash and
      the body must deserialise. Anything else is dropped. */
  function ParseLine(line: string): Option<Record> {
    var parts := Split(line, '\t');
    if |parts| == 2 && HashEntry(parts[1]) == parts[0] then Decode(parts[1]) else None
  }

  /** A checksummed line holds exactly what its body deserialises to. */
  lemma ParseRecordLine(json: string)
    requires '\t' !in json
    ensures ParseLine(RecordLine(json)) == Decode(json)
  {
    var h := HashEntry(json);
    assert '\t' !in h by { NoTabInHex(h); }
    SplitAppend(h, '\t', json);
  }

  lemma NoTabInHex(h: string)
    requires Digests.IsHex(h)
    ensures '\t' !in h && '\n' !in h
  {
    forall k | 0 <= k < |h|
      ensures h[k] != '\t' && h[k] != '\n'
    {
      assert Digests.IsHexChar(h[k]);
    }
  }

  /** The line that records `r` reads back as `r`. */
  lemma ParseEncodedLine(r: Record)
    ensures ParseLine(RecordLine(Encode(r))) == Some(r)
  {
    ParseRecordLine(Encode(r));
    DecodeEncode(r);
  }

  /** What one element contributes to a `filter_map`. */
  function Kept<T, U>(f: T -> Option<U>, x: T): seq<U> {
    match f(x) case Some(y) => [y] case None => []
  }

  /** `iter.filter_map(f)`: the present results of `f`, in order. */
  function FilterMap<T, U>(f: T -> Option<U>, xs: seq<T>): (ys: seq<U>)
    ensures |ys| <= |xs|
  {
    if xs == [] then [] else Kept(f, xs[0]) + FilterMap(f, xs[1..])
  }

  lemma {:induction false} FilterMapAppend<T, U>(f: T -> Option<U>, a: seq<T>, b: seq<T>)
    ensures FilterMap(f, a + b) == FilterMap(f, a) + FilterMap(f, b)
  {
    if a == [] {
      assert a + b == b;
    } else {
      var ab := a + b;
      assert ab[0] == a[0] && ab[1..] == a[1..] + b;
      FilterMapAppend(f, a[1..], b);
    }
  }

  lemma FilterMapSnoc<T, U>(f: T -> Option<U>, init: seq<T>, last: T)
    ensures FilterMap(f, init + [last]) == FilterMap(f, init) + Kept(f, last)
  {
    FilterMapAppend(f, init, [last]);
    assert FilterMap(f, [last]) == Kept(f, last) + FilterMap(f, []);
  }

  /** One more element adds its present result, if any. */
  lemma FilterMapStep<T, U>(f: T -> Option<U>, xs: seq<T>, i: nat, y: Option<U>)
    requires i < |xs| && y == f(xs[i])
    ensures FilterMap(f, xs[..i + 1]) == FilterMap(f, xs[..i]) + (if y.Some? then [y.value] else [])
  {
    assert xs[..i + 1] == xs[..i] + [xs[i]];
    FilterMapSnoc(f, xs[..i], xs[i]);
  }

  /** The records a list of lines holds: each line's record, damaged lines
      skipped. */
  function ParseLines(lines: seq<string>): seq<Record> {
    FilterMap(ParseLine, lines)
  }

  /** The records a bucket's text holds, in file order. */
  function Entries(text: string): seq<Record> {
    ParseLines(Lines(text))
  }

  /** An empty line holds no record, so the final newline handling of
      `lines()` does not matter. */
  lemma EntriesOfSplit(text: string)
    ensures Entries(text) == ParseLines(Split(text, '\n'))
  {
    LinesOfSplit(text);
    if Split(text, '\n') != Lines(text) {
      FilterMapAppend(ParseLine, Lines(text), [""]);
      assert Split("", '\t') == [""];
    }
  }

  /** Appending a newline and one more line adds what that line holds, and
      leaves the records of the earlier text as they were. */
  lemma EntriesAppendLine(text: string, line: string)
    requires '\n' !in line
    ensures Entries(text + "\n" + line) == Entries(text) + ParseLines([line])
  {
    EntriesOfSplit(text + "\n" + line);
    EntriesOfSplit(text);
    SplitAppend(text, '\n', line);
    FilterMapAppend(ParseLine, Split(text, '\n'), [line]);
  }

  /** An insert's line adds exactly its record at the end of the bucket. */
  lemma EntriesAppendRecord(text: string, r: Record)
    ensures Entries(text + "\n" + RecordLine(Encode(r))) == Entries(text) + [r]
  {
    var line := RecordLine(Encode(r));
    assert '\n' !in line by { NoTabInHex(HashEntry(Encode(r))); }
    EntriesAppendLine(text, line);
    ParseEncodedLine(r);
  }

  /** A damaged line (a torn write, a checksum mismatch, garbage) is
      skipped, and the records around it survive. */
  lemma EntriesAppendDamaged(text: string, line: string)
    requires '\n' !in line && ParseLine(line).None?
    ensures Entries(text + "\n" + line) == Entries(text)
  {
    EntriesAppendLine(text, line);
  }

  /** `bucket_entries`: a missing bucket file has no entries. */
  function BucketEntries(fs: Fs, bucket: Path): seq<Record> {
    if bucket in fs.index then Entries(fs.index[bucket]) else []
  }

  /** `bucket_entries_async`: the same records, gathered line by line. */
  method BucketEntriesAsync(fs: Fs, bucket: Path) returns (es: seq<Record>)
    ensures es == BucketEntries(fs, bucket)
  {
    if bucket !in fs.index {
      return [];
    }
    var lines := Lines(fs.index[bucket]);
    es := [];
    var i := 0;
    while i < |lines|
      invariant 0 <= i <= |lines|
      invariant es == ParseLines(lines[..i])
    {
      var entry := ParseLine(lines[i]);
      FilterMapStep(ParseLine, lines, i, entry);
      if entry.Some? {
        es := es + [entry.value];
      }
      i := i + 1;
    }
    assert lines[..i] == lines;
  }

  // ---------------------------------------------------------------------
  // find

  /** The entry a live record denotes, when its integrity parses. */
  function EntryOf(r: Record): Option<Entry> {
    match r.integrity
    case None => None
    case Some(s) =>
      match ParseIntegrity(s)
      case None => None
      case Some(sri) => Some(Entry(r.key, sri, r.time, r.size, r.metadata))
  }

  /** One step of `find`'s fold: records for other keys and records whose
      integrity does not parse keep the accumulator; a tombstone resets it;
      a live record replaces it. */
  function Step(acc: Option<Entry>, r: Record, key: string): Option<Entry> {
    if r.key != key then acc
    else if r.integrity.None? then None
    else if ParseIntegrity(r.integrity.value).None? then acc
    else EntryOf(r)
  }

  function Fold(es: seq<Record>, key: string, acc: Option<Entry>): (r: Option<Entry>)
    requires acc.None? || acc.value.key == key
    ensures r.None? || r.value.key == key
  {
    if es == [] then acc else Fold(es[1..], key, Step(acc, es[0], key))
  }

  lemma {:induction false} FoldSnoc(es: seq<Record>, r: Record, key: string, acc: Option<Entry>)
    requires acc.None? || acc.value.key == key
    ensures Fold(es + [r], key, acc) == Step(Fold(es, key, acc), r, key)
  {
    if es != [] {
      assert (es + [r])[1..] == es[1..] + [r];
      FoldSnoc(es[1..], r, key, Step(acc, es[0], key));
    }
  }

  /** A record that settles `find` for `key`: a tombstone or a record whose
      integrity parses. */
  predicate Decisive(r: Record, key: string) {
    r.key == key && (r.integrity.None? || ParseIntegrity(r.integrity.value).Some?)
  }

  /** The newest decisive record for `key`, scanning from the end. */
  function Newest(es: seq<Record>, key: string): (r: Option<Record>)
    ensures r.Some? ==> Decisive(r.value, key) && r.value in es
  {
    if es == [] then None
    else if Decisive(es[|es| - 1], key) then Some(es[|es| - 1])
    else Newest(es[..|es| - 1], key)
  }

  /** `find`'s left fold yields what the newest decisive record says, and
      nothing when there is none. */
  lemma {:induction false} FoldIsNewest(es: seq<Record>, key: string)
    ensures Fold(es, key, None) == match Newest(es, key) case None => None case Some(r) => EntryOf(r)
  {
    if es != [] {
      var init, last := es[..|es| - 1], es[|es| - 1];
      assert es == init + [last];
      FoldSnoc(init, last, key, None);
      FoldIsNewest(init, key);
    }
  }

  /** `find`: the entry the key's bucket records, or nothing. */
  function Find(fs: Fs, cache: Path, key: string): (r: Option<Entry>)
    ensures r.Some? ==> r.value.key == key
  {
    Fold(BucketEntries(fs, BucketPath(cache, key)), key, None)
  }

  /** `find_async`: the same lookup over the entries gathered line by line. */
  method FindAsync(fs: Fs, cache: Path, key: string) returns (r: Option<Entry>)
    ensures r == Find(fs, cache, key)
  {
    var es := BucketEntriesAsync(fs, BucketPath(cache, key));
    r := Fold(es, key, None);
  }

  /** A key whose bucket does not exist is not found. */
  lemma FindMissingBucket(fs: Fs, cache: Path, key: string)
    requires BucketPath(cache, key) !in fs.index
    ensures Find(fs, cache, key) == None
  {
  }

  // ---------------------------------------------------------------------
  // insert and delete

  /** The record `insert` serialises: the time defaults to `now`, the size
      to 0 and the metadata to JSON null. */
  function NewRecord(key: string, opts: WriteOpts, now: nat): Record {
    Record(key,
           match opts.sri case None => None case Some(sri) => Some(IntegrityText(sri)),
           opts.time.GetOr(now), opts.size.GetOr(0), opts.metadata.GetOr(Null))
  }

  /** The entry `find` reports for a record written with `opts`. */
  function InsertedEntry(key: string, opts: WriteOpts, now: nat): Option<Entry> {
    match opts.sri
    case None => None
    case Some(sri) => Some(Entry(key, sri, opts.time.GetOr(now), opts.size.GetOr(0), opts.metadata.GetOr(Null)))
  }

  /** The disk after appending the line for `r` to the bucket of `key`. */
  function Appended(fs: Fs, cache: Path, key: string, r: Record): Fs {
    AppendBucket(fs, BucketPath(cache, key), "\n" + RecordLine(Encode(r)))
  }

  /** After an append the bucket holds its earlier records followed by the
      new one. */
  lemma AppendedEntries(fs: Fs, cache: Path, key: string, r: Record)
    ensures BucketEntries(Appended(fs, cache, key, r), BucketPath(cache, key))
         == BucketEntries(fs, BucketPath(cache, key)) + [r]
  {
    var b := BucketPath(cache, key);
    var text := BucketText(fs, b);
    var line := "\n" + RecordLine(Encode(r));
    assert Appended(fs, cache, key, r).index[b] == text + line;
    EntriesAppendRecord(text, r);
    assert text + line == text + "\n" + RecordLine(Encode(r));
    if b !in fs.index {
      EntriesEmpty();
    }
  }

  /** Insert, then find: the inserted key, integrity, time, size and
      metadata come back, whatever the bucket held before; with no integrity
      the key reads as absent. */
  lemma InsertThenFind(fs: Fs, cache: Path, key: string, opts: WriteOpts, now: nat)
    ensures Find(Appended(fs, cache, key, NewRecord(key, opts, now)), cache, key)
         == InsertedEntry(key, opts, now)
  {
    var r := NewRecord(key, opts, now);
    var es := BucketEntries(fs, BucketPath(cache, key));
    AppendedEntries(fs, cache, key, r);
    FoldSnoc(es, r, key, None);
    if opts.sri.Some? {
      ParseIntegrityText(opts.sri.value);
    }
  }

  /** An insert for one key leaves every other key's lookup unchanged, even
      when both keys share a bucket. */
  lemma InsertKeepsOtherKeys(fs: Fs, cache: Path, key: string, r: Record, other: string)
    requires r.key == key && other != key
    ensures Find(Appended(fs, cache, key, r), cache, other) == Find(fs, cache, other)
  {
    var b := BucketPath(cache, key);
    if BucketPath(cache, other) == b {
      AppendedEntries(fs, cache, key, r);
      FoldSnoc(BucketEntries(fs, b), r, other, None);
    }
  }

  /** A damaged line appended to a bucket changes no bucket's records. */
  lemma DamagedLineKeepsBucket(fs: Fs, b: Path, line: string, p: Path)
    requires '\n' !in line && ParseLine(line).None?
    ensures BucketEntries(AppendBucket(fs, b, "\n" + line), p) == BucketEntries(fs, p)
  {
    if p == b {
      var text := BucketText(fs, b);
      assert AppendBucket(fs, b, "\n" + line).index[b] == text + "\n" + line;
      EntriesAppendDamaged(text, line);
      if b !in fs.index {
        EntriesEmpty();
      }
    }
  }

  lemma EntriesEmpty()
    ensures Entries("") == []
  {
  }

  /** A damaged line appended to a bucket changes no lookup. */
  lemma DamagedLineKeepsFind(fs: Fs, cache: Path, key: string, line: string, anyKey: string)
    requires '\n' !in line && ParseLine(line).None?
    ensures Find(AppendBucket(fs, BucketPath(cache, key), "\n" + line), cache, anyKey) == Find(fs, cache, anyKey)
  {
    DamagedLineKeepsBucket(fs, BucketPath(cache, key), line, BucketPath(cache, anyKey));
  }

  /** `insert`: appends one checksummed record line to the key's bucket and
      returns the supplied integrity, or the `sha1-deadbeef` placeholder
      when none was supplied. */
  method Insert(disk: Disk, cache: Path, key: string, opts: WriteOpts, now: nat) returns (sri: Integrity)
    modifies disk
    ensures disk.fs == Appended(old(disk.fs), cache, key, NewRecord(key, opts, now))
    ensures sri == opts.sri.GetOr(Placeholder)
    ensures BucketEntries(disk.fs, BucketPath(cache, key))
         == old(BucketEntries(disk.fs, BucketPath(cache, key))) + [NewRecord(key, opts, now)]
    ensures Find(disk.fs, cache, key) == InsertedEntry(key, opts, now)
  {
    var bucket := BucketPath(cache, key);
    var stringified := Encode(NewRecord(key, opts, now));
    disk.fs := AppendBucket(disk.fs, bucket, "\n" + HashEntry(stringified) + "\t" + stringified);
    assert "\n" + HashEntry(stringified) + "\t" + stringified == "\n" + RecordLine(stringified);
    AppendedEntries(old(disk.fs), cache, key, NewRecord(key, opts, now));
    InsertThenFind(old(disk.fs), cache, key, opts, now);
    var placeholder := ParseIntegrity("sha1-deadbeef");
    PlaceholderParses();
    sri := if opts.sri.Some? then opts.sri.value else placeholder.value;
  }

  /** The tombstone `delete` writes: every option absent. */
  function Tombstone(key: string, now: nat): Record {
    NewRecord(key, NewOpts(), now)
  }

  /** `delete` (and `delete_async`, which calls the same `insert`): appends
      a tombstone, after which the key is absent while its earlier lines
      stay in the bucket and every other key reads as before. */
  method Delete(disk: Disk, cache: Path, key: string, now: nat)
    modifies disk
    ensures disk.fs == Appended(old(disk.fs), cache, key, Tombstone(key, now))
    ensures Find(disk.fs, cache, key) == None
    ensures forall other :: other != key ==> Find(disk.fs, cache, other) == old(Find(disk.fs, cache, other))
  {
    ghost var before := disk.fs;
    var _ := Insert(disk, cache, key, NewOpts(), now);
    forall other | other != key
      ensures Find(disk.fs, cache, other) == Find(before, cache, other)
    {
      InsertKeepsOtherKeys(before, cache, key, Tombstone(key, now), other);
    }
  }

  // ---------------------------------------------------------------------
  // remove_sync

  datatype RemoveOpts = RemoveOpts(removeFully: bool)

  /** `RemoveOpts::new()`: append a tombstone rather than delete files. */
  function NewRemoveOpts(): (o: RemoveOpts)
    ensures !o.removeFully
  {
    RemoveOpts(false)
  }

  function WithRemoveFully(o: RemoveOpts, removeFully: bool): (r: RemoveOpts)
    ensures r.removeFully == removeFully
  {
    o.(removeFully := removeFully)
  }

  /** `RemoveOpts::remove_sync` (and the async `remove`). Without
      `remove_fully` it is `delete`. With it, the content file of the key's
      current entry is removed first, then the whole bucket file; a missing
      file stops the removal with an I/O error. */
  method RemoveSync(disk: Disk, opts: RemoveOpts, cache: Path, key: string, now: nat) returns (r: Result<()>)
    modifies disk
    ensures !opts.removeFully ==> r == Ok(()) && disk.fs == Appended(old(disk.fs), cache, key, Tombstone(key, now))
    ensures opts.removeFully && r.Ok? ==> BucketPath(cache, key) in old(disk.fs).index
    ensures opts.removeFully && r.Ok? ==>
      disk.fs == RemoveBucket(
        match old(Find(disk.fs, cache, key))
        case None => old(disk.fs)
        case Some(e) => RemoveContent(old(disk.fs), ContentPath(cache, e.integrity)),
        BucketPath(cache, key))
    ensures opts.removeFully && r.Err? ==> r == Err(Io(FileNotFound)) && disk.fs == old(disk.fs)
    ensures r.Ok? ==> Find(disk.fs, cache, key) == None
  {
    if !opts.removeFully {
      Delete(disk, cache, key, now);
      return Ok(());
    }
    var meta := Find(disk.fs, cache, key);
    if meta.Some? {
      var content := ContentPath(cache, meta.value.integrity);
      if content !in disk.fs.content {
        return Err(Io(FileNotFound));
      }
      disk.fs := RemoveContent(disk.fs, content);
    }
    var bucket := BucketPath(cache, key);
    if bucket !in disk.fs.index {
      return Err(Io(FileNotFound));
    }
    disk.fs := RemoveBucket(disk.fs, bucket);
    r := Ok(());
  }

  // ---------------------------------------------------------------------
  // ls

  /** `collect::<HashSet<_>>()` on records that compare by key: the first
      record of each key not already in `seen` is kept. */
  function FirstPerKey(es: seq<Record>, seen: set<string>): (kept: seq<Record>)
    ensures forall r <- kept :: r in es && r.key !in seen
  {
    if es == [] then []
    else if es[0].key in seen then FirstPerKey(es[1..], seen)
    else [es[0]] + FirstPerKey(es[1..], seen + {es[0].key})
  }

  function Reverse(es: seq<Record>): (r: seq<Record>)
    ensures |r| == |es|
  {
    if es == [] then [] else Reverse(es[1..]) + [es[0]]
  }

  /** The last record for `key` in file order, whatever it holds. */
  function LastOf(es: seq<Record>, key: string): (r: Option<Record>)
    ensures r.Some? ==> r.value in es && r.value.key == key
  {
    if es == [] then None
    else if es[|es| - 1].key == key then Some(es[|es| - 1])
    else LastOf(es[..|es| - 1], key)
  }

  /** The first record for `key` in sequence order. */
  function FirstOf(es: seq<Record>, key: string): (r: Option<Record>)
    ensures r.Some? ==> r.value.key == key
  {
    if es == [] then None
    else if es[0].key == key then Some(es[0])
    else FirstOf(es[1..], key)
  }

  lemma {:induction false} FirstPerKeyIsFirst(es: seq<Record>, seen: set<string>, r: Record)
    ensures r in FirstPerKey(es, seen) <==> r.key !in seen && FirstOf(es, r.key) == Some(r)
  {
    if es != [] {
      if es[0].key in seen {
        FirstPerKeyIsFirst(es[1..], seen, r);
      } else {
        FirstPerKeyIsFirst(es[1..], seen + {es[0].key}, r);
      }
    }
  }

  lemma {:induction false} FirstOfReverse(es: seq<Record>, key: string)
    ensures FirstOf(Reverse(es), key) == LastOf(es, key)
  {
    if es != [] {
      var init, last := es[..|es| - 1], es[|es| - 1];
      assert es == init + [last];
      ReverseSnoc(init, last);
      assert Reverse(es)[1..] == Reverse(init);
      FirstOfReverse(init, key);
    }
  }

  lemma {:induction false} ReverseSnoc(es: seq<Record>, x: Record)
    ensures Reverse(es + [x]) == [x] + Reverse(es)
  {
    if es != [] {
      assert (es + [x])[1..] == es[1..] + [x];
      ReverseSnoc(es[1..], x);
    }
  }

  /** The records `ls` keeps for a bucket: reversing and collecting by key
      keeps exactly the newest record of each key. */
  lemma NewestPerKey(es: seq<Record>, r: Record)
    ensures r in FirstPerKey(Reverse(es), {}) <==> LastOf(es, r.key) == Some(r)
  {
    FirstPerKeyIsFirst(Reverse(es), {}, r);
    FirstOfReverse(es, r.key);
  }

  /** The newest record of a key, when it is decisive, is what `find` sees. */
  lemma {:induction false} NewestIsLast(es: seq<Record>, key: string)
    ensures LastOf(es, key).None? ==> Newest(es, key).None?
    ensures LastOf(es, key).Some? && Decisive(LastOf(es, key).value, key) ==> Newest(es, key) == LastOf(es, key)
  {
    if es != [] {
      NewestIsLast(es[..|es| - 1], key);
    }
  }

  /** True when some newest-per-key record carries an integrity that does
      not parse: `ls` then panics on `parse().unwrap()`. */
  predicate LsPanics(es: seq<Record>) {
    exists r :: r in FirstPerKey(Reverse(es), {}) && r.integrity.Some? && ParseIntegrity(r.integrity.value).None?
  }

  /** The entries `ls` yields for one bucket (when it does not panic): the
      newest record of each key, tombstoned keys left out. */
  function LsBucket(es: seq<Record>): set<Entry> {
    set r | r in FirstPerKey(Reverse(es), {}) && EntryOf(r).Some? :: EntryOf(r).value
  }

  /** `ls` and `find` agree: an entry is listed for a bucket exactly when
      `find` over that bucket returns it. */
  lemma LsBucketIsFind(es: seq<Record>, e: Entry)
    requires !LsPanics(es)
    ensures e in LsBucket(es) <==> Fold(es, e.key, None) == Some(e)
  {
    FoldIsNewest(es, e.key);
    NewestIsLast(es, e.key);
    if e in LsBucket(es) {
      var r :| r in FirstPerKey(Reverse(es), {}) && EntryOf(r) == Some(e);
      NewestPerKey(es, r);
    }
    if Fold(es, e.key, None) == Some(e) {
      var last := LastOf(es, e.key).value;
      NewestPerKey(es, last);
      assert EntryOf(last) == Some(e);
    }
  }

  /** `ls` lists at most one entry per key. */
  lemma LsBucketKeysDistinct(es: seq<Record>, e1: Entry, e2: Entry)
    requires !LsPanics(es)
    requires e1 in LsBucket(es) && e2 in LsBucket(es) && e1.key == e2.key
    ensures e1 == e2
  {
    LsBucketIsFind(es, e1);
    LsBucketIsFind(es, e2);
  }

  /** The directory `ls` walks. */
  function IndexRoot(cache: Path): (root: Path)
    ensures forall key :: root <= BucketPath(cache, key)
  {
    cache + [IndexDir]
  }

  /** Every record under the index directory sits in the bucket of its own
      key, as `insert` puts it. */
  predicate WellPlaced(fs: Fs, cache: Path) {
    forall p, r :: p in fs.index && IndexRoot(cache) <= p && r in Entries(fs.index[p]) ==> BucketPath(cache, r.key) == p
  }

  /** Some bucket makes `ls` panic. */
  predicate LsPanicsIn(fs: Fs, cache: Path) {
    exists p :: p in fs.index && IndexRoot(cache) <= p && LsPanics(Entries(fs.index[p]))
  }

  /** `ls`: every entry the buckets under the index directory list. The
      walk order is not modelled, so the listing is a set. */
  function Ls(fs: Fs, cache: Path): set<Entry> {
    set p, e | p in fs.index && IndexRoot(cache) <= p && e in LsBucket(Entries(fs.index[p])) :: e
  }

  /** `ls` and `find` agree on a well-placed index: an entry is listed
      exactly when looking up its key finds it. */
  lemma LsIsFind(fs: Fs, cache: Path, e: Entry)
    requires WellPlaced(fs, cache) && !LsPanicsIn(fs, cache)
    ensures e in Ls(fs, cache) <==> Find(fs, cache, e.key) == Some(e)
  {
    var b := BucketPath(cache, e.key);
    if e in Ls(fs, cache) {
      var p :| p in fs.index && IndexRoot(cache) <= p && e in LsBucket(Entries(fs.index[p]));
      var es := Entries(fs.index[p]);
      var r :| r in FirstPerKey(Reverse(es), {}) && EntryOf(r) == Some(e);
      NewestPerKey(es, r);
      assert r in es;
      assert p == b;
      LsBucketIsFind(es, e);
    }
    if Find(fs, cache, e.key) == Some(e) {
      assert b in fs.index;
      LsBucketIsFind(Entries(fs.index[b]), e);
    }
  }

  /** Each key is listed at most once. */
  lemma LsKeysDistinct(fs: Fs, cache: Path, e1: Entry, e2: Entry)
    requires WellPlaced(fs, cache) && !LsPanicsIn(fs, cache)
    requires e1 in Ls(fs, cache) && e2 in Ls(fs, cache) && e1.key == e2.key
    ensures e1 == e2
  {
    LsIsFind(fs, cache, e1);
    LsIsFind(fs, cache, e2);
  }

  /** Appending a record to its own key's bucket keeps the index well
      placed. */
  lemma AppendedWellPlaced(fs: Fs, cache: Path, key: string, r: Record)
    requires r.key == key && WellPlaced(fs, cache)
    ensures WellPlaced(Appended(fs, cache, key, r), cache)
  {
    var fs' := Appended(fs, cache, key, r);
    var b := BucketPath(cache, key);
    forall p, r' | p in fs'.index && IndexRoot(cache) <= p && r' in Entries(fs'.index[p])
      ensures BucketPath(cache, r'.key) == p
    {
      if p == b {
        AppendedEntries(fs, cache, key, r);
        assert r' in BucketEntries(fs, b) + [r];
      } else {
        assert fs'.index[p] == fs.index[p];
      }
    }
  }
}
