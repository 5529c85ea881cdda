/** Removing things from the cache (`rm`, and `async_rm`, whose functions
    do the same steps in the same order): one index entry, one content
    file, or everything under the cache directory. */
module Rm {
  import opened Wrappers
  import opened Sri
  import opened Errors
  import opened FileSystem
  import opened ContentPaths
  import opened Index
  import ContentRm

  /** `entry`: deletes the key's index entry; the content is left intact. */
  method Entry(disk: Disk, cache: Path, key: string, now: nat) returns (r: Result<()>)
    modifies disk
    ensures r == Ok(())
    ensures disk.fs == Appended(old(disk.fs), cache, key, Tombstone(key, now))
    ensures disk.fs.content == old(disk.fs.content)
    ensures Find(disk.fs, cache, key) == None
    ensures forall other :: other != key ==> Find(disk.fs, cache, other) == old(Find(disk.fs, cache, other))
  {
    Delete(disk, cache, key, now);
    r := Ok(());
  }

  /** `content`: removes the content file of `sri`; index entries that point
      at it stay, and reads through them fail from then on. */
  method Content(disk: Disk, cache: Path, sri: Integrity) returns (r: Result<()>)
    modifies disk
    ensures r.Ok? <==> ContentPath(cache, sri) in old(disk.fs.content)
    ensures r.Err? ==> r.error == Io(FileNotFound) && disk.fs == old(disk.fs)
    ensures r.Ok? ==> disk.fs == RemoveContent(old(disk.fs), ContentPath(cache, sri))
    ensures disk.fs.index == old(disk.fs.index)
  {
    r := ContentRm.Rm(disk, cache, sri);
  }

  /** One entry of a directory listing: a name, or an entry the listing
      could not read (which `all` skips). */
  datatype DirEntry = Readable(name: string) | Unreadable

  /** The names of the readable entries, in listing order. */
  function Names(entries: seq<DirEntry>): (names: seq<string>)
    ensures forall n <- names :: Readable(n) in entries
  {
    if entries == [] then []
    else
      var last := entries[|entries| - 1];
      Names(entries[..|entries| - 1]) + (if last.Readable? then [last.name] else [])
  }

  /** `p` lies inside one of the directories `cache/name`. */
  predicate Under(p: Path, cache: Path, names: seq<string>) {
    |p| > |cache| && p[..|cache|] == cache && p[|cache|] in names
  }

  /** The disk after `remove_dir_all(cache/name)` for each name in turn. */
  function RemoveTrees(fs: Fs, cache: Path, names: seq<string>): Fs {
    if names == [] then fs
    else RemoveTree(RemoveTrees(fs, cache, names[..|names| - 1]), cache + [names[|names| - 1]])
  }

  /** `cache/name` contains exactly the paths whose component after `cache`
      is `name`. */
  lemma InsideDir(cache: Path, name: string, p: Path)
    ensures cache + [name] <= p <==> |p| > |cache| && p[..|cache|] == cache && p[|cache|] == name
  {
    var dir := cache + [name];
    if dir <= p {
      assert p[..|cache|] == dir[..|cache|];
    }
    if |p| > |cache| && p[..|cache|] == cache && p[|cache|] == name {
      assert p[..|dir|] == dir;
    }
  }

  /** Removing the trees of `names` removes exactly the paths inside them. */
  lemma {:induction false} RemoveTreesRemovesUnder(fs: Fs, cache: Path, names: seq<string>, p: Path)
    ensures p in RemoveTrees(fs, cache, names).index <==> p in fs.index && !Under(p, cache, names)
    ensures p in RemoveTrees(fs, cache, names).content <==> p in fs.content && !Under(p, cache, names)
    ensures p in RemoveTrees(fs, cache, names).files <==> p in fs.files && !Under(p, cache, names)
  {
    if names != [] {
      var init, last := names[..|names| - 1], names[|names| - 1];
      RemoveTreesRemovesUnder(fs, cache, init, p);
      InsideDir(cache, last, p);
      assert names == init + [last];
    }
  }

  /** `all`: lists the cache directory and removes each readable entry's
      tree in turn. A listing that fails is returned as its error; a removal
      that fails (the names in `failing`) stops at that entry, after the
      earlier entries are gone. Nothing outside the cache is touched. */
  method All(disk: Disk, cache: Path, listing: Result<seq<DirEntry>>, failing: set<string>) returns (r: Result<()>, ghost stopped: nat)
    modifies disk
    ensures listing.Err? ==> r == Err(listing.error) && disk.fs == old(disk.fs)
    ensures listing.Ok? ==>
      (r.Ok? <==> forall n <- Names(listing.value) :: n !in failing) &&
      (r.Err? ==> r.error == Io(OtherIo))
    ensures listing.Ok? ==>
      stopped <= |listing.value| && disk.fs == RemoveTrees(old(disk.fs), cache, Names(listing.value[..stopped]))
    ensures r.Ok? ==> disk.fs == RemoveTrees(old(disk.fs), cache, Names(listing.value))
    ensures listing.Ok? && r.Err? ==>
      && stopped < |listing.value|
      && listing.value[stopped].Readable? && listing.value[stopped].name in failing
      && forall n <- Names(listing.value[..stopped]) :: n !in failing
  {
    stopped := 0;
    if listing.Err? {
      return Err(listing.error), 0;
    }
    var entries := listing.value;
    ghost var before := disk.fs;
    var i := 0;
    while i < |entries|
      invariant 0 <= i <= |entries|
      invariant disk.fs == RemoveTrees(before, cache, Names(entries[..i]))
      invariant forall n <- Names(entries[..i]) :: n !in failing
    {
      RemoveTreesStep(before, cache, entries, i);
      if entries[i].Readable? {
        if entries[i].name in failing {
          NamesPrefix(entries, i + 1);
          return Err(Io(OtherIo)), i;
        }
        disk.fs := RemoveTree(disk.fs, cache + [entries[i].name]);
      }
      i := i + 1;
    }
    assert entries[..i] == entries;
    r, stopped := Ok(()), i;
  }

  /** One more entry of the listing: its tree is removed when it is
      readable, and nothing happens otherwise. */
  lemma RemoveTreesStep(fs: Fs, cache: Path, entries: seq<DirEntry>, i: nat)
    requires i < |entries|
    ensures entries[i].Readable? ==>
      Names(entries[..i + 1]) == Names(entries[..i]) + [entries[i].name] &&
      RemoveTrees(fs, cache, Names(entries[..i + 1])) == RemoveTree(RemoveTrees(fs, cache, Names(entries[..i])), cache + [entries[i].name])
    ensures entries[i].Unreadable? ==> Names(entries[..i + 1]) == Names(entries[..i])
  {
    assert entries[..i + 1][..i] == entries[..i];
    var names := Names(entries[..i]);
    if entries[i].Readable? {
      assert (names + [entries[i].name])[..|names|] == names;
    }
  }

  lemma {:induction false} NamesPrefix(entries: seq<DirEntry>, k: nat)
    requires k <= |entries|
    ensures Names(entries[..k]) <= Names(entries)
    decreases |entries| - k
  {
    if k < |entries| {
      var init := entries[..|entries| - 1];
      assert entries[..k] == init[..k];
      NamesPrefix(init, k);
    } else {
      assert entries[..k] == entries;
    }
  }

  /** Paths outside the cache directory survive any removal of trees inside
      it. */
  lemma RemoveTreesKeepsOutside(fs: Fs, cache: Path, names: seq<string>, p: Path)
    requires !(cache <= p)
    ensures p in RemoveTrees(fs, cache, names).index <==> p in fs.index
    ensures p in RemoveTrees(fs, cache, names).content <==> p in fs.content
    ensures p in RemoveTrees(fs, cache, names).files <==> p in fs.files
  {
    RemoveTreesRemovesUnder(fs, cache, names, p);
  }

  /** Every path inside the cache directory starts with one of `names`: the
      listing named every top-level entry. */
  ghost predicate Covers(fs: Fs, cache: Path, names: seq<string>) {
    forall p | (p in fs.index || p in fs.content || p in fs.files) && |p| > |cache| && p[..|cache|] == cache ::
      p[|cache|] in names
  }

  /** After `all` has removed every top-level entry of the cache, no key is
      found and no content is left. */
  lemma AllEmptiesCache(fs: Fs, cache: Path, names: seq<string>, key: string, sri: Integrity)
    requires Covers(fs, cache, names)
    ensures Find(RemoveTrees(fs, cache, names), cache, key) == None
    ensures !Exists(RemoveTrees(fs, cache, names), ContentPath(cache, sri))
  {
    var after := RemoveTrees(fs, cache, names);
    var b := BucketPath(cache, key);
    var c := ContentPath(cache, sri);
    RemoveTreesRemovesUnder(fs, cache, names, b);
    RemoveTreesRemovesUnder(fs, cache, names, c);
    FindMissingBucket(after, cache, key);
  }
}
