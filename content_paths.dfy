/** Where the content store keeps the data for an integrity value
    (`content::path::content_path`). */
module ContentPaths {
  import opened Sri
  import opened FileSystem

  const ContentDir: string := "content-v2"

  /** The content path of `sri` under `cache`: a fixed directory followed
      by a name derived from the whole integrity value. */
  function ContentPath(cache: Path, sri: Integrity): (p: Path)
    ensures |p| == |cache| + 2 && p[..|cache|] == cache && p[|cache|] == ContentDir
  {
    cache + [ContentDir, IntegrityText(sri)]
  }

  /** Different integrity values never share a content path. */
  lemma ContentPathInjective(cache: Path, a: Integrity, b: Integrity)
    requires ContentPath(cache, a) == ContentPath(cache, b)
    ensures a == b
  {
    assert ContentPath(cache, a)[|cache| + 1] == IntegrityText(a);
    IntegrityTextInjective(a, b);
  }
}
