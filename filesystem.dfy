/** The directory tree the cache lives in, as one value. Each file-system
    call of the cache is one atomic step that maps such a value to the
    next one.
    - `index` holds the index bucket files (text);
    - `content` holds the entries of the content store, each either a
      regular file or a symbolic link to a file outside the store;
    - `files` holds every other file: link targets and copy destinations. */
module FileSystem {
  import opened Wrappers
  import opened Bytes

  type Path = seq<string>

  datatype Blob = Data(bytes: seq<byte>) | Link(target: Path)

  datatype Fs = Fs(index: map<Path, string>, content: map<Path, Blob>, files: map<Path, seq<byte>>)

  function EmptyFs(): Fs {
    Fs(map[], map[], map[])
  }

  /** `fs::read(p)`: the bytes at `p`, following a symbolic link; nothing
      when the path or the link's target is missing. */
  function Resolve(fs: Fs, p: Path): Option<seq<byte>> {
    if p in fs.content then
      match fs.content[p]
      case Data(bytes) => Some(bytes)
      case Link(target) => if target in fs.files then Some(fs.files[target]) else None
    else if p in fs.files then Some(fs.files[p])
    else None
  }

  /** `Path::exists`: true when reading `p` would find a file (a link whose
      target is missing does not exist). */
  predicate Exists(fs: Fs, p: Path) {
    Resolve(fs, p).Some?
  }

  function PlaceContent(fs: Fs, p: Path, b: Blob): Fs {
    fs.(content := fs.content[p := b])
  }

  function RemoveContent(fs: Fs, p: Path): Fs {
    fs.(content := fs.content - {p})
  }

  /** The text of a bucket file; a missing bucket reads as empty. */
  function BucketText(fs: Fs, p: Path): string {
    if p in fs.index then fs.index[p] else ""
  }

  /** Opening a bucket for append (creating it if needed) and writing `text`. */
  function AppendBucket(fs: Fs, p: Path, text: string): Fs {
    fs.(index := fs.index[p := BucketText(fs, p) + text])
  }

  function RemoveBucket(fs: Fs, p: Path): Fs {
    fs.(index := fs.index - {p})
  }

  function WriteFile(fs: Fs, p: Path, bytes: seq<byte>): Fs {
    fs.(files := fs.files[p := bytes])
  }

  /** `fs::remove_dir_all(dir)`: every path inside `dir` disappears. */
  function RemoveTree(fs: Fs, dir: Path): (r: Fs)
    ensures forall p :: p in r.index <==> p in fs.index && !(dir <= p)
    ensures forall p :: p in r.content <==> p in fs.content && !(dir <= p)
    ensures forall p :: p in r.files <==> p in fs.files && !(dir <= p)
  {
    Fs(map p | p in fs.index && !(dir <= p) :: fs.index[p],
       map p | p in fs.content && !(dir <= p) :: fs.content[p],
       map p | p in fs.files && !(dir <= p) :: fs.files[p])
  }

  /** The disk shared by every operation of the cache. */
  class Disk {
    var fs: Fs

    constructor (initial: Fs)
      ensures fs == initial
    {
      fs := initial;
    }
  }
}
