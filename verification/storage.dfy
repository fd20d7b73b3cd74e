/**
 * What the backup script reads and writes: the opened source file, read
 * forward with `read(n)`, and the part of the filesystem it changes, namely
 * the directories that exist and the archives written so far.
 */
module Storage {
  import opened Wrappers
  import opened PosixPath
  import opened Chunking

  /** One archive written to disk: its path, the name of its only entry, and that entry's bytes. */
  datatype Archive = Archive(path: Path, entry: string, bytes: seq<Byte>)

  /** The filesystem as the script changes it. */
  datatype Disk = Disk(dirs: set<Path>, archives: seq<Archive>)

  /**
   * `os.makedirs(p, exist_ok=True)` on the directories `dirs`, where the
   * paths in `blocked` cannot be created (a permission error, or a file in
   * the way): it fails on an empty path or when some missing ancestor of `p`
   * is blocked, and otherwise adds `p` and all its ancestors.
   */
  function CreateDirs(dirs: set<Path>, blocked: set<Path>, p: Path): (r: Option<set<Path>>)
    ensures r.None? <==> p == [] || exists a :: a in Ancestors(p) && a !in dirs && a in blocked
    ensures r.Some? ==> p in r.value && Ancestors(p) <= r.value
    ensures r.Some? ==> dirs <= r.value && r.value - dirs <= Ancestors(p)
  {
    var refused := (Ancestors(p) - dirs) * blocked;
    assert forall a :: a in Ancestors(p) && a !in dirs && a in blocked ==> a in refused;
    if p == [] || refused != {} then None
    else Some(dirs + Ancestors(p))
  }

  /**
   * Creating a directory that is already there changes nothing and does not
   * fail, so calling `makedirs` twice with the same path is the same as
   * calling it once.
   */
  lemma CreateDirsIdempotent(dirs: set<Path>, blocked: set<Path>, p: Path)
    requires CreateDirs(dirs, blocked, p).Some?
    ensures var once := CreateDirs(dirs, blocked, p).value;
      CreateDirs(once, blocked, p) == Some(once)
  {
  }

  /** A source file opened for binary reading. */
  class ByteStream {
    const data: seq<Byte>
    var pos: nat

    ghost predicate Valid()
      reads this
    {
      pos <= |data|
    }

    /** The bytes not read yet. */
    function Remaining(): seq<Byte>
      reads this
      requires Valid()
    {
      data[pos..]
    }

    constructor (content: seq<Byte>)
      ensures Valid() && data == content && pos == 0
    {
      data := content;
      pos := 0;
    }

    /**
     * `read(n)`: the next `n` bytes, or all that is left; all that is left
     * for `n == -1`; empty at the end of the file or for `n == 0`. A size
     * below -1 or beyond a `Py_ssize_t` raises (`None`) and reads nothing.
     */
    method Read(n: int) returns (chunk: Option<seq<Byte>>)
      requires Valid()
      modifies this`pos
      ensures Valid()
      ensures chunk.None? <==> ReadRejects(n)
      ensures chunk.Some? ==> chunk.value == old(Remaining())[..ReadLen(n, |old(Remaining())|)]
      ensures chunk.Some? ==> Remaining() == old(Remaining())[|chunk.value|..]
      ensures chunk.None? ==> Remaining() == old(Remaining())
    {
      if n < -1 || n > SsizeMax {
        return None;
      }
      var end := if n == -1 then |data| else Min(pos + n, |data|);
      chunk := Some(data[pos..end]);
      pos := end;
    }
  }

  /** The directories and archives on disk, with the paths the system refuses to create. */
  class FileSystem {
    var dirs: set<Path>
    var archives: seq<Archive>
    const blocked: set<Path>

    function State(): Disk
      reads this
    {
      Disk(dirs, archives)
    }

    constructor (existing: set<Path>, refused: set<Path>)
      ensures State() == Disk(existing, []) && blocked == refused
    {
      dirs := existing;
      archives := [];
      blocked := refused;
    }

    /** `os.makedirs(p, exist_ok=True)`; `ok` is false where Python would raise. */
    method MakeDirs(p: Path) returns (ok: bool)
      modifies this`dirs
      ensures ok == CreateDirs(old(dirs), blocked, p).Some?
      ensures dirs == if ok then CreateDirs(old(dirs), blocked, p).value else old(dirs)
    {
      var r := CreateDirs(dirs, blocked, p);
      ok := r.Some?;
      if ok {
        dirs := r.value;
      }
    }

    /**
     * Writes a new archive at `path` whose only entry is `entry` holding
     * `bytes`; `ok` is false, and nothing is written, where the archive
     * cannot be created.
     */
    method WriteArchive(path: Path, entry: string, bytes: seq<Byte>) returns (ok: bool)
      modifies this`archives
      ensures ok == (path !in blocked)
      ensures archives == if ok then old(archives) + [Archive(path, entry, bytes)] else old(archives)
    {
      ok := path !in blocked;
      if ok {
        archives := archives + [Archive(path, entry, bytes)];
      }
    }
  }
}
