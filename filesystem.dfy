/** The operating-system services the sender and receiver call, and the library
    functions they use on paths and content. Files are byte sequences keyed by
    path; directories are a set of paths. */
module FileSystem {
  import opened Bytes

  type Path = string

  /** Library functions left uninterpreted: SHA-256 of FIPS 180-4 rendered as
      lowercase hex (`fmt.Sprintf("%x", sha256.Sum)`), `filepath.Join`,
      `filepath.Dir` and `filepath.Base`. */
  datatype Platform = Platform(
    sha256Hex: seq<Byte> -> string,
    join: (Path, string) -> Path,
    dir: Path -> Path,
    base: Path -> string)

  /** The size limit an `int64` file size imposes. */
  const MaxFileSize: nat := 0x8000_0000_0000_0000

  class Disk {
    var files: map<Path, seq<Byte>>
    var dirs: set<Path>

    /** No path is both a file and a directory, and every size fits in `int64`. */
    ghost predicate Valid()
      reads this
    {
      files.Keys !! dirs && forall p | p in files :: |files[p]| < MaxFileSize
    }

    constructor (files: map<Path, seq<Byte>>, dirs: set<Path>)
      requires files.Keys !! dirs && forall p | p in files :: |files[p]| < MaxFileSize
      ensures Valid() && this.files == files && this.dirs == dirs
    {
      this.files := files;
      this.dirs := dirs;
    }

    /** `os.Stat(p)` succeeds: a file or a directory is there. */
    predicate Exists(p: Path)
      reads this
    {
      p in files || p in dirs
    }

    /** `os.MkdirAll(d, 0755)`: succeeds unless a file is in the way. */
    method MkdirAll(d: Path) returns (ok: bool)
      requires Valid()
      modifies this
      ensures Valid()
      ensures ok == (d !in old(files))
      ensures files == old(files)
      ensures dirs == if ok then old(dirs) + {d} else old(dirs)
    {
      ok := d !in files;
      if ok {
        dirs := dirs + {d};
      }
    }

    /** `os.Create(p)`: an empty file, unless a directory is in the way or the
        call fails for a reason the model does not track (`fault`: permissions,
        a full disk). */
    method Create(p: Path, fault: bool) returns (ok: bool)
      requires Valid()
      modifies this
      ensures Valid()
      ensures ok == (!fault && p !in old(dirs))
      ensures files == if ok then old(files)[p := []] else old(files)
      ensures dirs == old(dirs)
    {
      ok := !fault && p !in dirs;
      if ok {
        files := files[p := []];
      }
    }

    /** `(*os.File).Write` at the end of `p`: fails when the file would outgrow
        `int64`, or for a reason the model does not track (`fault`). A failed
        write leaves the file as it was. */
    method Append(p: Path, d: seq<Byte>, fault: bool) returns (ok: bool)
      requires Valid() && p in files
      modifies this
      ensures Valid()
      ensures ok == (!fault && |old(files)[p]| + |d| < MaxFileSize)
      ensures files == if ok then old(files)[p := old(files)[p] + d] else old(files)
      ensures dirs == old(dirs)
    {
      ok := !fault && |files[p]| + |d| < MaxFileSize;
      if ok {
        files := files[p := files[p] + d];
      }
    }

    /** `os.Remove(p)` on a file: fails, leaving the file in place, for a
        reason the model does not track (`fault`: permissions, a file that is
        still open on a platform that refuses to remove it). */
    method Remove(p: Path, fault: bool) returns (ok: bool)
      requires Valid()
      modifies this
      ensures Valid()
      ensures ok == !fault
      ensures files == if ok then old(files) - {p} else old(files)
      ensures dirs == old(dirs)
    {
      ok := !fault;
      if ok {
        files := files - {p};
      }
    }
  }
}
