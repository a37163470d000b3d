/**
 * The part of Go's `os` package that internal/store/vault.go calls, over a modelled
 * filesystem: the user's home directory (or its absence), the directories and the files
 * with their permission bits, and a set of paths whose access fails with a given reason
 * (permission denied, I/O error, ...). Paths are sequences of components.
 */
module Os {
  import opened Wrappers

  type Path = seq<string>

  /** Unix permission bits, as plain numbers. */
  type Mode = nat

  datatype File = File(data: seq<byte>, mode: Mode)

  datatype OsError =
    | NoHome                               // os.UserHomeDir: $HOME is not defined
    | NotExist(path: Path)                 // every error for which os.IsNotExist holds
    | Failed(path: Path, reason: string)   // any other *PathError

  predicate IsNotExist(e: OsError) { e.NotExist? }

  /** The reasons of Go's ENOTDIR and EISDIR errors. */
  const NotADirectory := "not a directory"
  const IsADirectory := "is a directory"

  /** The directories an os.MkdirAll(p) has to have in place: every non-empty prefix of p. */
  function Prefixes(p: Path): set<Path> {
    set i | 1 <= i <= |p| :: p[..i]
  }

  class FileSystem {
    var home: Option<Path>
    var dirs: map<Path, Mode>
    var files: map<Path, File>
    /** Paths whose every access fails with the recorded reason. */
    var faults: map<Path, string>

    constructor (home: Option<Path>, dirs: map<Path, Mode>, files: map<Path, File>, faults: map<Path, string>)
      ensures this.home == home && this.dirs == dirs && this.files == files && this.faults == faults
    {
      this.home, this.dirs, this.files, this.faults := home, dirs, files, faults;
    }

    function UserHomeDir(): (r: Result<Path, OsError>)
      reads this
      ensures r.Success? <==> home.Some?
    {
      match home
      case None => Failure(NoHome)
      case Some(h) => Success(h)
    }

    /**
     * Some proper prefix of p is a regular file, so looking p up stops there with ENOTDIR,
     * which os.IsNotExist does not match.
     */
    predicate UnderFile(p: Path)
      reads this
    {
      exists i :: 1 <= i < |p| && p[..i] in files
    }

    /** The length of the shortest prefix of p, at most n long, that is a regular file. */
    function FilePrefix(p: Path, n: nat): (r: Option<nat>)
      requires n <= |p|
      reads this
      ensures r.Some? ==> 1 <= r.value <= n && p[..r.value] in files
      ensures r.Some? ==> forall i :: 1 <= i < r.value ==> p[..i] !in files
      ensures r.None? <==> forall i :: 1 <= i <= n ==> p[..i] !in files
    {
      if n == 0 then None
      else match FilePrefix(p, n - 1)
        case Some(i) => Some(i)
        case None => if p[..n] in files then Some(n) else None
    }

    /** os.Stat, reporting only whether it failed and how. */
    function Stat(p: Path): (r: Outcome<OsError>)
      reads this
      ensures r.Pass? <==> p !in faults && !UnderFile(p) && (p in dirs || p in files)
      ensures r.Fail? && IsNotExist(r.error) <==> p !in faults && !UnderFile(p) && p !in dirs && p !in files
    {
      if p in faults then Fail(Failed(p, faults[p]))
      else if UnderFile(p) then Fail(Failed(p, NotADirectory))
      else if p in dirs || p in files then Pass
      else Fail(NotExist(p))
    }

    /** os.ReadFile. */
    function ReadFile(p: Path): (r: Result<seq<byte>, OsError>)
      reads this
      ensures r.Success? <==> p !in faults && !UnderFile(p) && p !in dirs && p in files
      ensures r.Success? ==> r.value == files[p].data
      ensures r.Failure? && IsNotExist(r.error) <==> Stat(p).Fail? && IsNotExist(Stat(p).error)
    {
      if p in faults then Failure(Failed(p, faults[p]))
      else if UnderFile(p) then Failure(Failed(p, NotADirectory))
      else if p in dirs then Failure(Failed(p, IsADirectory))
      else if p in files then Success(files[p].data)
      else Failure(NotExist(p))
    }

    /**
     * The error os.MkdirAll(p) returns, or None when it succeeds: a fault on p, ENOENT for
     * the empty path, or ENOTDIR naming the shortest prefix of p that is a regular file.
     */
    function MkdirAllError(p: Path): (e: Option<OsError>)
      reads this
      ensures e.None? <==> p !in faults && (p in dirs || (p != [] && forall q :: q in Prefixes(p) ==> q !in files))
      ensures e.Some? && p !in faults && p !in dirs && p != [] ==>
                e.value.Failed? && e.value.path in Prefixes(p) && e.value.path in files && e.value.reason == NotADirectory
    {
      if p in faults then Some(Failed(p, faults[p]))
      else if p in dirs then None
      else if p == [] then Some(NotExist(p))
      else match FilePrefix(p, |p|)
        case Some(i) => Some(Failed(p[..i], NotADirectory))
        case None => None
    }

    /**
     * The error os.WriteFile(p, ...) returns, or None when it succeeds: a fault on p, ENOTDIR
     * under a regular file, EISDIR when p is a directory, ENOENT when p is new and its
     * parent directory is missing.
     */
    function WriteFileError(p: Path): (e: Option<OsError>)
      reads this
      ensures e.None? <==> p !in faults && !UnderFile(p) && p !in dirs && (p in files || |p| <= 1 || p[..|p| - 1] in dirs)
    {
      if p in faults then Some(Failed(p, faults[p]))
      else if UnderFile(p) then Some(Failed(p, NotADirectory))
      else if p in dirs then Some(Failed(p, IsADirectory))
      else if p !in files && |p| > 1 && p[..|p| - 1] !in dirs then Some(NotExist(p))
      else None
    }

    /**
     * os.MkdirAll: nothing to do when p is already a directory; otherwise every missing
     * prefix is created with `mode`. A prefix that is a regular file fails with ENOTDIR.
     */
    method MkdirAll(p: Path, mode: Mode) returns (r: Outcome<OsError>)
      modifies this
      ensures home == old(home) && files == old(files) && faults == old(faults)
      ensures r.Pass? <==> p !in faults && (p in old(dirs) || (p != [] && forall q :: q in Prefixes(p) ==> q !in files))
      ensures r.Fail? ==> old(MkdirAllError(p)) == Some(r.error)
      ensures r.Fail? || p in old(dirs) ==> dirs == old(dirs)
      ensures r.Pass? ==> p in dirs
      ensures r.Pass? ==> forall q :: q in old(dirs) ==> q in dirs && dirs[q] == old(dirs[q])
      ensures r.Pass? ==> forall q :: q in dirs && q !in old(dirs) ==> q in Prefixes(p) && dirs[q] == mode
    {
      if p in faults {
        return Fail(Failed(p, faults[p]));
      }
      if p in dirs {
        return Pass;
      }
      if p == [] {
        return Fail(NotExist(p));
      }
      var blocked := FilePrefix(p, |p|);
      if blocked.Some? {
        return Fail(Failed(p[..blocked.value], NotADirectory));
      }
      assert p == p[..|p|];
      dirs := dirs + map q | q in Prefixes(p) && q !in dirs :: mode;
      return Pass;
    }

    /**
     * os.WriteFile: truncates and rewrites an existing file, keeping its permission bits,
     * or creates the file with `mode` when its parent directory exists.
     */
    method WriteFile(p: Path, data: seq<byte>, mode: Mode) returns (r: Outcome<OsError>)
      modifies this
      ensures home == old(home) && dirs == old(dirs) && faults == old(faults)
      ensures r.Pass? <==> p !in faults && !UnderFile(p) && p !in dirs && (p in old(files) || |p| <= 1 || p[..|p| - 1] in dirs)
      ensures r.Fail? ==> old(WriteFileError(p)) == Some(r.error) && files == old(files)
      ensures r.Pass? ==> files == old(files)[p := File(data, if p in old(files) then old(files[p].mode) else mode)]
    {
      if p in faults {
        return Fail(Failed(p, faults[p]));
      }
      if UnderFile(p) {
        return Fail(Failed(p, NotADirectory));
      }
      if p in dirs {
        return Fail(Failed(p, IsADirectory));
      }
      if p !in files && |p| > 1 && p[..|p| - 1] !in dirs {
        return Fail(NotExist(p));
      }
      files := files[p := File(data, if p in files then files[p].mode else mode)];
      assert forall i :: 1 <= i < |p| ==> p[..i] != p;
      return Pass;
    }
  }
}
