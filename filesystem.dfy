/**
 * The part of the filesystem the controller touches, as an abstract state:
 * which paths are regular files (and their bytes), which are directories,
 * and three fixed classifications standing for what the operating system
 * would refuse. `FsState` is the state as a value, for specifications;
 * `FileSystem` holds it in fields that the std::fs calls update in place.
 */
module FileSystem {
  import opened Options
  import opened Paths

  type Bytes = seq<bv8>

  /** The outcomes of `File::open` that the controller distinguishes by `ErrorKind`. */
  datatype OpenResult = Opened | NotFound | PermissionDenied | OtherError

  datatype FsState = FsState(
    files: map<Path, Bytes>,  // regular files and their contents
    dirs: set<Path>,          // directories
    denied: set<Path>,        // opening these fails with PermissionDenied
    faulty: set<Path>,        // opening these fails with some other error kind
    readOnly: set<Path>)      // no file or directory can be created here
  {
    /** A path is a file or a directory, not both. */
    predicate Valid()
    {
      files.Keys !! dirs
    }

    /** `Path::exists`. */
    predicate Exists(p: Path)
    {
      p in files || p in dirs
    }

    /** `File::open` for reading; on Unix a directory opens too. */
    function Open(p: Path): (r: OpenResult)
      ensures r == Opened ==> Exists(p)
      ensures r == NotFound <==> !Exists(p) && p !in denied && p !in faulty
      ensures r == PermissionDenied <==> p in denied
    {
      if p in denied then PermissionDenied
      else if p in faulty then OtherError
      else if Exists(p) then Opened
      else NotFound
    }

    /** `create_dir`: None when it returns an error. */
    function CreateDir(p: Path): (r: Option<FsState>)
      ensures r.Some? <==> !Exists(p) && p !in readOnly
      ensures r.Some? ==> r.value.dirs == dirs + {p} && r.value.files == files
      ensures Valid() && r.Some? ==> r.value.Valid()
      // what the system refuses stays as it was
      ensures r.Some? ==> r.value.(files := files, dirs := dirs) == this
    {
      if Exists(p) || p in readOnly then None else Some(this.(dirs := dirs + {p}))
    }

    /** `File::create`: an empty regular file at `p` (truncating one that is there). */
    function CreateFile(p: Path): (r: Option<FsState>)
      ensures r.Some? <==> p !in dirs && p !in readOnly
      ensures r.Some? ==> r.value.files == files[p := []] && r.value.dirs == dirs
      ensures Valid() && r.Some? ==> r.value.Valid()
      // what the system refuses stays as it was
      ensures r.Some? ==> r.value.(files := files, dirs := dirs) == this
    {
      if p in dirs || p in readOnly then None else Some(this.(files := files[p := []]))
    }

    /** `std::fs::copy`: the bytes of the regular file `src` written to `dst`. */
    function Copy(src: Path, dst: Path): (r: Option<FsState>)
      ensures r.Some? <==> Open(src) == Opened && src in files && dst !in dirs && dst !in readOnly
      ensures r.Some? ==> r.value.files == files[dst := files[src]] && r.value.dirs == dirs
      ensures Valid() && r.Some? ==> r.value.Valid()
      // what the system refuses stays as it was
      ensures r.Some? ==> r.value.(files := files, dirs := dirs) == this
    {
      if Open(src) != Opened || src !in files || dst in dirs || dst in readOnly then None
      else Some(this.(files := files[dst := files[src]]))
    }
  }

  /** `Path::exists` agrees with `File::open` on every path whose opening is not refused. */
  lemma ExistsIffOpens(s: FsState, p: Path)
    requires p !in s.denied && p !in s.faulty
    ensures s.Exists(p) <==> s.Open(p) == Opened
  {
  }

  /** The filesystem that a run of the controller changes step by step. */
  class FileSystem {
    var files: map<Path, Bytes>
    var dirs: set<Path>
    const denied: set<Path>
    const faulty: set<Path>
    const readOnly: set<Path>

    constructor (s: FsState)
      ensures State() == s
      ensures s.Valid() ==> Valid()
    {
      files, dirs := s.files, s.dirs;
      denied, faulty, readOnly := s.denied, s.faulty, s.readOnly;
    }

    /** The current state as a value. */
    function State(): FsState
      reads this
    {
      FsState(files, dirs, denied, faulty, readOnly)
    }

    predicate Valid()
      reads this
    {
      State().Valid()
    }

    function Exists(p: Path): bool
      reads this
    {
      State().Exists(p)
    }

    function Open(p: Path): OpenResult
      reads this
    {
      State().Open(p)
    }

    method CreateDir(p: Path) returns (ok: bool)
      modifies this
      ensures ok == old(State()).CreateDir(p).Some?
      ensures State() == if ok then old(State()).CreateDir(p).value else old(State())
      ensures old(Valid()) ==> Valid()
    {
      ok := !Exists(p) && p !in readOnly;
      if ok {
        dirs := dirs + {p};
      }
    }

    method CreateFile(p: Path) returns (ok: bool)
      modifies this
      ensures ok == old(State()).CreateFile(p).Some?
      ensures State() == if ok then old(State()).CreateFile(p).value else old(State())
      ensures old(Valid()) ==> Valid()
    {
      ok := p !in dirs && p !in readOnly;
      if ok {
        files := files[p := []];
      }
    }

    method Copy(src: Path, dst: Path) returns (ok: bool)
      modifies this
      ensures ok == old(State()).Copy(src, dst).Some?
      ensures State() == if ok then old(State()).Copy(src, dst).value else old(State())
      ensures old(Valid()) ==> Valid()
    {
      ok := Open(src) == Opened && src in files && dst !in dirs && dst !in readOnly;
      if ok {
        files := files[dst := files[src]];
      }
    }
  }
}
