/** The in-memory file system the commands run against: a map from path to
    file bytes, a set of directories and a fixed current directory. Paths
    are compared as plain strings. */
module FakeFs {
  import opened Bytes

  type Path = string

  /** The current directory every fake file system starts in. */
  const FakeCurrentDirectory: Path := "/Users/jack/cool_project"

  predicate IsAbsolute(p: Path) {
    |p| > 0 && p[0] == '/'
  }

  /** `PathBuf::push`: an absolute component replaces the whole path; any
      other component is appended, after a `/` unless the path is empty or
      already ends with one. */
  function Join(base: Path, component: Path): (r: Path)
    ensures IsAbsolute(component) ==> r == component
    ensures !IsAbsolute(component) ==> StartsWith(r, base) && EndsWith(r, component)
    ensures !IsAbsolute(component) && base != [] && base[|base| - 1] != '/' ==>
      |r| == |base| + 1 + |component| && r[|base|] == '/'
    ensures !IsAbsolute(component) && (base == [] || base[|base| - 1] == '/') ==>
      |r| == |base| + |component|
    ensures IsAbsolute(base) ==> IsAbsolute(r)
  {
    if IsAbsolute(component) then component
    else if base == [] || base[|base| - 1] == '/' then base + component
    else base + "/" + component
  }

  function CannotOpen(p: Path): string {
    "fatal: Cannot open '\"" + p + "\"': No such file or directory (os error 2)"
  }

  datatype FsState = FsState(files: map<Path, Bytes>, directories: set<Path>, currentDirectory: Path)
  {
    /** The state keeps an absolute current directory, as `access()` sets it. */
    predicate Valid() {
      IsAbsolute(currentDirectory)
    }

    /** A relative path is taken relative to the current directory. */
    function Resolve(p: Path): (r: Path)
      ensures IsAbsolute(p) ==> r == p
      ensures Valid() ==> IsAbsolute(r)
    {
      Join(currentDirectory, p)
    }

    /** `path_exists`: the resolved path is a directory or a file. */
    predicate PathExists(p: Path) {
      Resolve(p) in directories || Resolve(p) in files
    }

    /** `get_file_contents_as_bytes`: the bytes stored under exactly this
        key; the path is not resolved against the current directory. */
    function GetFileContentsAsBytes(p: Path): Result<Bytes, string> {
      if p in files then Ok(files[p]) else Err(CannotOpen(p))
    }

    /** `get_file_contents`: like `get_file_contents_as_bytes`, but a
        relative path is first resolved against the current directory. */
    function GetFileContents(p: Path): (r: Result<Bytes, string>)
      ensures r.Ok? <==> Resolve(p) in files
      ensures r.Ok? ==> r == GetFileContentsAsBytes(Resolve(p))
      ensures r.Err? ==> r == Err(CannotOpen(p))
    {
      if Resolve(p) in files then Ok(files[Resolve(p)]) else Err(CannotOpen(p))
    }

    /** `get_directory_files_starting_with`: every file key that starts with
        the directory joined with the name minus its first two characters.
        For an absolute directory without a trailing `/`, that prefix is
        `<directory>/<rest of the name>`; an absolute rest of the name
        replaces the directory. */
    function FilesStartingWith(directory: Path, name: string): (r: set<Path>)
      requires |name| >= 2
      ensures r <= files.Keys
      ensures IsAbsolute(directory) && directory[|directory| - 1] != '/' && !IsAbsolute(name[2..]) ==>
        forall k :: k in r <==> k in files && StartsWith(k, directory + "/" + name[2..])
      ensures IsAbsolute(name[2..]) ==>
        forall k :: k in r <==> k in files && StartsWith(k, name[2..])
    {
      set k | k in files && StartsWith(k, Join(directory, name[2..]))
    }

    /** `create_file`: the path now holds no bytes, whatever it held before. */
    function CreateFile(p: Path): (r: FsState)
      ensures r.GetFileContentsAsBytes(p) == Ok([])
      ensures forall q :: q != p ==> r.GetFileContentsAsBytes(q) == GetFileContentsAsBytes(q)
      ensures r.directories == directories && r.currentDirectory == currentDirectory
      ensures r.files.Keys == files.Keys + {p}
    {
      this.(files := files[p := []])
    }

    /** `write_file`: the path holds exactly `contents`; nothing else changes. */
    function WriteFile(p: Path, contents: Bytes): (r: FsState)
      ensures r.GetFileContentsAsBytes(p) == Ok(contents)
      ensures forall q :: q != p ==> r.GetFileContentsAsBytes(q) == GetFileContentsAsBytes(q)
      ensures r.directories == directories && r.currentDirectory == currentDirectory
      ensures r.files.Keys == files.Keys + {p}
    {
      this.(files := files[p := contents])
    }

    /** `create_directory`: adds the directory entry and nothing else. */
    function CreateDirectory(p: Path): (r: FsState)
      ensures r.files == files && r.currentDirectory == currentDirectory
      ensures forall q :: r.PathExists(q) <==> PathExists(q) || Resolve(q) == p
    {
      this.(directories := directories + {p})
    }

    /** `remove_directory`: drops the directory entry only; files whose paths
        lie under it stay. */
    function RemoveDirectory(p: Path): (r: FsState)
      ensures r.files == files && r.currentDirectory == currentDirectory
      ensures forall q :: r.PathExists(q) <==> PathExists(q) && (Resolve(q) != p || Resolve(q) in files)
    {
      this.(directories := directories - {p})
    }
  }

  /** Reading bytes does not resolve: a relative path whose resolved form is
      a file exists, yet cannot be read under its relative name. */
  lemma RelativeReadFails(s: FsState, p: Path)
    requires s.Valid() && !IsAbsolute(p) && s.Resolve(p) in s.files
    ensures s.PathExists(p)
    ensures p !in s.files ==> s.GetFileContentsAsBytes(p).Err?
    ensures s.GetFileContents(p) == Ok(s.files[s.Resolve(p)])
  {
  }

  /** `FakeFs`, whose `files` and `directories` the operations update in place. */
  class FakeFs {
    var files: map<Path, Bytes>
    var directories: set<Path>
    const currentDirectory: Path := FakeCurrentDirectory

    function State(): FsState
      reads this
    {
      FsState(files, directories, currentDirectory)
    }

    /** `access`: no files, and the current directory as the only directory. */
    constructor Access()
      ensures State() == FsState(map[], {FakeCurrentDirectory}, FakeCurrentDirectory)
      ensures State().Valid()
    {
      files := map[];
      directories := {FakeCurrentDirectory};
    }

    function CurrentDirectory(): (p: Path)
      ensures p == FakeCurrentDirectory && IsAbsolute(p)
    {
      currentDirectory
    }

    function PathExists(p: Path): bool
      reads this
    {
      State().PathExists(p)
    }

    function GetFileContentsAsBytes(p: Path): Result<Bytes, string>
      reads this
    {
      State().GetFileContentsAsBytes(p)
    }

    function GetFileContents(p: Path): Result<Bytes, string>
      reads this
    {
      State().GetFileContents(p)
    }

    function GetDirectoryFilesStartingWith(directory: Path, name: string): set<Path>
      requires |name| >= 2
      reads this
    {
      State().FilesStartingWith(directory, name)
    }

    method CreateDirectory(p: Path)
      modifies this
      ensures State() == old(State()).CreateDirectory(p)
    {
      directories := directories + {p};
    }

    method RemoveDirectory(p: Path)
      modifies this
      ensures State() == old(State()).RemoveDirectory(p)
    {
      directories := directories - {p};
    }

    method CreateFile(p: Path)
      modifies this
      ensures State() == old(State()).CreateFile(p)
    {
      files := files[p := []];
    }

    method WriteFile(p: Path, contents: Bytes)
      modifies this
      ensures State() == old(State()).WriteFile(p, contents)
    {
      files := files[p := contents];
    }
  }
}
