/** `add`: hashes and stores each given file as a blob, builds an index
    entry for it, and rewrites the index with the surviving old entries and
    the new ones, sorted by path. */
module Add {
  import opened Bytes
  import opened Codecs
  import opened FakeFs
  import opened Index
  import opened HashObject

  /** The file metadata an entry is built from, with the widths the
      platform gives them. */
  datatype Metadata = Metadata(
    ctime: I64, mtime: I64, dev: U64, ino: U64,
    mode: U32, uid: U32, gid: U32, len: U64)

  /** `<cwd>/.papyrus/index`, built by formatting. */
  function IndexPath(currentDirectory: Path): Path {
    currentDirectory + "/.papyrus/index"
  }

  function PathspecError(file: Path): string {
    "fatal: pathspec '" + file + "' did not match any files"
  }

  /** The entry of a newly added file: the low 32 bits of the times, device,
      inode and size, zero nanoseconds, the full mode, uid and gid, the
      hash decoded to 20 bytes, and the low 16 bits of the path's length as
      flags. */
  function NewEntry(m: Metadata, sha1: B20, file: Path): IndexEntry {
    IndexEntry(
      Be32(m.ctime), [0, 0, 0, 0], Be32(m.mtime), [0, 0, 0, 0],
      Be32(m.dev), Be32(m.ino), Be32(m.mode), Be32(m.uid), Be32(m.gid), Be32(m.len),
      sha1, Be16(|Utf8(file)|), Utf8(file))
  }

  /** An existing entry is re-added when its path is one of the inputs. */
  predicate Readded(e: IndexEntry, files: seq<Path>) {
    exists f :: f in files && Utf8(f) == e.path
  }

  /** The filter of `execute`: the old entries that are not re-added, in
      their order. */
  function Kept(entries: seq<IndexEntry>, files: seq<Path>): (r: seq<IndexEntry>)
    ensures |r| <= |entries|
    ensures forall e :: e in r <==> e in entries && !Readded(e, files)
  {
    if entries == [] then []
    else (if Readded(entries[0], files) then [] else [entries[0]]) + Kept(entries[1..], files)
  }

  /** The loop of `execute` from the given state: each path must exist;
      its bytes are stored as a blob and its entry appended. */
  function StageFiles(s: FsState, c: Codecs, metadata: Path -> Metadata, files: seq<Path>,
    entries: seq<IndexEntry>): (FsState, Result<seq<IndexEntry>, string>)
    decreases |files|
  {
    if files == [] then (s, Ok(entries))
    else
      var file := files[0];
      if !s.PathExists(file) then (s, Err(PathspecError(file)))
      else match s.GetFileContents(file)
        case Err(e) => (s, Err(e))
        case Ok(contents) =>
          StageFiles(StoreObject(s, c, "blob", contents), c, metadata, files[1..],
            entries + [NewEntry(metadata(file), c.sha1(Canonical("blob", contents)), file)])
  }

  /** What keeps `execute` from panicking: an index path that exists is a
      file that the parse can slice. */
  predicate AddDefined(s: FsState, c: Codecs) {
    s.PathExists(IndexPath(s.currentDirectory)) ==>
      IndexPath(s.currentDirectory) in s.files &&
      ParseDefined(c, s.files[IndexPath(s.currentDirectory)])
  }

  /** Everything before the sort: the old entries are read (none when the
      index is absent, which is then created empty) and filtered; then the
      files are staged. */
  function Staged(s: FsState, c: Codecs, metadata: Path -> Metadata, files: seq<Path>)
    : (FsState, Result<seq<IndexEntry>, string>)
    requires AddDefined(s, c)
  {
    match OldEntries(s, c)
      case Err(e) => (s, Err(e))
      case Ok(previous) => StageFiles(StartState(s), c, metadata, files, Kept(previous, files))
  }

  /** The old entries `add` starts from: none when the index is absent,
      the parsed ones otherwise. */
  function OldEntries(s: FsState, c: Codecs): Result<seq<IndexEntry>, string>
    requires AddDefined(s, c)
  {
    var indexPath := IndexPath(s.currentDirectory);
    if !s.PathExists(indexPath) then Ok([]) else Parse(c, s.files[indexPath])
  }

  /** The state the staging loop starts from: an absent index has been
      created empty. */
  function StartState(s: FsState): FsState {
    var indexPath := IndexPath(s.currentDirectory);
    if !s.PathExists(indexPath) then s.CreateFile(indexPath) else s
  }

  datatype Outcome = Outcome(state: FsState, result: Result<string, string>)

  /** `execute`: on success the index is overwritten with the staged
      entries sorted by path, and the result is empty. */
  function Add(s: FsState, c: Codecs, metadata: Path -> Metadata, files: seq<Path>): Outcome
    requires AddDefined(s, c)
  {
    var (t, r) := Staged(s, c, metadata, files);
    match r
      case Err(e) => Outcome(t, Err(e))
      case Ok(entries) =>
        Outcome(t.WriteFile(IndexPath(s.currentDirectory), Serialize(c, SortByPath(entries))), Ok(""))
  }

  /** The hash decoded pair by pair, one byte pushed per pair. */
  method HexBytes(sha1: string) returns (output: Bytes)
    requires IsHex(sha1)
    ensures output == HexDecode(sha1)
  {
    output := [];
    var i := 0;
    assert sha1[i..] == sha1;
    while i < |sha1|
      invariant 0 <= i <= |sha1| && i % 2 == 0
      invariant IsHex(sha1[i..]) && output + HexDecode(sha1[i..]) == HexDecode(sha1)
    {
      HexDecodePair(sha1, i);
      var pair := [DigitValue(sha1[i]) * 16 + DigitValue(sha1[i + 1])];
      assert output + pair + HexDecode(sha1[i + 2..]) == output + HexDecode(sha1[i..]);
      output := output + pair;
      i := i + 2;
    }
  }

  /** The entry fields filled in by `execute`, the path pushed byte by
      byte. */
  method BuildEntry(m: Metadata, sha1: string, file: Path) returns (entry: IndexEntry)
    requires |sha1| == 40 && IsHex(sha1)
    ensures entry == NewEntry(m, HexDecode(sha1), file)
  {
    var output := HexBytes(sha1);
    var fileBytes := Utf8(file);
    var path: Bytes := [];
    var j := 0;
    while j < |fileBytes|
      invariant 0 <= j <= |fileBytes| && path == fileBytes[..j]
    {
      path := path + [fileBytes[j]];
      j := j + 1;
    }
    assert path == fileBytes;
    entry := IndexEntry(
      Be32(m.ctime), [0, 0, 0, 0], Be32(m.mtime), [0, 0, 0, 0],
      Be32(m.dev), Be32(m.ino), Be32(m.mode), Be32(m.uid), Be32(m.gid), Be32(m.len),
      output, Be16(|fileBytes|), path);
  }

  /** One turn of the loop of `execute`, with the path known to exist. */
  method StageFile(fs: FakeFs, c: Codecs, metadata: Path -> Metadata, file: Path,
    entries: seq<IndexEntry>) returns (r: Result<seq<IndexEntry>, string>)
    requires fs.State().PathExists(file)
    modifies fs
    ensures match old(fs.State()).GetFileContents(file)
      case Err(e) => r == Err(e) && fs.State() == old(fs.State())
      case Ok(contents) =>
        fs.State() == StoreObject(old(fs.State()), c, "blob", contents) &&
        r == Ok(entries + [NewEntry(metadata(file), c.sha1(Canonical("blob", contents)), file)])
  {
    var contents := fs.GetFileContents(file);
    if contents.Err? {
      return Err(contents.error);
    }
    var sha1 := HashObject.Execute(fs, c, contents.value, "blob", true);
    var entry := BuildEntry(metadata(file), sha1.value, file);
    r := Ok(entries + [entry]);
  }

  /** `execute`. */
  method Execute(fs: FakeFs, c: Codecs, metadata: Path -> Metadata, files: seq<Path>)
    returns (r: Result<string, string>)
    requires AddDefined(fs.State(), c)
    modifies fs
    ensures Outcome(fs.State(), r) == Add(old(fs.State()), c, metadata, files)
  {
    var indexPath := fs.CurrentDirectory() + "/.papyrus/index";
    var indexFileExists := fs.PathExists(indexPath);
    var entries: seq<IndexEntry>;
    if !indexFileExists {
      fs.CreateFile(indexPath);
      entries := [];
    } else {
      var indexContent := fs.GetFileContentsAsBytes(indexPath).value;
      var indexEntries := ParseFromFile(c, indexContent);
      if indexEntries.Err? {
        return Err(indexEntries.error);
      }
      entries := Kept(indexEntries.value, files);
    }
    ghost var staged := Staged(old(fs.State()), c, metadata, files);
    var i := 0;
    while i < |files|
      invariant 0 <= i <= |files|
      invariant fs.State().currentDirectory == FakeCurrentDirectory
      invariant StageFiles(fs.State(), c, metadata, files[i..], entries) == staged
    {
      var file := files[i];
      assert files[i..][0] == file && files[i..][1..] == files[i + 1..];
      if !fs.PathExists(file) {
        return Err(PathspecError(file));
      }
      ghost var before, entriesBefore := fs.State(), entries;
      var step := StageFile(fs, c, metadata, file, entries);
      if step.Err? {
        return Err(step.error);
      }
      assert StageFiles(before, c, metadata, files[i..], entriesBefore)
        == StageFiles(fs.State(), c, metadata, files[i + 1..], step.value) by {
        var contents := before.GetFileContents(file).value;
        StageFilesUnfold(before, c, metadata, files[i..], entriesBefore, contents, fs.State(),
          NewEntry(metadata(file), c.sha1(Canonical("blob", contents)), file));
      }
      entries := step.value;
      i := i + 1;
    }
    entries := SortByPath(entries);
    var newIndexFileContent := ParseIntoFile(c, entries);
    fs.WriteFile(indexPath, newIndexFileContent);
    return Ok("");
  }

  // ---------------------------------------------------------------------
  // Properties

  /** A new entry: zero nanoseconds; the low 32 bits of the times, device,
      inode and size; the full mode, uid and gid; a SHA-1 field whose hex
      encoding is the hash; flags holding the low 16 bits of the path's
      length, whose stage bits are set from a length of 4096 on. */
  lemma NewEntryFields(m: Metadata, sha1: string, file: Path)
    requires |sha1| == 40 && forall i :: 0 <= i < 40 ==> IsLowerHexDigit(sha1[i])
    ensures IsHex(sha1)
    ensures var e := NewEntry(m, HexDecode(sha1), file);
      e.ctimeN == [0, 0, 0, 0] && e.mtimeN == [0, 0, 0, 0] &&
      Be32Value(e.ctimeS) == m.ctime % 0x1_0000_0000 &&
      Be32Value(e.mtimeS) == m.mtime % 0x1_0000_0000 &&
      Be32Value(e.dev) == m.dev % 0x1_0000_0000 &&
      Be32Value(e.ino) == m.ino % 0x1_0000_0000 &&
      Be32Value(e.size) == m.len % 0x1_0000_0000 &&
      Be32Value(e.mode) == m.mode && Be32Value(e.uid) == m.uid && Be32Value(e.gid) == m.gid &&
      Hex(e.sha1) == sha1 &&
      e.path == Utf8(file) && Be16Value(e.flags) == |e.path| % 0x1_0000 &&
      Stage(e.flags) == (|e.path| % 0x1_0000) / 0x1000 % 4
  {
    ModOfSmall(m.mode, 0x1_0000_0000);
    ModOfSmall(m.uid, 0x1_0000_0000);
    ModOfSmall(m.gid, 0x1_0000_0000);
    HexOfHexDecode(sha1);
  }

  /** Old entries keep distinct paths through the filter. */
  lemma {:induction false} KeptDistinct(entries: seq<IndexEntry>, files: seq<Path>)
    requires DistinctPaths(entries)
    ensures DistinctPaths(Kept(entries, files))
  {
    if entries != [] {
      var rest := entries[1..];
      assert DistinctPaths(rest) by {
        forall i, j | 0 <= i < j < |rest| ensures rest[i].path != rest[j].path {
          assert rest[i] == entries[i + 1] && rest[j] == entries[j + 1];
        }
      }
      KeptDistinct(rest, files);
      forall e | e in Kept(rest, files)
        ensures e.path != entries[0].path
      {
        var k :| 0 <= k < |rest| && rest[k] == e;
        assert e == entries[k + 1];
      }
    }
  }

  /** The filter keeps order and multiplicity: filtering a concatenation
      concatenates the filtered parts. */
  lemma {:induction false} KeptAppend(a: seq<IndexEntry>, b: seq<IndexEntry>, files: seq<Path>)
    ensures Kept(a + b, files) == Kept(a, files) + Kept(b, files)
  {
    if a == [] {
      assert a + b == b;
    } else {
      var ab := a + b;
      assert ab[0] == a[0] && ab[1..] == a[1..] + b;
      var head := KeptHead(a, files);
      var headAb := KeptHead(ab, files);
      KeptAppend(a[1..], b, files);
      Regroup(Kept(ab, files), head, Kept(ab[1..], files), Kept(a[1..], files), Kept(b, files), Kept(a, files));
    }
  }

  /** Concatenation regrouped: `h + (z + u) == (h + z) + u`, with the parts named. */
  lemma Regroup<T>(x: seq<T>, h: seq<T>, y: seq<T>, z: seq<T>, u: seq<T>, v: seq<T>)
    requires x == h + y && y == z + u && v == h + z
    ensures x == v + u
  {
  }

  /** One step of the filter: the first entry, unless re-added, then the
      filtered rest. */
  lemma KeptHead(a: seq<IndexEntry>, files: seq<Path>) returns (head: seq<IndexEntry>)
    requires a != []
    ensures head == (if Readded(a[0], files) then [] else [a[0]])
    ensures Kept(a, files) == head + Kept(a[1..], files)
  {
    head := if Readded(a[0], files) then [] else [a[0]];
  }

  /** A path under `<cwd>/.papyrus/objects/` lies under `.papyrus/` and
      is not the index file. */
  lemma ObjectsBesideIndex(currentDirectory: Path, rest: string)
    ensures var p := currentDirectory + "/.papyrus/objects/" + rest;
      StartsWith(p, currentDirectory + "/.papyrus/") && p != IndexPath(currentDirectory)
  {
    var p := currentDirectory + "/.papyrus/objects/" + rest;
    var n := |currentDirectory|;
    assert p[..n + 10] == currentDirectory + "/.papyrus/";
    assert p[n + 10] == 'o' && IndexPath(currentDirectory)[n + 10] == 'i';
  }

  /** The object file and directory lie under `.papyrus/objects`, away from
      the index file. */
  lemma ObjectPathBesideIndex(currentDirectory: Path, name: string)
    requires IsAbsolute(currentDirectory) && currentDirectory[|currentDirectory| - 1] != '/'
    requires |name| == 40 && forall i :: 0 <= i < 40 ==> IsLowerHexDigit(name[i])
    ensures StartsWith(ObjectPath(currentDirectory, name), currentDirectory + "/.papyrus/")
    ensures StartsWith(ObjectDirectory(currentDirectory, name), currentDirectory + "/.papyrus/")
    ensures ObjectPath(currentDirectory, name) != IndexPath(currentDirectory)
    ensures ObjectDirectory(currentDirectory, name) != IndexPath(currentDirectory)
  {
    ObjectPathLayout(currentDirectory, name);
    ObjectsBesideIndex(currentDirectory, name[..2]);
    assert ObjectPath(currentDirectory, name)
      == currentDirectory + "/.papyrus/objects/" + (name[..2] + "/" + name[2..]);
    ObjectsBesideIndex(currentDirectory, name[..2] + "/" + name[2..]);
  }

  /** What one blob write does to the state `add` works on: keys are only
      added, every added path lies under `.papyrus/`, and the index file is
      untouched. */
  lemma StoreObjectBesideIndex(s: FsState, c: Codecs, contents: Bytes)
    requires s.Valid() && s.currentDirectory[|s.currentDirectory| - 1] != '/'
    ensures var r := StoreObject(s, c, "blob", contents);
      var papyrus := s.currentDirectory + "/.papyrus/";
      r.currentDirectory == s.currentDirectory && s.files.Keys <= r.files.Keys &&
      (forall q :: q in r.files ==> q in s.files || StartsWith(q, papyrus)) &&
      (forall q :: q in r.directories ==> q in s.directories || StartsWith(q, papyrus)) &&
      (IndexPath(s.currentDirectory) in s.files ==>
        r.files[IndexPath(s.currentDirectory)] == s.files[IndexPath(s.currentDirectory)])
  {
    StoreObjectChanges(s, c, "blob", contents);
    ObjectPathBesideIndex(s.currentDirectory, ObjectName(c, "blob", contents));
  }

  /** A blob write keeps every existing file and its bytes: the object
      file is written only when it is absent. */
  lemma StoreObjectKeepsBytes(s: FsState, c: Codecs, contents: Bytes)
    requires s.Valid() && s.currentDirectory[|s.currentDirectory| - 1] != '/'
    ensures var r := StoreObject(s, c, "blob", contents);
      forall q :: q in s.files ==> q in r.files && r.files[q] == s.files[q]
  {
    StoreObjectChanges(s, c, "blob", contents);
    ObjectPathLayout(s.currentDirectory, ObjectName(c, "blob", contents));
  }

  /** A blob write keeps the current directory, and so the state's validity. */
  lemma StoreObjectKeepsDirectory(s: FsState, c: Codecs, contents: Bytes)
    requires s.Valid() && s.currentDirectory[|s.currentDirectory| - 1] != '/'
    ensures var r := StoreObject(s, c, "blob", contents);
      r.currentDirectory == s.currentDirectory &&
      r.Valid() && r.currentDirectory[|r.currentDirectory| - 1] != '/'
  {
    StoreObjectChanges(s, c, "blob", contents);
  }

  /** One turn of the staging loop. */
  lemma {:induction false} StageFilesUnfold(s: FsState, c: Codecs, metadata: Path -> Metadata, files: seq<Path>,
    entries: seq<IndexEntry>, contents: Bytes, next: FsState, entry: IndexEntry)
    requires files != [] && s.PathExists(files[0]) && s.GetFileContents(files[0]) == Ok(contents)
    requires next == StoreObject(s, c, "blob", contents)
    requires entry == NewEntry(metadata(files[0]), c.sha1(Canonical("blob", contents)), files[0])
    ensures StageFiles(s, c, metadata, files, entries) == StageFiles(next, c, metadata, files[1..], entries + [entry])
  {
  }

  /** The staging loop only adds files: every existing file, the index
      among them, keeps its bytes. */
  lemma StageFilesState(s: FsState, c: Codecs, metadata: Path -> Metadata,
    files: seq<Path>, entries: seq<IndexEntry>, t: FsState)
    requires s.Valid() && s.currentDirectory[|s.currentDirectory| - 1] != '/'
    requires t == StageFiles(s, c, metadata, files, entries).0
    ensures t.currentDirectory == s.currentDirectory && s.files.Keys <= t.files.Keys
    ensures forall q :: q in s.files ==> q in t.files && t.files[q] == s.files[q]
    ensures IndexPath(s.currentDirectory) in s.files ==>
      t.files[IndexPath(s.currentDirectory)] == s.files[IndexPath(s.currentDirectory)]
  {
    StageFilesKeepsBytes(s, c, metadata, files, entries);
  }

  /** Every file of `s` is in `t` with the same bytes. */
  predicate KeepsBytes(s: FsState, t: FsState) {
    forall q :: q in s.files ==> q in t.files && t.files[q] == s.files[q]
  }

  lemma KeepsBytesTransitive(r: FsState, s: FsState, t: FsState)
    requires KeepsBytes(r, s) && KeepsBytes(s, t)
    ensures KeepsBytes(r, t)
  {
  }

  /** The induction behind `StageFilesState`, one blob write at a time. */
  lemma {:induction false} StageFilesKeepsBytes(s: FsState, c: Codecs, metadata: Path -> Metadata,
    files: seq<Path>, entries: seq<IndexEntry>)
    requires s.Valid() && s.currentDirectory[|s.currentDirectory| - 1] != '/'
    ensures var t := StageFiles(s, c, metadata, files, entries).0;
      t.currentDirectory == s.currentDirectory && KeepsBytes(s, t)
    decreases |files|
  {
    if files != [] && s.PathExists(files[0]) && s.GetFileContents(files[0]).Ok? {
      var file := files[0];
      var contents := s.GetFileContents(file).value;
      var next := StoreObject(s, c, "blob", contents);
      var entry := NewEntry(metadata(file), c.sha1(Canonical("blob", contents)), file);
      assert StageFiles(s, c, metadata, files, entries).0
        == StageFiles(next, c, metadata, files[1..], entries + [entry]).0 by {
        StageFilesUnfold(s, c, metadata, files, entries, contents, next, entry);
      }
      assert KeepsBytes(s, next) by {
        StoreObjectKeepsBytes(s, c, contents);
      }
      StoreObjectKeepsDirectory(s, c, contents);
      StageFilesKeepsBytes(next, c, metadata, files[1..], entries + [entry]);
      KeepsBytesTransitive(s, next, StageFiles(next, c, metadata, files[1..], entries + [entry]).0);
    }
  }

  /** On success the staging loop appends one entry per input path,
      carrying that path. */
  lemma {:induction false} StageFilesEntries(s: FsState, c: Codecs, metadata: Path -> Metadata,
    files: seq<Path>, entries: seq<IndexEntry>, es: seq<IndexEntry>)
    requires StageFiles(s, c, metadata, files, entries).1 == Ok(es)
    ensures |es| == |entries| + |files| && es[..|entries|] == entries
    ensures forall i :: |entries| <= i < |es| ==> es[i].path == Utf8(files[i - |entries|])
    decreases |files|
  {
    if files != [] {
      var file := files[0];
      var contents := s.GetFileContents(file).value;
      var next := StoreObject(s, c, "blob", contents);
      var entry := NewEntry(metadata(file), c.sha1(Canonical("blob", contents)), file);
      var longer := entries + [entry];
      StageFilesUnfold(s, c, metadata, files, entries, contents, next, entry);
      StageFilesEntries(next, c, metadata, files[1..], longer, es);
      assert es[..|longer|][..|entries|] == entries;
      assert es[|entries|] == es[..|longer|][|entries|] == entry;
      forall i | |longer| <= i < |es|
        ensures es[i].path == Utf8(files[i - |entries|])
      {
        assert files[1..][i - |longer|] == files[i - |entries|];
      }
    }
  }

  /** When every input path is a file, the staging loop succeeds. */
  lemma {:induction false} StageFilesSucceeds(s: FsState, c: Codecs, metadata: Path -> Metadata,
    files: seq<Path>, entries: seq<IndexEntry>)
    requires s.Valid() && s.currentDirectory[|s.currentDirectory| - 1] != '/'
    requires forall i :: 0 <= i < |files| ==> s.Resolve(files[i]) in s.files
    ensures StageFiles(s, c, metadata, files, entries).1.Ok?
    decreases |files|
  {
    if files != [] {
      var file := files[0];
      assert s.Resolve(file) in s.files;
      var contents := s.GetFileContents(file).value;
      var next := StoreObject(s, c, "blob", contents);
      var entry := NewEntry(metadata(file), c.sha1(Canonical("blob", contents)), file);
      assert StageFiles(s, c, metadata, files, entries) == StageFiles(next, c, metadata, files[1..], entries + [entry]) by {
        StageFilesUnfold(s, c, metadata, files, entries, contents, next, entry);
      }
      StoreObjectKeepsInputs(s, c, contents, files);
      StageFilesSucceeds(next, c, metadata, files[1..], entries + [entry]);
    }
  }

  /** A blob write keeps the remaining input paths files. */
  lemma StoreObjectKeepsInputs(s: FsState, c: Codecs, contents: Bytes, files: seq<Path>)
    requires s.Valid() && s.currentDirectory[|s.currentDirectory| - 1] != '/'
    requires files != [] && forall i :: 0 <= i < |files| ==> s.Resolve(files[i]) in s.files
    ensures var r := StoreObject(s, c, "blob", contents);
      r.Valid() && r.currentDirectory[|r.currentDirectory| - 1] != '/' &&
      forall i :: 0 <= i < |files[1..]| ==> r.Resolve(files[1..][i]) in r.files
  {
    var r := StoreObject(s, c, "blob", contents);
    StoreObjectKeepsDirectory(s, c, contents);
    StoreObjectKeepsBytes(s, c, contents);
    var rest := files[1..];
    forall i | 0 <= i < |rest|
      ensures r.Resolve(rest[i]) in r.files
    {
      assert rest[i] == files[i + 1];
      assert r.Resolve(rest[i]) == s.Resolve(files[i + 1]);
    }
  }

  /** The paths before `files[j]` are files, while `files[j]` names
      nothing and lies outside `.papyrus/`, where blob writes could create
      it. */
  predicate MissingAfterFiles(s: FsState, files: seq<Path>, j: nat) {
    s.Valid() && s.currentDirectory[|s.currentDirectory| - 1] != '/' &&
    j < |files| && (forall i :: 0 <= i < j ==> s.Resolve(files[i]) in s.files) &&
    !s.PathExists(files[j]) &&
    !StartsWith(s.Resolve(files[j]), s.currentDirectory + "/.papyrus/")
  }

  /** A blob write keeps `MissingAfterFiles` for the rest of the paths. */
  lemma StoreObjectKeepsFiles(s: FsState, c: Codecs, contents: Bytes, files: seq<Path>, j: nat, next: FsState)
    requires MissingAfterFiles(s, files, j) && j > 0
    requires next == StoreObject(s, c, "blob", contents)
    ensures MissingAfterFiles(next, files[1..], j - 1)
  {
    StoreObjectBesideIndex(s, c, contents);
    var rest := files[1..];
    assert rest[j - 1] == files[j];
    forall i | 0 <= i < j - 1
      ensures next.Resolve(rest[i]) in next.files
    {
      assert rest[i] == files[i + 1];
    }
  }

  /** A path that does not exist, after paths that are files, fails the
      staging with the pathspec message, provided it lies outside
      `.papyrus/` where the blob writes could create it. */
  lemma {:induction false} StageFilesMissing(s: FsState, c: Codecs, metadata: Path -> Metadata,
    files: seq<Path>, entries: seq<IndexEntry>, j: nat)
    requires MissingAfterFiles(s, files, j)
    ensures StageFiles(s, c, metadata, files, entries).1 == Err(PathspecError(files[j]))
    decreases j
  {
    if j > 0 {
      var file := files[0];
      assert s.Resolve(file) in s.files;
      var contents := s.GetFileContents(file).value;
      var next := StoreObject(s, c, "blob", contents);
      var entry := NewEntry(metadata(file), c.sha1(Canonical("blob", contents)), file);
      StageFilesUnfold(s, c, metadata, files, entries, contents, next, entry);
      StoreObjectKeepsFiles(s, c, contents, files, j, next);
      StageFilesMissing(next, c, metadata, files[1..], entries + [entry], j - 1);
    }
  }

  /** With readable old entries, staging is the loop from the start state
      over the kept entries. */
  lemma {:induction false} StagedUnfold(s: FsState, c: Codecs, metadata: Path -> Metadata, files: seq<Path>,
    start: FsState, kept: seq<IndexEntry>)
    requires AddDefined(s, c) && OldEntries(s, c).Ok?
    requires start == StartState(s) && kept == Kept(OldEntries(s, c).value, files)
    ensures Staged(s, c, metadata, files) == StageFiles(start, c, metadata, files, kept)
  {
  }

  /** `add` succeeds exactly when the old entries parse and every path
      is staged. */
  lemma {:induction false} AddSucceedsIff(s: FsState, c: Codecs, metadata: Path -> Metadata, files: seq<Path>)
    requires AddDefined(s, c)
    ensures Add(s, c, metadata, files).result.Ok? <==> Staged(s, c, metadata, files).1.Ok?
    ensures Add(s, c, metadata, files).result.Ok? ==> Add(s, c, metadata, files).result == Ok("")
    ensures OldEntries(s, c).Err? ==> Add(s, c, metadata, files) == Outcome(s, Err(OldEntries(s, c).error))
  {
  }

  /** The staged entries are the old entries that were not re-added, in
      their order, followed by one new entry per input path. */
  lemma {:induction false} StagedEntries(s: FsState, c: Codecs, metadata: Path -> Metadata, files: seq<Path>,
    previous: seq<IndexEntry>, kept: seq<IndexEntry>, es: seq<IndexEntry>)
    requires AddDefined(s, c) && OldEntries(s, c) == Ok(previous) && kept == Kept(previous, files)
    requires Staged(s, c, metadata, files).1 == Ok(es)
    ensures StagedShape(kept, files, es)
  {
    StageFilesEntries(StartState(s), c, metadata, files, kept, es);
  }

  /** When staging yields `es`, the index file is overwritten with `es`
      sorted by path, a permutation of `es`. */
  lemma {:induction false} AddWritesIndex(s: FsState, c: Codecs, metadata: Path -> Metadata, files: seq<Path>, es: seq<IndexEntry>)
    requires AddDefined(s, c) && Staged(s, c, metadata, files).1 == Ok(es)
    ensures Add(s, c, metadata, files).result == Ok("")
    ensures Add(s, c, metadata, files).state.files[IndexPath(s.currentDirectory)] == Serialize(c, SortByPath(es))
    ensures SortedByPath(SortByPath(es)) && multiset(SortByPath(es)) == multiset(es)
  {
  }

  /** On failure the index is not written: an index that existed keeps its
      bytes, and an absent one has been created empty. */
  lemma {:induction false} AddFailureKeepsIndex(s: FsState, c: Codecs, metadata: Path -> Metadata, files: seq<Path>)
    requires s.Valid() && s.currentDirectory[|s.currentDirectory| - 1] != '/'
    requires AddDefined(s, c)
    requires Add(s, c, metadata, files).result.Err?
    ensures var indexPath := IndexPath(s.currentDirectory);
      var t := Add(s, c, metadata, files).state;
      indexPath in t.files &&
      t.files[indexPath] == if s.PathExists(indexPath) then s.files[indexPath] else []
  {
    if OldEntries(s, c).Ok? {
      var kept := Kept(OldEntries(s, c).value, files);
      var start := StartState(s);
      StagedUnfold(s, c, metadata, files, start, kept);
      StageFilesState(start, c, metadata, files, kept, Staged(s, c, metadata, files).0);
    }
  }

  /** Creating the absent index keeps `MissingAfterFiles`. */
  lemma StartStateKeepsFiles(s: FsState, files: seq<Path>, j: nat)
    requires MissingAfterFiles(s, files, j)
    ensures MissingAfterFiles(StartState(s), files, j)
  {
    var indexPath := IndexPath(s.currentDirectory);
    assert StartsWith(indexPath, s.currentDirectory + "/.papyrus/") by {
      assert indexPath[..|s.currentDirectory| + 10] == s.currentDirectory + "/.papyrus/";
    }
  }

  /** A missing input path outside `.papyrus/`, after paths that are files,
      makes `add` fail with the pathspec message. */
  lemma {:induction false} AddMissingFile(s: FsState, c: Codecs, metadata: Path -> Metadata, files: seq<Path>, j: nat)
    requires AddDefined(s, c) && OldEntries(s, c).Ok? && MissingAfterFiles(s, files, j)
    ensures Add(s, c, metadata, files).result == Err(PathspecError(files[j]))
  {
    var kept := Kept(OldEntries(s, c).value, files);
    var start := StartState(s);
    StagedUnfold(s, c, metadata, files, start, kept);
    StartStateKeepsFiles(s, files, j);
    StageFilesMissing(start, c, metadata, files, kept, j);
  }

  /** When the old entries parse and every input path is a file, `add`
      succeeds. */
  lemma {:induction false} AddSucceeds(s: FsState, c: Codecs, metadata: Path -> Metadata, files: seq<Path>)
    requires s.Valid() && s.currentDirectory[|s.currentDirectory| - 1] != '/'
    requires AddDefined(s, c) && OldEntries(s, c).Ok?
    requires forall i :: 0 <= i < |files| ==> s.Resolve(files[i]) in s.files
    ensures Add(s, c, metadata, files).result == Ok("")
  {
    var kept := Kept(OldEntries(s, c).value, files);
    var start := StartState(s);
    StagedUnfold(s, c, metadata, files, start, kept);
    assert start.currentDirectory == s.currentDirectory && s.files.Keys <= start.files.Keys;
    forall i | 0 <= i < |files|
      ensures start.Resolve(files[i]) in start.files
    {
      assert start.Resolve(files[i]) == s.Resolve(files[i]);
    }
    StageFilesSucceeds(start, c, metadata, files, kept);
    AddSucceedsIff(s, c, metadata, files);
  }

  /** `add` changes no file other than the index: every other existing
      file keeps its bytes, whether `add` succeeds or fails. */
  lemma {:induction false} AddKeepsOtherFiles(s: FsState, c: Codecs, metadata: Path -> Metadata, files: seq<Path>)
    requires s.Valid() && s.currentDirectory[|s.currentDirectory| - 1] != '/'
    requires AddDefined(s, c)
    ensures var t := Add(s, c, metadata, files).state;
      forall q :: q in s.files && q != IndexPath(s.currentDirectory) ==> q in t.files && t.files[q] == s.files[q]
  {
    if OldEntries(s, c).Ok? {
      var indexPath := IndexPath(s.currentDirectory);
      var kept := Kept(OldEntries(s, c).value, files);
      var start := StartState(s);
      StagedUnfold(s, c, metadata, files, start, kept);
      assert start.Valid() && start.currentDirectory == s.currentDirectory;
      assert forall q :: q in s.files && q != indexPath ==> q in start.files && start.files[q] == s.files[q];
      var staged := Staged(s, c, metadata, files).0;
      StageFilesState(start, c, metadata, files, kept, staged);
      assert forall q :: q in s.files && q != indexPath ==> q in staged.files && staged.files[q] == s.files[q];
    }
  }

  /** Kept old entries followed by entries for distinct new paths have
      distinct paths. */
  lemma {:induction false} KeptThenNewDistinct(kept: seq<IndexEntry>, files: seq<Path>, es: seq<IndexEntry>)
    requires DistinctPaths(kept) && forall e :: e in kept ==> !Readded(e, files)
    requires forall i, j :: 0 <= i < j < |files| ==> files[i] != files[j]
    requires |es| == |kept| + |files| && es[..|kept|] == kept
    requires forall i :: |kept| <= i < |es| ==> es[i].path == Utf8(files[i - |kept|])
    ensures DistinctPaths(es)
  {
    forall i, j | 0 <= i < j < |es|
      ensures es[i].path != es[j].path
    {
      if j < |kept| {
        assert es[i] == kept[i] && es[j] == kept[j];
      } else if i < |kept| {
        assert es[i] == kept[i] && es[i] in kept;
        assert files[j - |kept|] in files;
      } else if es[i].path == es[j].path {
        Utf8Injective(files[i - |kept|], files[j - |kept|]);
      }
    }
  }

  /** The entries staged after the kept ones carry the input paths. */
  predicate StagedShape(kept: seq<IndexEntry>, files: seq<Path>, es: seq<IndexEntry>) {
    |es| == |kept| + |files| && es[..|kept|] == kept &&
    forall i :: |kept| <= i < |es| ==> es[i].path == Utf8(files[i - |kept|])
  }

  /** Kept entries of distinct paths followed by entries for distinct
      input paths, once sorted, have distinct paths. */
  lemma {:induction false} SortedStagedDistinct(previous: seq<IndexEntry>, kept: seq<IndexEntry>,
    files: seq<Path>, es: seq<IndexEntry>)
    requires DistinctPaths(previous) && kept == Kept(previous, files) && StagedShape(kept, files, es)
    requires forall i, j :: 0 <= i < j < |files| ==> files[i] != files[j]
    ensures DistinctPaths(SortByPath(es))
  {
    KeptDistinct(previous, files);
    KeptThenNewDistinct(kept, files, es);
    DistinctPathsPermutation(es, SortByPath(es));
  }

  /** With distinct input paths and old entries of distinct paths, the new
      index has no two entries with the same path. */
  lemma {:induction false} AddKeepsPathsDistinct(s: FsState, c: Codecs, metadata: Path -> Metadata, files: seq<Path>,
    previous: seq<IndexEntry>, es: seq<IndexEntry>)
    requires AddDefined(s, c) && OldEntries(s, c) == Ok(previous) && DistinctPaths(previous)
    requires Staged(s, c, metadata, files).1 == Ok(es)
    requires forall i, j :: 0 <= i < j < |files| ==> files[i] != files[j]
    ensures DistinctPaths(SortByPath(es))
  {
    var kept := Kept(previous, files);
    StagedEntries(s, c, metadata, files, previous, kept, es);
    SortedStagedDistinct(previous, kept, files, es);
  }

  /** The old entries hold no NUL in their paths. */
  lemma OldEntriesWithoutNul(s: FsState, c: Codecs, previous: seq<IndexEntry>)
    requires AddDefined(s, c) && OldEntries(s, c) == Ok(previous)
    ensures PathsWithoutNul(previous)
  {
  }

  /** Kept entries and entries for input paths without NUL serialize, once
      sorted, to bytes that parse back to them. */
  lemma {:induction false} SortedStagedReadsBack(c: Codecs, previous: seq<IndexEntry>, kept: seq<IndexEntry>,
    files: seq<Path>, es: seq<IndexEntry>)
    requires PathsWithoutNul(previous) && kept == Kept(previous, files) && StagedShape(kept, files, es)
    requires forall i :: 0 <= i < |files| ==> '\0' !in files[i]
    requires |previous| + |files| < 0x1_0000_0000
    ensures ParseDefined(c, Serialize(c, SortByPath(es)))
    ensures Parse(c, Serialize(c, SortByPath(es))) == Ok(SortByPath(es))
  {
    forall k | 0 <= k < |es|
      ensures Nul !in es[k].path
    {
      if k < |kept| {
        assert es[k] == kept[k] && kept[k] in previous;
      } else {
        Utf8AsciiByte(files[k - |kept|], 0);
      }
    }
    var sorted := SortByPath(es);
    assert PathsWithoutNul(sorted) by {
      forall k | 0 <= k < |sorted|
        ensures Nul !in sorted[k].path
      {
        assert sorted[k] in multiset(es);
      }
    }
    assert |sorted| == |multiset(sorted)| == |multiset(es)| == |es|;
    assert |kept| <= |previous|;
    ParseSerialize(c, sorted);
  }

  /** The rewritten index parses back to the sorted entries, when no path
      holds a NUL and there are fewer than 2^32 entries. */
  lemma {:induction false} AddIndexReadsBack(s: FsState, c: Codecs, metadata: Path -> Metadata, files: seq<Path>,
    previous: seq<IndexEntry>, es: seq<IndexEntry>)
    requires AddDefined(s, c) && OldEntries(s, c) == Ok(previous)
    requires Staged(s, c, metadata, files).1 == Ok(es)
    requires forall i :: 0 <= i < |files| ==> '\0' !in files[i]
    requires |previous| + |files| < 0x1_0000_0000
    ensures ParseDefined(c, Add(s, c, metadata, files).state.files[IndexPath(s.currentDirectory)])
    ensures Parse(c, Add(s, c, metadata, files).state.files[IndexPath(s.currentDirectory)]) == Ok(SortByPath(es))
  {
    var kept := Kept(previous, files);
    StagedEntries(s, c, metadata, files, previous, kept, es);
    OldEntriesWithoutNul(s, c, previous);
    SortedStagedReadsBack(c, previous, kept, files, es);
    AddWritesIndex(s, c, metadata, files, es);
  }
}
