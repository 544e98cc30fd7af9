/** `cat-file`: resolves a (possibly abbreviated) object name against the
    object store and prints either the object's contents or its type. */
module CatFile {
  import opened Bytes
  import opened Codecs
  import opened FakeFs
  import opened HashObject

  /** The only accepted first parameters. */
  const PossibleFirstParameter: seq<string> := ["-t", "blob"]

  const BadFirstParameter: string :=
    "fatal: papyrus cat-file first parameter can only receive one of (-t, blob)"

  function NotAValidObjectName(name: string): string {
    "fatal: Not a valid object name " + name
  }

  function AmbiguousArgument(name: string): string {
    "fatal: ambigious argument '" + name + "', there are more than one object with same name"
  }

  /** Whether a byte is whitespace for `trim_end` (the ASCII part of
      Unicode's White_Space: tab, line feed, vertical tab, form feed,
      carriage return and space). */
  predicate IsWhitespace(b: Byte) {
    b == 0x20 || 0x09 <= b <= 0x0D
  }

  /** `trim_end`: the input without its trailing whitespace. */
  function TrimEnd(s: Bytes): (r: Bytes)
    ensures StartsWith(s, r)
    ensures r == [] || !IsWhitespace(r[|r| - 1])
    ensures forall i :: |r| <= i < |s| ==> IsWhitespace(s[i])
  {
    if s != [] && IsWhitespace(s[|s| - 1]) then TrimEnd(s[..|s| - 1]) else s
  }

  /** The three properties of `TrimEnd` determine its result. */
  lemma TrimEndUnique(s: Bytes, r: Bytes)
    requires StartsWith(s, r)
    requires r == [] || !IsWhitespace(r[|r| - 1])
    requires forall i :: |r| <= i < |s| ==> IsWhitespace(s[i])
    ensures r == TrimEnd(s)
  {
    var t := TrimEnd(s);
    assert r == s[..|r|] && t == s[..|t|];
  }

  /** Trimming twice is trimming once; contents without trailing
      whitespace come back unchanged. */
  lemma TrimEndIdempotent(s: Bytes)
    ensures TrimEnd(TrimEnd(s)) == TrimEnd(s)
    ensures (s == [] || !IsWhitespace(s[|s| - 1])) ==> TrimEnd(s) == s
  {
    var t := TrimEnd(s);
    assert StartsWith(t, t);
    TrimEndUnique(t, t);
    if s == [] || !IsWhitespace(s[|s| - 1]) {
      assert StartsWith(s, s);
      TrimEndUnique(s, s);
    }
  }

  /** `str::find` of an ASCII character: the index of its first occurrence. */
  function Find(s: Bytes, b: Byte): (k: nat)
    requires b in s
    ensures k < |s| && s[k] == b
    ensures forall i :: 0 <= i < k ==> s[i] != b
  {
    if s[0] == b then 0
    else
      assert b in s[1..] by {
        var j :| 0 <= j < |s| && s[j] == b;
        assert s[1..][j - 1] == b;
      }
      Find(s[1..], b) + 1
  }

  /** Any first occurrence is the one `Find` returns. */
  lemma FindFirst(s: Bytes, b: Byte, k: nat)
    requires k < |s| && s[k] == b
    requires forall i :: 0 <= i < k ==> s[i] != b
    ensures b in s && Find(s, b) == k
  {
  }

  /** `get_blob_contents`: what follows the first NUL, without trailing
      whitespace; everything cut off is whitespace. */
  function GetBlobContents(objectContents: Bytes): (r: Bytes)
    requires Nul in objectContents
    ensures var n := Find(objectContents, Nul);
      StartsWith(objectContents[n + 1..], r) && (r == [] || !IsWhitespace(r[|r| - 1]))
    ensures forall i :: Find(objectContents, Nul) + 1 + |r| <= i < |objectContents| ==>
      IsWhitespace(objectContents[i])
  {
    TrimEnd(objectContents[Find(objectContents, Nul) + 1..])
  }

  /** `get_file_type`: what precedes the first space. */
  function GetFileType(objectContents: Bytes): (r: Bytes)
    requires Space in objectContents
    ensures Space !in r && |r| < |objectContents| && objectContents[|r|] == Space
    ensures StartsWith(objectContents, r)
  {
    objectContents[..Find(objectContents, Space)]
  }

  /** On a canonical form whose type has no NUL, the first NUL is the one
      that ends the header, and the contents follow it. */
  lemma CanonicalFirstNul(objectType: string, contents: Bytes)
    requires '\0' !in objectType
    ensures var r := Canonical(objectType, contents);
      Nul in r && Find(r, Nul) == |Utf8(objectType)| + 1 + |Utf8(Decimal(|contents|))| &&
      r[Find(r, Nul) + 1..] == contents
  {
    var t := Utf8(objectType);
    var d := Utf8(Decimal(|contents|));
    var r := Canonical(objectType, contents);
    CanonicalLayout(objectType, contents);
    DecimalBytes(|contents|);
    Utf8AsciiByte(objectType, 0);
    forall i | 0 <= i < |t| + 1 + |d|
      ensures r[i] != Nul
    {
      if i < |t| {
        assert r[i] == r[..|t|][i];
      } else if |t| < i {
        assert r[i] == r[|t| + 1..|t| + 1 + |d|][i - |t| - 1];
      }
    }
    FindFirst(r, Nul, |t| + 1 + |d|);
  }

  /** The canonical header is skipped exactly: on a canonical form whose
      type has no NUL, the blob contents are the trimmed contents. */
  lemma BlobOfCanonical(objectType: string, contents: Bytes)
    requires '\0' !in objectType
    ensures Nul in Canonical(objectType, contents)
    ensures GetBlobContents(Canonical(objectType, contents)) == TrimEnd(contents)
  {
    CanonicalFirstNul(objectType, contents);
  }

  /** On a canonical form whose type has no space, the type read back is
      the type written. */
  lemma TypeOfCanonical(objectType: string, contents: Bytes)
    requires ' ' !in objectType
    ensures Space in Canonical(objectType, contents)
    ensures GetFileType(Canonical(objectType, contents)) == Utf8(objectType)
  {
    var t := Utf8(objectType);
    var r := Canonical(objectType, contents);
    CanonicalLayout(objectType, contents);
    Utf8AsciiByte(objectType, 0x20);
    forall i | 0 <= i < |t|
      ensures r[i] != Space
    {
      assert r[i] == r[..|t|][i];
    }
    FindFirst(r, Space, |t|);
  }

  /** Distinct objects have distinct canonical forms: when the types hold
      neither a space nor a NUL, the canonical form determines both the
      type and the contents. */
  lemma CanonicalInjective(type1: string, contents1: Bytes, type2: string, contents2: Bytes)
    requires ' ' !in type1 && '\0' !in type1 && ' ' !in type2 && '\0' !in type2
    requires Canonical(type1, contents1) == Canonical(type2, contents2)
    ensures type1 == type2 && contents1 == contents2
  {
    TypeOfCanonical(type1, contents1);
    TypeOfCanonical(type2, contents2);
    Utf8Injective(type1, type2);
    CanonicalFirstNul(type1, contents1);
    CanonicalFirstNul(type2, contents2);
  }

  /** The name's first two characters must be one byte each: the source
      slices the name's bytes at 2. */
  predicate Sliceable(name: string) {
    |name| >= 2 && name[0] as int < 0x80 && name[1] as int < 0x80
  }

  /** `<cwd>/.papyrus/objects/<first two characters>`, built by formatting. */
  function LookupDirectory(currentDirectory: Path, name: string): Path
    requires |name| >= 2
  {
    currentDirectory + "/.papyrus/objects/" + name[..2]
  }

  /** The object files whose path starts with the name's lookup path. */
  function Matches(s: FsState, name: string): set<Path>
    requires |name| >= 2
  {
    s.FilesStartingWith(LookupDirectory(s.currentDirectory, name), name)
  }

  /** What keeps `execute` from panicking: a slicable name, and for a
      single match, decompressed contents holding the NUL (`blob`) or the
      space (`-t`) that is searched for. */
  predicate Readable(s: FsState, c: Codecs, mode: string, name: string) {
    mode in PossibleFirstParameter ==>
      Sliceable(name) &&
      forall k :: k in Matches(s, name) && |Matches(s, name)| == 1 ==>
        (mode == "blob" ==> Nul in c.decompress(s.files[k])) &&
        (mode == "-t" ==> Space in c.decompress(s.files[k]))
  }

  /** A set of one element holds nothing else. */
  lemma OnlyElement(m: set<Path>, k: Path)
    requires |m| == 1 && k in m
    ensures m == {k}
  {
    assert m == (m - {k}) + {k};
    assert |m - {k}| == 0;
  }

  /** What `execute` returns: the mode is checked first, then the name
      must match exactly one object file, whose decompressed contents
      give the blob contents or the type. */
  ghost function CatFile(s: FsState, c: Codecs, mode: string, name: string): (r: Result<Bytes, string>)
    requires Readable(s, c, mode, name)
    ensures mode !in PossibleFirstParameter ==> r == Err(BadFirstParameter)
    ensures r.Ok? ==> |Matches(s, name)| == 1
  {
    if mode !in PossibleFirstParameter then Err(BadFirstParameter)
    else
      var matches := Matches(s, name);
      if |matches| == 0 then Err(NotAValidObjectName(name))
      else if |matches| > 1 then Err(AmbiguousArgument(name))
      else
        var k :| k in matches;
        var objectContents := c.decompress(s.files[k]);
        if mode == "blob" then Ok(GetBlobContents(objectContents))
        else Ok(GetFileType(objectContents))
  }

  /** Zero matches and several matches are errors, each with its own
      message; no match is chosen when several exist. */
  lemma CatFileErrors(s: FsState, c: Codecs, mode: string, name: string)
    requires Readable(s, c, mode, name) && mode in PossibleFirstParameter
    ensures |Matches(s, name)| == 0 <==> CatFile(s, c, mode, name) == Err(NotAValidObjectName(name))
    ensures |Matches(s, name)| > 1 <==> CatFile(s, c, mode, name) == Err(AmbiguousArgument(name))
    ensures |Matches(s, name)| == 1 <==> CatFile(s, c, mode, name).Ok?
  {
    MessagesDiffer(name);
  }

  /** The two lookup failures have different messages. */
  lemma MessagesDiffer(name: string)
    ensures AmbiguousArgument(name) != NotAValidObjectName(name)
  {
    assert AmbiguousArgument(name)[7] == 'a';
    assert NotAValidObjectName(name)[7] == 'N';
  }

  /** `execute`: reads the store and changes nothing. */
  method Execute(fs: FakeFs, c: Codecs, fileTypeOrTypeFlag: string, fileName: string)
    returns (r: Result<Bytes, string>)
    requires Readable(fs.State(), c, fileTypeOrTypeFlag, fileName)
    ensures r == CatFile(fs.State(), c, fileTypeOrTypeFlag, fileName)
  {
    if fileTypeOrTypeFlag !in PossibleFirstParameter {
      return Err(BadFirstParameter);
    }
    var currentDirectory := fs.CurrentDirectory();
    var fullFilePath := currentDirectory + "/.papyrus/objects/" + fileName[..2];
    var matchingObjectFiles := fs.GetDirectoryFilesStartingWith(fullFilePath, fileName);
    if |matchingObjectFiles| == 0 {
      return Err(NotAValidObjectName(fileName));
    }
    if |matchingObjectFiles| > 1 {
      return Err(AmbiguousArgument(fileName));
    }
    var k :| k in matchingObjectFiles;
    OnlyElement(matchingObjectFiles, k);
    fullFilePath := Join(fullFilePath, k);
    var compressedObjectContents := fs.GetFileContentsAsBytes(fullFilePath);
    var objectContents := c.decompress(compressedObjectContents.value);
    if fileTypeOrTypeFlag == "blob" {
      r := Ok(GetBlobContents(objectContents));
    } else {
      r := Ok(GetFileType(objectContents));
    }
  }

  /** The name's lookup path, for a hexadecimal name: the object file it
      abbreviates starts with it. */
  lemma LookupOfPrefix(currentDirectory: Path, hash: string, name: string)
    requires IsAbsolute(currentDirectory) && currentDirectory[|currentDirectory| - 1] != '/'
    requires |hash| == 40 && forall i :: 0 <= i < 40 ==> IsLowerHexDigit(hash[i])
    requires 2 <= |name| && StartsWith(hash, name)
    ensures Sliceable(name)
    ensures LookupDirectory(currentDirectory, name) == ObjectDirectory(currentDirectory, hash)
    ensures var directory := LookupDirectory(currentDirectory, name);
      IsAbsolute(directory) && directory[|directory| - 1] != '/' && !IsAbsolute(name[2..]) &&
      StartsWith(ObjectPath(currentDirectory, hash), directory + "/" + name[2..])
  {
    ObjectPathLayout(currentDirectory, hash);
    assert name[..2] == hash[..2];
    var directory := LookupDirectory(currentDirectory, name);
    assert directory[|directory| - 1] == hash[1];
    if |name| > 2 {
      assert name[2] == hash[2];
    }
    var file := ObjectPath(currentDirectory, hash);
    assert file == directory + "/" + hash[2..];
    assert hash[2..][..|name| - 2] == name[2..];
  }

  /** A single match is the file that is read. */
  lemma CatFileOfOnly(s: FsState, c: Codecs, mode: string, name: string, k: Path)
    requires mode in PossibleFirstParameter && Sliceable(name) && Matches(s, name) == {k}
    requires Readable(s, c, mode, name)
    ensures k in s.files
    ensures CatFile(s, c, mode, name) == if mode == "blob" then Ok(GetBlobContents(c.decompress(s.files[k])))
                                         else Ok(GetFileType(c.decompress(s.files[k])))
  {
    assert k in Matches(s, name);
  }

  /** After the store write, the name matches exactly the new object file,
      which holds the compressed canonical form. */
  lemma MatchesAfterStore(s: FsState, c: Codecs, objectType: string, contents: Bytes, name: string)
    requires s.Valid() && s.currentDirectory[|s.currentDirectory| - 1] != '/'
    requires !s.PathExists(ObjectPath(s.currentDirectory, ObjectName(c, objectType, contents)))
    requires 2 <= |name| && StartsWith(ObjectName(c, objectType, contents), name)
    requires Matches(s, name) == {}
    ensures var file := ObjectPath(s.currentDirectory, ObjectName(c, objectType, contents));
      var r := StoreObject(s, c, objectType, contents);
      Sliceable(name) && Matches(r, name) == {file} &&
      file in r.files && r.files[file] == c.compress(Canonical(objectType, contents))
  {
    var hash := ObjectName(c, objectType, contents);
    var file := ObjectPath(s.currentDirectory, hash);
    var r := StoreObject(s, c, objectType, contents);
    LookupOfPrefix(s.currentDirectory, hash, name);
    StoreObjectChanges(s, c, objectType, contents);
    assert r.files == s.files[file := c.compress(Canonical(objectType, contents))];
    MatchesAfterAdding(s, r, name, file, c.compress(Canonical(objectType, contents)));
  }

  /** A file added under the name's lookup path, where nothing matched
      before, becomes the only match. */
  lemma MatchesAfterAdding(s: FsState, r: FsState, name: string, file: Path, bytes: Bytes)
    requires |name| >= 2 && r.currentDirectory == s.currentDirectory && r.files == s.files[file := bytes]
    requires var directory := LookupDirectory(s.currentDirectory, name);
      IsAbsolute(directory) && directory[|directory| - 1] != '/' && !IsAbsolute(name[2..]) &&
      StartsWith(file, directory + "/" + name[2..])
    requires Matches(s, name) == {}
    ensures Matches(r, name) == {file}
  {
    var prefix := LookupDirectory(s.currentDirectory, name) + "/" + name[2..];
    forall k | k in r.files
      ensures StartsWith(k, prefix) <==> k == file
    {
      if k != file {
        assert k in s.files;
        assert k !in Matches(s, name);
      }
    }
  }

  /** An object stored by `hash-object -w` reads back through `cat-file`,
      by its full name or by any prefix of at least two characters that
      matched no object file before: `blob` gives the trimmed contents and
      `-t` gives the type. */
  lemma ReadBackStored(s: FsState, c: Codecs, objectType: string, contents: Bytes, name: string)
    requires s.Valid() && s.currentDirectory[|s.currentDirectory| - 1] != '/'
    requires ' ' !in objectType && '\0' !in objectType
    requires !s.PathExists(ObjectPath(s.currentDirectory, ObjectName(c, objectType, contents)))
    requires 2 <= |name| && StartsWith(ObjectName(c, objectType, contents), name)
    requires Matches(s, name) == {}
    ensures var r := StoreObject(s, c, objectType, contents);
      Readable(r, c, "blob", name) && CatFile(r, c, "blob", name) == Ok(TrimEnd(contents)) &&
      Readable(r, c, "-t", name) && CatFile(r, c, "-t", name) == Ok(Utf8(objectType))
  {
    var file := ObjectPath(s.currentDirectory, ObjectName(c, objectType, contents));
    var r := StoreObject(s, c, objectType, contents);
    MatchesAfterStore(s, c, objectType, contents, name);
    var canonical := Canonical(objectType, contents);
    assert c.decompress(r.files[file]) == canonical;
    BlobOfCanonical(objectType, contents);
    TypeOfCanonical(objectType, contents);
    assert Readable(r, c, "blob", name);
    assert Readable(r, c, "-t", name);
    CatFileOfOnly(r, c, "blob", name, file);
    CatFileOfOnly(r, c, "-t", name, file);
  }
}
