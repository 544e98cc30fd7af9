/** `hash-object`: the canonical form of an object, the SHA-1 name it is
    stored under, and the write of its compressed form into the object
    store under `.papyrus/objects`. */
module HashObject {
  import opened Bytes
  import opened Codecs
  import opened FakeFs

  const PapyrusDirectory: Path := ".papyrus"
  const ObjectsDirectory: Path := "objects"

  /** The object's canonical bytes: its type, a space, the length of the
      contents in decimal, a NUL, then the contents. */
  function Canonical(objectType: string, contents: Bytes): Bytes {
    Utf8(objectType) + [Space] + Utf8(Decimal(|contents|)) + [Nul] + contents
  }

  /** The decimal length is a non-empty run of ASCII digits, one byte each. */
  lemma DecimalBytes(n: nat)
    ensures |Utf8(Decimal(n))| == |Decimal(n)| >= 1
    ensures forall i :: 0 <= i < |Utf8(Decimal(n))| ==> '0' as int <= Utf8(Decimal(n))[i] <= '9' as int
  {
    var d := Decimal(n);
    forall i | 0 <= i < |d|
      ensures '0' <= d[i] <= '9'
    {
      assert IsLowerHexDigit(d[i]) && DigitValue(d[i]) < 10;
    }
    Utf8Ascii(d);
  }

  /** Where each part of the canonical form sits. */
  lemma CanonicalLayout(objectType: string, contents: Bytes)
    ensures var t := Utf8(objectType);
      var d := Utf8(Decimal(|contents|));
      var r := Canonical(objectType, contents);
      |r| == |t| + |d| + 2 + |contents| &&
      r[..|t|] == t && r[|t|] == Space &&
      r[|t| + 1..|t| + 1 + |d|] == d && r[|t| + 1 + |d|] == Nul &&
      r[|t| + 2 + |d|..] == contents
  {
    var t := Utf8(objectType);
    var d := Utf8(Decimal(|contents|));
    var r := Canonical(objectType, contents);
    assert r == t + [Space] + d + [Nul] + contents;
    assert r[..|t|] == t;
    assert r[|t| + 1..|t| + 1 + |d|] == d;
    assert r[|t| + 2 + |d|..] == contents;
  }

  /** The input of the hashing test: a 21-byte blob gets the header
      `blob 21` and a NUL. */
  lemma CanonicalExample(contents: Bytes)
    requires |contents| == 21
    ensures Canonical("blob", contents) == [0x62, 0x6c, 0x6f, 0x62, 0x20, 0x32, 0x31, 0x00] + contents
  {
    assert Decimal(21) == "21";
    assert Utf8("21") == [0x32, 0x31];
    assert Utf8("blob") == [0x62, 0x6c, 0x6f, 0x62];
  }

  /** `create_sha1` of the canonical form: the 40 lowercase hexadecimal
      digits of the SHA-1 of the uncompressed canonical bytes. */
  function ObjectName(c: Codecs, objectType: string, contents: Bytes): (name: string)
    ensures |name| == 40 && forall i :: 0 <= i < 40 ==> IsLowerHexDigit(name[i])
    ensures IsHex(name) && HexDecode(name) == c.sha1(Canonical(objectType, contents))
  {
    Sha1Hex(c, Canonical(objectType, contents))
  }

  /** `<cwd>/.papyrus/objects/<first two digits>`. */
  function ObjectDirectory(currentDirectory: Path, name: string): Path
    requires |name| >= 2
  {
    Join(Join(Join(currentDirectory, PapyrusDirectory), ObjectsDirectory), name[..2])
  }

  /** The object file: the rest of the name, inside its directory. */
  function ObjectPath(currentDirectory: Path, name: string): Path
    requires |name| >= 2
  {
    Join(ObjectDirectory(currentDirectory, name), name[2..])
  }

  /** For an absolute current directory without a trailing `/` and a
      hexadecimal name, the object lives at
      `<cwd>/.papyrus/objects/<2 digits>/<38 digits>`, strictly below its
      directory. */
  lemma ObjectPathLayout(currentDirectory: Path, name: string)
    requires IsAbsolute(currentDirectory) && currentDirectory[|currentDirectory| - 1] != '/'
    requires |name| == 40 && forall i :: 0 <= i < 40 ==> IsLowerHexDigit(name[i])
    ensures ObjectDirectory(currentDirectory, name)
      == currentDirectory + "/.papyrus/objects/" + name[..2]
    ensures ObjectPath(currentDirectory, name)
      == currentDirectory + "/.papyrus/objects/" + name[..2] + "/" + name[2..]
    ensures IsAbsolute(ObjectDirectory(currentDirectory, name))
    ensures IsAbsolute(ObjectPath(currentDirectory, name))
    ensures ObjectPath(currentDirectory, name) != ObjectDirectory(currentDirectory, name)
  {
    var papyrus := Join(currentDirectory, PapyrusDirectory);
    assert papyrus == currentDirectory + "/.papyrus";
    var objects := Join(papyrus, ObjectsDirectory);
    assert objects == currentDirectory + "/.papyrus/objects";
    assert IsLowerHexDigit(name[0]) && IsLowerHexDigit(name[2]);
    assert !IsAbsolute(name[..2]) && !IsAbsolute(name[2..]);
  }

  /** The store write of `execute`: the directory is created when it does
      not exist, and the file is created and written only when it does
      not exist. */
  function Store(s: FsState, directory: Path, file: Path, bytes: Bytes): FsState {
    var created := if s.PathExists(directory) then s else s.CreateDirectory(directory);
    if created.PathExists(file) then created else created.CreateFile(file).WriteFile(file, bytes)
  }

  /** For a file strictly below its directory, exactly the two may change:
      the directory is added when absent, the file is written when absent,
      and an existing file is never overwritten. */
  lemma StoreChanges(s: FsState, directory: Path, file: Path, bytes: Bytes)
    requires s.Valid() && IsAbsolute(directory) && IsAbsolute(file) && file != directory
    ensures var r := Store(s, directory, file, bytes);
      r.currentDirectory == s.currentDirectory &&
      r.directories == (if s.PathExists(directory) then s.directories else s.directories + {directory}) &&
      r.files == (if s.PathExists(file) then s.files else s.files[file := bytes])
  {
    var created := if s.PathExists(directory) then s else s.CreateDirectory(directory);
    assert created.files == s.files && created.currentDirectory == s.currentDirectory;
    assert created.PathExists(file) == s.PathExists(file);
  }

  /** The object written by `hash-object -w`: its compressed canonical form,
      at the path its name gives. */
  function StoreObject(s: FsState, c: Codecs, objectType: string, contents: Bytes): FsState {
    var name := ObjectName(c, objectType, contents);
    Store(s, ObjectDirectory(s.currentDirectory, name), ObjectPath(s.currentDirectory, name),
      c.compress(Canonical(objectType, contents)))
  }

  /** Exactly the object's directory and file may change, and an existing
      object file is never overwritten. */
  lemma StoreObjectChanges(s: FsState, c: Codecs, objectType: string, contents: Bytes)
    requires s.Valid() && s.currentDirectory[|s.currentDirectory| - 1] != '/'
    ensures var name := ObjectName(c, objectType, contents);
      var directory := ObjectDirectory(s.currentDirectory, name);
      var file := ObjectPath(s.currentDirectory, name);
      var r := StoreObject(s, c, objectType, contents);
      r.currentDirectory == s.currentDirectory &&
      r.directories == (if s.PathExists(directory) then s.directories else s.directories + {directory}) &&
      r.files == (if s.PathExists(file) then s.files
                  else s.files[file := c.compress(Canonical(objectType, contents))])
  {
    var name := ObjectName(c, objectType, contents);
    ObjectPathLayout(s.currentDirectory, name);
    StoreChanges(s, ObjectDirectory(s.currentDirectory, name), ObjectPath(s.currentDirectory, name),
      c.compress(Canonical(objectType, contents)));
  }

  /** After the write both the directory and the object file exist, and
      a file the write created decompresses to the canonical form. */
  lemma StoreObjectStores(s: FsState, c: Codecs, objectType: string, contents: Bytes)
    requires s.Valid() && s.currentDirectory[|s.currentDirectory| - 1] != '/'
    ensures var name := ObjectName(c, objectType, contents);
      var file := ObjectPath(s.currentDirectory, name);
      var r := StoreObject(s, c, objectType, contents);
      r.PathExists(ObjectDirectory(s.currentDirectory, name)) && r.PathExists(file) &&
      (!s.PathExists(file) ==>
        r.files[file] == c.compress(Canonical(objectType, contents)) &&
        c.decompress(r.files[file]) == Canonical(objectType, contents))
  {
    StoreObjectChanges(s, c, objectType, contents);
    var name := ObjectName(c, objectType, contents);
    ObjectPathLayout(s.currentDirectory, name);
  }

  /** Writing the same object twice leaves the store as after the first
      write. */
  lemma StoreObjectIdempotent(s: FsState, c: Codecs, objectType: string, contents: Bytes)
    requires s.Valid() && s.currentDirectory[|s.currentDirectory| - 1] != '/'
    ensures var r := StoreObject(s, c, objectType, contents);
      StoreObject(r, c, objectType, contents) == r
  {
    var r := StoreObject(s, c, objectType, contents);
    StoreObjectStores(s, c, objectType, contents);
    StoreObjectChanges(s, c, objectType, contents);
    StoreObjectChanges(r, c, objectType, contents);
  }

  /** The decimal length, pushed one character at a time. */
  method DecimalLength(n: nat) returns (contentsLength: string)
    ensures contentsLength == Decimal(n)
  {
    contentsLength := "";
    var digits := Decimal(n);
    var i := 0;
    while i < |digits|
      invariant 0 <= i <= |digits| && contentsLength == digits[..i]
    {
      contentsLength := contentsLength + [digits[i]];
      i := i + 1;
    }
    assert digits[..i] == digits;
  }

  /** The `if write` block of `execute`. */
  method WriteObject(fs: FakeFs, compressed: Bytes, sha1: string)
    requires |sha1| >= 2
    modifies fs
    ensures fs.State() == Store(old(fs.State()), ObjectDirectory(fs.currentDirectory, sha1),
      ObjectPath(fs.currentDirectory, sha1), compressed)
  {
    var objectFolder := sha1[..2];
    var objectFile := sha1[2..];
    var folderPath := Join(Join(Join(fs.CurrentDirectory(), PapyrusDirectory), ObjectsDirectory), objectFolder);
    if !fs.PathExists(folderPath) {
      fs.CreateDirectory(folderPath);
    }
    var filePath := Join(folderPath, objectFile);
    if !fs.PathExists(filePath) {
      fs.CreateFile(filePath);
      fs.WriteFile(filePath, compressed);
    }
  }

  /** `execute`: the canonical form is built and hashed, and with `write`
      the object is stored. The result is always the object's name. */
  method Execute(fs: FakeFs, c: Codecs, contents: Bytes, objectType: string, write: bool)
    returns (r: Result<string, string>)
    modifies fs
    ensures r == Ok(ObjectName(c, objectType, contents))
    ensures fs.State() == if write then StoreObject(old(fs.State()), c, objectType, contents)
                          else old(fs.State())
  {
    var contentsLength := DecimalLength(|contents|);
    var objectContents := Utf8(objectType) + [Space] + Utf8(contentsLength) + [Nul] + contents;
    assert objectContents == Canonical(objectType, contents);
    var sha1 := Sha1Hex(c, objectContents);
    if write {
      WriteObject(fs, c.compress(objectContents), sha1);
    }
    return Ok(sha1);
  }
}
