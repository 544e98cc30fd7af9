# papyrus object and index layer, in Dafny

papyrus is a small git-like version-control tool. This project models its
object and index layer and proves properties of that model:

- **Index codec** (`Index`). The binary staging manifest in the layout of
  version 2 of Git's index:
  - a 12-byte header: `DIRC`, version 2, and a big-endian entry count;
  - for each entry, 62 bytes of fixed-width fields, the path, and 1 to 8
    NUL bytes of padding up to a multiple of 8;
  - a trailing SHA-1 over everything before it.

  The module covers the writer (`parse_into_file`), the parser
  (`parse_from_file`) with its three error messages, the path ordering
  behind `entries.sort()`, and the listing (`format_index_entries`).
- **Object codec and store write** (`HashObject`). The canonical form
  `type SP decimal-length NUL contents` and its 40-digit SHA-1 name. With
  `write`, the zlib-compressed form is stored at
  `<cwd>/.papyrus/objects/<2 digits>/<38 digits>`; the directory and the
  file are each created only when they are absent.
- **Object read by prefix** (`CatFile`). `cat-file` checks the mode token
  (`-t` or `blob`) and resolves an abbreviated name against the object
  files. It fails on no match and on several matches. It returns either
  the trimmed contents after the header's NUL or the type before the first
  space.
- **Staging** (`Add`). `add` reads and filters the index and stores every
  given file as a blob. It builds each file's entry from truncated
  big-endian metadata, the hex-decoded hash and 16-bit length flags. Then
  it sorts the entries by path and rewrites the whole index.
- **In-memory file system** (`FakeFs`). A map from path to bytes, a set of
  directories and a fixed current directory. `FsState` is its value, with
  each operation as a function. `FakeFs.FakeFs` is the class whose methods
  update `files` and `directories` in place.

`Bytes` holds the integer widths, big-endian encodings, decimal, octal and
hexadecimal numerals, and UTF-8. `Codecs` holds the external hash and
compression functions.

SHA-1 (FIPS 180-4) and zlib (RFC 1950) are not modelled. Every operation
that needs them receives a `Codecs` value. The model relies on only two
facts about them: a digest is 20 bytes long, and decompression undoes
compression. Points where the code's panics would stop it (a slice out of
range, an `unwrap` on a missing byte) become preconditions. Each one is
named: `ParseDefined`, `AddDefined`, `Readable`.

## Model

| member | source | states |
|---|---|---|
| FakeFs.Join | src/fs/fake.rs:139-145 | pushing an absolute component replaces the path; a relative one is appended to the base, with exactly one `/` between them when the base does not already end in one, so the result starts with the base and ends with the component |
| FakeFs.FsState.Resolve | src/fs/fake.rs:137-145 | an absolute path resolves to itself, and in a valid state every path resolves to an absolute one |
| FakeFs.FsState.GetFileContents | src/fs/fake.rs:110-126 | succeeds exactly when the path, resolved against the current directory, is a file key, and then returns that key's bytes; otherwise fails with the cannot-open message naming the path as given |
| FakeFs.FsState.FilesStartingWith | src/fs/fake.rs:171-188 | only file keys; for an absolute directory without a trailing `/` and a relative rest of the name, exactly the keys that start with `<directory>/<name minus its first two characters>`; for an absolute rest, exactly the keys that start with that rest |
| FakeFs.FsState.CreateFile | src/fs/fake.rs:152-156 | the path now holds no bytes, even if it held some before; every other file, every directory and the current directory are unchanged |
| FakeFs.FsState.WriteFile | src/fs/fake.rs:157-161 | the path holds exactly the given bytes; every other file, every directory and the current directory are unchanged |
| FakeFs.FsState.CreateDirectory | src/fs/fake.rs:127-131 | files unchanged; a path exists afterwards exactly when it existed before or resolves to the new directory |
| FakeFs.FsState.RemoveDirectory | src/fs/fake.rs:132-136 | files unchanged, so files below the directory stay; a path exists afterwards exactly when it existed and is not that directory, or it is a file |
| FakeFs.RelativeReadFails | src/fs/fake.rs:110-126 | the byte read does not resolve relative paths: an existing file named relatively cannot be read by that name, while the text read finds it |
| FakeFs.FakeFs.Access | src/fs/fake.rs:95-109 | `access`: no files; the current directory is the only directory |
| FakeFs.FakeFs.CurrentDirectory | src/fs/fake.rs:149-151 | the fixed absolute current directory |
| FakeFs.FakeFs.CreateDirectory | src/fs/fake.rs:127-131 | the new state is the state function's directory creation applied to the old state |
| FakeFs.FakeFs.RemoveDirectory | src/fs/fake.rs:132-136 | the new state is the state function's directory removal applied to the old state |
| FakeFs.FakeFs.CreateFile | src/fs/fake.rs:152-156 | the new state is the state function's file creation applied to the old state |
| FakeFs.FakeFs.WriteFile | src/fs/fake.rs:157-161 | the new state is the state function's file write applied to the old state |
| Bytes.Be16 | src/sub_commands/add.rs:91-94 | the last two bytes of `to_be_bytes`: their big-endian value is the low 16 bits of the number |
| Bytes.Be32 | src/sub_commands/add.rs:49-78 | the last four bytes of `to_be_bytes`: their big-endian value is the number modulo 2^32, two's complement for a negative time |
| Bytes.Be32OfValue | src/index/mod.rs:70 | reading four bytes big-endian and writing the value back gives the same bytes |
| Bytes.Numeral | src/sub_commands/hash_object.rs:48 | at least one digit, no leading zero, every digit below the base |
| Bytes.NumeralRoundTrip | src/sub_commands/hash_object.rs:48 | the numeral of n denotes n: decimal (`to_string`) and octal (`{:o}`) lose nothing |
| Bytes.Hex | src/sub_commands/hash_object.rs:9-13 | two lowercase hexadecimal digits per byte |
| Bytes.HexAppend | src/index/mod.rs:127-129 | encoding byte by byte (`{:02x}` per byte) gives the same text as encoding the whole |
| Bytes.HexDecode | src/sub_commands/add.rs:83-87 | decoding pair by pair gives one byte per two digits |
| Bytes.HexDecodeHex | src/sub_commands/add.rs:80-89 | decoding the hex encoding of any bytes gives the bytes back |
| Bytes.HexOfHexDecode | src/sub_commands/add.rs:80-89 | for lowercase hexadecimal text, encoding the decoded bytes gives the text back, so the two encodings are inverses |
| Bytes.EncodeChar | src/sub_commands/add.rs:96-98 | one UTF-8 sequence of 1 to 4 bytes; one byte exactly for ASCII, otherwise no byte below 0x80 |
| Bytes.DecodeEncodeChar | src/sub_commands/add.rs:96-98 | the code point decoded from a character's UTF-8 sequence is the character |
| Bytes.Utf8Append | src/sub_commands/add.rs:96-98 | the encoding of a concatenation is the concatenation of the encodings |
| Bytes.Utf8Injective | src/sub_commands/add.rs:25-28 | distinct paths have distinct encodings, so comparing path bytes is comparing paths |
| Bytes.Utf8AsciiByte | src/sub_commands/add.rs:96-98 | an ASCII byte occurs in the encoding exactly when its character occurs in the string |
| Bytes.Utf8Ascii | src/sub_commands/cat_file.rs:24-30 | an ASCII string encodes to its character codes, one byte each |
| Codecs.Sha1Hex | src/sub_commands/hash_object.rs:9-13 | `create_sha1`: 40 lowercase hexadecimal digits that decode to the 20-byte digest |
| Index.ComparePathsEqual | src/index/mod.rs:29-33 | two entries compare equal exactly when their paths are the same bytes |
| Index.ComparePathsFlip | src/index/mod.rs:29-33 | the comparison is antisymmetric: a is below b exactly when b is above a |
| Index.PathLeTransitive | src/index/mod.rs:29-33 | the path order is transitive |
| Index.PathLeTotal | src/index/mod.rs:29-33 | the path order is total and antisymmetric |
| Index.InsertionPoint | src/sub_commands/add.rs:103 | every entry before the point sorts no later than the new one; the entry at the point sorts strictly later |
| Index.InsertByPath | src/sub_commands/add.rs:103 | adds exactly the one entry to the multiset and keeps a sorted sequence sorted |
| Index.InsertionKeepsOrder | src/sub_commands/add.rs:103 | inserting at the insertion point keeps the sequence sorted by path |
| Index.SortByPath | src/sub_commands/add.rs:103 | `entries.sort()`: a permutation of the entries, sorted by path |
| Index.WithPathAppend | src/sub_commands/add.rs:103 | the entries with a given path, taken from a concatenation, are those of each part in turn |
| Index.AfterInsertionPoint | src/sub_commands/add.rs:103 | no entry from the insertion point on has the new entry's path, so the new entry goes after every equal one |
| Index.WithPathAround | src/sub_commands/add.rs:103 | inserting an entry ahead of entries with other paths places it last among the entries with its path |
| Index.InsertByPathStable | src/sub_commands/add.rs:103 | inserting into a sorted sequence puts the new entry after the entries with an equal path, keeping their order |
| Index.SortByPathStable | src/sub_commands/add.rs:103 | the sort is stable: the entries with any given path keep their relative order |
| Index.DistinctPathsOccurOnce | src/sub_commands/add.rs:103 | with distinct paths no entry occurs twice |
| Index.DistinctPathsPermutation | src/sub_commands/add.rs:103 | a permutation of entries with distinct paths has distinct paths |
| Index.EntryLength | src/index/mod.rs:178 | the padded entry length is a multiple of 8 and leaves between 1 and 8 NUL bytes after the path |
| Index.Fields | src/index/mod.rs:161-175 | the fixed-width part of an entry is 62 bytes |
| Index.EncodeEntry | src/index/mod.rs:161-182 | an encoded entry has the padded length |
| Index.EncodeEntryLayout | src/index/mod.rs:161-182 | an encoded entry is the 62 field bytes, then the path, then only NULs, in total a multiple of 8 |
| Index.EncodeEntries | src/index/mod.rs:160-185 | the entry data is as long as the sum of the padded entry lengths |
| Index.Header | src/index/mod.rs:150-156 | the header is 12 bytes |
| Index.Serialize | src/index/mod.rs:147-196 | the file is 12 header bytes, the entry data and 20 checksum bytes long |
| Index.SerializeLayout | src/index/mod.rs:150-195 | the file starts with `DIRC` and version 2, then the entry count modulo 2^32 big-endian; then the entries; it ends with the SHA-1 of everything before it |
| Index.EntryBytes | src/index/mod.rs:161-182 | the loop body's bytes, padding pushed one NUL at a time, are the encoded entry |
| Index.ParseIntoFile | src/index/mod.rs:147-196 | the bytes built by appending in a loop are the serialized index |
| Index.FindNul | src/index/mod.rs:79-84 | the first NUL at or after the offset |
| Index.NextEntry | src/index/mod.rs:109-110 | the next entry starts after this entry's fields |
| Index.DecodeEntriesBounds | src/index/mod.rs:75-85 | the loop adds at most the declared count of entries, and every path it reads holds no NUL |
| Index.Parse | src/index/mod.rs:36-114 | succeeds exactly when signature, version and checksum all hold; then yields at most the declared count of NUL-free paths; otherwise fails with one of the three messages |
| Index.ParseReportsFirstFailure | src/index/mod.rs:39-49 | a bad signature is reported whatever the version, and a bad version whatever the checksum |
| Index.ParseRejectsBadChecksum | src/index/mod.rs:53-67 | a file whose last 20 bytes differ from the SHA-1 of the rest never parses; with a good header the error is the checksum message |
| Index.ReadEntry | src/index/mod.rs:77-110 | one turn of the loop reads the entry from its fields and its path up to the first NUL, and moves to the next entry |
| Index.ReadEntries | src/index/mod.rs:70-111 | the cursor-and-counter loop reads the entries of the decoding specification |
| Index.ParseFromFile | src/index/mod.rs:36-114 | `parse_from_file` returns the specification's result, errors included |
| Index.DecodeEntryFields | src/index/mod.rs:89-101 | the field offsets of the parser and the writer agree: reading the written fields gives the entry back |
| Index.EncodedEntryBounds | src/index/mod.rs:79-110 | wherever an encoded entry sits, the path search stops right after its path and the next entry starts right after its padding |
| Index.DecodeEncodedEntry | src/index/mod.rs:75-111 | an encoded entry decodes to itself, and decoding goes on right after it |
| Index.DecodeEncodedAt | src/index/mod.rs:75-111 | encoded entries anywhere in the data decode to themselves, in order |
| Index.DecodeEncodeEntries | src/index/mod.rs:75-111 | decoding the encoded entries gives back exactly those entries |
| Index.ParseOfLayout | src/index/mod.rs:36-114 | any file laid out as a serialized index, with the true count, parses to its entries |
| Index.ParseSerialize | src/index/mod.rs:36-196 | round trip: parsing the serialized index gives back its entries, when no path holds a NUL and there are fewer than 2^32 entries |
| Index.WriteStageColumns | src/index/mod.rs:120-132 | the stage columns: the octal mode, a space, 40 hex digits pushed byte by byte, a space, the stage, a tab |
| Index.FormatIndexEntries | src/index/mod.rs:116-145 | the listing as the loop writes it: each entry line, with a newline after every entry not equal to the last |
| Index.JoinLines | src/index/mod.rs:116-145 | the listing as intended: no output for no entries, and the lines joined by newlines |
| Index.EntryLineWithoutNewline | src/index/mod.rs:120-135 | a line has no newline of its own when its path has none |
| Index.JoinLinesNewlines | src/index/mod.rs:116-145 | the intended listing of n entries holds exactly n - 1 newlines: no trailing one |
| Index.JoinLinesAppend | src/index/mod.rs:116-145 | appending an entry adds one newline and its line |
| Index.FormatAsWrittenPrefix | src/index/mod.rs:137-141 | before the last entry, each written line is followed by a newline, provided no earlier entry equals the last |
| Index.FormatAsWrittenAgrees | src/index/mod.rs:116-145 | the written listing equals the intended one whenever no earlier entry equals the last |
| Index.FormatAsWrittenDropsNewline | src/index/mod.rs:137-141 | two equal entries are listed with no newline between their paths, unlike the intended listing |
| HashObject.DecimalBytes | src/sub_commands/hash_object.rs:46-50 | the decimal length is a non-empty run of ASCII digits |
| HashObject.CanonicalLayout | src/sub_commands/hash_object.rs:52-59 | the canonical bytes are the type, a space, the decimal length, a NUL, then the contents |
| HashObject.CanonicalExample | src/sub_commands/hash_object.rs:15-21 | 21 bytes of blob contents get the header `blob 21` and a NUL |
| HashObject.ObjectName | src/sub_commands/hash_object.rs:61 | the name is 40 lowercase hexadecimal digits that decode to the SHA-1 of the uncompressed canonical bytes |
| HashObject.ObjectPathLayout | src/sub_commands/hash_object.rs:64-78 | the object lives at `<cwd>/.papyrus/objects/<2 digits>/<38 digits>`, which is absolute and strictly below its directory |
| HashObject.StoreChanges | src/sub_commands/hash_object.rs:72-85 | only the directory and the file may change: the directory is added when absent, the file is written when absent, and an existing file is never overwritten |
| HashObject.StoreObjectChanges | src/sub_commands/hash_object.rs:63-86 | only the object's directory and file may change, and an existing object file keeps its bytes |
| HashObject.StoreObjectStores | src/sub_commands/hash_object.rs:72-85 | afterwards the directory and the file exist, and a newly created file decompresses to the canonical bytes |
| HashObject.StoreObjectIdempotent | src/sub_commands/hash_object.rs:72-85 | writing the same object twice leaves the store as after the first write |
| HashObject.DecimalLength | src/sub_commands/hash_object.rs:46-50 | the characters pushed one at a time are the decimal length |
| HashObject.WriteObject | src/sub_commands/hash_object.rs:63-86 | the file system changes as the store write specifies |
| HashObject.Execute | src/sub_commands/hash_object.rs:40-89 | always returns the object's name; stores the object when `write` is set and otherwise leaves the file system unchanged |
| CatFile.TrimEnd | src/sub_commands/cat_file.rs:63 | the longest prefix that does not end in whitespace; everything cut off is whitespace |
| CatFile.TrimEndUnique | src/sub_commands/cat_file.rs:63 | any prefix with those properties is the trimmed result |
| CatFile.TrimEndIdempotent | src/sub_commands/cat_file.rs:63 | trimming twice is trimming once, and text without trailing whitespace is unchanged |
| CatFile.Find | src/sub_commands/cat_file.rs:59 | the offset of the first occurrence |
| CatFile.FindFirst | src/sub_commands/cat_file.rs:67 | any occurrence with none before it is the one found |
| CatFile.GetBlobContents | src/sub_commands/cat_file.rs:58-64 | a prefix of what follows the first NUL, with no trailing whitespace, and everything after it is whitespace |
| CatFile.GetFileType | src/sub_commands/cat_file.rs:66-72 | the prefix before the first space, which holds no space |
| CatFile.CanonicalFirstNul | src/sub_commands/cat_file.rs:59 | in canonical bytes the first NUL ends the header, and the contents follow it |
| CatFile.BlobOfCanonical | src/sub_commands/cat_file.rs:58-64 | the blob contents of a canonical form are its contents with trailing whitespace trimmed |
| CatFile.TypeOfCanonical | src/sub_commands/cat_file.rs:66-72 | the type read from a canonical form is the type written, if it holds no space |
| CatFile.CanonicalInjective | src/sub_commands/hash_object.rs:52-59 | for types without space or NUL, the canonical bytes determine both the type and the contents |
| CatFile.CatFile | src/sub_commands/cat_file.rs:8-56 | a mode other than `-t` or `blob` fails before the store is consulted; success needs exactly one match |
| CatFile.CatFileErrors | src/sub_commands/cat_file.rs:32-41 | no match gives the not-a-valid-object-name message and several give the ambiguous-argument message, each exactly then; otherwise the call succeeds |
| CatFile.Execute | src/sub_commands/cat_file.rs:8-56 | returns the specification's result and changes nothing |
| CatFile.LookupOfPrefix | src/sub_commands/cat_file.rs:23-30 | for any prefix of at least two characters of a name, the lookup directory is the object's directory, and the object's path starts with the lookup path |
| CatFile.CatFileOfOnly | src/sub_commands/cat_file.rs:43-55 | with a single match, `blob` gives the blob contents of the decompressed file and `-t` its type |
| CatFile.MatchesAfterAdding | src/sub_commands/cat_file.rs:23-30 | a file added under the name's lookup path, where nothing matched before, becomes the only match |
| CatFile.MatchesAfterStore | src/sub_commands/cat_file.rs:23-45 | after a new object is stored, a prefix of its name that matched nothing now matches exactly that file, which holds the compressed canonical bytes |
| CatFile.ReadBackStored | src/sub_commands/cat_file.rs:43-72 | a stored object reads back by its full name or by a prefix: `blob` gives the trimmed contents, `-t` the type |
| Add.Kept | src/sub_commands/add.rs:23-29 | the old entries kept are exactly those whose path is not among the inputs |
| Add.HexBytes | src/sub_commands/add.rs:80-87 | the bytes pushed pair by pair are the hex decoding of the hash |
| Add.BuildEntry | src/sub_commands/add.rs:47-98 | the entry filled field by field, its path pushed byte by byte, is the new entry built from the metadata, the decoded hash and the path |
| Add.StageFile | src/sub_commands/add.rs:42-100 | one loop turn: the file's blob is stored and its entry appended; a read failure changes nothing |
| Add.Execute | src/sub_commands/add.rs:8-110 | the new file system and the result are those the staging specification gives |
| Add.NewEntryFields | src/sub_commands/add.rs:49-94 | a new entry has zero nanoseconds; low 32 bits of times, device, inode and size; full mode, uid and gid; a hash field whose hex encoding is the hash; flags holding the low 16 bits of the path length |
| Add.KeptDistinct | src/sub_commands/add.rs:23-29 | filtering keeps paths distinct |
| Add.KeptAppend | src/sub_commands/add.rs:23-29 | the filter keeps order and multiplicity: filtering a concatenation concatenates the filtered parts |
| Add.KeptHead | src/sub_commands/add.rs:23-29 | the first entry survives the filter, ahead of the filtered rest, exactly when its path is not among the inputs |
| Add.ObjectPathBesideIndex | src/sub_commands/add.rs:9-42 | object directories and files lie under `.papyrus/` and are never the index file |
| Add.StoreObjectBesideIndex | src/sub_commands/add.rs:42 | a blob write removes no file, adds only paths under `.papyrus/` and leaves the index file's bytes alone |
| Add.StageFilesState | src/sub_commands/add.rs:32-101 | the staging loop keeps the current directory and every existing file with its bytes, the index file among them |
| Add.StoreObjectKeepsBytes | src/sub_commands/add.rs:42 | a blob write keeps every existing file with its bytes |
| Add.StageFilesSucceeds | src/sub_commands/add.rs:32-101 | when every input path is a file, the staging loop succeeds |
| Add.StoreObjectKeepsInputs | src/sub_commands/add.rs:32-42 | after a blob write, the remaining input paths are still files |
| Add.StageFilesEntries | src/sub_commands/add.rs:32-101 | the loop keeps the entries it starts from and appends one entry per input path, carrying that path |
| Add.StoreObjectKeepsFiles | src/sub_commands/add.rs:42 | a blob write keeps the earlier inputs present and a later missing input outside `.papyrus/` missing |
| Add.StageFilesMissing | src/sub_commands/add.rs:35-40 | an input that does not exist, after inputs that are files, ends the loop with the pathspec message, when it lies outside `.papyrus/` |
| Add.AddSucceedsIff | src/sub_commands/add.rs:8-109 | `add` succeeds exactly when staging does, and then returns the empty string; an unparsable index fails with the parse error and changes nothing |
| Add.StagedEntries | src/sub_commands/add.rs:23-101 | the staged entries are the kept old entries in their order, then one new entry per input path |
| Add.AddWritesIndex | src/sub_commands/add.rs:103-109 | on success the index file is overwritten with the serialization of the staged entries sorted by path, a permutation of them |
| Add.AddFailureKeepsIndex | src/sub_commands/add.rs:13-40 | on failure an existing index keeps its bytes and an absent one has been created empty |
| Add.StartStateKeepsFiles | src/sub_commands/add.rs:13-15 | creating the empty index does not affect which inputs exist |
| Add.AddMissingFile | src/sub_commands/add.rs:35-40 | an input that does not exist, after inputs that are files, makes `add` fail with the pathspec message naming it, when it lies outside `.papyrus/` |
| Add.AddSucceeds | src/sub_commands/add.rs:21-109 | when the old index parses and every input path is a file, `add` returns the empty string |
| Add.AddKeepsOtherFiles | src/sub_commands/add.rs:13-107 | `add`, whether it succeeds or fails, leaves every existing file other than the index with its bytes |
| Add.KeptThenNewDistinct | src/sub_commands/add.rs:23-101 | kept entries with distinct paths, followed by entries for distinct input paths, have distinct paths |
| Add.SortedStagedDistinct | src/sub_commands/add.rs:100-103 | the sorted staged entries have distinct paths when the old ones did and the inputs are distinct |
| Add.AddKeepsPathsDistinct | src/sub_commands/add.rs:23-103 | after `add` with distinct inputs over an index with distinct paths, no two entries share a path |
| Add.OldEntriesWithoutNul | src/sub_commands/add.rs:21 | entries read from the index have no NUL in their paths |
| Add.SortedStagedReadsBack | src/sub_commands/add.rs:103-105 | the sorted staged entries serialize to bytes that parse back to them |
| Add.AddIndexReadsBack | src/sub_commands/add.rs:105-107 | the index `add` writes parses back to the sorted staged entries, when no input path holds a NUL and there are fewer than 2^32 entries |

These definitions carry no contract of their own; the members named after
each state their properties.

- FakeFs.FsState.PathExists (src/fs/fake.rs:137-148): the `ensures` of
  `FakeFs.FakeFs.CreateDirectory`, `RemoveDirectory`, `CreateFile` and
  `WriteFile`, and `FakeFs.RelativeReadFails`.
- FakeFs.FsState.GetFileContentsAsBytes and
  FakeFs.FakeFs.GetFileContentsAsBytes (src/fs/fake.rs:162-170): the
  `ensures` of `FakeFs.FakeFs.CreateFile` and `WriteFile`, and
  `FakeFs.RelativeReadFails`.
- Index.ComparePaths and Index.Cmp (src/index/mod.rs:29-33):
  `Index.ComparePathsEqual`, `ComparePathsFlip`, `PathLeTransitive`,
  `PathLeTotal`.
- Index.DecodeEntries (src/index/mod.rs:75-111): `Index.DecodeEntriesBounds`,
  `DecodeEncodeEntries`, `ReadEntries`.
- Index.StageColumns, Index.EntryLine and Index.FormatAsWritten
  (src/index/mod.rs:116-145): `Index.WriteStageColumns`,
  `FormatIndexEntries`, `FormatAsWrittenAgrees`, `FormatAsWrittenPrefix`,
  `EntryLineWithoutNewline`, `FormatAsWrittenDropsNewline`.
- HashObject.Canonical (src/sub_commands/hash_object.rs:46-59):
  `HashObject.CanonicalLayout`, `CatFile.CanonicalInjective`.
- HashObject.Store and HashObject.StoreObject
  (src/sub_commands/hash_object.rs:63-86): `HashObject.StoreChanges`,
  `StoreObjectChanges`, `StoreObjectStores`, `StoreObjectIdempotent`.
- CatFile.Matches (src/sub_commands/cat_file.rs:23-30):
  `CatFile.LookupOfPrefix`, `MatchesAfterAdding`, `MatchesAfterStore`,
  `CatFileErrors`.
- Add.NewEntry, Add.StageFiles, Add.Staged and Add.Add
  (src/sub_commands/add.rs:8-110): `Add.NewEntryFields`, `StageFilesState`,
  `StageFilesEntries`, `StageFilesMissing`, `StageFilesSucceeds`,
  `StagedEntries`, `AddSucceedsIff`, `AddSucceeds`, `AddKeepsOtherFiles`,
  `AddWritesIndex`, `AddFailureKeepsIndex`,
  `AddKeepsPathsDistinct`, `AddIndexReadsBack`.

The lemmas `CatFile.OnlyElement`, `CatFile.MessagesDiffer`,
`Index.WithPathNone`, `Index.WithPathAt`, `Index.InsertByPathShape`,
`Add.StagedUnfold`, `Add.StageFilesUnfold`, `Add.StageFilesKeepsBytes`,
`Add.KeepsBytesTransitive`, `Add.StoreObjectKeepsDirectory` and
`Add.Regroup` are proof helpers.

## Left out

- SHA-1 and zlib are parameters. Their internals are not modelled, and
  neither are the digest and compression test vectors
  (src/sub_commands/hash_object.rs:15-38). The model relies only on a
  20-byte digest and `decompress(compress(x)) == x`. Corrupt compressed
  data, the only way decompression can fail, is not modelled.
- Paths are plain strings. `PathBuf` normalisation is not modelled:
  repeated or trailing separators and `set_file_name` are treated as
  string operations. The current directory has no trailing `/`.
- OS metadata and permissions become a `Metadata` function given as a
  parameter. The fake's constant values and its `metadata` call, which
  always succeeds, are not modelled (src/fs/fake.rs:12-86, 189-192).
- The UTF-8 validity panics are not modelled. They sit in `from_utf8` in
  the filter of `add` and in `get_file_contents`, and in the
  `read_to_string` of `cat-file`. The model reads files and objects as
  bytes.
- Index.FormatIndexEntries: does not model the panic of `from_utf8(..)
  .unwrap()` on a path that is not valid UTF-8 (src/index/mod.rs:134).
  `FormatIndexEntries` and `EntryLine` build the listing as bytes and copy
  such a path's bytes unchanged where the code stops.
- `CannotOpen` writes the path between quotes, as `{:?}` does. Escaping
  of special characters is not modelled.
- CatFile.TrimEnd: trims ASCII whitespace only; Unicode whitespace beyond
  ASCII, which `trim_end` also removes, is not modelled.
- CatFile.Readable: asks that the name's first two characters be ASCII,
  because the source slices its bytes at 2. This excludes some names the
  code accepts: when the first character takes two bytes, byte 2 is a
  character boundary, and the code looks the name up and answers
  "Not a valid object name". Only a name whose byte 2 falls inside a
  character makes the code panic.
- `add` passes a path to `hash_object::execute`, whose definition takes
  the contents. `add` is modelled as hashing the bytes that
  `get_file_contents` reads for that path.
- `entries.sort()` sorts the vector in place. It is modelled by the pure,
  stable insertion sort `SortByPath`, which `Add.Execute` applies to the
  sequence.
- Add.AddMissingFile: requires the missing path to lie outside
  `.papyrus/`, because an earlier blob write could create a path there.
  It also requires every earlier input to be a file. An earlier input
  that is only a directory passes `path_exists` but fails the read with
  the cannot-open message, so the pathspec message is never reached.
  `Add.AddSucceeds` asks that every input be a file for the same reason.
- Add.StageFilesEntries: states only the path of each new entry. The other
  fields are stated by `NewEntryFields` and by `StageFiles` itself.
- Index.ParseSerialize: requires fewer than 2^32 entries. Beyond that the
  header holds the count modulo 2^32 and the parse reads fewer entries.
- Flags are not capped at 0xFFF, so a path of 4096 bytes or more sets
  stage bits, as the code does. `cat-file` accepts only `-t` and `blob`,
  as the code does.
- `add` is not atomic. Blobs stored, and an index created empty, before a
  failing input stay in place, as the code does.
- `src/fs/real.rs`, `src/fs/mod.rs`, `src/sub_commands/write_tree.rs`,
  `src/sub_commands/init.rs`, `src/sub_commands/ls_files.rs`,
  `src/sub_commands/mod.rs`, `src/sub_commands.rs` and `src/main.rs` are
  not part of this model. They are OS I/O, command-line plumbing and stub
  commands.

## Findings

| source | as written | input that shows it | evidently intended | confidence | as-written member | corrected member |
|---|---|---|---|---|---|---|
| src/index/mod.rs:137-141 | a newline follows an entry only when the entry is not equal, field for field, to the last entry | two identical entries `[e, e]`: the listing is the path twice with no newline between | entry lines joined by newlines, with no trailing newline | not executed | Index.FormatAsWrittenDropsNewline | Index.JoinLinesNewlines |
