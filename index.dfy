/** The staging index: a binary manifest in the layout of Git's index,
    version 2. A 12-byte header (`DIRC`, version 2, big-endian entry count),
    then every entry as 62 bytes of fixed fields, the path and 1 to 8 NUL
    bytes up to a multiple of 8, then the SHA-1 of everything before it. */
module Index {
  import opened Bytes
  import opened Codecs

  datatype IndexEntry = IndexEntry(
    ctimeS: B4, ctimeN: B4, mtimeS: B4, mtimeN: B4,
    dev: B4, ino: B4, mode: B4, uid: B4, gid: B4, size: B4,
    sha1: B20, flags: B2, path: Bytes)

  // ---------------------------------------------------------------------
  // Ordering: entries compare by their path bytes only

  datatype Ordering = Less | Equal | Greater

  /** Lexicographic comparison of byte strings (`Vec<u8>::cmp`); a proper
      prefix comes first. */
  function ComparePaths(a: Bytes, b: Bytes): Ordering {
    if a == [] then (if b == [] then Equal else Less)
    else if b == [] then Greater
    else if a[0] < b[0] then Less
    else if a[0] > b[0] then Greater
    else ComparePaths(a[1..], b[1..])
  }

  /** `Ord for IndexEntry`. */
  function Cmp(a: IndexEntry, b: IndexEntry): Ordering {
    ComparePaths(a.path, b.path)
  }

  predicate PathLe(a: Bytes, b: Bytes) {
    ComparePaths(a, b) != Greater
  }

  lemma {:induction false} ComparePathsEqual(a: Bytes, b: Bytes)
    ensures ComparePaths(a, b) == Equal <==> a == b
  {
    if a != [] && b != [] && a[0] == b[0] {
      ComparePathsEqual(a[1..], b[1..]);
      assert a == [a[0]] + a[1..] && b == [b[0]] + b[1..];
    }
  }

  lemma {:induction false} ComparePathsFlip(a: Bytes, b: Bytes)
    ensures ComparePaths(a, b) == Less <==> ComparePaths(b, a) == Greater
    ensures ComparePaths(a, b) == Equal <==> ComparePaths(b, a) == Equal
  {
    if a != [] && b != [] && a[0] == b[0] {
      ComparePathsFlip(a[1..], b[1..]);
    }
  }

  lemma {:induction false} PathLeTransitive(a: Bytes, b: Bytes, c: Bytes)
    requires PathLe(a, b) && PathLe(b, c)
    ensures PathLe(a, c)
  {
    if a != [] && b != [] && c != [] && a[0] == b[0] == c[0] {
      PathLeTransitive(a[1..], b[1..], c[1..]);
    }
  }

  /** The comparison is a total order on paths. */
  lemma PathLeTotal(a: Bytes, b: Bytes)
    ensures PathLe(a, b) || PathLe(b, a)
    ensures PathLe(a, b) && PathLe(b, a) ==> a == b
  {
    ComparePathsFlip(a, b);
    ComparePathsEqual(a, b);
  }

  predicate SortedByPath(es: seq<IndexEntry>) {
    forall i, j :: 0 <= i < j < |es| ==> PathLe(es[i].path, es[j].path)
  }

  predicate DistinctPaths(es: seq<IndexEntry>) {
    forall i, j :: 0 <= i < j < |es| ==> es[i].path != es[j].path
  }

  /** The first position whose entry sorts strictly after `x`. */
  function InsertionPoint(s: seq<IndexEntry>, x: IndexEntry): (k: nat)
    ensures k <= |s|
    ensures forall i :: 0 <= i < k ==> PathLe(s[i].path, x.path)
    ensures k < |s| ==> !PathLe(s[k].path, x.path)
  {
    if s == [] || !PathLe(s[0].path, x.path) then 0 else 1 + InsertionPoint(s[1..], x)
  }

  /** Insert `x` after every entry that does not sort after it, so that
      entries with equal paths keep their relative order. */
  function InsertByPath(s: seq<IndexEntry>, x: IndexEntry): (r: seq<IndexEntry>)
    ensures multiset(r) == multiset(s) + multiset{x}
    ensures SortedByPath(s) ==> SortedByPath(r)
  {
    var k := InsertionPoint(s, x);
    assert s[..k] + s[k..] == s;
    if SortedByPath(s) then
      InsertionKeepsOrder(s, x, k);
      s[..k] + [x] + s[k..]
    else
      s[..k] + [x] + s[k..]
  }

  lemma InsertionKeepsOrder(s: seq<IndexEntry>, x: IndexEntry, k: nat)
    requires SortedByPath(s) && k == InsertionPoint(s, x)
    ensures SortedByPath(s[..k] + [x] + s[k..])
  {
    var r := s[..k] + [x] + s[k..];
    forall i, j | 0 <= i < j < |r| ensures PathLe(r[i].path, r[j].path) {
      if j < k || i > k {
      } else if i == k {
        // x sorts before s[k], and s[k] sorts no later than r[j]
        PathLeTotal(s[k].path, x.path);
        if j > k + 1 {
          PathLeTransitive(x.path, s[k].path, r[j].path);
        }
      } else if j == k {
      } else {
        // i < k < j: through x
        PathLeTotal(s[k].path, x.path);
        if j > k + 1 {
          PathLeTransitive(x.path, s[k].path, r[j].path);
        }
        PathLeTransitive(r[i].path, x.path, r[j].path);
      }
    }
  }

  /** `entries.sort()`: a permutation of the entries ordered by path. */
  function SortByPath(es: seq<IndexEntry>): (r: seq<IndexEntry>)
    ensures multiset(r) == multiset(es)
    ensures SortedByPath(r)
  {
    if es == [] then []
    else
      assert es == es[..|es| - 1] + [es[|es| - 1]];
      InsertByPath(SortByPath(es[..|es| - 1]), es[|es| - 1])
  }

  /** With distinct paths, no entry occurs twice. */
  lemma {:induction false} DistinctPathsOccurOnce(a: seq<IndexEntry>, x: IndexEntry)
    requires DistinctPaths(a)
    ensures multiset(a)[x] <= 1
  {
    if a != [] {
      assert a == [a[0]] + a[1..];
      DistinctPathsOccurOnce(a[1..], x);
      if x == a[0] {
        assert x !in a[1..] by {
          forall k | 0 <= k < |a[1..]|
            ensures a[1..][k] != x
          {
            assert a[1..][k] == a[k + 1];
          }
        }
      }
    }
  }

  /** Reordering keeps paths distinct. */
  lemma DistinctPathsPermutation(a: seq<IndexEntry>, b: seq<IndexEntry>)
    requires multiset(a) == multiset(b) && DistinctPaths(a)
    ensures DistinctPaths(b)
  {
    forall i, j | 0 <= i < j < |b| ensures b[i].path != b[j].path {
      if b[i] == b[j] {
        // the same entry twice in `b` would be twice in `a`
        assert b == b[..j] + b[j..];
        assert b[i] in b[..j] && b[j] in b[j..];
        assert multiset(b)[b[i]] >= 2;
        DistinctPathsOccurOnce(a, b[i]);
      } else {
        assert b[i] in multiset(a) && b[j] in multiset(a);
        var i' :| 0 <= i' < |a| && a[i'] == b[i];
        var j' :| 0 <= j' < |a| && a[j'] == b[j];
        assert i' != j';
      }
    }
  }

  /** The entries whose path is `p`, in their order. */
  function WithPath(es: seq<IndexEntry>, p: Bytes): seq<IndexEntry> {
    if es == [] then []
    else (if es[0].path == p then [es[0]] else []) + WithPath(es[1..], p)
  }

  lemma {:induction false} WithPathAppend(a: seq<IndexEntry>, b: seq<IndexEntry>, p: Bytes)
    ensures WithPath(a + b, p) == WithPath(a, p) + WithPath(b, p)
  {
    if a != [] {
      var head := if a[0].path == p then [a[0]] else [];
      assert (a + b)[0] == a[0] && (a + b)[1..] == a[1..] + b;
      assert WithPath(a + b, p) == head + WithPath(a[1..] + b, p);
      WithPathAppend(a[1..], b, p);
      assert WithPath(a, p) == head + WithPath(a[1..], p);
    } else {
      assert a + b == b;
    }
  }

  lemma {:induction false} WithPathNone(s: seq<IndexEntry>, p: Bytes)
    requires forall i :: 0 <= i < |s| ==> s[i].path != p
    ensures WithPath(s, p) == []
  {
    if s != [] {
      assert s[0].path != p;
      WithPathNone(s[1..], p);
    }
  }

  /** Inserting into a sorted sequence puts the new entry after every entry
      with the same path. */
  lemma InsertByPathStable(s: seq<IndexEntry>, x: IndexEntry, p: Bytes)
    requires SortedByPath(s)
    ensures WithPath(InsertByPath(s, x), p) == WithPath(s, p) + (if x.path == p then [x] else [])
  {
    var k := InsertionPoint(s, x);
    AfterInsertionPoint(s, x, k);
    WithPathAt(s, x, k, p);
  }

  /** No entry from the insertion point on has the inserted entry's path. */
  lemma AfterInsertionPoint(s: seq<IndexEntry>, x: IndexEntry, k: nat)
    requires SortedByPath(s) && k == InsertionPoint(s, x)
    ensures forall j :: k <= j < |s| ==> s[j].path != x.path
  {
    forall j | k <= j < |s| ensures s[j].path != x.path {
      if j == k {
        ComparePathsEqual(x.path, x.path);
      } else {
        assert PathLe(s[k].path, s[j].path);
      }
    }
  }

  /** Placing an entry at position `k`, ahead of entries with other paths,
      places it last among the entries with its path. */
  lemma WithPathAt(s: seq<IndexEntry>, x: IndexEntry, k: nat, p: Bytes)
    requires k == InsertionPoint(s, x)
    requires forall j :: k <= j < |s| ==> s[j].path != x.path
    ensures WithPath(InsertByPath(s, x), p) == WithPath(s, p) + (if x.path == p then [x] else [])
  {
    InsertByPathShape(s, x);
    assert s == s[..k] + s[k..];
    WithPathAround(s[..k], x, s[k..], p);
  }

  /** The insertion places `x` at the insertion point. */
  lemma InsertByPathShape(s: seq<IndexEntry>, x: IndexEntry)
    ensures var k := InsertionPoint(s, x); InsertByPath(s, x) == s[..k] + [x] + s[k..]
  {
  }

  /** An entry placed before every later entry with its path. */
  lemma WithPathAround(before: seq<IndexEntry>, x: IndexEntry, after: seq<IndexEntry>, p: Bytes)
    requires forall j :: 0 <= j < |after| ==> after[j].path != x.path
    ensures WithPath(before + [x] + after, p)
      == WithPath(before + after, p) + (if x.path == p then [x] else [])
  {
    var wb, wa := WithPath(before, p), WithPath(after, p);
    var wx := if x.path == p then [x] else [];
    assert WithPath(before + [x] + after, p) == wb + wx + wa by {
      assert WithPath([x], p) == wx by {
        assert [x][1..] == [];
      }
      WithPathAppend(before + [x], after, p);
      WithPathAppend(before, [x], p);
    }
    assert WithPath(before + after, p) == wb + wa by {
      WithPathAppend(before, after, p);
    }
    if x.path == p {
      assert wa == [] by {
        WithPathNone(after, p);
      }
      assert wb + wx + wa == wb + wx;
      assert wb + wa == wb;
    } else {
      assert wb + wx + wa == wb + wa;
    }
  }

  /** The sort is stable: entries with equal paths keep their relative
      order. */
  lemma {:induction false} SortByPathStable(es: seq<IndexEntry>, p: Bytes)
    ensures WithPath(SortByPath(es), p) == WithPath(es, p)
  {
    if es != [] {
      var init, x := es[..|es| - 1], es[|es| - 1];
      assert es == init + [x];
      SortByPathStable(init, p);
      InsertByPathStable(SortByPath(init), x, p);
      WithPathAppend(init, [x], p);
    }
  }

  // ---------------------------------------------------------------------
  // Serialization (`parse_into_file`)

  const Signature: Bytes := [0x44, 0x49, 0x52, 0x43]
  const Version: Bytes := [0, 0, 0, 2]
  const FieldsLength: nat := 62

  /** `((62 + len + 8) / 8) * 8`, which is `62 + len + 8 - (62 + len) % 8`: the fields, the path and at least one NUL,
      rounded up to a multiple of 8. */
  function EntryLength(pathLength: nat): (n: nat)
    ensures n % 8 == 0
    ensures FieldsLength + pathLength + 1 <= n <= FieldsLength + pathLength + 8
  {
    var n := FieldsLength + pathLength;
    n + 8 - n % 8
  }

  /** The 62 bytes of fixed-width fields. */
  function Fields(e: IndexEntry): (r: Bytes)
    ensures |r| == FieldsLength
  {
    e.ctimeS + e.ctimeN + e.mtimeS + e.mtimeN + e.dev + e.ino + e.mode + e.uid + e.gid + e.size
    + e.sha1 + e.flags
  }

  /** One entry: fields, path, then NUL padding. */
  function EncodeEntry(e: IndexEntry): (r: Bytes)
    ensures |r| == EntryLength(|e.path|)
  {
    Fields(e) + e.path + Zeros(EntryLength(|e.path|) - FieldsLength - |e.path|)
  }

  /** An encoded entry is a multiple of 8 bytes long: its fields, its path,
      then 1 to 8 NUL bytes. */
  lemma EncodeEntryLayout(e: IndexEntry)
    ensures var r := EncodeEntry(e);
      |r| % 8 == 0 &&
      r[..FieldsLength] == Fields(e) &&
      r[FieldsLength..FieldsLength + |e.path|] == e.path &&
      1 <= |r| - FieldsLength - |e.path| <= 8 &&
      forall i :: FieldsLength + |e.path| <= i < |r| ==> r[i] == Nul
  {
    var r := EncodeEntry(e);
    assert r[..FieldsLength] == Fields(e);
    assert r[FieldsLength..FieldsLength + |e.path|] == e.path;
  }

  function EncodeEntries(es: seq<IndexEntry>): (r: Bytes)
    ensures |r| == TotalLength(es)
  {
    if es == [] then [] else EncodeEntries(es[..|es| - 1]) + EncodeEntry(es[|es| - 1])
  }

  /** The sum of the entry lengths. */
  function TotalLength(es: seq<IndexEntry>): nat {
    if es == [] then 0 else TotalLength(es[..|es| - 1]) + EntryLength(|es[|es| - 1].path|)
  }

  function Header(count: nat): (r: Bytes)
    ensures |r| == 12
  {
    Signature + Version + Be32(count)
  }

  /** The whole index file: header, entries, and the SHA-1 of both. */
  function Serialize(c: Codecs, es: seq<IndexEntry>): (r: Bytes)
    ensures |r| == 12 + TotalLength(es) + 20
  {
    var body := Header(|es|) + EncodeEntries(es);
    body + c.sha1(body)
  }

  /** The serialized index starts with `DIRC`, version 2 and the entry count
      modulo 2^32, holds the encoded entries, and ends with the SHA-1 of all
      that precedes it. */
  lemma SerializeLayout(c: Codecs, es: seq<IndexEntry>)
    ensures var r := Serialize(c, es);
      r[..4] == Signature && r[4..8] == Version &&
      Be32Value(r[8..12]) == |es| % 0x1_0000_0000 &&
      r[12..|r| - 20] == EncodeEntries(es) &&
      r[|r| - 20..] == c.sha1(r[..|r| - 20])
  {
    var r := Serialize(c, es);
    var body := Header(|es|) + EncodeEntries(es);
    assert r[..|r| - 20] == body;
    assert r[8..12] == Be32(|es|);
  }

  /** The body of the loop of `parse_into_file`: the bytes of one entry,
      with its NUL padding pushed one byte at a time. */
  method EntryBytes(entry: IndexEntry) returns (entryBytes: Bytes)
    ensures entryBytes == EncodeEntry(entry)
  {
    entryBytes := entry.ctimeS + entry.ctimeN + entry.mtimeS + entry.mtimeN + entry.dev
      + entry.ino + entry.mode + entry.uid + entry.gid + entry.size;
    entryBytes := entryBytes + entry.sha1;
    entryBytes := entryBytes + entry.flags;
    assert entryBytes == Fields(entry);
    entryBytes := entryBytes + entry.path;
    assert entryBytes == Fields(entry) + entry.path + Zeros(0);
    var length := EntryLength(|entry.path|);
    var j := 0;
    while j < length - FieldsLength - |entry.path|
      invariant 0 <= j <= length - FieldsLength - |entry.path|
      invariant entryBytes == Fields(entry) + entry.path + Zeros(j)
    {
      assert Zeros(j + 1) == Zeros(j) + [Nul];
      entryBytes := entryBytes + [Nul];
      j := j + 1;
    }
    assert entryBytes == EncodeEntry(entry);
  }

  /** `parse_into_file`. */
  method ParseIntoFile(c: Codecs, entries: seq<IndexEntry>) returns (indexFileBytes: Bytes)
    ensures indexFileBytes == Serialize(c, entries)
  {
    var header := Signature + Version + Be32(|entries|);
    indexFileBytes := header;
    var k := 0;
    while k < |entries|
      invariant 0 <= k <= |entries|
      invariant indexFileBytes == header + EncodeEntries(entries[..k])
    {
      var entry := entries[k];
      var entryBytes := EntryBytes(entry);
      assert entries[..k + 1][..k] == entries[..k];
      indexFileBytes := indexFileBytes + entryBytes;
      k := k + 1;
    }
    assert entries[..k] == entries;
    assert indexFileBytes == Header(|entries|) + EncodeEntries(entries);
    indexFileBytes := indexFileBytes + c.sha1(indexFileBytes);
  }

  // ---------------------------------------------------------------------
  // Parsing (`parse_from_file`)

  const BadSignature: string := "error: bad signature\nfatal: index file corrupt"
  const BadVersion: string := "error: bad version\nfatal: index file corrupt"
  const BadChecksum: string := "error: bad index file sha1 signature\nfatal: index file corrupt"

  /** The first NUL at or after `from`. */
  function FindNul(data: Bytes, from: nat): (k: nat)
    requires from <= |data| && Nul in data[from..]
    ensures from <= k < |data| && data[k] == Nul
    ensures forall j :: from <= j < k ==> data[j] != Nul
    decreases |data| - from
  {
    if data[from] == Nul then from
    else
      assert data[from..] == [data[from]] + data[from + 1..];
      FindNul(data, from + 1)
  }

  /** The entry read from 62 bytes of fields and a path. */
  function DecodeEntry(fields: Bytes, path: Bytes): IndexEntry
    requires |fields| == FieldsLength
  {
    IndexEntry(
      fields[..4], fields[4..8], fields[8..12], fields[12..16], fields[16..20],
      fields[20..24], fields[24..28], fields[28..32], fields[32..36], fields[36..40],
      fields[40..60], fields[60..62], path)
  }

  /** Where the entry after the one at offset `i` starts: the path runs from
      `i + 62` to the first NUL, and the entry is padded to a multiple of 8. */
  function NextEntry(data: Bytes, i: nat): (next: nat)
    requires i + FieldsLength < |data| && Nul in data[i + FieldsLength..]
    ensures next > i + FieldsLength
  {
    i + EntryLength(FindNul(data, i + FieldsLength) - (i + FieldsLength))
  }

  /** Every entry the parse loop reaches, from offset `i` on, has a NUL after
      its fields; without one the path search has nothing to find. */
  predicate EntriesTerminated(data: Bytes, i: nat, remaining: nat)
    decreases |data| - i
  {
    i + FieldsLength < |data| && remaining > 0 ==>
      Nul in data[i + FieldsLength..] &&
      EntriesTerminated(data, NextEntry(data, i), remaining - 1)
  }

  /** The entries `decoded` so far followed by those read from offset `i`
      on: at most `remaining` more, read while more than 62 bytes are left. */
  function DecodeEntries(data: Bytes, i: nat, remaining: nat, decoded: seq<IndexEntry>): seq<IndexEntry>
    requires EntriesTerminated(data, i, remaining)
    decreases |data| - i
  {
    if i + FieldsLength < |data| && remaining > 0 then
      var pathEnd := FindNul(data, i + FieldsLength);
      DecodeEntries(data, NextEntry(data, i), remaining - 1,
        decoded + [DecodeEntry(data[i..i + FieldsLength], data[i + FieldsLength..pathEnd])])
    else decoded
  }

  predicate PathsWithoutNul(es: seq<IndexEntry>) {
    forall i :: 0 <= i < |es| ==> Nul !in es[i].path
  }

  /** Decoding keeps what was decoded before, adds at most `remaining`
      entries, and every path it reads stops short of a NUL. */
  lemma {:induction false} DecodeEntriesBounds(data: Bytes, i: nat, remaining: nat, decoded: seq<IndexEntry>)
    requires EntriesTerminated(data, i, remaining)
    ensures var r := DecodeEntries(data, i, remaining, decoded);
      |decoded| <= |r| <= |decoded| + remaining && r[..|decoded|] == decoded &&
      (PathsWithoutNul(decoded) ==> PathsWithoutNul(r))
    decreases |data| - i
  {
    if i + FieldsLength < |data| && remaining > 0 {
      var pathEnd := FindNul(data, i + FieldsLength);
      var path := data[i + FieldsLength..pathEnd];
      var entry := DecodeEntry(data[i..i + FieldsLength], path);
      assert Nul !in path by {
        forall j | 0 <= j < |path| ensures path[j] != Nul {
          assert path[j] == data[i + FieldsLength + j];
        }
      }
      DecodeEntriesBounds(data, NextEntry(data, i), remaining - 1, decoded + [entry]);
      assert (decoded + [entry])[..|decoded|] == decoded;
    }
  }

  /** What the parse needs of its input so that neither its slices of the
      header, the checksum and the entry data (src/index/mod.rs:37, 54, 69)
      nor its search for each path's NUL can fail. */
  predicate ParseDefined(c: Codecs, content: Bytes) {
    |content| >= 12 &&
    (content[..4] == Signature && content[4..8] == Version ==>
      |content| >= 20 &&
      (c.sha1(content[..|content| - 20]) == content[|content| - 20..] ==>
        |content| >= 32 &&
        EntriesTerminated(content[12..|content| - 20], 0, Be32Value(content[8..12]))))
  }

  /** The parse: signature, then version, then checksum, then entries. */
  function Parse(c: Codecs, content: Bytes): (r: Result<seq<IndexEntry>, string>)
    requires ParseDefined(c, content)
    ensures r.Ok? <==>
      content[..4] == Signature && content[4..8] == Version &&
      c.sha1(content[..|content| - 20]) == content[|content| - 20..]
    ensures r.Ok? ==> |r.value| <= Be32Value(content[8..12]) && PathsWithoutNul(r.value)
    ensures r.Err? ==> r.error in {BadSignature, BadVersion, BadChecksum}
  {
    if content[..4] != Signature then Err(BadSignature)
    else if content[4..8] != Version then Err(BadVersion)
    else
      var n := |content| - 20;
      if c.sha1(content[..n]) != content[n..] then Err(BadChecksum)
      else
        DecodeEntriesBounds(content[12..n], 0, Be32Value(content[8..12]), []);
        Ok(DecodeEntries(content[12..n], 0, Be32Value(content[8..12]), []))
  }

  /** The entry loop of `parse_from_file`: at most `quantity` entries, read
      while more than 62 bytes of entry data are left. */
  method ReadEntries(entryData: Bytes, quantity: nat) returns (entries: seq<IndexEntry>)
    requires EntriesTerminated(entryData, 0, quantity)
    ensures entries == DecodeEntries(entryData, 0, quantity, [])
  {
    entries := [];
    var i: nat := 0;
    var count: nat := 1;
    while i + FieldsLength < |entryData| && count <= quantity
      invariant 1 <= count <= quantity + 1
      invariant EntriesTerminated(entryData, i, quantity + 1 - count)
      invariant DecodeEntries(entryData, i, quantity + 1 - count, entries)
        == DecodeEntries(entryData, 0, quantity, [])
      decreases |entryData| - i
    {
      count := count + 1;
      var entry, next := ReadEntry(entryData, i);
      entries := entries + [entry];
      i := next;
    }
  }

  /** One turn of the entry loop: the fields, then the path bytes up to the
      first NUL, pushed one at a time; the next entry starts at the
      following 8-byte boundary. */
  method ReadEntry(entryData: Bytes, i: nat) returns (entry: IndexEntry, next: nat)
    requires i + FieldsLength < |entryData| && Nul in entryData[i + FieldsLength..]
    ensures entry == DecodeEntry(entryData[i..i + FieldsLength],
      entryData[i + FieldsLength..FindNul(entryData, i + FieldsLength)])
    ensures next == NextEntry(entryData, i)
  {
    var fieldsEnd := i + FieldsLength;
    var fields := entryData[i..fieldsEnd];
    var nulIndex := FindNul(entryData, fieldsEnd);
    var path := entryData[fieldsEnd..nulIndex];
    var entryPath: Bytes := [];
    var j := 0;
    while j < |path|
      invariant 0 <= j <= |path| && entryPath == path[..j]
    {
      entryPath := entryPath + [path[j]];
      j := j + 1;
    }
    entry := DecodeEntry(fields, entryPath);
    next := i + EntryLength(|entryPath|);
  }

  /** `parse_from_file`. */
  method ParseFromFile(c: Codecs, indexContent: Bytes) returns (r: Result<seq<IndexEntry>, string>)
    requires ParseDefined(c, indexContent)
    ensures r == Parse(c, indexContent)
  {
    var header := indexContent[..12];
    var signature := header[..4];
    assert signature == indexContent[..4];
    if signature != Signature {
      return Err(BadSignature);
    }
    var version := header[4..8];
    assert version == indexContent[4..8];
    if version != Version {
      return Err(BadVersion);
    }
    var numberOfEntries := header[8..12];
    assert numberOfEntries == indexContent[8..12];
    var indexOfChecksum := |indexContent| - 20;
    var sha1Bytes := c.sha1(indexContent[..indexOfChecksum]);
    var checksum := indexContent[indexOfChecksum..];
    if sha1Bytes != checksum {
      return Err(BadChecksum);
    }
    var entryData := indexContent[12..indexOfChecksum];
    var quantity := Be32Value(numberOfEntries);
    assert EntriesTerminated(entryData, 0, quantity);
    var entries := ReadEntries(entryData, quantity);
    return Ok(entries);
  }

  // ---------------------------------------------------------------------
  // Round trip

  lemma DecodeEntryFields(e: IndexEntry)
    ensures DecodeEntry(Fields(e), e.path) == e
  {
    var f := Fields(e);
    FieldAt(f, 0, e.ctimeS);
    FieldAt(f, 4, e.ctimeN);
    FieldAt(f, 8, e.mtimeS);
    FieldAt(f, 12, e.mtimeN);
    FieldAt(f, 16, e.dev);
    FieldAt(f, 20, e.ino);
    FieldAt(f, 24, e.mode);
    FieldAt(f, 28, e.uid);
    FieldAt(f, 32, e.gid);
    FieldAt(f, 36, e.size);
    FieldAt(f, 40, e.sha1);
    FieldAt(f, 60, e.flags);
  }

  /** A field read back at its offset, byte by byte. */
  lemma FieldAt(f: Bytes, offset: nat, field: Bytes)
    requires offset + |field| <= |f|
    requires forall i :: 0 <= i < |field| ==> f[offset + i] == field[i]
    ensures f[offset..offset + |field|] == field
  {
  }

  /** Wherever an encoded entry sits in the data, the path search stops
      right after its path, and the next entry starts right after its
      padding. */
  lemma EncodedEntryBounds(data: Bytes, start: nat, e: IndexEntry)
    requires Nul !in e.path
    requires start + |EncodeEntry(e)| <= |data|
    requires data[start..start + |EncodeEntry(e)|] == EncodeEntry(e)
    ensures start + FieldsLength < |data| && Nul in data[start + FieldsLength..]
    ensures FindNul(data, start + FieldsLength) == start + FieldsLength + |e.path|
    ensures NextEntry(data, start) == start + |EncodeEntry(e)|
    ensures data[start..start + FieldsLength] == Fields(e)
    ensures data[start + FieldsLength..start + FieldsLength + |e.path|] == e.path
  {
    var r := EncodeEntry(e);
    var m := start + FieldsLength;
    var end := m + |e.path|;
    EncodeEntryLayout(e);
    assert data[end] == r[FieldsLength + |e.path|];
    assert data[m..][|e.path|] == Nul;
    SliceOfWindow(data, start, r, 0, FieldsLength);
    SliceOfWindow(data, start, r, FieldsLength, FieldsLength + |e.path|);
    forall j | m <= j < end
      ensures data[j] != Nul
    {
      assert data[j] == e.path[j - m];
    }
  }

  /** A slice of a window of the data is a slice of the data. */
  lemma SliceOfWindow(data: Bytes, start: nat, w: Bytes, lo: nat, hi: nat)
    requires start + |w| <= |data| && data[start..start + |w|] == w
    requires lo <= hi <= |w|
    ensures data[start + lo..start + hi] == w[lo..hi]
  {
    forall k | 0 <= k < hi - lo
      ensures data[start + lo..start + hi][k] == w[lo..hi][k]
    {
      assert data[start + lo + k] == data[start..start + |w|][lo + k];
    }
  }

  /** An encoded entry, wherever it sits, decodes to itself, and decoding
      goes on at `end`, right after its padding. */
  lemma DecodeEncodedEntry(data: Bytes, start: nat, end: nat, e: IndexEntry,
                           remaining: nat, later: nat, decoded: seq<IndexEntry>, extended: seq<IndexEntry>)
    requires Nul !in e.path && end == start + |EncodeEntry(e)| <= |data|
    requires data[start..end] == EncodeEntry(e)
    requires remaining == later + 1 && extended == decoded + [e]
    requires EntriesTerminated(data, end, later)
    ensures EntriesTerminated(data, start, remaining)
    ensures DecodeEntries(data, start, remaining, decoded) == DecodeEntries(data, end, later, extended)
  {
    EncodedEntryBounds(data, start, e);
    DecodeEntryFields(e);
    var fieldsEnd := start + FieldsLength;
    var nul := FindNul(data, fieldsEnd);
    assert DecodeEntry(data[start..fieldsEnd], data[fieldsEnd..nul]) == e;
    assert NextEntry(data, start) == end;
  }

  /** Decoding data that holds the encoded entries `es` between `start`
      and `end` yields those entries and goes on at `end`. */
  lemma {:induction false} DecodeEncodedAt(data: Bytes, start: nat, end: nat, es: seq<IndexEntry>,
                                           remaining: nat, later: nat, decoded: seq<IndexEntry>, extended: seq<IndexEntry>)
    requires PathsWithoutNul(es) && remaining == later + |es| && extended == decoded + es
    requires end == start + |EncodeEntries(es)| <= |data|
    requires data[start..end] == EncodeEntries(es)
    requires EntriesTerminated(data, end, later)
    ensures EntriesTerminated(data, start, remaining)
    ensures DecodeEntries(data, start, remaining, decoded) == DecodeEntries(data, end, later, extended)
    decreases |es|
  {
    if es == [] {
      assert extended == decoded;
    } else {
      var init := es[..|es| - 1];
      var e := es[|es| - 1];
      var mid := start + |EncodeEntries(init)|;
      SplitWindow(data, start, EncodeEntries(init), EncodeEntry(e), EncodeEntries(es));
      assert extended == (decoded + init) + [e];
      DecodeEncodedEntry(data, mid, end, e, later + 1, later, decoded + init, extended);
      DecodeEncodedAt(data, start, mid, init, remaining, later + 1, decoded, decoded + init);
    }
  }

  /** A window of the data that is `a + b` splits into `a` and `b`. */
  lemma SplitWindow(data: Bytes, start: nat, a: Bytes, b: Bytes, ab: Bytes)
    requires ab == a + b && start + |ab| <= |data| && data[start..start + |ab|] == ab
    ensures data[start..start + |a|] == a && data[start + |a|..start + |ab|] == b
  {
    SliceOfWindow(data, start, ab, 0, |a|);
    SliceOfWindow(data, start, ab, |a|, |ab|);
  }

  /** Decoding all the encoded entries gives them back. */
  lemma DecodeEncodeEntries(es: seq<IndexEntry>)
    requires PathsWithoutNul(es)
    ensures EntriesTerminated(EncodeEntries(es), 0, |es|)
    ensures DecodeEntries(EncodeEntries(es), 0, |es|, []) == es
  {
    var data := EncodeEntries(es);
    assert data[0..|data|] == data;
    assert [] + es == es;
    DecodeEncodedAt(data, 0, |data|, es, |es|, 0, [], es);
  }

  /** A file laid out as a serialized index, with the entry count in the
      header, parses to its entries. */
  lemma ParseOfLayout(c: Codecs, content: Bytes, es: seq<IndexEntry>)
    requires PathsWithoutNul(es) && |content| >= 32
    requires content[..4] == Signature && content[4..8] == Version
    requires Be32Value(content[8..12]) == |es|
    requires content[12..|content| - 20] == EncodeEntries(es)
    requires content[|content| - 20..] == c.sha1(content[..|content| - 20])
    ensures ParseDefined(c, content)
    ensures Parse(c, content) == Ok(es)
  {
    DecodeEncodeEntries(es);
  }

  /** Round trip: parsing a serialized index gives back its entries, for
      entries whose paths hold no NUL and fewer than 2^32 of them. */
  lemma ParseSerialize(c: Codecs, es: seq<IndexEntry>)
    requires PathsWithoutNul(es) && |es| < 0x1_0000_0000
    ensures ParseDefined(c, Serialize(c, es))
    ensures Parse(c, Serialize(c, es)) == Ok(es)
  {
    SerializeLayout(c, es);
    ModOfSmall(|es|, 0x1_0000_0000);
    ParseOfLayout(c, Serialize(c, es), es);
  }

  /** A checksum that does not match the rest of the file is always rejected. */
  lemma ParseRejectsBadChecksum(c: Codecs, content: Bytes)
    requires ParseDefined(c, content) && |content| >= 20
    requires c.sha1(content[..|content| - 20]) != content[|content| - 20..]
    ensures Parse(c, content).Err?
    ensures content[..4] == Signature && content[4..8] == Version ==>
      Parse(c, content) == Err(BadChecksum)
  {
  }

  /** The checks run in order and the first one that fails names the
      error: a bad signature is reported whatever the version, and a bad
      version whatever the checksum. */
  lemma ParseReportsFirstFailure(c: Codecs, content: Bytes)
    requires ParseDefined(c, content)
    ensures content[..4] != Signature ==> Parse(c, content) == Err(BadSignature)
    ensures content[..4] == Signature && content[4..8] != Version ==>
      Parse(c, content) == Err(BadVersion)
  {
  }

  // ---------------------------------------------------------------------
  // Listing (`format_index_entries`)

  /** `(flags >> 12) & 3`. */
  function Stage(flags: B2): nat {
    (Be16Value(flags) / 0x1000) % 4
  }

  const Newline: Byte := 0x0A
  const Tab: Byte := 0x09

  /** The columns listed before the path with `stage`: the octal mode, the
      40 hexadecimal digits of the SHA-1 and the stage, separated by
      spaces, then a tab. */
  function StageColumns(e: IndexEntry): string {
    Octal(Be32Value(e.mode)) + " " + Hex(e.sha1) + " " + Decimal(Stage(e.flags)) + "\t"
  }

  /** One listed entry: the stage columns when asked for, then the path. */
  function EntryLine(e: IndexEntry, stage: bool): Bytes {
    (if stage then Utf8(StageColumns(e)) else []) + e.path
  }

  /** The listing of the first `k` entries as written: a newline follows
      every entry that is not equal, field for field, to the last entry. */
  function FormatAsWritten(entries: seq<IndexEntry>, stage: bool, k: nat): Bytes
    requires k <= |entries|
  {
    if k == 0 then []
    else
      FormatAsWritten(entries, stage, k - 1) + EntryLine(entries[k - 1], stage)
      + (if entries[|entries| - 1] != entries[k - 1] then [Newline] else [])
  }

  /** The `stage` branch of the loop body of `format_index_entries`, with the
      SHA-1 written one byte at a time. */
  method WriteStageColumns(entry: IndexEntry) returns (columns: string)
    ensures columns == StageColumns(entry)
  {
    var flags := Be16Value(entry.flags);
    var entryStage := (flags / 0x1000) % 4;
    var mode := Be32Value(entry.mode);
    columns := Octal(mode) + " ";
    var s := 0;
    while s < |entry.sha1|
      invariant 0 <= s <= |entry.sha1|
      invariant columns == Octal(mode) + " " + Hex(entry.sha1[..s])
    {
      HexAppend(entry.sha1[..s], entry.sha1[s]);
      assert entry.sha1[..s + 1] == entry.sha1[..s] + [entry.sha1[s]];
      columns := columns + HexByte(entry.sha1[s]);
      s := s + 1;
    }
    assert entry.sha1[..s] == entry.sha1;
    columns := columns + " " + Decimal(entryStage) + "\t";
  }

  /** `format_index_entries`. */
  method FormatIndexEntries(entries: seq<IndexEntry>, stage: bool) returns (output: Bytes)
    ensures output == FormatAsWritten(entries, stage, |entries|)
  {
    output := [];
    var k := 0;
    while k < |entries|
      invariant 0 <= k <= |entries|
      invariant output == FormatAsWritten(entries, stage, k)
    {
      var entry := entries[k];
      ghost var before := output;
      if stage {
        var columns := WriteStageColumns(entry);
        output := output + Utf8(columns);
      }
      output := output + entry.path;
      assert output == before + EntryLine(entry, stage);
      if entries[|entries| - 1] != entry {
        output := output + [Newline];
      }
      k := k + 1;
    }
  }

  /** The listing as evidently intended: the entry lines joined by newlines. */
  function JoinLines(entries: seq<IndexEntry>, stage: bool): (r: Bytes)
    ensures entries == [] ==> r == []
  {
    if entries == [] then []
    else if |entries| == 1 then EntryLine(entries[0], stage)
    else EntryLine(entries[0], stage) + [Newline] + JoinLines(entries[1..], stage)
  }

  /** The number of newline bytes. */
  function Newlines(s: Bytes): nat {
    multiset(s)[Newline]
  }

  predicate PathsWithoutNewline(es: seq<IndexEntry>) {
    forall i :: 0 <= i < |es| ==> Newline !in es[i].path
  }

  /** A line holds a newline only where its path does. */
  lemma EntryLineWithoutNewline(e: IndexEntry, stage: bool)
    requires Newline !in e.path
    ensures Newlines(EntryLine(e, stage)) == 0
  {
    assert EntryLine(e, stage) == (if stage then Utf8(StageColumns(e)) else []) + e.path;
    if stage {
      var columns := StageColumns(e);
      Utf8AsciiByte(columns, Newline);
      assert '\n' !in columns by {
        var m, h, d := Octal(Be32Value(e.mode)), Hex(e.sha1), Decimal(Stage(e.flags));
        assert columns == m + " " + h + " " + d + "\t";
        assert '\n' !in m && '\n' !in h && '\n' !in d;
      }
    }
  }

  /** The intended listing separates `n` entries with exactly `n - 1`
      newlines, whatever the entries. */
  lemma {:induction false} JoinLinesNewlines(es: seq<IndexEntry>, stage: bool)
    requires es != [] && PathsWithoutNewline(es)
    ensures Newlines(JoinLines(es, stage)) == |es| - 1
  {
    EntryLineWithoutNewline(es[0], stage);
    if |es| > 1 {
      JoinLinesNewlines(es[1..], stage);
    }
  }

  lemma {:induction false} JoinLinesAppend(es: seq<IndexEntry>, e: IndexEntry, stage: bool)
    requires es != []
    ensures JoinLines(es + [e], stage) == JoinLines(es, stage) + [Newline] + EntryLine(e, stage)
  {
    assert (es + [e])[0] == es[0];
    if |es| > 1 {
      assert (es + [e])[1..] == es[1..] + [e];
      JoinLinesAppend(es[1..], e, stage);
    } else {
      assert (es + [e])[1..] == [e];
    }
  }

  /** Before the last entry, each line is followed by a newline when no
      entry before the last equals the last. */
  lemma {:induction false} FormatAsWrittenPrefix(es: seq<IndexEntry>, stage: bool, k: nat)
    requires 0 < k < |es|
    requires forall i :: 0 <= i < |es| - 1 ==> es[i] != es[|es| - 1]
    ensures FormatAsWritten(es, stage, k) == JoinLines(es[..k], stage) + [Newline]
  {
    if k == 1 {
      assert FormatAsWritten(es, stage, 0) == [];
      assert es[..1] == [es[0]];
    } else {
      FormatAsWrittenPrefix(es, stage, k - 1);
      assert es[..k] == es[..k - 1] + [es[k - 1]];
      JoinLinesAppend(es[..k - 1], es[k - 1], stage);
    }
  }

  /** As written, the listing agrees with the intended one whenever no
      entry before the last equals the last. */
  lemma FormatAsWrittenAgrees(es: seq<IndexEntry>, stage: bool)
    requires forall i :: 0 <= i < |es| - 1 ==> es[i] != es[|es| - 1]
    ensures FormatAsWritten(es, stage, |es|) == JoinLines(es, stage)
  {
    var n := |es|;
    if n == 1 {
      assert FormatAsWritten(es, stage, 0) == [];
    } else if n > 1 {
      FormatAsWrittenPrefix(es, stage, n - 1);
      assert es == es[..n - 1] + [es[n - 1]];
      JoinLinesAppend(es[..n - 1], es[n - 1], stage);
    }
  }

  /** The listing as written loses the separator after an entry that equals
      the last one: two identical entries come out with no newline between
      their paths. */
  lemma FormatAsWrittenDropsNewline(e: IndexEntry)
    ensures FormatAsWritten([e, e], false, 2) == e.path + e.path
    ensures JoinLines([e, e], false) == e.path + [Newline] + e.path
  {
    assert FormatAsWritten([e, e], false, 1) == e.path;
    assert [e, e][1..] == [e];
  }
}
