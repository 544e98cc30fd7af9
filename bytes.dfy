/** Byte strings, fixed-width integers and the textual encodings the object
    and index layers rely on: big-endian words, lowercase hexadecimal,
    decimal and octal numerals, and UTF-8. */
module Bytes {

  type Byte = b: int | 0 <= b < 0x100
  type Bytes = seq<Byte>

  /** Fixed-size byte arrays (`[u8; 2]`, `[u8; 4]`, `[u8; 20]`). */
  type B2 = s: Bytes | |s| == 2 witness [0, 0]
  type B4 = s: Bytes | |s| == 4 witness [0, 0, 0, 0]
  type B20 = s: Bytes | |s| == 20 witness [0, 0, 0, 0, 0, 0, 0, 0, 0, 0, 0, 0, 0, 0, 0, 0, 0, 0, 0, 0]

  /** Rust's integer widths. */
  type U32 = x: int | 0 <= x < 0x1_0000_0000
  type U64 = x: int | 0 <= x < 0x1_0000_0000_0000_0000
  type I64 = x: int | -0x8000_0000_0000_0000 <= x < 0x8000_0000_0000_0000

  const Nul: Byte := 0
  const Space: Byte := 0x20

  datatype Result<+T, +E> = Ok(value: T) | Err(error: E)

  predicate StartsWith<T(==)>(s: seq<T>, prefix: seq<T>) {
    |prefix| <= |s| && s[..|prefix|] == prefix
  }

  predicate EndsWith<T(==)>(s: seq<T>, suffix: seq<T>) {
    |suffix| <= |s| && s[|s| - |suffix|..] == suffix
  }

  function Zeros(n: nat): (r: Bytes)
    ensures |r| == n && forall i :: 0 <= i < n ==> r[i] == 0
  {
    seq(n, _ => 0)
  }

  // ---------------------------------------------------------------------
  // Big-endian words

  /** The last two bytes of `x.to_be_bytes()`: the low 16 bits, big-endian. */
  function Be16(x: nat): (r: B2)
    ensures Be16Value(r) == x % 0x1_0000
  {
    var n := x % 0x1_0000;
    [n / 0x100, n % 0x100]
  }

  /** `u16::from_be_bytes`. */
  function Be16Value(b: B2): nat {
    b[0] as int * 0x100 + b[1] as int
  }

  /** The last four bytes of `x.to_be_bytes()`: the low 32 bits, big-endian
      (two's complement when `x` is negative). */
  function Be32(x: int): (r: B4)
    ensures Be32Value(r) == x % 0x1_0000_0000
  {
    var n := x % 0x1_0000_0000;
    var q1 := n / 0x100;
    var q2 := q1 / 0x100;
    var q3 := q2 / 0x100;
    [q3, q2 % 0x100, q1 % 0x100, n % 0x100]
  }

  /** `u32::from_be_bytes`. */
  function Be32Value(b: B4): (v: nat)
    ensures v < 0x1_0000_0000
  {
    b[0] as int * 0x100_0000 + b[1] as int * 0x1_0000 + b[2] as int * 0x100 + b[3] as int
  }

  lemma ModOfSmall(x: nat, m: nat)
    requires x < m
    ensures x % m == x
  {
  }

  lemma Be32OfValue(b: B4)
    ensures Be32(Be32Value(b)) == b
  {
    var v := Be32Value(b);
    assert v % 0x1_0000_0000 == v;
    assert v / 0x100 == b[0] as int * 0x1_0000 + b[1] as int * 0x100 + b[2] as int;
    assert v / 0x100 / 0x100 == b[0] as int * 0x100 + b[1] as int;
    assert v / 0x100 / 0x100 / 0x100 == b[0] as int;
  }

  // ---------------------------------------------------------------------
  // Numerals

  predicate IsLowerHexDigit(c: char) {
    '0' <= c <= '9' || 'a' <= c <= 'f'
  }

  /** The lowercase digit for `d` (`0`-`9`, then `a`-`f`). */
  function DigitChar(d: nat): (c: char)
    requires d < 16
    ensures IsLowerHexDigit(c) && DigitValue(c) == d
  {
    if d < 10 then ('0' as int + d) as char else ('a' as int + d - 10) as char
  }

  /** The digits of `n` in base `base`, most significant first, without
      leading zeros (Rust's `to_string()` for base 10, octal formatting for base 8). */
  function Numeral(n: nat, base: nat): (r: string)
    requires 2 <= base <= 16
    ensures |r| >= 1 && (|r| > 1 ==> r[0] != '0')
    ensures forall i :: 0 <= i < |r| ==> IsLowerHexDigit(r[i]) && DigitValue(r[i]) < base
    decreases n
  {
    if n < base then [DigitChar(n)]
    else
      DivisionFacts(n, base);
      Numeral(n / base, base) + [DigitChar(n % base)]
  }

  function DigitValue(c: char): nat {
    if '0' <= c <= '9' then c as int - '0' as int
    else if 'a' <= c <= 'f' then c as int - 'a' as int + 10
    else if 'A' <= c <= 'F' then c as int - 'A' as int + 10
    else 0
  }

  /** The number a numeral denotes (its digits read most significant first). */
  function NumeralValue(s: string, base: nat): nat {
    if s == [] then 0 else NumeralValue(s[..|s| - 1], base) * base + DigitValue(s[|s| - 1])
  }

  lemma {:induction false} NumeralRoundTrip(n: nat, base: nat)
    requires 2 <= base <= 16
    ensures NumeralValue(Numeral(n, base), base) == n
    decreases n
  {
    var r := Numeral(n, base);
    if n < base {
      assert r[..0] == [];
    } else {
      var q, d := n / base, n % base;
      DivisionFacts(n, base);
      NumeralRoundTrip(q, base);
      assert r == Numeral(q, base) + [DigitChar(d)];
      assert r[..|r| - 1] == Numeral(q, base);
      assert DigitValue(r[|r| - 1]) == d;
      assert NumeralValue(r, base) == NumeralValue(Numeral(q, base), base) * base + d;
    }
  }

  lemma DivisionFacts(n: nat, base: nat)
    requires 2 <= base <= n
    ensures n == (n / base) * base + n % base && n % base < base
    ensures 1 <= n / base < n
  {
  }

  function Decimal(n: nat): string {
    Numeral(n, 10)
  }

  function Octal(n: nat): string {
    Numeral(n, 8)
  }

  /** One byte formatted as two lowercase hexadecimal digits. */
  function HexByte(b: Byte): string {
    [DigitChar(b / 16), DigitChar(b % 16)]
  }

  /** Lowercase hexadecimal (`Sha1::result_str`, or two-digit formatting of every byte). */
  function Hex(s: Bytes): (r: string)
    ensures |r| == 2 * |s|
    ensures forall i :: 0 <= i < |r| ==> IsLowerHexDigit(r[i])
  {
    if s == [] then "" else HexByte(s[0]) + Hex(s[1..])
  }

  lemma {:induction false} HexAppend(s: Bytes, b: Byte)
    ensures Hex(s + [b]) == Hex(s) + HexByte(b)
  {
    if s != [] {
      assert (s + [b])[1..] == s[1..] + [b];
      HexAppend(s[1..], b);
    } else {
      assert [b][1..] == [];
    }
  }

  predicate IsHexDigit(c: char) {
    '0' <= c <= '9' || 'a' <= c <= 'f' || 'A' <= c <= 'F'
  }

  predicate IsHex(s: string) {
    |s| % 2 == 0 && forall i :: 0 <= i < |s| ==> IsHexDigit(s[i])
  }

  /** `u8::from_str_radix(pair, 16)` for every two-character chunk. */
  function HexDecode(s: string): (r: Bytes)
    requires IsHex(s)
    ensures |r| == |s| / 2
  {
    if s == [] then []
    else [DigitValue(s[0]) * 16 + DigitValue(s[1])] + HexDecode(s[2..])
  }

  /** The pair of digits at an even offset decodes to the next byte. */
  lemma HexDecodePair(s: string, i: nat)
    requires IsHex(s) && i % 2 == 0 && i < |s|
    ensures IsHex(s[i..]) && IsHex(s[i + 2..])
    ensures DigitValue(s[i]) < 16 && DigitValue(s[i + 1]) < 16
    ensures HexDecode(s[i..]) == [DigitValue(s[i]) * 16 + DigitValue(s[i + 1])] + HexDecode(s[i + 2..])
  {
    HexDecodeFront(s[i..]);
    assert s[i..][2..] == s[i + 2..];
  }

  /** The first pair of digits of a hex string. */
  lemma HexDecodeFront(t: string)
    requires IsHex(t) && |t| >= 2
    ensures IsHex(t[2..]) && DigitValue(t[0]) < 16 && DigitValue(t[1]) < 16
    ensures HexDecode(t) == [DigitValue(t[0]) * 16 + DigitValue(t[1])] + HexDecode(t[2..])
  {
    assert IsHexDigit(t[0]) && IsHexDigit(t[1]);
  }

  lemma {:induction false} HexDecodeHex(s: Bytes)
    ensures IsHex(Hex(s)) && HexDecode(Hex(s)) == s
  {
    if s != [] {
      HexDecodeHex(s[1..]);
      var h := Hex(s);
      assert h == HexByte(s[0]) + Hex(s[1..]);
      assert h[2..] == Hex(s[1..]);
      assert DigitValue(h[0]) == s[0] / 16;
      assert DigitValue(h[1]) == s[0] % 16;
    }
  }

  lemma {:induction false} HexOfHexDecode(s: string)
    requires IsHex(s)
    requires forall i :: 0 <= i < |s| ==> IsLowerHexDigit(s[i])
    ensures Hex(HexDecode(s)) == s
  {
    if s != [] {
      HexOfHexDecode(s[2..]);
      var b := DigitValue(s[0]) * 16 + DigitValue(s[1]);
      assert DigitValue(s[0]) < 16 && DigitValue(s[1]) < 16;
      assert b / 16 == DigitValue(s[0]) && b % 16 == DigitValue(s[1]);
      assert HexByte(b) == s[..2];
      assert HexDecode(s)[1..] == HexDecode(s[2..]);
    }
  }

  // ---------------------------------------------------------------------
  // UTF-8 (RFC 3629): the bytes of a Rust `String`

  /** The number of bytes of a UTF-8 sequence, read from its first byte. */
  function SequenceLength(lead: Byte): nat {
    if lead < 0x80 then 1 else if lead < 0xE0 then 2 else if lead < 0xF0 then 3 else 4
  }

  function EncodeChar(c: char): (r: Bytes)
    ensures 1 <= |r| <= 4 && |r| == SequenceLength(r[0])
    ensures c as int < 0x80 <==> |r| == 1
    ensures |r| == 1 ==> r[0] == c as int
    ensures |r| > 1 ==> forall i :: 0 <= i < |r| ==> r[i] >= 0x80
  {
    var cp := c as int;
    if cp < 0x80 then [cp]
    else if cp < 0x800 then [0xC0 + cp / 0x40, 0x80 + cp % 0x40]
    else if cp < 0x1_0000 then [0xE0 + cp / 0x1000, 0x80 + (cp / 0x40) % 0x40, 0x80 + cp % 0x40]
    else [0xF0 + cp / 0x4_0000, 0x80 + (cp / 0x1000) % 0x40, 0x80 + (cp / 0x40) % 0x40, 0x80 + cp % 0x40]
  }

  /** The code point a UTF-8 sequence of one character stands for. */
  function DecodeChar(r: Bytes): int
    requires 1 <= |r| <= 4
  {
    if |r| == 1 then r[0]
    else if |r| == 2 then (r[0] as int - 0xC0) * 0x40 + (r[1] as int - 0x80)
    else if |r| == 3 then (r[0] as int - 0xE0) * 0x1000 + (r[1] as int - 0x80) * 0x40 + (r[2] as int - 0x80)
    else (r[0] as int - 0xF0) * 0x4_0000 + (r[1] as int - 0x80) * 0x1000 + (r[2] as int - 0x80) * 0x40 + (r[3] as int - 0x80)
  }

  lemma DecodeEncodeChar(c: char)
    ensures DecodeChar(EncodeChar(c)) == c as int
  {
    var cp := c as int;
    var q := cp / 0x40;
    assert cp == q * 0x40 + cp % 0x40;
    assert q == (q / 0x40) * 0x40 + q % 0x40;
    assert cp / 0x1000 == q / 0x40;
    var q2 := q / 0x40;
    assert q2 == (q2 / 0x40) * 0x40 + q2 % 0x40;
    assert cp / 0x4_0000 == q2 / 0x40;
    assert (cp / 0x1000) % 0x40 == q2 % 0x40;
  }

  function Utf8(s: string): (r: Bytes)
    ensures |r| >= |s|
  {
    if s == [] then [] else EncodeChar(s[0]) + Utf8(s[1..])
  }

  lemma {:induction false} Utf8Append(s: string, t: string)
    ensures Utf8(s + t) == Utf8(s) + Utf8(t)
  {
    if s != [] {
      assert (s + t)[0] == s[0];
      assert (s + t)[1..] == s[1..] + t;
      Utf8Append(s[1..], t);
      calc {
        Utf8(s + t);
        EncodeChar(s[0]) + Utf8(s[1..] + t);
        EncodeChar(s[0]) + (Utf8(s[1..]) + Utf8(t));
        (EncodeChar(s[0]) + Utf8(s[1..])) + Utf8(t);
      }
    } else {
      assert s + t == t;
    }
  }

  /** Distinct strings have distinct UTF-8 encodings. */
  lemma {:induction false} Utf8Injective(s: string, t: string)
    requires Utf8(s) == Utf8(t)
    ensures s == t
  {
    if s != [] && t != [] {
      var a, b := EncodeChar(s[0]), EncodeChar(t[0]);
      var u := Utf8(s);
      assert u == a + Utf8(s[1..]) && u == b + Utf8(t[1..]);
      assert a[0] == u[0] == b[0];
      assert |a| == |b|;
      assert a == u[..|a|] == b;
      DecodeEncodeChar(s[0]);
      DecodeEncodeChar(t[0]);
      assert Utf8(s[1..]) == u[|a|..] == Utf8(t[1..]);
      Utf8Injective(s[1..], t[1..]);
    }
  }

  /** An ASCII byte occurs in the encoding exactly where its character occurs
      in the string: no byte of a multi-byte sequence is below 0x80. */
  lemma {:induction false} Utf8AsciiByte(s: string, k: nat)
    requires k < 0x80
    ensures k in Utf8(s) <==> (k as char) in s
  {
    if s != [] {
      Utf8AsciiByte(s[1..], k);
      var a := EncodeChar(s[0]);
      assert Utf8(s) == a + Utf8(s[1..]);
      assert k in a <==> s[0] == k as char;
      assert (k as char) in s <==> s[0] == k as char || (k as char) in s[1..];
    }
  }

  /** For an ASCII string the encoding is the sequence of character codes. */
  lemma {:induction false} Utf8Ascii(s: string)
    requires forall i :: 0 <= i < |s| ==> s[i] as int < 0x80
    ensures |Utf8(s)| == |s|
    ensures forall i :: 0 <= i < |s| ==> Utf8(s)[i] == s[i] as int
  {
    if s != [] {
      Utf8Ascii(s[1..]);
    }
  }
}
