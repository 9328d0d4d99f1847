/**
  UTF-8 as Rust's `std::str::from_utf8` (behind `String::from_utf8`,
  `payload_view::<str>` and `key_view::<str>`) accepts it: the UTF8-octets
  syntax of section 4 of RFC 3629, which rules out overlong forms, the
  surrogate range U+D800..U+DFFF and code points above U+10FFFF.

  A byte is an integer in 0..255 (Rust's `u8`).  A Rust `String` is a
  Dafny `string`, a sequence of Unicode scalar values.
*/
module Utf8 {
  import opened Wrappers

  /** Rust's `Utf8Error`: the length of the longest valid prefix
      (`valid_up_to`), and the length of the ill-formed sequence that starts
      there (`error_len`), `None` when the input ends inside a character.
      Its display text is produced by the standard library and is not part
      of this model. */
  datatype Utf8Error = Utf8Error(validUpTo: nat, errorLen: Option<nat>)

  /** Rust's `u8`. */
  newtype byte = x: int | 0 <= x < 0x100

  /** UTF8-tail = %x80-BF */
  predicate IsTail(b: byte) {
    0x80 <= b as int <= 0xBF
  }

  /** UTF8-1 = %x00-7F */
  predicate IsUtf8One(b0: byte) {
    b0 as int <= 0x7F
  }

  /** UTF8-2 = %xC2-DF UTF8-tail */
  predicate IsUtf8Two(b0: byte, b1: byte) {
    0xC2 <= b0 as int <= 0xDF && IsTail(b1)
  }

  /** UTF8-3 = %xE0 %xA0-BF UTF8-tail / %xE1-EC 2( UTF8-tail ) /
               %xED %x80-9F UTF8-tail / %xEE-EF 2( UTF8-tail ) */
  predicate IsUtf8Three(b0: byte, b1: byte, b2: byte) {
    || (b0 as int == 0xE0 && 0xA0 <= b1 as int <= 0xBF && IsTail(b2))
    || (0xE1 <= b0 as int <= 0xEC && IsTail(b1) && IsTail(b2))
    || (b0 as int == 0xED && 0x80 <= b1 as int <= 0x9F && IsTail(b2))
    || (0xEE <= b0 as int <= 0xEF && IsTail(b1) && IsTail(b2))
  }

  /** UTF8-4 = %xF0 %x90-BF 2( UTF8-tail ) / %xF1-F3 3( UTF8-tail ) /
               %xF4 %x80-8F 2( UTF8-tail ) */
  predicate IsUtf8Four(b0: byte, b1: byte, b2: byte, b3: byte) {
    || (b0 as int == 0xF0 && 0x90 <= b1 as int <= 0xBF && IsTail(b2) && IsTail(b3))
    || (0xF1 <= b0 as int <= 0xF3 && IsTail(b1) && IsTail(b2) && IsTail(b3))
    || (b0 as int == 0xF4 && 0x80 <= b1 as int <= 0x8F && IsTail(b2) && IsTail(b3))
  }

  /** The number of bytes of the well-formed UTF8-char at the head of `b`,
      or 0 when `b` does not start with one. */
  function HeadLength(b: seq<byte>): (n: nat)
    ensures n <= |b| && n <= 4
    ensures n == 1 <==> |b| >= 1 && IsUtf8One(b[0])
    ensures n == 2 <==> |b| >= 2 && IsUtf8Two(b[0], b[1])
    ensures n == 3 <==> |b| >= 3 && IsUtf8Three(b[0], b[1], b[2])
    ensures n == 4 <==> |b| >= 4 && IsUtf8Four(b[0], b[1], b[2], b[3])
  {
    if |b| >= 1 && IsUtf8One(b[0]) then 1
    else if |b| >= 2 && IsUtf8Two(b[0], b[1]) then 2
    else if |b| >= 3 && IsUtf8Three(b[0], b[1], b[2]) then 3
    else if |b| >= 4 && IsUtf8Four(b[0], b[1], b[2], b[3]) then 4
    else 0
  }

  /** The number of bytes a character starting with `b0` takes, from its
      lead byte alone, or 0 for a byte that cannot start one (the standard
      library's `utf8_char_width`). */
  function CharWidth(b0: byte): (w: nat)
    ensures w <= 4
  {
    if b0 as int <= 0x7F then 1
    else if 0xC2 <= b0 as int <= 0xDF then 2
    else if 0xE0 <= b0 as int <= 0xEF then 3
    else if 0xF0 <= b0 as int <= 0xF4 then 4
    else 0
  }

  /** Whether `b1` may follow the lead byte `b0` as the second byte of a
      character: a tail byte, narrowed after %xE0, %xED, %xF0 and %xF4. */
  predicate SecondByteFits(b0: byte, b1: byte) {
    match CharWidth(b0)
    case 2 => IsTail(b1)
    case 3 =>
      || (b0 as int == 0xE0 && 0xA0 <= b1 as int <= 0xBF)
      || (0xE1 <= b0 as int <= 0xEC && IsTail(b1))
      || (b0 as int == 0xED && 0x80 <= b1 as int <= 0x9F)
      || (0xEE <= b0 as int <= 0xEF && IsTail(b1))
    case 4 =>
      || (b0 as int == 0xF0 && 0x90 <= b1 as int <= 0xBF)
      || (0xF1 <= b0 as int <= 0xF3 && IsTail(b1))
      || (b0 as int == 0xF4 && 0x80 <= b1 as int <= 0x8F)
    case _ => false
  }

  /** `p` is the beginning (or the whole) of a well-formed UTF8-char. */
  predicate CharPrefix(p: seq<byte>) {
    && 1 <= |p| <= CharWidth(p[0])
    && (|p| >= 2 ==> SecondByteFits(p[0], p[1]))
    && (|p| >= 3 ==> IsTail(p[2]))
    && (|p| >= 4 ==> IsTail(p[3]))
  }

  /** Every non-empty prefix of a well-formed UTF8-char is a CharPrefix. */
  lemma PrefixOfCharIsCharPrefix(c: seq<byte>, j: nat)
    requires HeadLength(c) == |c| > 0 && 1 <= j <= |c|
    ensures CharPrefix(c[..j])
  {
  }

  /** Every CharPrefix can be completed to a well-formed UTF8-char. */
  lemma CharPrefixCompletes(p: seq<byte>) returns (c: seq<byte>)
    requires CharPrefix(p)
    ensures HeadLength(c) == |c| > 0 && |p| <= |c| && c[..|p|] == p
  {
    var w := CharWidth(p[0]);
    var second: byte := if p[0] as int == 0xE0 then 0xA0 else if p[0] as int == 0xF0 then 0x90 else 0x80;
    var full := p + (if |p| == 1 then [second] else []) + [0x80, 0x80];
    c := full[..w];
    assert c[..|p|] == p;
    if w == 2 {
      assert IsUtf8Two(c[0], c[1]);
    } else if w == 3 {
      assert IsUtf8Three(c[0], c[1], c[2]);
    } else if w == 4 {
      assert IsUtf8Four(c[0], c[1], c[2], c[3]);
    }
  }

  /** Rust's `error_len` for the bytes `rest` that start where the valid
      prefix ends.  The bytes are checked in order, as the standard library
      does: a lead byte that starts no character is an ill-formed sequence
      of one byte; the input running out before a byte breaks the character
      gives `None`; otherwise the ill-formed sequence ends just before the
      first byte that breaks the character. */
  function ErrorLength(rest: seq<byte>): (r: Option<nat>)
    requires rest != [] && HeadLength(rest) == 0
    ensures r.None? <==> CharPrefix(rest)
    ensures r.Some? ==> 1 <= r.value <= 3 && r.value <= |rest|
    // the ill-formed sequence is the longest beginning of a character, and
    // at least one byte
    ensures r.Some? ==> r.value == 1 || CharPrefix(rest[..r.value])
    ensures r.Some? ==> forall j :: r.value < j <= |rest| ==> !CharPrefix(rest[..j])
  {
    var w := CharWidth(rest[0]);
    if w < 2 then Some(1)
    else if |rest| < 2 then None
    else if !SecondByteFits(rest[0], rest[1]) then Some(1)
    else if |rest| < 3 then None
    else if w == 3 || !IsTail(rest[2]) then Some(2)
    else if |rest| < 4 then None
    else Some(3)
  }

  /** UTF8-octets = *( UTF8-char ) */
  predicate ValidUtf8(b: seq<byte>)
    decreases |b|
  {
    b == [] || (HeadLength(b) > 0 && ValidUtf8(b[HeadLength(b)..]))
  }

  /** The values a Dafny `char` (and a Rust `char`) can hold. */
  predicate IsScalar(cp: int) {
    0 <= cp < 0xD800 || 0xE000 <= cp < 0x11_0000
  }

  /** The payload bits of a UTF8-tail byte. */
  function TailBits(b: byte): int {
    b as int - 0x80
  }

  /** The code point encoded by the UTF8-char at the head of `b`. */
  function ScalarValue(b: seq<byte>): (cp: int)
    requires HeadLength(b) > 0
    ensures IsScalar(cp)
    // shortest form: the encoding length is fixed by the code point
    ensures HeadLength(b) == 1 <==> cp < 0x80
    ensures HeadLength(b) == 2 <==> 0x80 <= cp < 0x800
    ensures HeadLength(b) == 3 <==> 0x800 <= cp < 0x1_0000
    ensures HeadLength(b) == 4 <==> 0x1_0000 <= cp
  {
    var n := HeadLength(b);
    if n == 1 then
      b[0] as int
    else if n == 2 then
      (b[0] as int - 0xC0) * 0x40 + TailBits(b[1])
    else if n == 3 then
      (b[0] as int - 0xE0) * 0x1000 + TailBits(b[1]) * 0x40 + TailBits(b[2])
    else
      (b[0] as int - 0xF0) * 0x4_0000 + TailBits(b[1]) * 0x1000 + TailBits(b[2]) * 0x40 + TailBits(b[3])
  }

  /** An integer known to fit in a byte, as a byte. */
  function Byte(x: int): (b: byte)
    requires 0 <= x < 0x100
    ensures b as int == x
  {
    x as byte
  }

  /** The UTF-8 encoding of one scalar value (Rust's `char::encode_utf8`):
      the code point is cut into 6-bit groups, the low groups go into tail
      bytes and the highest into the lead byte. */
  function EncodeScalar(c: char): (r: seq<byte>)
    ensures 1 <= |r| <= 4
    ensures HeadLength(r) == |r| && ScalarValue(r) == c as int
  {
    var cp := c as int;
    if cp < 0x80 then
      [Byte(cp)]
    else if cp < 0x800 then
      EncodeTwo(cp);
      [Byte(0xC0 + cp / 0x40), Byte(0x80 + cp % 0x40)]
    else if cp < 0x1_0000 then
      EncodeThree(cp);
      [Byte(0xE0 + cp / 0x40 / 0x40), Byte(0x80 + cp / 0x40 % 0x40), Byte(0x80 + cp % 0x40)]
    else
      EncodeFour(cp);
      [Byte(0xF0 + cp / 0x40 / 0x40 / 0x40), Byte(0x80 + cp / 0x40 / 0x40 % 0x40),
       Byte(0x80 + cp / 0x40 % 0x40), Byte(0x80 + cp % 0x40)]
  }

  lemma EncodeTwo(cp: int)
    requires 0x80 <= cp < 0x800
    ensures var r := [Byte(0xC0 + cp / 0x40), Byte(0x80 + cp % 0x40)];
      HeadLength(r) == 2 && ScalarValue(r) == cp
  {
  }

  lemma EncodeThree(cp: int)
    requires 0x800 <= cp < 0x1_0000 && IsScalar(cp)
    ensures var r := [Byte(0xE0 + cp / 0x40 / 0x40), Byte(0x80 + cp / 0x40 % 0x40), Byte(0x80 + cp % 0x40)];
      HeadLength(r) == 3 && ScalarValue(r) == cp
  {
    SixBitGroups(cp);
    SixBitGroups(cp / 0x40);
    AssembleThree(cp / 0x40 / 0x40, cp / 0x40 % 0x40, cp % 0x40);
  }

  lemma EncodeFour(cp: int)
    requires 0x1_0000 <= cp < 0x11_0000
    ensures var r := [Byte(0xF0 + cp / 0x40 / 0x40 / 0x40), Byte(0x80 + cp / 0x40 / 0x40 % 0x40),
                      Byte(0x80 + cp / 0x40 % 0x40), Byte(0x80 + cp % 0x40)];
      HeadLength(r) == 4 && ScalarValue(r) == cp
  {
    SixBitGroups(cp);
    SixBitGroups(cp / 0x40);
    SixBitGroups(cp / 0x40 / 0x40);
    AssembleFour(cp / 0x40 / 0x40 / 0x40, cp / 0x40 / 0x40 % 0x40, cp / 0x40 % 0x40, cp % 0x40);
  }

  /** Splitting off the low 6 bits of a non-negative number. */
  lemma SixBitGroups(x: int)
    requires 0 <= x
    ensures x == x / 0x40 * 0x40 + x % 0x40 && 0 <= x % 0x40 < 0x40 && 0 <= x / 0x40 <= x
  {
  }

  /** A three-byte sequence built from a 4-bit lead group and two 6-bit groups. */
  lemma AssembleThree(g2: int, g1: int, g0: int)
    requires 0 <= g2 < 0x10 && 0 <= g1 < 0x40 && 0 <= g0 < 0x40
    requires var cp := g2 * 0x1000 + g1 * 0x40 + g0; 0x800 <= cp && IsScalar(cp)
    ensures var r := [Byte(0xE0 + g2), Byte(0x80 + g1), Byte(0x80 + g0)];
      HeadLength(r) == 3 && ScalarValue(r) == g2 * 0x1000 + g1 * 0x40 + g0
  {
    var r := [Byte(0xE0 + g2), Byte(0x80 + g1), Byte(0x80 + g0)];
    assert IsUtf8Three(r[0], r[1], r[2]);
  }

  /** A four-byte sequence built from a 3-bit lead group and three 6-bit groups. */
  lemma AssembleFour(g3: int, g2: int, g1: int, g0: int)
    requires 0 <= g3 < 8 && 0 <= g2 < 0x40 && 0 <= g1 < 0x40 && 0 <= g0 < 0x40
    requires var cp := g3 * 0x4_0000 + g2 * 0x1000 + g1 * 0x40 + g0; 0x1_0000 <= cp < 0x11_0000
    ensures var r := [Byte(0xF0 + g3), Byte(0x80 + g2), Byte(0x80 + g1), Byte(0x80 + g0)];
      HeadLength(r) == 4 && ScalarValue(r) == g3 * 0x4_0000 + g2 * 0x1000 + g1 * 0x40 + g0
  {
    var r := [Byte(0xF0 + g3), Byte(0x80 + g2), Byte(0x80 + g1), Byte(0x80 + g0)];
    assert IsUtf8Four(r[0], r[1], r[2], r[3]);
  }

  /** The UTF-8 bytes of a string (Rust's `str::as_bytes`). */
  function Encode(s: string): (r: seq<byte>)
    ensures ValidUtf8(r)
    ensures |s| <= |r| <= 4 * |s|
  {
    if s == [] then []
    else
      var head := EncodeScalar(s[0]);
      var rest := Encode(s[1..]);
      HeadLengthOfPrefix(head, head + rest);
      assert (head + rest)[|head|..] == rest;
      head + rest
  }

  /** Rust's `String::from_utf8` / `str::from_utf8`: the decoded text when
      `b` is valid UTF-8, otherwise the position of the first ill-formed
      sequence. */
  function Decode(b: seq<byte>): (r: Result<string, Utf8Error>)
    decreases |b|
    ensures r.Ok? <==> ValidUtf8(b)
    ensures r.Ok? ==> Encode(r.value) == b
    ensures r.Err? ==> var k := r.error.validUpTo;
      && k < |b| && ValidUtf8(b[..k]) && HeadLength(b[k..]) == 0
      && r.error.errorLen == ErrorLength(b[k..])
  {
    if b == [] then Ok([])
    else
      var n := HeadLength(b);
      if n == 0 then
        assert b[0..] == b;
        Err(Utf8Error(0, ErrorLength(b)))
      else
        match Decode(b[n..])
        case Ok(s) =>
          DecodedHead(b, s);
          Ok([ScalarValue(b) as char] + s)
        case Err(e) =>
          ErrorAfterHead(b, e.validUpTo);
          Err(Utf8Error(n + e.validUpTo, e.errorLen))
  }

  /** A decoded head character followed by the decoded rest encodes back to
      the whole input. */
  lemma DecodedHead(b: seq<byte>, s: string)
    requires HeadLength(b) > 0 && Encode(s) == b[HeadLength(b)..]
    ensures Encode([ScalarValue(b) as char] + s) == b
  {
    var n := HeadLength(b);
    var t := [ScalarValue(b) as char] + s;
    ScalarRoundTrip(b);
    assert t[1..] == s;
    assert Encode(t) == EncodeScalar(t[0]) + Encode(s);
    assert b[..n] + b[n..] == b;
  }

  /** An ill-formed sequence found after the head character is found at the
      same place, shifted by the head's length, in the whole input. */
  lemma ErrorAfterHead(b: seq<byte>, k: nat)
    requires HeadLength(b) > 0
    requires var rest := b[HeadLength(b)..];
      k < |rest| && ValidUtf8(rest[..k]) && HeadLength(rest[k..]) == 0
    ensures var j := HeadLength(b) + k;
      j < |b| && ValidUtf8(b[..j]) && b[j..] == b[HeadLength(b)..][k..]
  {
    var n := HeadLength(b);
    HeadLengthOfPrefix(b, b[..n + k]);
    assert b[..n + k][n..] == b[n..][..k];
    assert b[n + k..] == b[n..][k..];
  }

  /** HeadLength and ScalarValue look at the head character's bytes only. */
  lemma HeadLengthOfPrefix(b: seq<byte>, c: seq<byte>)
    requires HeadLength(b) > 0
    requires HeadLength(b) <= |c| && b[..HeadLength(b)] == c[..HeadLength(b)]
    ensures HeadLength(c) == HeadLength(b) && ScalarValue(c) == ScalarValue(b)
  {
    var n := HeadLength(b);
    assert forall i :: 0 <= i < n ==> b[i] == b[..n][i] == c[..n][i] == c[i];
  }

  /** Decoding the head character of well-formed bytes and encoding it again
      gives back the same bytes. */
  lemma ScalarRoundTrip(b: seq<byte>)
    requires HeadLength(b) > 0
    ensures EncodeScalar(ScalarValue(b) as char) == b[..HeadLength(b)]
  {
    var n := HeadLength(b);
    HeadLengthOfPrefix(b, b[..n]);
    if n == 1 {
      assert b[..n] == [b[0]];
      ByteOfInt(b[0] as int, b[0]);
    } else if n == 2 {
      assert b[..n] == [b[0], b[1]];
      RoundTripTwo(b[0], b[1]);
    } else if n == 3 {
      assert b[..n] == [b[0], b[1], b[2]];
      RoundTripThree(b[0], b[1], b[2]);
    } else {
      assert b[..n] == [b[0], b[1], b[2], b[3]];
      RoundTripFour(b[0], b[1], b[2], b[3]);
    }
  }

  lemma ByteOfInt(x: int, b: byte)
    requires x == b as int
    ensures Byte(x) == b
  {
  }

  /** Putting the low 6 bits back onto a number. */
  lemma JoinSixBits(q: int, g: int)
    requires 0 <= q && 0 <= g < 0x40
    ensures (q * 0x40 + g) / 0x40 == q && (q * 0x40 + g) % 0x40 == g
  {
  }

  lemma RoundTripTwo(b0: byte, b1: byte)
    requires IsUtf8Two(b0, b1)
    ensures HeadLength([b0, b1]) == 2
    ensures EncodeScalar(ScalarValue([b0, b1]) as char) == [b0, b1]
  {
    var g1, g0 := b0 as int - 0xC0, TailBits(b1);
    var cp := ScalarValue([b0, b1]);
    assert cp == g1 * 0x40 + g0;
    EncodeScalarTwo(cp as char, g1, g0);
    ByteOfInt(0xC0 + g1, b0);
    ByteOfInt(0x80 + g0, b1);
  }

  lemma EncodeScalarTwo(c: char, g1: int, g0: int)
    requires 0 <= g1 && 0 <= g0 < 0x40
    requires c as int == g1 * 0x40 + g0 && 0x80 <= c as int < 0x800
    ensures EncodeScalar(c) == [Byte(0xC0 + g1), Byte(0x80 + g0)]
  {
    JoinSixBits(g1, g0);
  }

  lemma RoundTripThree(b0: byte, b1: byte, b2: byte)
    requires IsUtf8Three(b0, b1, b2)
    ensures HeadLength([b0, b1, b2]) == 3
    ensures EncodeScalar(ScalarValue([b0, b1, b2]) as char) == [b0, b1, b2]
  {
    var g2, g1, g0 := b0 as int - 0xE0, TailBits(b1), TailBits(b2);
    var cp := ScalarValue([b0, b1, b2]);
    assert cp == (g2 * 0x40 + g1) * 0x40 + g0;
    EncodeScalarThree(cp as char, g2, g1, g0);
    ByteOfInt(0xE0 + g2, b0);
    ByteOfInt(0x80 + g1, b1);
    ByteOfInt(0x80 + g0, b2);
  }

  lemma EncodeScalarThree(c: char, g2: int, g1: int, g0: int)
    requires 0 <= g2 && 0 <= g1 < 0x40 && 0 <= g0 < 0x40
    requires c as int == (g2 * 0x40 + g1) * 0x40 + g0 && 0x800 <= c as int < 0x1_0000
    ensures EncodeScalar(c) == [Byte(0xE0 + g2), Byte(0x80 + g1), Byte(0x80 + g0)]
  {
    JoinSixBits(g2 * 0x40 + g1, g0);
    JoinSixBits(g2, g1);
  }

  lemma RoundTripFour(b0: byte, b1: byte, b2: byte, b3: byte)
    requires IsUtf8Four(b0, b1, b2, b3)
    ensures HeadLength([b0, b1, b2, b3]) == 4
    ensures EncodeScalar(ScalarValue([b0, b1, b2, b3]) as char) == [b0, b1, b2, b3]
  {
    var g3, g2, g1, g0 := b0 as int - 0xF0, TailBits(b1), TailBits(b2), TailBits(b3);
    var cp := ScalarValue([b0, b1, b2, b3]);
    assert cp == ((g3 * 0x40 + g2) * 0x40 + g1) * 0x40 + g0;
    EncodeScalarFour(cp as char, g3, g2, g1, g0);
    ByteOfInt(0xF0 + g3, b0);
    ByteOfInt(0x80 + g2, b1);
    ByteOfInt(0x80 + g1, b2);
    ByteOfInt(0x80 + g0, b3);
  }

  lemma EncodeScalarFour(c: char, g3: int, g2: int, g1: int, g0: int)
    requires 0 <= g3 && 0 <= g2 < 0x40 && 0 <= g1 < 0x40 && 0 <= g0 < 0x40
    requires c as int == ((g3 * 0x40 + g2) * 0x40 + g1) * 0x40 + g0 && 0x1_0000 <= c as int
    ensures EncodeScalar(c) == [Byte(0xF0 + g3), Byte(0x80 + g2), Byte(0x80 + g1), Byte(0x80 + g0)]
  {
    JoinSixBits((g3 * 0x40 + g2) * 0x40 + g1, g0);
    JoinSixBits(g3 * 0x40 + g2, g1);
    JoinSixBits(g3, g2);
  }

  /** Decoding the encoding of a string gives the string back. */
  lemma {:induction false} DecodeEncode(s: string)
    ensures Decode(Encode(s)) == Ok(s)
  {
    if s != [] {
      var head := EncodeScalar(s[0]);
      var rest := Encode(s[1..]);
      HeadLengthOfPrefix(head, head + rest);
      assert (head + rest)[|head|..] == rest;
      DecodeEncode(s[1..]);
      assert [s[0]] + s[1..] == s;
    }
  }

  /** Two strings with the same encoding are equal. */
  lemma EncodeInjective(s: string, t: string)
    requires Encode(s) == Encode(t)
    ensures s == t
  {
    DecodeEncode(s);
    DecodeEncode(t);
  }

  /** An input that ends inside a character and one that breaks a character
      report different errors at the same position. */
  lemma IncompleteAndInvalid()
    ensures Decode([0xC3]) == Err(Utf8Error(0, None))
    ensures Decode([0xC3, 0x41]) == Err(Utf8Error(0, Some(1)))
  {
  }
}
