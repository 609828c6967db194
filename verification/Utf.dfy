/** UTF-16 escapes and their UTF-8 encoding, against RFC 2781 section 2.2 and RFC 3629 section 3. */
module Utf {
  import opened Bytes

  /** The bytes an escape stands for, and how much input it takes up. */
  datatype Literal = Literal(bytes: seq<Byte>, consumed: nat)

  predicate IsHex(c: Byte) {
    ZERO <= c <= NINE || UPPER_A <= c <= UPPER_F || LOWER_A <= c <= LOWER_F
  }

  function HexValue(c: Byte): (v: int)
    requires IsHex(c)
    ensures 0 <= v < 16
  {
    if c <= NINE then c - ZERO else if c <= UPPER_F then 10 + c - UPPER_A else 10 + c - LOWER_A
  }

  predicate AllHex(s: seq<Byte>, from: nat)
    requires from + 4 <= |s|
  {
    IsHex(s[from]) && IsHex(s[from + 1]) && IsHex(s[from + 2]) && IsHex(s[from + 3])
  }

  /** Four hexadecimal digits; a bad digit makes the whole number 0. */
  function Hex4(s: seq<Byte>, from: nat): (h: int)
    requires from + 4 <= |s|
    ensures 0 <= h < 0x1_0000
  {
    if AllHex(s, from)
    then ((HexValue(s[from]) * 16 + HexValue(s[from + 1])) * 16 + HexValue(s[from + 2])) * 16 + HexValue(s[from + 3])
    else 0
  }

  /** What parse_hex4 has in hand after `n` good digits. */
  function HexSoFar(s: seq<Byte>, from: nat, n: nat): int
    requires n <= 4 && from + n <= |s| && forall k :: from <= k < from + n ==> IsHex(s[k])
  {
    if n == 0 then 0
    else
      var h := HexSoFar(s, from, n - 1) + HexValue(s[from + n - 1]);
      if n < 4 then h * 16 else h
  }

  lemma {:induction false} HexOfFour(s: seq<Byte>, from: nat)
    requires from + 4 <= |s| && forall k :: from <= k < from + 4 ==> IsHex(s[k])
    ensures HexSoFar(s, from, 4) == Hex4(s, from)
  {
    assert HexSoFar(s, from, 1) == HexValue(s[from]) * 16;
    assert HexSoFar(s, from, 2) == (HexValue(s[from]) * 16 + HexValue(s[from + 1])) * 16;
  }

  predicate HighSurrogate(w: int) { 0xD800 <= w <= 0xDBFF }

  predicate LowSurrogate(w: int) { 0xDC00 <= w <= 0xDFFF }

  /** The second 16-bit unit, when another "\uXXXX" follows the first. */
  function SecondUnit(s: seq<Byte>): (w: Option<int>)
    requires |s| >= 6
    ensures w.Some? ==> 0 <= w.value < 0x1_0000 && |s| >= 12
  {
    if |s| < 12 || s[6] != BACKSLASH || s[7] != LOWER_U then None else Some(Hex4(s, 8))
  }

  /** "\uXXXX" or a pair of them at the start of the input, as utf16_literal_to_utf8 reads it. */
  function ReadLiteral(s: seq<Byte>): (r: Option<Literal>)
    ensures r.Some? ==> (r.value.consumed == 6 || r.value.consumed == 12) && r.value.consumed <= |s|
    ensures r.Some? ==> 1 <= |r.value.bytes| <= 4
    ensures r.Some? && r.value.consumed == 6 ==> |r.value.bytes| <= 3
  {
    if |s| < 6 then None else FromUnits(Hex4(s, 2), SecondUnit(s))
  }

  function FromUnits(first: int, second: Option<int>): (r: Option<Literal>)
    requires 0 <= first < 0x1_0000
  {
    if LowSurrogate(first) then None
    else if HighSurrogate(first) then
      if second.None? || !LowSurrogate(second.value) then None
      else Some(Literal(EncodeUtf8(0x1_0000 + (first % 0x400) * 0x400 + second.value % 0x400), 12))
    else Some(Literal(EncodeUtf8(first), 6))
  }

  function EncodedLength(cp: int): (n: nat)
    requires 0 <= cp <= 0x10_FFFF
    ensures 1 <= n <= 4
  {
    if cp < 0x80 then 1 else if cp < 0x800 then 2 else if cp < 0x1_0000 then 3 else 4
  }

  function EncodeUtf8(cp: int): (s: seq<Byte>)
    requires 0 <= cp <= 0x10_FFFF
    ensures |s| == EncodedLength(cp)
  {
    if cp < 0x80 then [cp]
    else if cp < 0x800 then [0xC0 + cp / 64, Continuation(cp)]
    else if cp < 0x1_0000 then [0xE0 + cp / 64 / 64, Continuation(cp / 64), Continuation(cp)]
    else [0xF0 + cp / 64 / 64 / 64, Continuation(cp / 64 / 64), Continuation(cp / 64), Continuation(cp)]
  }

  /** A byte 10xxxxxx with the low six bits of the code point. */
  function Continuation(cp: int): (b: Byte)
    ensures 0x80 <= b < 0xC0
  {
    0x80 + cp % 64
  }

  /** The code point after some of its low six-bit groups were written. */
  function Shifted(cp: int, n: nat): int {
    if n == 0 then cp else if n == 1 then cp / 64 else if n == 2 then cp / 64 / 64 else cp / 64 / 64 / 64
  }

  /** The mark of the first byte of a sequence of the given length. */
  function LeadMark(n: nat): int {
    if n == 1 then 0 else if n == 2 then 0xC0 else if n == 3 then 0xE0 else 0xF0
  }

  /** The bytes from the last to the first, as the encoding loop computes them. */
  lemma {:induction false} EncodedBackwards(cp: int)
    requires 0 <= cp <= 0x10_FFFF
    ensures var e := EncodeUtf8(cp);
            && (forall j :: 1 <= j < |e| ==> e[j] == 0x80 + Shifted(cp, |e| - 1 - j) % 64)
            && e[0] == LeadMark(|e|) + Shifted(cp, |e| - 1)
  {
  }

  // ---- the standards, written independently of the code ----

  /** RFC 2781 section 2.2: the character encoded by one or two 16-bit units. */
  function DecodeUtf16(w1: int, w2: Option<int>): Option<int> {
    if w1 < 0xD800 || w1 > 0xDFFF then Some(w1)
    else if w1 > 0xDBFF then None
    else if w2.None? || w2.value < 0xDC00 || w2.value > 0xDFFF then None
    else Some((w1 - 0xD800) * 1024 + (w2.value - 0xDC00) + 0x1_0000)
  }

  /** A Unicode character: RFC 3629 section 3 excludes the surrogates. */
  predicate IsScalar(cp: int) { 0 <= cp < 0xD800 || 0xE000 <= cp <= 0x10_FFFF }

  /** The bits carried by a lead byte with the given mark. */
  function Lead(b: int, mark: int): int { b - mark }

  /** The six bits carried by a tail byte. */
  function Tail(b: int): int { b - 0x80 }

  predicate IsTail(b: Byte) { 0x80 <= b <= 0xBF }

  /** RFC 3629 section 3: `cp` is the character encoded, in the shortest form, by exactly the bytes `s`. */
  predicate IsUtf8Of(s: seq<Byte>, cp: int) {
    && IsScalar(cp)
    && (forall i :: 1 <= i < |s| ==> IsTail(s[i]))
    && match |s|
       case 1 => cp < 0x80 && s[0] == cp
       case 2 => 0x80 <= cp < 0x800 && 0xC0 <= s[0] < 0xE0 && cp == Lead(s[0], 0xC0) * 64 + Tail(s[1])
       case 3 => 0x800 <= cp < 0x1_0000 && 0xE0 <= s[0] < 0xF0
                 && cp == (Lead(s[0], 0xE0) * 64 + Tail(s[1])) * 64 + Tail(s[2])
       case 4 => 0x1_0000 <= cp && 0xF0 <= s[0] < 0xF8
                 && cp == ((Lead(s[0], 0xF0) * 64 + Tail(s[1])) * 64 + Tail(s[2])) * 64 + Tail(s[3])
       case _ => false
  }

  lemma {:induction false} EncodingIsAForm(cp: int)
    requires IsScalar(cp)
    ensures IsUtf8Of(EncodeUtf8(cp), cp)
  {
  }

  lemma {:induction false} FormIsTheEncoding(cp: int, s: seq<Byte>)
    requires IsUtf8Of(s, cp)
    ensures s == EncodeUtf8(cp)
  {
    if |s| == 2 {
      assert cp / 64 == Lead(s[0], 0xC0);
    } else if |s| == 3 {
      assert cp / 64 == Lead(s[0], 0xE0) * 64 + Tail(s[1]);
    } else if |s| == 4 {
      assert cp / 64 == (Lead(s[0], 0xF0) * 64 + Tail(s[1])) * 64 + Tail(s[2]);
      assert cp / 64 / 64 == Lead(s[0], 0xF0) * 64 + Tail(s[1]);
    }
  }

  /** Encoding a character gives its one and only UTF-8 form. */
  lemma {:induction false} EncodingIsTheUniqueForm(cp: int, s: seq<Byte>)
    requires IsScalar(cp)
    ensures s == EncodeUtf8(cp) <==> IsUtf8Of(s, cp)
  {
    hide EncodeUtf8, IsUtf8Of;
    EncodingIsAForm(cp);
    if IsUtf8Of(s, cp) { FormIsTheEncoding(cp, s); }
  }

  /**
   * The escape is accepted exactly when its units are a UTF-16 character, and then its bytes are that
   * character's UTF-8 form: no surrogate, nothing above 0x10FFFF, no overlong form.
   */
  lemma {:induction false} LiteralMeetsTheStandards(s: seq<Byte>)
    requires |s| >= 6
    ensures ReadLiteral(s).Some? <==> DecodeUtf16(Hex4(s, 2), SecondUnit(s)).Some?
    ensures ReadLiteral(s).Some? ==>
              IsUtf8Of(ReadLiteral(s).value.bytes, DecodeUtf16(Hex4(s, 2), SecondUnit(s)).value)
  {
    UnitsMeetTheStandards(Hex4(s, 2), SecondUnit(s));
  }

  lemma {:induction false} UnitsMeetTheStandards(first: int, second: Option<int>)
    requires 0 <= first < 0x1_0000
    ensures FromUnits(first, second).Some? <==> DecodeUtf16(first, second).Some?
    ensures FromUnits(first, second).Some? ==>
              IsUtf8Of(FromUnits(first, second).value.bytes, DecodeUtf16(first, second).value)
  {
    var decoded := DecodeUtf16(first, second);
    UnitsGiveTheCharacter(first, second);
    if decoded.Some? {
      EncodingIsTheUniqueForm(decoded.value, EncodeUtf8(decoded.value));
    }
  }

  lemma {:induction false} UnitsGiveTheCharacter(first: int, second: Option<int>)
    requires 0 <= first < 0x1_0000
    ensures DecodeUtf16(first, second).Some? ==> IsScalar(DecodeUtf16(first, second).value)
    ensures match DecodeUtf16(first, second)
            case None => FromUnits(first, second) == None
            case Some(cp) => FromUnits(first, second) ==
                             Some(Literal(EncodeUtf8(cp), if HighSurrogate(first) then 12 else 6))
  {
    if HighSurrogate(first) && second.Some? && LowSurrogate(second.value) {
      assert first % 0x400 == first - 0xD800;
      assert second.value % 0x400 == second.value - 0xDC00;
    }
  }

  /** The masks and shifts of the C code, on 32-bit words, are the arithmetic used above. */
  lemma {:induction false} MasksAreArithmetic(x: bv32)
    ensures (x | 0x80) & 0xBF == 0x80 + x % 64
    ensures x >> 6 == x / 64
    ensures x & 0x3FF == x % 0x400
    ensures x < 0x400 ==> x << 10 == x * 0x400
    ensures x < 0x20 ==> (x | 0xC0) & 0xFF == 0xC0 + x
    ensures x < 0x10 ==> (x | 0xE0) & 0xFF == 0xE0 + x
    ensures x < 0x08 ==> (x | 0xF0) & 0xFF == 0xF0 + x
  {
  }
}
