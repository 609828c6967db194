/**
 * Section 7 of RFC 8259, written independently of the code: which bytes the text between two quotes denotes. The
 * printer and the parser of strings are proved against it.
 */
module StringSyntax {
  import opened Bytes
  import opened Utf
  import opened StringCodec

  // ---- what a literal denotes ----

  function DigitOf(c: Byte): (v: Option<int>)
    ensures v.Some? ==> 0 <= v.value < 16
  {
    if 48 <= c <= 57 then Some(c - 48)
    else if 65 <= c <= 70 then Some(c - 55)
    else if 97 <= c <= 102 then Some(c - 87)
    else None
  }

  /** The 16-bit unit written with the four hexadecimal digits at `i`. */
  function UnitOf(s: CString, i: nat): Option<int>
    requires i + 4 <= |s|
  {
    var a, b, c, d := DigitOf(s[i]), DigitOf(s[i + 1]), DigitOf(s[i + 2]), DigitOf(s[i + 3]);
    if a.Some? && b.Some? && c.Some? && d.Some?
    then Some(a.value * 4096 + b.value * 256 + c.value * 16 + d.value) else None
  }

  /** The unit of an escape. The parser takes digits that are none for the unit 0; the standard has no such unit. */
  predicate IsUnit(s: CString, i: nat, w: int, strict: bool)
    requires i + 4 <= |s|
  {
    UnitOf(s, i) == Some(w) || (!strict && UnitOf(s, i) == None && w == 0)
  }

  /** A letter behind a backslash and the byte the two denote. */
  predicate IsShortEscape(letter: CByte, b: Byte) {
    || (letter == 34 && b == 34) || (letter == 92 && b == 92) || (letter == 47 && b == 47)
    || (letter == 98 && b == 8) || (letter == 102 && b == 12) || (letter == 110 && b == 10)
    || (letter == 114 && b == 13) || (letter == 116 && b == 9)
  }

  predicate StartsEscape(body: CString, i: nat) {
    i + 6 <= |body| && body[i] == 92 && body[i + 1] == 117
  }

  /**
   * The first `n` bytes of the body are one character, or one byte of a character, that stands for `bytes`. Where
   * not `strict` is asked for, the parser's liberties count too: control characters and quotes stand for themselves,
   * and a backslash in last place stands for a quote.
   */
  ghost predicate PieceDenotes(body: CString, n: nat, bytes: seq<Byte>, strict: bool)
    requires body != []
  {
    match n
    case 1 =>
      if body[0] == 92 then !strict && |body| == 1 && bytes == [34]
      else (strict ==> body[0] >= 32 && body[0] != 34) && bytes == [body[0]]
    case 2 => |body| >= 2 && body[0] == 92 && |bytes| == 1 && IsShortEscape(body[1], bytes[0])
    case 6 =>
      StartsEscape(body, 0)
      && exists w :: IsUnit(body, 2, w, strict) && (w < 0xD800 || w > 0xDFFF) && IsUtf8Of(bytes, w)
    case 12 =>
      StartsEscape(body, 0) && StartsEscape(body, 6)
      && exists w1, w2 ::
           && IsUnit(body, 2, w1, strict) && IsUnit(body, 8, w2, strict)
           && 0xD800 <= w1 <= 0xDBFF && 0xDC00 <= w2 <= 0xDFFF
           && IsUtf8Of(bytes, (w1 - 0xD800) * 1024 + (w2 - 0xDC00) + 0x1_0000)
    case _ => false
  }

  /** The whole body denotes exactly these bytes. */
  ghost predicate BodyDenotes(body: CString, out: seq<Byte>, strict: bool)
    decreases |body|
  {
    if body == [] then out == []
    else exists n: nat, k: nat :: 0 < n <= |body| && k <= |out| && PieceThenRest(body, out, strict, n, k)
  }

  ghost predicate PieceThenRest(body: CString, out: seq<Byte>, strict: bool, n: nat, k: nat)
    requires 0 < n <= |body| && k <= |out|
    decreases |body|, 0
  {
    PieceDenotes(body, n, out[..k], strict) && BodyDenotes(body[n..], out[k..], strict)
  }

  /** Where the text ends: no quote without a backslash before it, and no backslash without a byte after it. */
  predicate Closed(body: CString) {
    body != [] ==>
      && body[0] != 34
      && if body[0] == 92 then |body| >= 2 && Closed(body[2..]) else Closed(body[1..])
  }

  // ---- one piece ----

  lemma {:induction false} UnitIsHex4(s: CString, i: nat, w: int)
    requires i + 4 <= |s|
    ensures IsUnit(s, i, w, false) <==> Hex4(s, i) == w
    ensures IsUnit(s, i, w, true) ==> IsUnit(s, i, w, false)
  {
    assert forall c: Byte :: IsHex(c) <==> DigitOf(c).Some?;
    assert forall c: Byte :: IsHex(c) ==> HexValue(c) == DigitOf(c).value;
  }

  /** The piece at the start of the body, as the second pass of the parser takes it. */
  function Next(body: CString): (x: Option<Literal>)
    requires body != []
    ensures x.Some? ==> 0 < x.value.consumed <= |body|
  {
    if body[0] != BACKSLASH then Some(Literal([body[0]], 1))
    else
      var letter := if |body| > 1 then body[1] else QUOTE;
      if letter == LOWER_U then ReadLiteral(body)
      else if Unshort(letter).None? then None
      else Some(Literal([Unshort(letter).value], if |body| > 1 then 2 else 1))
  }

  lemma {:induction false} UnescapeByPieces(body: CString)
    requires body != []
    ensures Unescape(body) == match Next(body)
                              case None => None
                              case Some(l) => Prepend(l.bytes, Unescape(body[l.consumed..]))
  {
    if |body| == 1 { assert body[1..] == []; }
  }

  /** The "\u" pieces. */
  lemma {:induction false} LiteralIsPiece(body: CString)
    requires StartsEscape(body, 0) && ReadLiteral(body).Some?
    ensures PieceDenotes(body, ReadLiteral(body).value.consumed, ReadLiteral(body).value.bytes, false)
  {
    hide Hex4, IsUtf8Of, EncodeUtf8, IsUnit;
    var first, second := Hex4(body, 2), SecondUnit(body);
    UnitIsHex4(body, 2, first);
    UnitsGiveTheCharacter(first, second);
    var cp := DecodeUtf16(first, second).value;
    EncodingIsTheUniqueForm(cp, EncodeUtf8(cp));
    if HighSurrogate(first) { UnitIsHex4(body, 8, second.value); }
  }

  lemma {:induction false} PieceIsLiteral(body: CString, n: nat, bytes: seq<Byte>)
    requires body != [] && PieceDenotes(body, n, bytes, false) && (n == 6 || n == 12)
    ensures StartsEscape(body, 0) && ReadLiteral(body) == Some(Literal(bytes, n))
  {
    hide Hex4, IsUtf8Of, EncodeUtf8, IsUnit;
    var first, second := Hex4(body, 2), SecondUnit(body);
    UnitsGiveTheCharacter(first, second);
    if n == 6 {
      var w :| IsUnit(body, 2, w, false) && (w < 0xD800 || w > 0xDFFF) && IsUtf8Of(bytes, w);
      UnitIsHex4(body, 2, w);
      EncodingIsTheUniqueForm(w, bytes);
    } else {
      var w1, w2 :| && IsUnit(body, 2, w1, false) && IsUnit(body, 8, w2, false)
                    && 0xD800 <= w1 <= 0xDBFF && 0xDC00 <= w2 <= 0xDFFF
                    && IsUtf8Of(bytes, (w1 - 0xD800) * 1024 + (w2 - 0xDC00) + 0x1_0000);
      UnitIsHex4(body, 2, w1);
      UnitIsHex4(body, 8, w2);
      EncodingIsTheUniqueForm((w1 - 0xD800) * 1024 + (w2 - 0xDC00) + 0x1_0000, bytes);
    }
  }

  lemma {:induction false} NextIsPiece(body: CString)
    requires body != [] && Next(body).Some?
    ensures PieceDenotes(body, Next(body).value.consumed, Next(body).value.bytes, false)
  {
    if body[0] == BACKSLASH && |body| > 1 && body[1] == LOWER_U {
      LiteralIsPiece(body);
    }
  }

  lemma {:induction false} PieceIsNext(body: CString, n: nat, bytes: seq<Byte>)
    requires body != [] && PieceDenotes(body, n, bytes, false)
    ensures Next(body) == Some(Literal(bytes, n))
  {
    hide ReadLiteral;
    if n == 6 || n == 12 {
      PieceIsLiteral(body, n, bytes);
    } else if n == 2 {
      assert bytes == [bytes[0]];
    }
  }

  // ---- whole bodies ----

  lemma {:induction false} BodyStep(body: CString, out: seq<Byte>, strict: bool, n: nat, k: nat)
    requires 0 < n <= |body| && k <= |out| && PieceThenRest(body, out, strict, n, k)
    ensures BodyDenotes(body, out, strict)
  {
  }

  lemma {:induction false} BodyParts(body: CString, out: seq<Byte>, strict: bool) returns (n: nat, k: nat)
    requires body != [] && BodyDenotes(body, out, strict)
    ensures 0 < n <= |body| && k <= |out|
    ensures PieceDenotes(body, n, out[..k], strict) && BodyDenotes(body[n..], out[k..], strict)
  {
    n, k :| 0 < n <= |body| && k <= |out| && PieceThenRest(body, out, strict, n, k);
  }

  /** On every body, well formed or not, the second pass gives exactly what the body denotes. */
  lemma {:induction false} UnescapeIsWhatTheBodyDenotes(body: CString, out: seq<Byte>)
    ensures Unescape(body) == Some(out) <==> BodyDenotes(body, out, false)
    decreases |body|
  {
    hide PieceDenotes, Next;
    if body != [] {
      UnescapeByPieces(body);
      if BodyDenotes(body, out, false) {
        var n, k := BodyParts(body, out, false);
        PieceIsNext(body, n, out[..k]);
        UnescapeIsWhatTheBodyDenotes(body[n..], out[k..]);
        assert out == out[..k] + out[k..];
      }
      if Unescape(body) == Some(out) {
        var l := Next(body).value;
        var k := |l.bytes|;
        NextIsPiece(body);
        assert out[..k] == l.bytes && Unescape(body[l.consumed..]) == Some(out[k..]);
        UnescapeIsWhatTheBodyDenotes(body[l.consumed..], out[k..]);
        BodyStep(body, out, false, l.consumed, k);
      }
    }
  }

  lemma {:induction false} StrictPiece(body: CString, n: nat, bytes: seq<Byte>)
    requires body != [] && PieceDenotes(body, n, bytes, true)
    ensures PieceDenotes(body, n, bytes, false)
  {
    hide IsUtf8Of, IsUnit;
    if n == 6 {
      var w :| IsUnit(body, 2, w, true) && (w < 0xD800 || w > 0xDFFF) && IsUtf8Of(bytes, w);
      UnitIsHex4(body, 2, w);
    } else if n == 12 {
      var w1, w2 :| && IsUnit(body, 2, w1, true) && IsUnit(body, 8, w2, true)
                    && 0xD800 <= w1 <= 0xDBFF && 0xDC00 <= w2 <= 0xDFFF
                    && IsUtf8Of(bytes, (w1 - 0xD800) * 1024 + (w2 - 0xDC00) + 0x1_0000);
      UnitIsHex4(body, 2, w1);
      UnitIsHex4(body, 8, w2);
    }
  }

  /** A piece of a well-formed body hides no quote and no backslash from the first pass. */
  lemma {:induction false} StrictPieceIsClosed(body: CString, n: nat, bytes: seq<Byte>)
    requires 0 < n <= |body| && PieceDenotes(body, n, bytes, true) && Closed(body[n..])
    ensures Closed(body)
  {
    hide IsUtf8Of, Closed;
    if n <= 2 {
      ClosedStep(body, n);
    } else {
      if n == 12 {
        assert body[6..][6..] == body[12..];
        ClosedUnit(body[6..]);
      }
      ClosedUnit(body);
    }
  }

  lemma {:induction false} ClosedStep(body: CString, n: nat)
    requires 0 < n <= |body| && n <= 2 && body[0] != 34 && n == (if body[0] == 92 then 2 else 1)
    requires Closed(body[n..])
    ensures Closed(body)
  {
  }

  lemma {:induction false} ClosedUnit(body: CString)
    requires StartsEscape(body, 0) && UnitOf(body, 2).Some? && Closed(body[6..])
    ensures Closed(body)
  {
    hide Closed;
    assert forall c: Byte :: DigitOf(c).Some? ==> c != 34 && c != 92;
    assert body[5..][1..] == body[6..];
    ClosedStep(body[5..], 1);
    assert body[4..][1..] == body[5..];
    ClosedStep(body[4..], 1);
    assert body[3..][1..] == body[4..];
    ClosedStep(body[3..], 1);
    assert body[2..][1..] == body[3..];
    ClosedStep(body[2..], 1);
    ClosedStep(body, 2);
  }

  /** A well-formed body is read as what it denotes, and ends where its closing quote stands. */
  lemma {:induction false} WellFormedBody(body: CString, out: seq<Byte>)
    requires BodyDenotes(body, out, true)
    ensures BodyDenotes(body, out, false) && Closed(body)
    decreases |body|
  {
    hide PieceDenotes, Closed;
    if body == [] {
      assert Closed([]) by { ClosedNothing(); }
    } else {
      var n, k := BodyParts(body, out, true);
      WellFormedBody(body[n..], out[k..]);
      StrictPiece(body, n, out[..k]);
      StrictPieceIsClosed(body, n, out[..k]);
      BodyStep(body, out, false, n, k);
    }
  }

  lemma {:induction false} ClosedNothing()
    ensures Closed([])
  {
  }

  /** On a well-formed body the second pass gives exactly what section 7 of RFC 8259 says, and nothing else. */
  lemma {:induction false} UnescapeMeetsTheStandard(body: CString, meant: seq<Byte>, out: seq<Byte>)
    requires BodyDenotes(body, meant, true)
    ensures Unescape(body) == Some(out) <==> BodyDenotes(body, out, true)
  {
    WellFormedBody(body, meant);
    UnescapeIsWhatTheBodyDenotes(body, meant);
    if BodyDenotes(body, out, true) {
      WellFormedBody(body, out);
      UnescapeIsWhatTheBodyDenotes(body, out);
    }
  }

  // ---- printing ----

  lemma {:induction false} EscapedByteDenotes(b: CByte, rest: CString)
    ensures PieceDenotes(EscapeByte(b) + rest, |EscapeByte(b)|, [b], true)
  {
    var body := EscapeByte(b) + rest;
    if ShortEscape(b).None? && b < 32 {
      assert UnitOf(body, 2) == Some(b as int);
      assert IsUnit(body, 2, b, true) && IsUtf8Of([b], b);
    }
  }

  /** The printed form of a string is well formed and denotes its bytes, whatever they are. */
  lemma {:induction false} EscapeDenotes(s: CString)
    ensures BodyDenotes(Escape(s), s, true)
    decreases |s|
  {
    hide PieceDenotes, EscapeByte;
    if s != [] {
      var word := EscapeByte(s[0]);
      EscapedByteDenotes(s[0], Escape(s[1..]));
      EscapeDenotes(s[1..]);
      EscapeStarts(s);
      assert Escape(s)[|word|..] == Escape(s[1..]);
      assert s[..1] == [s[0]];
      BodyStep(Escape(s), s, true, |word|, 1);
    }
  }

  lemma {:induction false} EscapeStarts(s: CString)
    requires s != []
    ensures Escape(s) == EscapeByte(s[0]) + Escape(s[1..]) && |EscapeByte(s[0])| > 0
  {
  }

  lemma {:induction false} EscapeOfSum(s: CString, t: CString)
    ensures Escape(s + t) == Escape(s) + Escape(t)
  {
    hide EscapeByte;
    if s == [] {
      assert s + t == t;
    } else {
      assert (s + t)[1..] == s[1..] + t;
      EscapeOfSum(s[1..], t);
    }
  }

  /** No piece denotes bytes in less space than the printer needs for them. */
  lemma {:induction false} PieceIsNoShorter(body: CString, n: nat, bytes: CString)
    requires body != [] && PieceDenotes(body, n, bytes, true)
    ensures |Escape(bytes)| <= n
  {
    if n <= 2 {
      assert bytes == [bytes[0]];
      assert Escape(bytes) == EscapeByte(bytes[0]) + Escape([]);
    } else {
      UnitIsNoShorter(body, n, bytes);
    }
  }

  lemma {:induction false} UnitIsNoShorter(body: CString, n: nat, bytes: CString)
    requires body != [] && PieceDenotes(body, n, bytes, true) && n > 2
    ensures |Escape(bytes)| <= n
  {
    hide Escape, EscapeByte, IsUnit;
    if n == 6 {
      var w :| IsUnit(body, 2, w, true) && (w < 0xD800 || w > 0xDFFF) && IsUtf8Of(bytes, w);
      UnitOfDigits(body, 2, w);
      FormIsShort(bytes, w);
    } else {
      var w1, w2 :| && IsUnit(body, 2, w1, true) && IsUnit(body, 8, w2, true)
                    && 0xD800 <= w1 <= 0xDBFF && 0xDC00 <= w2 <= 0xDFFF
                    && IsUtf8Of(bytes, (w1 - 0xD800) * 1024 + (w2 - 0xDC00) + 0x1_0000);
      FormIsShort(bytes, (w1 - 0xD800) * 1024 + (w2 - 0xDC00) + 0x1_0000);
    }
  }

  lemma {:induction false} UnitOfDigits(s: CString, i: nat, w: int)
    requires i + 4 <= |s| && IsUnit(s, i, w, true)
    ensures 0 <= w < 0x1_0000
  {
    hide DigitOf;
  }

  lemma {:induction false} FormIsShort(bytes: CString, cp: int)
    requires IsUtf8Of(bytes, cp)
    ensures |Escape(bytes)| <= if cp < 0x1_0000 then 6 else 4
  {
    if |bytes| == 1 {
      assert Escape(bytes) == EscapeByte(bytes[0]) + Escape([]);
    } else {
      EscapeOfHigh(bytes);
    }
  }

  lemma {:induction false} EscapeOfHigh(s: CString)
    requires forall i :: 0 <= i < |s| ==> s[i] >= 128
    ensures Escape(s) == s
  {
    if s != [] { EscapeOfHigh(s[1..]); }
  }

  /** The printed form is the shortest well-formed body that denotes the string. */
  lemma {:induction false} EscapeIsShortest(body: CString, s: CString)
    requires BodyDenotes(body, s, true)
    ensures |Escape(s)| <= |body|
    decreases |body|
  {
    hide PieceDenotes, EscapeByte;
    if body != [] {
      var n, k := BodyParts(body, s, true);
      PieceIsNoShorter(body, n, s[..k]);
      EscapeIsShortest(body[n..], s[k..]);
      EscapeOfSum(s[..k], s[k..]);
      assert s == s[..k] + s[k..];
    }
  }

  /** The digits of its codes are in lower case: no capital letter is added. */
  lemma {:induction false} NoCapitalIsAdded(s: CString, i: nat)
    requires i < |Escape(s)| && 65 <= Escape(s)[i] <= 90
    ensures Escape(s)[i] in s
    decreases |s|
  {
    if i >= |EscapeByte(s[0])| {
      NoCapitalIsAdded(s[1..], i - |EscapeByte(s[0])|);
    }
  }

  // ---- where a literal ends ----

  lemma {:induction false} CloseIsWhereTheBodyEnds(r: CString, n: nat)
    ensures FindClose(r) == Some(n) <==> n < |r| && r[n] == 34 && Closed(r[..n])
    decreases |r|
  {
    if r != [] && n < |r| && r[0] != 34 {
      var step := if r[0] == 92 then 2 else 1;
      if step <= n {
        CloseIsWhereTheBodyEnds(r[step..], n - step);
        assert r[step..][..n - step] == r[..n][step..];
      }
    }
  }

  /** From `i` to `e` stands a literal, quotes included, that denotes these bytes. */
  ghost predicate LiteralAt(text: CString, i: nat, e: nat, bytes: seq<Byte>) {
    && i + 2 <= e <= |text| && text[i] == 34 && text[e - 1] == 34
    && Closed(text[i + 1..e - 1]) && BodyDenotes(text[i + 1..e - 1], bytes, false)
  }

  lemma {:induction false} StringIsWhatTheLiteralDenotes(text: CString, i: nat, e: nat, bytes: seq<Byte>)
    requires i <= e <= |text|
    ensures ReadString(text[i..]) == Some(Read(bytes, e - i)) <==> LiteralAt(text, i, e, bytes)
  {
    hide FindClose, Unescape, Closed, BodyDenotes;
    if i + 2 <= e && text[i] == 34 {
      var r, n := text[i..][1..], e - i - 2;
      CloseIsWhereTheBodyEnds(r, n);
      assert r[..n] == text[i + 1..e - 1] && text[i..][1..1 + n] == text[i + 1..e - 1];
      UnescapeIsWhatTheBodyDenotes(text[i + 1..e - 1], bytes);
      assert r[n] == text[e - 1];
    } else if i < |text| {
      assert text[i..][0] == text[i];
    }
  }
}
