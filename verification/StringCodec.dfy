/** String literals: what print_string_ptr writes and what parse_string reads back. */
module StringCodec {
  import opened Bytes
  import opened Utf

  // ---- printing ----

  function HexLetter(n: int): (c: CByte)
    requires 0 <= n < 16
    ensures IsHex(c) && HexValue(c) == n
  {
    if n < 10 then ZERO + n else LOWER_A + (n - 10)
  }

  /** The letter of a two-character escape, if the byte has one. */
  function ShortEscape(b: CByte): Option<CByte> {
    if b == QUOTE || b == BACKSLASH then Some(b)
    else if b == BACKSPACE then Some(LOWER_B)
    else if b == FORM_FEED then Some(LOWER_F)
    else if b == NEWLINE then Some(LOWER_N)
    else if b == RETURN then Some(LOWER_R)
    else if b == TAB then Some(LOWER_T)
    else None
  }

  function EscapeByte(b: CByte): CString {
    if ShortEscape(b).Some? then [BACKSLASH, ShortEscape(b).value]
    else if b < 32 then [BACKSLASH, LOWER_U, ZERO, ZERO, HexLetter(b / 16), HexLetter(b % 16)]
    else [b]
  }

  function Escape(s: CString): CString {
    if s == [] then [] else EscapeByte(s[0]) + Escape(s[1..])
  }

  /** The literal, quotes included. */
  function Quoted(s: CString): CString {
    [QUOTE] + Escape(s) + [QUOTE]
  }

  /** The extra characters the first pass of print_string_ptr counts for one byte. */
  function ExtraFor(b: CByte): nat {
    if ShortEscape(b).Some? then 1 else if b < 32 then 5 else 0
  }

  function Extra(s: CString): nat {
    if s == [] then 0 else ExtraFor(s[0]) + Extra(s[1..])
  }

  // ---- parsing ----

  /** Index of the first quote that is not behind a backslash: where the first pass of parse_string stops. */
  function FindClose(r: CString): (n: Option<nat>)
    ensures n.Some? ==> n.value < |r| && r[n.value] == QUOTE
  {
    if r == [] then None
    else if r[0] == QUOTE then Some(0)
    else
      var step := if r[0] == BACKSLASH then 2 else 1;
      if |r| < step then None
      else match FindClose(r[step..])
           case None => None
           case Some(n) => Some(step + n)
  }

  /** The escapes the first pass skips over (a last lone backslash counts for nothing). */
  function Skips(body: CString): (n: nat)
    ensures n <= |body|
  {
    if |body| < 2 then 0
    else if body[0] == BACKSLASH then 1 + Skips(body[2..])
    else Skips(body[1..])
  }

  function Unshort(c: CByte): Option<CByte> {
    if c == LOWER_B then Some(BACKSPACE)
    else if c == LOWER_F then Some(FORM_FEED)
    else if c == LOWER_N then Some(NEWLINE)
    else if c == LOWER_R then Some(RETURN)
    else if c == LOWER_T then Some(TAB)
    else if c == QUOTE || c == BACKSLASH || c == SLASH then Some(c)
    else None
  }

  /**
   * The second pass of parse_string over the text between the quotes. A backslash in last place escapes the
   * closing quote: the pass can arrive there because "\u" jumps six bytes whatever they hold.
   */
  function Unescape(body: CString): (out: Option<seq<Byte>>) {
    if body == [] then Some([])
    else if body[0] != BACKSLASH then Prepend([body[0]], Unescape(body[1..]))
    else
      var letter := if |body| > 1 then body[1] else QUOTE;
      if letter == LOWER_U then
        match ReadLiteral(body)
        case None => None
        case Some(l) => Prepend(l.bytes, Unescape(body[l.consumed..]))
      else if Unshort(letter).None? then None
      else Prepend([Unshort(letter).value], if |body| > 1 then Unescape(body[2..]) else Some([]))
  }

  function Prepend(s: seq<Byte>, out: Option<seq<Byte>>): Option<seq<Byte>> {
    match out
    case None => None
    case Some(rest) => Some(s + rest)
  }

  /** A string read from the input: the bytes written to the block, and how much input was used. */
  datatype Read = Read(bytes: seq<Byte>, consumed: nat)

  function ReadString(r: CString): (x: Option<Read>)
    ensures x.Some? ==> 2 <= x.value.consumed <= |r|
  {
    if r == [] || r[0] != QUOTE then None
    else
      match FindClose(r[1..])
      case None => None
      case Some(n) =>
        match Unescape(r[1..1 + n])
        case None => None
        case Some(out) => Some(Read(out, n + 2))
  }

  // ---- the size estimate ----

  /** What the first pass takes the length of the decoded body to be. */
  function Units(body: CString): nat {
    |body| - Skips(body)
  }

  /** Where a scan starts changes its count by at most one, and dropping a byte never raises it. */
  lemma {:induction false} UnitsOfTail(body: CString)
    requires body != []
    ensures Units(body[1..]) <= Units(body) <= Units(body[1..]) + 1
  {
    if |body| >= 2 {
      UnitsOfTail(body[1..]);
      assert body[1..][1..] == body[2..];
    }
  }

  /** Any two bytes make up at least one unit, whatever the alignment. */
  lemma {:induction false} UnitsAfterDrop(body: CString, k: nat)
    requires 2 * k <= |body|
    ensures Units(body) >= k + Units(body[2 * k..])
  {
    if k > 0 {
      var rest := body[2 * (k - 1)..];
      UnitsAfterDrop(body, k - 1);
      UnitsOfTail(rest);
      UnitsOfTail(rest[1..]);
      assert rest[1..][1..] == rest[2..] == body[2 * k..];
    }
  }

  /**
   * The size estimate suffices: the second pass never writes more bytes than the first pass counted, even
   * when a bad "\uXXXX" makes the two passes disagree about where escapes begin.
   */
  lemma {:induction false} DecodedFitsTheEstimate(body: CString)
    ensures Unescape(body).Some? ==> |Unescape(body).value| <= Units(body)
  {
    if body != [] {
      if body[0] != BACKSLASH {
        DecodedFitsTheEstimate(body[1..]);
        if |body| < 2 { assert body[1..] == []; }
      } else if |body| > 1 && body[1] == LOWER_U {
        if ReadLiteral(body).Some? {
          var n := ReadLiteral(body).value.consumed;
          DecodedFitsTheEstimate(body[n..]);
          UnitsAfterDrop(body, n / 2);
        }
      } else if |body| > 1 {
        DecodedFitsTheEstimate(body[2..]);
      }
    }
  }

  // ---- round trip ----

  lemma {:induction false} EscapeLength(s: CString)
    ensures |Escape(s)| == |s| + Extra(s)
  {
    if s != [] { EscapeLength(s[1..]); }
  }

  lemma {:induction false} UnescapeOneByte(b: CByte, rest: CString)
    ensures Unescape(EscapeByte(b) + rest) == Prepend([b], Unescape(rest))
  {
    var body := EscapeByte(b) + rest;
    assert body[|EscapeByte(b)|..] == rest;
    if ShortEscape(b).None? && b < 32 {
      assert Hex4(body, 2) == b;
      assert ReadLiteral(body) == Some(Literal([b], 6));
    }
  }

  lemma {:induction false} UnescapeUndoesEscape(s: CString)
    ensures Unescape(Escape(s)) == Some(s)
  {
    if s != [] {
      UnescapeUndoesEscape(s[1..]);
      UnescapeOneByte(s[0], Escape(s[1..]));
      assert s == [s[0]] + s[1..];
    }
  }

  lemma {:induction false} CloseAfterPlain(s: CString, rest: CString)
    requires QUOTE !in s && BACKSLASH !in s
    ensures FindClose(s + rest) ==
            match FindClose(rest)
            case None => None
            case Some(n) => Some(|s| + n)
  {
    if s == [] {
      assert s + rest == rest;
    } else {
      CloseAfterPlain(s[1..], rest);
      assert (s + rest)[1..] == s[1..] + rest;
    }
  }

  /** The first pass steps over an escaped byte. */
  lemma {:induction false} CloseAfterOneByte(b: CByte, rest: CString)
    ensures FindClose(EscapeByte(b) + rest) ==
            match FindClose(rest)
            case None => None
            case Some(n) => Some(|EscapeByte(b)| + n)
  {
    var r := EscapeByte(b) + rest;
    if ShortEscape(b).None? && b < 32 {
      CloseAfterPlain(r[2..6], rest);
      assert r[2..] == r[2..6] + rest;
    } else {
      assert r[|EscapeByte(b)|..] == rest;
    }
  }

  lemma {:induction false} CloseAtOnce(rest: CString)
    ensures FindClose(Escape([]) + [QUOTE] + rest) == Some(0)
  {
  }

  lemma {:induction false} CloseAfterEscape(s: CString, rest: CString)
    ensures FindClose(Escape(s) + [QUOTE] + rest) == Some(|Escape(s)|)
  {
    hide EscapeByte, FindClose;
    if s == [] {
      CloseAtOnce(rest);
    } else {
      CloseAfterEscape(s[1..], rest);
      CloseAfterOneByte(s[0], Escape(s[1..]) + [QUOTE] + rest);
      assert Escape(s) + [QUOTE] + rest == EscapeByte(s[0]) + (Escape(s[1..]) + [QUOTE] + rest);
    }
  }

  /** Every NUL-free byte string survives printing and reading back, whatever text follows. */
  lemma {:induction false} StringRoundTrip(s: CString, rest: CString)
    ensures ReadString(Quoted(s) + rest) == Some(Read(s, |Quoted(s)|))
  {
    hide Escape, FindClose, Unescape;
    var r := Quoted(s) + rest;
    assert r[1..] == Escape(s) + [QUOTE] + rest;
    CloseAfterEscape(s, rest);
    assert r[1..1 + |Escape(s)|] == Escape(s);
    UnescapeUndoesEscape(s);
  }
}
