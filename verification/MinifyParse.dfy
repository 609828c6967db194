/** What cJSON_Minify does to a text that the parser accepts: the parser still reads the same value. */
module MinifyParse {
  import opened Bytes
  import opened JsonTree
  import opened StringCodec
  import opened NumberCodec
  import opened Grammar
  import opened Scanner
  import opened Minify
  import opened MinifyPrint
  import opened Layout
  import opened RoundTrip

  // ---- strings that come through ----

  /**
   * The minifier goes through the bytes from `p` to `e`, outside or inside what it takes for a string, without
   * dropping any; the result is where it is then.
   */
  function Through(s: CString, p: nat, e: nat, outside: bool): Option<bool>
    requires p <= e <= |s|
    decreases e - p
  {
    if p == e then Some(outside)
    else if outside then
      if IsGap(s[p]) || s[p] == SLASH then None else Through(s, p + 1, e, s[p] != QUOTE)
    else if s[p] == QUOTE then Through(s, p + 1, e, true)
    else if s[p] == BACKSLASH && At(s, p + 1, QUOTE) then
      if p + 2 <= e then Through(s, p + 2, e, false) else None
    else Through(s, p + 1, e, false)
  }

  /**
   * From a position where the parser is outside strings: in no literal that follows does the minifier drop a byte.
   * It may lose track of where literals begin and end, as long as no whitespace and no slash stands in a literal
   * while it believes to be outside.
   */
  predicate Kept(s: CString, i: nat, outside: bool)
    requires i <= |s|
    decreases |s| - i
  {
    if i == |s| then true
    else if s[i] == QUOTE then
      match FindClose(s[i + 1..])
      case None => true
      case Some(n) =>
        var after := Through(s, i, i + n + 2, outside);
        after.Some? && Kept(s, i + n + 2, after.value)
    else Kept(s, i + 1, outside)
  }

  lemma {:induction false} ThroughStep(s: CString, p: nat, outside: bool)
    requires p < |s| && (outside ==> !IsGap(s[p]) && s[p] != SLASH)
    requires !outside && s[p] == BACKSLASH ==> !At(s, p + 1, QUOTE)
    ensures Rest(s, p, outside) == [s[p]] + Rest(s, p + 1, if s[p] == QUOTE then !outside else outside)
  {
    hide Squeeze;
    if outside {
      SqueezeAtToken(s, p);
      if s[p] == QUOTE {
        var e := StringEnd(s, p + 1);
        assert s[p..e] == [s[p]] + s[p + 1..e];
      }
    } else {
      var e := if s[p] == QUOTE then p + 1 else StringEnd(s, p + 1);
      assert s[p..e] == [s[p]] + s[p + 1..e];
      if s[p] == QUOTE { assert s[p + 1..e] == []; }
    }
  }

  lemma {:induction false} ThroughPair(s: CString, p: nat)
    requires p < |s| && s[p] == BACKSLASH && At(s, p + 1, QUOTE)
    ensures Rest(s, p, false) == s[p..p + 2] + Rest(s, p + 2, false)
  {
    hide Squeeze, Verbatim;
    assert StringEnd(s, p) == StringEnd(s, p + 2);
    VerbatimLater(s, p, p + 2, StringEnd(s, p + 2));
  }

  /** What comes through stands in the squeezed text as it is. */
  lemma {:induction false} ThroughCopies(s: CString, p: nat, e: nat, outside: bool)
    requires p <= e <= |s| && Through(s, p, e, outside).Some?
    ensures Rest(s, p, outside) == s[p..e] + Rest(s, e, Through(s, p, e, outside).value)
    decreases e - p
  {
    hide Rest;
    if p < e {
      if !outside && s[p] == BACKSLASH && At(s, p + 1, QUOTE) {
        ThroughPair(s, p);
        ThroughCopies(s, p + 2, e, false);
        assert s[p..e] == s[p..p + 2] + s[p + 2..e];
      } else {
        ThroughStep(s, p, outside);
        ThroughCopies(s, p + 1, e, if s[p] == QUOTE then !outside else outside);
        assert s[p..e] == [s[p]] + s[p + 1..e];
      }
    }
  }

  // ---- strings on which the two scanners agree ----

  /**
   * Reading from a position outside strings: no literal has a backslash right before its closing quote. There the
   * parser sees an escaped backslash and the end of the string, and the minifier an escaped quote.
   */
  predicate PlainStrings(s: CString, i: nat)
    requires i <= |s|
    decreases |s| - i
  {
    if i == |s| then true
    else if s[i] == QUOTE then
      match FindClose(s[i + 1..])
      case None => true
      case Some(n) => (n > 0 ==> s[i + n] != BACKSLASH) && PlainStrings(s, i + n + 2)
    else PlainStrings(s, i + 1)
  }

  /** On such a literal the minifier stops where the parser does. */
  lemma {:induction false} StringsEndAlike(s: CString, p: nat)
    requires p <= |s| && FindClose(s[p..]).Some?
    requires FindClose(s[p..]).value > 0 ==> s[p + FindClose(s[p..]).value - 1] != BACKSLASH
    ensures StringEnd(s, p) == p + FindClose(s[p..]).value + 1 && Closes(s, p)
    decreases |s| - p
  {
    hide FindClose;
    CloseStep(s, p);
    if s[p] == BACKSLASH {
      StringsEndAlike(s, p + 2);
    } else if s[p] != QUOTE {
      StringsEndAlike(s, p + 1);
    }
  }

  lemma {:induction false} ThroughString(s: CString, p: nat)
    requires p <= |s| && Closes(s, p)
    ensures Through(s, p, StringEnd(s, p), false) == Some(true)
    decreases |s| - p
  {
    if s[p] != QUOTE {
      ThroughString(s, if s[p] == BACKSLASH && At(s, p + 1, QUOTE) then p + 2 else p + 1);
    }
  }

  /** Such strings come through. */
  lemma {:induction false} PlainStringsAreKept(s: CString, i: nat)
    requires i <= |s| && PlainStrings(s, i)
    ensures Kept(s, i, true)
    decreases |s| - i
  {
    hide FindClose, StringEnd, Closes;
    if i < |s| && s[i] == QUOTE {
      var close := FindClose(s[i + 1..]);
      if close.Some? {
        StringsEndAlike(s, i + 1);
        ThroughString(s, i + 1);
        assert Through(s, i, i + close.value + 2, true) == Some(true);
        PlainStringsAreKept(s, i + close.value + 2);
      }
    } else if i < |s| {
      PlainStringsAreKept(s, i + 1);
    }
  }

  /** Where a literal closes does not depend on what follows it. */
  lemma {:induction false} CloseInPrefix(r: CString, rest: CString)
    requires FindClose(r).Some?
    ensures FindClose(r[..FindClose(r).value + 1] + rest) == FindClose(r)
    decreases |r|
  {
    hide FindClose;
    var n := FindClose(r).value;
    var u := r[..n + 1] + rest;
    assert r[0..] == r && u[0..] == u && u[0] == r[0];
    CloseStep(r, 0);
    CloseStep(u, 0);
    if r[0] != QUOTE {
      var step := if r[0] == BACKSLASH then 2 else 1;
      CloseInPrefix(r[step..], rest);
      assert u[step..] == r[step..][..n - step + 1] + rest;
    }
  }

  // ---- following the parser through the squeezed text ----

  /** Position `k` of `m` is where the squeezed text goes on from position `i` of `s`, outside strings. */
  predicate Follows(s: CString, i: nat, m: CString, k: nat) {
    FollowsIn(s, i, m, k, true) || FollowsIn(s, i, m, k, false)
  }

  /** The parser is outside strings; the minifier may believe otherwise. */
  predicate FollowsIn(s: CString, i: nat, m: CString, k: nat, outside: bool) {
    i <= |s| && k <= |m| && m[k..] == Rest(s, i, outside) && Kept(s, i, outside)
  }

  lemma {:induction false} FollowsPlain(s: CString, i: nat, m: CString, k: nat)
    requires Follows(s, i, m, k) && i < |s| && IsOrdinary(s[i])
    ensures k < |m| && m[k] == s[i] && Follows(s, i + 1, m, k + 1)
  {
    if FollowsIn(s, i, m, k, true) { FollowsByte(s, i, m, k, true); } else { FollowsByte(s, i, m, k, false); }
  }

  lemma {:induction false} FollowsByte(s: CString, i: nat, m: CString, k: nat, outside: bool)
    requires FollowsIn(s, i, m, k, outside) && i < |s| && (outside ==> !IsGap(s[i]) && s[i] != SLASH)
    requires s[i] != QUOTE && s[i] != BACKSLASH
    ensures k < |m| && m[k] == s[i] && FollowsIn(s, i + 1, m, k + 1, outside)
  {
    hide Rest;
    ThroughStep(s, i, outside);
    assert m[k..][0] == s[i];
    assert m[k + 1..] == m[k..][1..] == Rest(s, i + 1, outside);
  }

  /** Whitespace: the minifier drops some of it, the parser skips the rest. */
  lemma {:induction false} FollowsBlanks(s: CString, i: nat, m: CString, k: nat)
    requires Follows(s, i, m, k) && !At(s, SkipBlanks(s, i), SLASH)
    ensures Follows(s, SkipBlanks(s, i), m, SkipBlanks(m, k))
  {
    hide FollowsIn;
    if FollowsIn(s, i, m, k, true) { FollowsBlanksIn(s, i, m, k, true); } else { FollowsBlanksIn(s, i, m, k, false); }
  }

  lemma {:induction false} FollowsBlanksIn(s: CString, i: nat, m: CString, k: nat, outside: bool)
    requires FollowsIn(s, i, m, k, outside) && !At(s, SkipBlanks(s, i), SLASH)
    ensures FollowsIn(s, SkipBlanks(s, i), m, SkipBlanks(m, k), outside)
    decreases |s| - i
  {
    hide Rest;
    if i == |s| {
      RestOfNothing(s, outside);
    } else if s[i] > 32 {
      FirstByteIn(s, i, m, k, outside);
    } else if outside && IsGap(s[i]) {
      RestAfterGap(s, i);
      FollowsBlanksIn(s, i + 1, m, k, outside);
    } else {
      FollowsByte(s, i, m, k, outside);
      FollowsBlanksIn(s, i + 1, m, k + 1, outside);
    }
  }

  lemma {:induction false} RestOfNothing(s: CString, outside: bool)
    ensures Rest(s, |s|, outside) == []
  {
  }

  lemma {:induction false} RestAfterGap(s: CString, i: nat)
    requires i < |s| && IsGap(s[i])
    ensures Rest(s, i, true) == Rest(s, i + 1, true)
  {
  }

  /** A byte that is neither whitespace nor a slash stands first in the squeezed text. */
  lemma {:induction false} FirstByte(s: CString, i: nat, m: CString, k: nat)
    requires Follows(s, i, m, k) && i < |s| && s[i] > 32 && s[i] != SLASH
    ensures k < |m| && m[k] == s[i]
  {
    hide FollowsIn;
    if FollowsIn(s, i, m, k, true) { FirstByteIn(s, i, m, k, true); } else { FirstByteIn(s, i, m, k, false); }
  }

  lemma {:induction false} FirstByteIn(s: CString, i: nat, m: CString, k: nat, outside: bool)
    requires FollowsIn(s, i, m, k, outside) && i < |s| && s[i] > 32 && s[i] != SLASH
    ensures k < |m| && m[k] == s[i]
  {
    hide Rest;
    var n := if !outside && s[i] == BACKSLASH && At(s, i + 1, QUOTE) then 2 else 1;
    if n == 2 { ThroughPair(s, i); } else { ThroughStep(s, i, outside); }
    assert m[k..][0] == s[i..i + n][0] == s[i];
  }

  lemma {:induction false} FollowsRun(s: CString, i: nat, m: CString, k: nat, n: nat)
    requires Follows(s, i, m, k) && i + n <= |s| && forall j :: i <= j < i + n ==> IsOrdinary(s[j])
    ensures k + n <= |m| && m[k..k + n] == s[i..i + n] && Follows(s, i + n, m, k + n)
    decreases n
  {
    hide Follows;
    assert Follows(s, i, m, k);
    if n > 0 {
      FollowsPlain(s, i, m, k);
      FollowsRun(s, i + 1, m, k + 1, n - 1);
      assert m[k..k + n] == [m[k]] + m[k + 1..k + n] && s[i..i + n] == [s[i]] + s[i + 1..i + n];
    } else {
      FollowsInRange(s, i, m, k);
    }
  }

  lemma {:induction false} FollowsInRange(s: CString, i: nat, m: CString, k: nat)
    requires Follows(s, i, m, k)
    ensures i <= |s| && k <= |m|
  {
  }

  /** A string literal is copied as it stands, and reads as the same string. */
  lemma {:induction false} FollowsString(s: CString, i: nat, m: CString, k: nat)
    requires Follows(s, i, m, k) && ReadString(s[i..]).Some?
    ensures ReadString(m[k..]) == ReadString(s[i..])
    ensures Follows(s, i + ReadString(s[i..]).value.consumed, m, k + ReadString(s[i..]).value.consumed)
  {
    hide FollowsIn, ReadString;
    if FollowsIn(s, i, m, k, true) { FollowsStringIn(s, i, m, k, true); } else { FollowsStringIn(s, i, m, k, false); }
  }

  lemma {:induction false} FollowsStringIn(s: CString, i: nat, m: CString, k: nat, outside: bool)
    requires FollowsIn(s, i, m, k, outside) && ReadString(s[i..]).Some?
    ensures ReadString(m[k..]) == ReadString(s[i..])
    ensures Follows(s, i + ReadString(s[i..]).value.consumed, m, k + ReadString(s[i..]).value.consumed)
  {
    hide FindClose, Unescape, Rest;
    var n := FindClose(s[i + 1..]).value;
    var e := i + n + 2;
    assert s[i..][0] == s[i] == QUOTE && s[i..][1..] == s[i + 1..];
    assert ReadString(s[i..]).value.consumed == n + 2;
    ThroughCopies(s, i, e, outside);
    Pieces(m, k, s[i..e], Rest(s, e, Through(s, i, e, outside).value));
    assert s[i..][..n + 2] == s[i..e];
    LiteralAlike(s[i..], m[k..], n);
  }

  lemma {:induction false} Pieces(m: CString, k: nat, a: CString, b: CString)
    requires k <= |m| && m[k..] == a + b
    ensures k + |a| <= |m| && m[k..][..|a|] == a && m[k + |a|..] == b
  {
    assert m[k + |a|..] == m[k..][|a|..];
  }

  /** Two texts that start with the same literal. */
  lemma {:induction false} LiteralAlike(r: CString, u: CString, n: nat)
    requires ReadString(r).Some? && FindClose(r[1..]) == Some(n) && n + 2 <= |r|
    requires n + 2 <= |u| && u[..n + 2] == r[..n + 2]
    ensures ReadString(u) == ReadString(r)
  {
    hide FindClose, Unescape;
    PrefixAlike(r, u, n);
    CloseInPrefix(r[1..], u[n + 2..]);
  }

  lemma {:induction false} PrefixAlike(r: CString, u: CString, n: nat)
    requires n + 2 <= |r| && n + 2 <= |u| && u[..n + 2] == r[..n + 2]
    ensures u[0] == r[0] && u[1..1 + n] == r[1..1 + n] && u[1..] == r[1..][..n + 1] + u[n + 2..]
  {
    assert forall i :: 0 <= i < n + 2 ==> u[i] == u[..n + 2][i] == r[..n + 2][i] == r[i];
  }

  /** After a value: whitespace, and then the end of the text or a byte that cannot belong to a number. */
  predicate Ends(s: CString, i: nat)
    requires i <= |s|
  {
    var j := SkipBlanks(s, i);
    j < |s| ==> s[j] == COMMA || s[j] == RBRACKET || s[j] == RBRACE
  }

  lemma {:induction false} EndsInSqueezed(s: CString, i: nat, m: CString, k: nat)
    requires Follows(s, i, m, k) && Ends(s, i)
    ensures k < |m| ==> !IsNumberByte(m[k])
  {
    hide Follows;
    FollowsBlanks(s, i, m, k);
    FollowsInRange(s, i, m, k);
    var j, l := SkipBlanks(s, i), SkipBlanks(m, k);
    if j < |s| { FirstByte(s, j, m, l); } else { EndOfSqueezed(s, m, l); }
  }

  lemma {:induction false} EndOfSqueezed(s: CString, m: CString, k: nat)
    requires Follows(s, |s|, m, k)
    ensures k == |m|
  {
    hide Rest;
    RestOfNothing(s, true);
    RestOfNothing(s, false);
  }

  lemma {:induction false} RunIsPlain(r: CString, limit: nat)
    ensures forall j :: 0 <= j < NumberRun(r, limit) ==> IsNumberByte(r[j]) && IsOrdinary(r[j])
    ensures NumberRun(r, limit) < |r| && NumberRun(r, limit) < limit ==> !IsNumberByte(r[NumberRun(r, limit)])
    decreases limit
  {
    if limit > 0 && r != [] { RunIsPlain(r[1..], limit - 1); }
  }

  /** A number is copied as it stands, and nothing that follows can be taken for a part of it. */
  lemma {:induction false} FollowsNumber(s: CString, i: nat, m: CString, k: nat)
    requires Follows(s, i, m, k) && ReadNumber(s[i..]).Some? && Ends(s, i + ReadNumber(s[i..]).value.consumed)
    ensures ReadNumber(m[k..]) == ReadNumber(s[i..])
    ensures Follows(s, i + ReadNumber(s[i..]).value.consumed, m, k + ReadNumber(s[i..]).value.consumed)
  {
    hide Follows, NumberRun, StrtodLength, NumberOf, Ends;
    FollowsInRange(s, i, m, k);
    var r := s[i..];
    var run, n := NumberRun(r, NUMBER_LIMIT), ReadNumber(r).value.consumed;
    RunIsPlain(r, NUMBER_LIMIT);
    assert forall j :: i <= j < i + run ==> s[j] == r[j - i];
    NumberTakenWhole(s, i, run, n);
    FollowsRun(s, i, m, k, n);
    EndsInSqueezed(s, i + n, m, k + n);
    var rest := m[k + n..];
    assert m[k..] == r[..n] + rest by { assert m[k..] == m[k..k + n] + rest; }
    assert rest != [] ==> rest[0] == m[k + n];
    RunOverNumber(r[..n], rest, NUMBER_LIMIT);
    assert (r[..n] + rest)[..n] == r[..n];
  }

  /** If something else followed the bytes strtod took, the text would not be accepted. */
  lemma {:induction false} NumberTakenWhole(s: CString, i: nat, run: nat, n: nat)
    requires n <= run && i + run <= |s| && (forall j :: i <= j < i + run ==> IsNumberByte(s[j])) && Ends(s, i + n)
    ensures n == run
  {
    assert forall j :: i <= j < i + run ==> s[j] > 32 && s[j] != COMMA && s[j] != RBRACKET && s[j] != RBRACE;
  }

  // ---- values ----

  lemma {:induction false} WordFollows(s: CString, i: nat, m: CString, k: nat, word: CString)
    requires Follows(s, i, m, k) && Has(s, i, word) && forall c :: c in word ==> IsOrdinary(c)
    ensures Has(m, k, word) && Follows(s, i + |word|, m, k + |word|)
  {
    hide Follows;
    assert forall j :: i <= j < i + |word| ==> s[j] == s[i..i + |word|][j - i] == word[j - i];
    FollowsRun(s, i, m, k, |word|);
  }

  lemma {:induction false} ValueStart(s: CString, i: nat, depth: nat)
    requires i <= |s| && ReadValue(s, i, depth).Some?
    ensures i < |s| && 32 < s[i] < 128 && s[i] != SLASH && s[i] !in {COMMA, RBRACKET, RBRACE, COLON}
  {
    hide ReadString, ReadNumber, ReadArray, ReadObject;
    if Has(s, i, NULL_TEXT) { HasFirst(s, i, NULL_TEXT); }
    if Has(s, i, FALSE_TEXT) { HasFirst(s, i, FALSE_TEXT); }
    if Has(s, i, TRUE_TEXT) { HasFirst(s, i, TRUE_TEXT); }
  }

  /** An accepted value reads the same in the squeezed text. */
  lemma {:induction false} ValueFollows(s: CString, i: nat, m: CString, k: nat, depth: nat) returns (k1: nat)
    requires Follows(s, i, m, k) && ReadValue(s, i, depth).Some? && Ends(s, ReadValue(s, i, depth).value.next)
    ensures k1 <= |m| && ReadValue(m, k, depth) == Some(ReadTree(ReadValue(s, i, depth).value.value, k1))
    ensures Follows(s, ReadValue(s, i, depth).value.next, m, k1)
    decreases |s| - i, 1
  {
    hide Follows, ReadString, ReadNumber, ReadArray, ReadObject, Ends;
    k1 := k;
    FollowsInRange(s, i, m, k);
    ValueStart(s, i, depth);
    FirstByte(s, i, m, k);
    WordsStart(s, i);
    WordsStart(m, k);
    if Has(s, i, NULL_TEXT) {
      WordFollows(s, i, m, k, NULL_TEXT);
      k1 := k + 4;
    } else if Has(s, i, FALSE_TEXT) {
      WordFollows(s, i, m, k, FALSE_TEXT);
      k1 := k + 5;
    } else if Has(s, i, TRUE_TEXT) {
      WordFollows(s, i, m, k, TRUE_TEXT);
      k1 := k + 4;
    } else if s[i] == QUOTE {
      FollowsString(s, i, m, k);
      k1 := k + ReadString(s[i..]).value.consumed;
    } else if s[i] == MINUS || IsDigit(s[i]) {
      FollowsNumber(s, i, m, k);
      k1 := k + ReadNumber(s[i..]).value.consumed;
    } else if s[i] == LBRACKET {
      k1 := ArrayFollows(s, i, m, k, depth);
    } else {
      k1 := ObjectFollows(s, i, m, k, depth);
    }
    FollowsInRange(s, ReadValue(s, i, depth).value.next, m, k1);
  }

  lemma {:induction false} ArrayFollows(s: CString, i: nat, m: CString, k: nat, depth: nat) returns (k1: nat)
    requires Follows(s, i, m, k) && At(s, i, LBRACKET) && ReadArray(s, i, depth).Some?
    ensures At(m, k, LBRACKET) && ReadArray(m, k, depth) == Some(ReadTree(ReadArray(s, i, depth).value.value, k1))
    ensures Follows(s, ReadArray(s, i, depth).value.next, m, k1)
    decreases |s| - i, 0
  {
    hide Follows, ReadElements;
    FollowsPlain(s, i, m, k);
    FollowsInRange(s, i + 1, m, k + 1);
    var start := SkipBlanks(s, i + 1);
    if !At(s, start, RBRACKET) { ElementsStart(s, start, depth + 1); }
    FollowsBlanks(s, i + 1, m, k + 1);
    var start1 := SkipBlanks(m, k + 1);
    FirstByte(s, start, m, start1);
    if At(s, start, RBRACKET) {
      FollowsPlain(s, start, m, start1);
      k1 := start1 + 1;
    } else {
      k1 := ElementsFollow(s, start, m, start1, depth + 1);
    }
  }

  lemma {:induction false} ElementsStart(s: CString, i: nat, depth: nat)
    requires i <= |s| && SkipBlanks(s, i) == i && ReadElements(s, i, depth).Some?
    ensures i < |s| && 32 < s[i] && s[i] != SLASH && s[i] != RBRACKET
  {
    hide ReadValue;
    ValueStart(s, i, depth);
  }

  lemma {:induction false} ElementsFollow(s: CString, i: nat, m: CString, k: nat, depth: nat) returns (k1: nat)
    requires Follows(s, i, m, k) && ReadElements(s, i, depth).Some?
    ensures k <= |m| && ReadElements(m, k, depth) == Some(ReadItems(ReadElements(s, i, depth).value.items, k1))
    ensures Follows(s, ReadElements(s, i, depth).value.next, m, k1)
    decreases |s| - i, 3
  {
    hide Follows, ReadElement;
    FollowsInRange(s, i, m, k);
    var next := ReadElement(s, i, depth).value.next;
    var next1 := ElementFollows(s, i, m, k, depth);
    FirstByte(s, next, m, next1);
    FollowsPlain(s, next, m, next1);
    if At(s, next, COMMA) {
      k1 := ElementsFollow(s, next + 1, m, next1 + 1, depth);
    } else {
      k1 := next1 + 1;
    }
  }

  lemma {:induction false} ElementFollows(s: CString, i: nat, m: CString, k: nat, depth: nat) returns (k1: nat)
    requires Follows(s, i, m, k) && i <= |s| && k <= |m| && ReadElement(s, i, depth).Some?
    requires var next := ReadElement(s, i, depth).value.next;
             next < |s| && (s[next] == COMMA || s[next] == RBRACKET)
    ensures k1 <= |m| && ReadElement(m, k, depth) == Some(ReadTree(ReadElement(s, i, depth).value.value, k1))
    ensures Follows(s, ReadElement(s, i, depth).value.next, m, k1)
    decreases |s| - i, 2
  {
    hide Follows, ReadValue;
    var start := SkipBlanks(s, i);
    ValueStart(s, start, depth);
    FollowsBlanks(s, i, m, k);
    var v := ReadValue(s, start, depth).value;
    var l := ValueFollows(s, start, m, SkipBlanks(m, k), depth);
    FollowsBlanks(s, v.next, m, l);
    k1 := SkipBlanks(m, l);
  }

  lemma {:induction false} ObjectFollows(s: CString, i: nat, m: CString, k: nat, depth: nat) returns (k1: nat)
    requires Follows(s, i, m, k) && At(s, i, LBRACE) && ReadObject(s, i, depth).Some?
    ensures At(m, k, LBRACE) && ReadObject(m, k, depth) == Some(ReadTree(ReadObject(s, i, depth).value.value, k1))
    ensures Follows(s, ReadObject(s, i, depth).value.next, m, k1)
    decreases |s| - i, 0
  {
    hide Follows, ReadEntries;
    FollowsPlain(s, i, m, k);
    FollowsInRange(s, i + 1, m, k + 1);
    var start := SkipBlanks(s, i + 1);
    if !At(s, start, RBRACE) { EntriesStart(s, start, depth + 1); }
    FollowsBlanks(s, i + 1, m, k + 1);
    var start1 := SkipBlanks(m, k + 1);
    FirstByte(s, start, m, start1);
    if At(s, start, RBRACE) {
      FollowsPlain(s, start, m, start1);
      k1 := start1 + 1;
    } else {
      k1 := EntriesFollow(s, start, m, start1, depth + 1);
    }
  }

  lemma {:induction false} EntriesStart(s: CString, i: nat, depth: nat)
    requires i <= |s| && SkipBlanks(s, i) == i && ReadEntries(s, i, depth).Some?
    ensures i < |s| && s[i] == QUOTE
  {
    hide ReadValue;
    KeyStart(s, i);
  }

  lemma {:induction false} KeyStart(s: CString, i: nat)
    requires i <= |s| && ReadKey(s, i).Some?
    ensures At(s, SkipBlanks(s, i), QUOTE)
  {
    hide FindClose, Unescape;
    assert s[SkipBlanks(s, i)..] != [];
  }

  lemma {:induction false} EntriesFollow(s: CString, i: nat, m: CString, k: nat, depth: nat) returns (k1: nat)
    requires Follows(s, i, m, k) && ReadEntries(s, i, depth).Some?
    ensures k <= |m| && ReadEntries(m, k, depth) == Some(ReadMembers(ReadEntries(s, i, depth).value.members, k1))
    ensures Follows(s, ReadEntries(s, i, depth).value.next, m, k1)
    decreases |s| - i, 3
  {
    hide Follows, ReadEntry;
    FollowsInRange(s, i, m, k);
    var next := ReadEntry(s, i, depth).value.next;
    var next1 := EntryFollows(s, i, m, k, depth);
    FirstByte(s, next, m, next1);
    FollowsPlain(s, next, m, next1);
    if At(s, next, COMMA) {
      k1 := EntriesFollow(s, next + 1, m, next1 + 1, depth);
    } else {
      k1 := next1 + 1;
    }
  }

  lemma {:induction false} EntryFollows(s: CString, i: nat, m: CString, k: nat, depth: nat) returns (k1: nat)
    requires Follows(s, i, m, k) && i <= |s| && k <= |m| && ReadEntry(s, i, depth).Some?
    requires var next := ReadEntry(s, i, depth).value.next;
             next < |s| && (s[next] == COMMA || s[next] == RBRACE)
    ensures k1 <= |m| && ReadEntry(m, k, depth) == Some(ReadPair(ReadEntry(s, i, depth).value.member, k1))
    ensures Follows(s, ReadEntry(s, i, depth).value.next, m, k1)
    decreases |s| - i, 2
  {
    hide Follows, ReadValue, ReadKey;
    var name := ReadKey(s, i).value;
    var l := KeyFollows(s, i, m, k, depth);
    var v := ReadValue(s, name.next, depth).value;
    var l1 := ValueFollows(s, name.next, m, l, depth);
    FollowsBlanks(s, v.next, m, l1);
    k1 := SkipBlanks(m, l1);
  }

  lemma {:induction false} KeyFollows(s: CString, i: nat, m: CString, k: nat, depth: nat) returns (k1: nat)
    requires Follows(s, i, m, k) && i <= |s| && k <= |m| && ReadKey(s, i).Some?
    requires ReadValue(s, ReadKey(s, i).value.next, depth).Some?
    ensures k1 <= |m| && ReadKey(m, k) == Some(ReadName(ReadKey(s, i).value.bytes, k1))
    ensures Follows(s, ReadKey(s, i).value.next, m, k1)
  {
    hide Follows, ReadString, ReadValue, SkipBlanks;
    var start := SkipBlanks(s, i);
    var colon := SkipBlanks(s, start + ReadString(s[start..]).value.consumed);
    var colon1 := NameFollows(s, i, m, k);
    ColonFollows(s, colon, m, colon1, depth);
    k1 := SkipBlanks(m, colon1 + 1);
  }

  lemma {:induction false} NameFollows(s: CString, i: nat, m: CString, k: nat) returns (colon1: nat)
    requires Follows(s, i, m, k) && i <= |s| && k <= |m| && ReadKey(s, i).Some?
    ensures var start, start1 := SkipBlanks(s, i), SkipBlanks(m, k);
            && ReadString(s[start..]).Some? && ReadString(m[start1..]) == ReadString(s[start..])
            && var n := ReadString(s[start..]).value.consumed;
            && start + n <= |s| && start1 + n <= |m| && colon1 == SkipBlanks(m, start1 + n)
            && Follows(s, SkipBlanks(s, start + n), m, colon1)
  {
    hide Follows, ReadString, SkipBlanks;
    KeyStart(s, i);
    var start, start1 := SkipBlanks(s, i), SkipBlanks(m, k);
    FollowsBlanks(s, i, m, k);
    FollowsString(s, start, m, start1);
    var n := ReadString(s[start..]).value.consumed;
    FollowsInRange(s, start + n, m, start1 + n);
    FollowsBlanks(s, start + n, m, start1 + n);
    colon1 := SkipBlanks(m, start1 + n);
  }

  lemma {:induction false} ColonFollows(s: CString, i: nat, m: CString, k: nat, depth: nat)
    requires Follows(s, i, m, k) && At(s, i, COLON) && ReadValue(s, SkipBlanks(s, i + 1), depth).Some?
    ensures At(m, k, COLON) && Follows(s, SkipBlanks(s, i + 1), m, SkipBlanks(m, k + 1))
  {
    hide Follows, ReadValue;
    FollowsPlain(s, i, m, k);
    FollowsInRange(s, i + 1, m, k + 1);
    ValueStart(s, SkipBlanks(s, i + 1), depth);
    FollowsBlanks(s, i + 1, m, k + 1);
  }

  // ---- whole texts ----

  /**
   * Minifying a text that the parser accepts whole changes nothing about the value, as long as no literal loses a
   * byte. That is so where no literal has a backslash right before its closing quote, and in many other texts.
   */
  lemma {:induction false} MinifyKeepsTheValue(text: CString)
    requires ReadText(text, true).Some? && Kept(text, 0, true)
    ensures ReadText(Minified(text), true) == Some(ReadTree(ReadText(text, true).value.value, |Minified(text)|))
  {
    hide ReadValue, Squeeze, Kept, Follows;
    var m := Minified(text);
    FollowsFromStart(text);
    var mark := MarkLength(text);
    var start := SkipBlanks(text, mark);
    ValueStart(text, start, 0);
    MarkFollows(text, m);
    FollowsInRange(text, mark, m, mark);
    FollowsBlanks(text, mark, m, mark);
    var start1 := SkipBlanks(m, mark);
    var v := ReadValue(text, start, 0).value;
    var k := ValueFollows(text, start, m, start1, 0);
    FollowsBlanks(text, v.next, m, k);
    EndOfSqueezed(text, m, SkipBlanks(m, k));
  }

  lemma {:induction false} FollowsFromStart(text: CString)
    requires Kept(text, 0, true)
    ensures Follows(text, 0, Minified(text), 0)
  {
    assert Rest(text, 0, true) == Squeeze(text, 0);
    assert Minified(text)[0..] == Minified(text);
  }

  /** The byte order mark is kept, and none appears that was not there. */
  lemma {:induction false} MarkFollows(s: CString, m: CString)
    requires Follows(s, 0, m, 0)
    requires var start := SkipBlanks(s, MarkLength(s)); start < |s| && s[start] < 128 && s[start] != SLASH
    ensures MarkLength(m) == MarkLength(s) && Follows(s, MarkLength(s), m, MarkLength(s))
  {
    hide Follows;
    var n := MarkLength(s);
    FollowsRun(s, 0, m, 0, n);
    FollowsBlanks(s, n, m, n);
    var start, start1 := SkipBlanks(s, n), SkipBlanks(m, n);
    FirstByte(s, start, m, start1);
    if n == 3 {
      assert m[0] == m[0..3][0] == s[0..3][0] && m[1] == m[0..3][1] == s[0..3][1] && m[2] == m[0..3][2] == s[0..3][2];
    } else {
      assert m[0] < 128;
    }
  }

  // ---- what happens otherwise ----

  const X: CByte := 120
  const Y: CByte := 121

  /** An array of a backslash and of "xy" with or without a space in it. */
  function TwoStrings(gap: CString): (t: Json)
    ensures Printable(t) && Nesting(t) == 1
  {
    TwoItems([BACKSLASH], [X] + gap + [Y]);
    Arr([Str([BACKSLASH]), Str([X] + gap + [Y])])
  }

  /**
   * A literal does lose a byte: after a string that ends in a backslash the minifier takes the contents of the
   * next string for text between tokens, and its space is lost.
   */
  lemma {:induction false} SpaceLostAfterBackslash()
    ensures var text := Text(TwoStrings([SPACE]), false, 0);
            && ReadText(text, true).Some? && ReadText(text, true).value.value == TwoStrings([SPACE])
            && ReadText(Minified(text), true).Some? && ReadText(Minified(text), true).value.value == TwoStrings([])
  {
    hide ReadText, Text, Squeeze;
    PrintThenParse(TwoStrings([SPACE]), false);
    PrintThenParse(TwoStrings([]), false);
    TextOfTwo([SPACE]);
    TextOfTwo([]);
    SpaceSqueezed(Text(TwoStrings([SPACE]), false, 0));
  }

  /** `["\\","x y"]` */
  function LiteralOfTwo(gap: CString): CString {
    [LBRACKET, QUOTE, BACKSLASH, BACKSLASH, QUOTE, COMMA, QUOTE, X] + gap + [Y, QUOTE, RBRACKET]
  }

  lemma {:induction false} TextOfTwo(gap: CString)
    requires gap == [] || gap == [SPACE]
    ensures Text(TwoStrings(gap), false, 0) == LiteralOfTwo(gap)
  {
    hide Escape, ItemsText, PrintableItems;
    var a, b := [BACKSLASH], [X] + gap + [Y];
    TwoItems(a, b);
    TwoTexts(a, b);
    EscapeOfBackslash();
    EscapeOfText(gap);
  }

  lemma {:induction false} OneItem(b: CString)
    ensures PrintableItems([Str(b)]) && NestingOfItems([Str(b)]) == 0 && ItemsText([Str(b)], false, 1) == Quoted(b)
  {
    hide Escape, Quoted;
    assert [Str(b)][1..] == [];
    assert ItemsText([Str(b)], false, 1) == Quoted(b) + [] + [];
  }

  lemma {:induction false} TwoItems(a: CString, b: CString)
    ensures PrintableItems([Str(a), Str(b)]) && NestingOfItems([Str(a), Str(b)]) == 0
  {
    assert [Str(a), Str(b)][1..] == [Str(b)];
    OneItem(b);
  }

  lemma {:induction false} TwoTexts(a: CString, b: CString)
    requires PrintableItems([Str(a), Str(b)])
    ensures ItemsText([Str(a), Str(b)], false, 1) == Quoted(a) + [COMMA] + Quoted(b)
  {
    hide Escape, Quoted;
    assert [Str(a), Str(b)][1..] == [Str(b)];
    OneItem(b);
  }

  lemma {:induction false} EscapeOfBackslash()
    ensures Escape([BACKSLASH]) == [BACKSLASH, BACKSLASH]
  {
    assert [BACKSLASH][1..] == [];
  }

  lemma {:induction false} EscapeOfText(gap: CString)
    requires gap == [] || gap == [SPACE]
    ensures Escape([X] + gap + [Y]) == [X] + gap + [Y]
  {
    var b := [X] + gap + [Y];
    assert b[1..] == gap + [Y];
    assert [Y][1..] == [] && Escape([Y]) == [Y];
    if gap == [SPACE] { assert (gap + [Y])[1..] == [Y]; } else { assert gap + [Y] == [Y]; }
  }

  lemma {:induction false} SpaceSqueezed(s: CString)
    requires s == LiteralOfTwo([SPACE])
    ensures Minified(s) == LiteralOfTwo([])
  {
    hide LiteralOfTwo;
    LettersOfTwo(s);
    assert StringEnd(s, 11) == 12;
    assert Squeeze(s, 10) == s[10..12] + [];
    assert Squeeze(s, 8) == Squeeze(s, 9) == [Y] + Squeeze(s, 10);
    assert Squeeze(s, 7) == [X] + ([Y] + Squeeze(s, 10));
    assert StringEnd(s, 2) == StringEnd(s, 3) == StringEnd(s, 5) == StringEnd(s, 6) == 7;
    assert Squeeze(s, 1) == s[1..7] + Squeeze(s, 7);
    assert Squeeze(s, 0) == [LBRACKET] + Squeeze(s, 1);
    PiecesOfTwo(s);
  }

  lemma {:induction false} LettersOfTwo(s: CString)
    requires s == LiteralOfTwo([SPACE])
    ensures |s| == 12 && s[0] == LBRACKET && s[1] == QUOTE && s[2] == BACKSLASH && s[3] == BACKSLASH && s[4] == QUOTE
    ensures s[5] == COMMA && s[6] == QUOTE && s[7] == X && s[8] == SPACE && s[9] == Y && s[10] == QUOTE
    ensures s[11] == RBRACKET
  {
  }

  lemma {:induction false} PiecesOfTwo(s: CString)
    requires s == LiteralOfTwo([SPACE])
    ensures |s| == 12 && [LBRACKET] + (s[1..7] + ([X] + ([Y] + (s[10..12] + [])))) == LiteralOfTwo([])
  {
  }
}
