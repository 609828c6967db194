/** Bytes, C strings and the ASCII codes the codec mentions. */
module Bytes {

  datatype Option<+T> = None | Some(value: T)

  type Byte = b: int | 0 <= b < 256

  /** A byte other than the terminator. */
  type CByte = b: int | 1 <= b < 256 witness 1

  /** The contents of a C string: everything before its terminator. */
  type CString = seq<CByte>

  const NUL: Byte := 0
  const BACKSPACE: CByte := 8
  const TAB: CByte := 9
  const NEWLINE: CByte := 10
  const FORM_FEED: CByte := 12
  const RETURN: CByte := 13
  const SPACE: CByte := 32
  const QUOTE: CByte := 34
  const STAR: CByte := 42
  const PLUS: CByte := 43
  const COMMA: CByte := 44
  const MINUS: CByte := 45
  const DOT: CByte := 46
  const SLASH: CByte := 47
  const ZERO: CByte := 48
  const NINE: CByte := 57
  const COLON: CByte := 58
  const UPPER_A: CByte := 65
  const UPPER_E: CByte := 69
  const UPPER_F: CByte := 70
  const LBRACKET: CByte := 91
  const BACKSLASH: CByte := 92
  const RBRACKET: CByte := 93
  const LOWER_A: CByte := 97
  const LOWER_B: CByte := 98
  const LOWER_E: CByte := 101
  const LOWER_F: CByte := 102
  const LOWER_N: CByte := 110
  const LOWER_R: CByte := 114
  const LOWER_T: CByte := 116
  const LOWER_U: CByte := 117
  const LBRACE: CByte := 123
  const RBRACE: CByte := 125

  /** "null", "true" and "false". */
  const NULL_TEXT: CString := [110, 117, 108, 108]
  const TRUE_TEXT: CString := [116, 114, 117, 101]
  const FALSE_TEXT: CString := [102, 97, 108, 115, 101]

  /** The C string held by a block of bytes: the part before the first NUL. */
  function CStr(block: seq<Byte>): (s: CString)
    ensures |s| <= |block|
    ensures forall i :: 0 <= i < |s| ==> s[i] == block[i]
    ensures |s| < |block| ==> block[|s|] == NUL
  {
    if block == [] || block[0] == NUL then [] else [block[0]] + CStr(block[1..])
  }

  lemma {:induction false} CStrOfNulFree(s: CString)
    ensures CStr(s) == s
  {
    if s != [] { CStrOfNulFree(s[1..]); }
  }

  lemma {:induction false} CStrOfTerminated(s: CString, junk: seq<Byte>)
    ensures CStr(s + [NUL] + junk) == s
  {
    var block := s + [NUL] + junk;
    if s != [] {
      assert block[1..] == s[1..] + [NUL] + junk;
      CStrOfTerminated(s[1..], junk);
    }
  }

  function Min(a: nat, b: nat): nat { if a < b then a else b }

  // ---- pieces of a text ----

  /** `word` stands at position `i`. */
  predicate Has(text: CString, i: nat, word: CString) {
    i + |word| <= |text| && text[i..i + |word|] == word
  }

  predicate At(text: CString, i: nat, c: CByte) {
    i < |text| && text[i] == c
  }

  lemma {:induction false} HasParts(text: CString, i: nat, a: CString, b: CString)
    requires Has(text, i, a + b)
    ensures Has(text, i, a) && Has(text, i + |a|, b)
  {
    assert text[i..i + |a|] == (a + b)[..|a|];
    assert text[i + |a|..i + |a| + |b|] == (a + b)[|a|..];
  }

  lemma {:induction false} HasThree(text: CString, i: nat, a: CString, b: CString, c: CString)
    requires Has(text, i, a + b + c)
    ensures Has(text, i, a) && Has(text, i + |a|, b) && Has(text, i + |a| + |b|, c)
  {
    hide Has;
    HasParts(text, i, a + b, c);
    HasParts(text, i, a, b);
  }

  lemma {:induction false} HasFirst(text: CString, i: nat, word: CString)
    requires Has(text, i, word) && word != []
    ensures i < |text| && text[i] == word[0]
  {
    assert text[i..i + |word|][0] == word[0];
  }
}
