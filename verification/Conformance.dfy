/** The parser reads exactly the texts of `Syntax`, in both directions. */
module Conformance {
  import opened Bytes
  import opened JsonTree
  import opened StringCodec
  import opened NumberCodec
  import opened Grammar
  import opened StringSyntax
  import opened NumberSyntax
  import opened Syntax
  import opened RoundTrip

  // ---- tokens ----

  lemma {:induction false} BlanksSkipped(text: CString, i: nat, j: nat)
    requires Blanks(text, i, j) && (j < |text| ==> text[j] > 32)
    ensures SkipBlanks(text, i) == j
    decreases j - i
  {
    if i < j { BlanksSkipped(text, i + 1, j); }
  }

  lemma {:induction false} BlanksJoin(text: CString, i: nat, j: nat, k: nat)
    requires Blanks(text, i, j) && Blanks(text, j, k)
    ensures Blanks(text, i, k)
  {
  }

  lemma {:induction false} WordIsThere(text: CString, i: nat, e: nat, word: CString)
    ensures WordAt(text, i, e, word) <==> Has(text, i, word) && e == i + |word|
  {
    if WordAt(text, i, e, word) { assert |text[i..e]| == e - i; }
  }

  lemma {:induction false} CStrIsUpToNul(bytes: seq<Byte>, s: CString)
    ensures CStr(bytes) == s <==> UpToNul(bytes, s)
  {
    var c := CStr(bytes);
    assert c == bytes[..|c|];
    if UpToNul(bytes, s) {
      if |s| == |bytes| {
        assert bytes == s;
        CStrOfNulFree(s);
      } else {
        assert bytes == s + [NUL] + bytes[|s| + 1..];
        CStrOfTerminated(s, bytes[|s| + 1..]);
      }
    }
  }

  lemma {:induction false} LiteralRange(text: CString, i: nat, e: nat, bytes: seq<Byte>)
    requires LiteralAt(text, i, e, bytes)
    ensures i + 2 <= e <= |text| && text[i] == 34
  {
  }

  /** The first byte of a value: never whitespace, and never a byte that closes or separates. */
  lemma {:induction false} ValueStarts(text: CString, i: nat, e: nat, t: Json)
    requires ValueAt(text, i, e, t)
    ensures i < e <= |text| && text[i] > 32 && text[i] !in {44, 58, 93, 125}
  {
    hide ItemsAt, MembersAt, NumberMeans, NumberText;
    match t
    case Null => assert text[i..e][0] == text[i];
    case Bool(b) => assert text[i..e][0] == text[i];
    case Num(_) => NumberStarts(text, i, e, t);
    case Real(_) => NumberStarts(text, i, e, t);
    case Str(s) =>
      var bytes :| LiteralAt(text, i, e, bytes) && UpToNul(bytes, s);
      LiteralRange(text, i, e, bytes);
    case _ =>
  }

  lemma {:induction false} NumberStarts(text: CString, i: nat, e: nat, t: Json)
    requires NumberAt(text, i, e, t)
    ensures text[i] == MINUS || IsDigit(text[i])
  {
    hide NumberMeans;
    var s := text[i..e];
    var a: nat, b: nat, c: nat :| a <= b <= c <= |s| && NumberParts(s, a, b, c);
    TokenStart(s, a, b, c);
    assert s[0] == text[i];
  }

  // ---- every text of a tree is read as that tree ----

  lemma {:induction false} NumberIsRead(text: CString, i: nat, e: nat, t: Json)
    requires NumberAt(text, i, e, t) && (e < |text| ==> !IsNumberByte(text[e]))
    ensures ReadNumber(text[i..]) == Some(ReadNum(t, e - i))
  {
    hide ReadNumber, NumberText, NumberMeans;
    TokenIsRead(text[i..e], text[e..], t);
    assert text[i..] == text[i..e] + text[e..];
  }

  lemma {:induction false} StringIsRead(text: CString, i: nat, e: nat, s: CString) returns (bytes: seq<Byte>)
    requires StringAt(text, i, e, s)
    ensures i + 2 <= e <= |text| && At(text, i, QUOTE)
    ensures ReadString(text[i..]) == Some(Read(bytes, e - i)) && CStr(bytes) == s
  {
    hide LiteralAt, UpToNul, ReadString;
    bytes :| LiteralAt(text, i, e, bytes) && UpToNul(bytes, s);
    LiteralRange(text, i, e, bytes);
    StringIsWhatTheLiteralDenotes(text, i, e, bytes);
    CStrIsUpToNul(bytes, s);
  }

  /** Behind a number stands nothing that it could go on with. */
  predicate Stops(text: CString, e: nat, t: Json) {
    (t.Num? || t.Real?) && e < |text| ==> !IsNumberByte(text[e])
  }

  lemma {:induction false} ScalarIsRead(text: CString, i: nat, e: nat, t: Json, depth: nat)
    requires ValueAt(text, i, e, t) && !t.Arr? && !t.Obj? && Stops(text, e, t)
    ensures i < e <= |text| && ReadValue(text, i, depth) == Some(ReadTree(t, e))
  {
    hide Has, WordAt, StringAt, NumberAt, ReadString, ReadNumber, ReadArray, ReadObject;
    ValueStarts(text, i, e, t);
    WordsStart(text, i);
    match t
    case Null => WordIsThere(text, i, e, NULL_TEXT);
    case Bool(b) =>
      WordIsThere(text, i, e, TRUE_TEXT);
      WordIsThere(text, i, e, FALSE_TEXT);
    case Str(s) => var _ := StringIsRead(text, i, e, s);
    case _ =>
      NumberStarts(text, i, e, t);
      NumberIsRead(text, i, e, t);
  }

  /**
   * Wherever a text of a tree stands in an input, and nothing follows that a number could go on with, the parser
   * reads that tree and stops at its end.
   */
  lemma {:induction false} ValueIsRead(text: CString, i: nat, e: nat, t: Json, depth: nat)
    requires ValueAt(text, i, e, t) && depth + Nesting(t) <= NESTING_LIMIT && Stops(text, e, t)
    ensures i < e <= |text| && ReadValue(text, i, depth) == Some(ReadTree(t, e))
    decreases t, 0
  {
    hide ReadArray, ReadObject, ReadString, ReadNumber;
    ValueStarts(text, i, e, t);
    if t.Arr? {
      WordsStart(text, i);
      ArrayIsRead(text, i, e, t.items, depth);
    } else if t.Obj? {
      WordsStart(text, i);
      ObjectIsRead(text, i, e, t.members, depth);
    } else {
      ScalarIsRead(text, i, e, t, depth);
    }
  }

  lemma {:induction false} ArrayIsRead(text: CString, i: nat, e: nat, items: seq<Json>, depth: nat)
    requires ValueAt(text, i, e, Arr(items)) && depth + 1 + NestingOfItems(items) <= NESTING_LIMIT
    ensures i < e <= |text| && ReadArray(text, i, depth) == Some(ReadTree(Arr(items), e))
    decreases items, 5
  {
    hide ItemsAt, ReadElements, NestingOfItems;
    if items == [] {
      BlanksSkipped(text, i + 1, e - 1);
    } else {
      var start := ItemsFromFirst(text, i + 1, e, items);
      ItemsAreRead(text, start, e, items, depth + 1);
    }
  }

  /** The blanks in front of the first element may be skipped. */
  lemma {:induction false} ItemsFromFirst(text: CString, i: nat, e: nat, items: seq<Json>) returns (start: nat)
    requires items != [] && ItemsAt(text, i, e, items)
    ensures i <= |text| && start == SkipBlanks(text, i) < |text| && text[start] != RBRACKET
    ensures ItemsAt(text, start, e, items)
  {
    hide ValueAt;
    var c: nat :| && c < e <= |text| && ElementAt(text, i, c, items[0])
                  && if |items| == 1 then text[c] == 93 && e == c + 1
                     else text[c] == 44 && ItemsAt(text, c + 1, e, items[1..]);
    var a: nat, b: nat :| Blanks(text, i, a) && ValueAt(text, a, b, items[0]) && Blanks(text, b, c);
    ValueStarts(text, a, b, items[0]);
    BlanksSkipped(text, i, a);
    start := a;
    assert Blanks(text, a, a);
    assert ElementAt(text, a, c, items[0]);
  }

  lemma {:induction false} ElementIsRead(text: CString, i: nat, c: nat, v: Json, depth: nat)
    requires ElementAt(text, i, c, v) && depth + Nesting(v) <= NESTING_LIMIT
    requires c < |text| && (text[c] == COMMA || text[c] == RBRACKET)
    ensures i <= |text| && ReadElement(text, i, depth) == Some(ReadTree(v, c))
    decreases v, 1
  {
    hide ValueAt, ReadValue;
    var a: nat, b: nat :| Blanks(text, i, a) && ValueAt(text, a, b, v) && Blanks(text, b, c);
    ValueStarts(text, a, b, v);
    BlanksSkipped(text, i, a);
    BlanksSkipped(text, b, c);
    ValueIsRead(text, a, b, v, depth);
  }

  lemma {:induction false} ItemsAreRead(text: CString, i: nat, e: nat, items: seq<Json>, depth: nat)
    requires items != [] && ItemsAt(text, i, e, items) && depth + NestingOfItems(items) <= NESTING_LIMIT
    ensures i <= |text| && ReadElements(text, i, depth) == Some(ReadItems(items, e))
    decreases items, 2
  {
    hide ElementAt, ReadElement, Nesting;
    var c: nat :| && c < e <= |text| && ElementAt(text, i, c, items[0])
                  && if |items| == 1 then text[c] == 93 && e == c + 1
                     else text[c] == 44 && ItemsAt(text, c + 1, e, items[1..]);
    ElementIsRead(text, i, c, items[0], depth);
    assert items == [items[0]] + items[1..] && (|items| == 1 ==> items == [items[0]]);
    if |items| > 1 {
      ItemsAreRead(text, c + 1, e, items[1..], depth);
    }
  }

  lemma {:induction false} ObjectIsRead(text: CString, i: nat, e: nat, members: seq<Member>, depth: nat)
    requires ValueAt(text, i, e, Obj(members)) && depth + 1 + NestingOfMembers(members) <= NESTING_LIMIT
    ensures i < e <= |text| && ReadObject(text, i, depth) == Some(ReadTree(Obj(members), e))
    decreases members, 5
  {
    hide MembersAt, ReadEntries, NestingOfMembers;
    if members == [] {
      BlanksSkipped(text, i + 1, e - 1);
    } else {
      var start := MembersFromFirst(text, i + 1, e, members);
      MembersAreRead(text, start, e, members, depth + 1);
    }
  }

  lemma {:induction false} MembersFromFirst(text: CString, i: nat, e: nat, members: seq<Member>) returns (start: nat)
    requires members != [] && MembersAt(text, i, e, members)
    ensures i <= |text| && start == SkipBlanks(text, i) < |text| && text[start] != RBRACE
    ensures MembersAt(text, start, e, members)
  {
    hide KeyAt, ValueAt;
    var c: nat :| && c < e <= |text| && PairAt(text, i, c, members[0])
                  && if |members| == 1 then text[c] == 125 && e == c + 1
                     else text[c] == 44 && MembersAt(text, c + 1, e, members[1..]);
    var a: nat, b: nat :| KeyAt(text, i, a, members[0].key) && ValueAt(text, a, b, members[0].value) && Blanks(text, b, c);
    start := KeyFromFirst(text, i, a, members[0].key);
    assert PairAt(text, start, c, members[0]);
  }

  lemma {:induction false} KeyFromFirst(text: CString, i: nat, e: nat, key: CString) returns (start: nat)
    requires KeyAt(text, i, e, key)
    ensures i <= |text| && start == SkipBlanks(text, i) < |text| && text[start] == QUOTE
    ensures KeyAt(text, start, e, key)
  {
    hide StringAt;
    var a: nat, b: nat, c: nat :| && Blanks(text, i, a) && StringAt(text, a, b, key) && Blanks(text, b, c)
                                  && c < e <= |text| && text[c] == 58 && Blanks(text, c + 1, e);
    var _ := StringIsRead(text, a, b, key);
    BlanksSkipped(text, i, a);
    start := a;
    assert Blanks(text, a, a);
  }

  lemma {:induction false} KeyIsRead(text: CString, i: nat, e: nat, key: CString)
    requires KeyAt(text, i, e, key) && e < |text| && text[e] > 32
    ensures i <= |text| && ReadKey(text, i).Some?
    ensures ReadKey(text, i).value.next == e && CStr(ReadKey(text, i).value.bytes) == key
  {
    hide StringAt, ReadString, SkipBlanks;
    var a: nat, b: nat, c: nat :| && Blanks(text, i, a) && StringAt(text, a, b, key) && Blanks(text, b, c)
                                  && c < e <= |text| && text[c] == 58 && Blanks(text, c + 1, e);
    var _ := StringIsRead(text, a, b, key);
    BlanksSkipped(text, i, a);
    BlanksSkipped(text, b, c);
    BlanksSkipped(text, c + 1, e);
    KeyByParts(text, i, a, b, c);
  }

  lemma {:induction false} KeyByParts(text: CString, i: nat, a: nat, b: nat, c: nat)
    requires i <= a <= b <= c < |text| && SkipBlanks(text, i) == a && SkipBlanks(text, b) == c && text[c] == COLON
    requires ReadString(text[a..]).Some? && ReadString(text[a..]).value.consumed == b - a
    ensures ReadKey(text, i) == Some(ReadName(ReadString(text[a..]).value.bytes, SkipBlanks(text, c + 1)))
  {
    hide ReadString, SkipBlanks;
  }

  lemma {:induction false} EntryIsRead(text: CString, i: nat, c: nat, m: Member, depth: nat)
    requires PairAt(text, i, c, m) && depth + Nesting(m.value) <= NESTING_LIMIT
    requires c < |text| && (text[c] == COMMA || text[c] == RBRACE)
    ensures i <= |text| && ReadEntry(text, i, depth) == Some(ReadPair(m, c))
    decreases m, 1
  {
    hide KeyAt, ValueAt, ReadKey, ReadValue;
    var a: nat, b: nat :| KeyAt(text, i, a, m.key) && ValueAt(text, a, b, m.value) && Blanks(text, b, c);
    ValueStarts(text, a, b, m.value);
    KeyIsRead(text, i, a, m.key);
    BlanksSkipped(text, b, c);
    ValueIsRead(text, a, b, m.value, depth);
  }

  lemma {:induction false} MembersAreRead(text: CString, i: nat, e: nat, members: seq<Member>, depth: nat)
    requires members != [] && MembersAt(text, i, e, members) && depth + NestingOfMembers(members) <= NESTING_LIMIT
    ensures i <= |text| && ReadEntries(text, i, depth) == Some(ReadMembers(members, e))
    decreases members, 2
  {
    hide PairAt, ReadEntry, Nesting;
    var c: nat :| && c < e <= |text| && PairAt(text, i, c, members[0])
                  && if |members| == 1 then text[c] == 125 && e == c + 1
                     else text[c] == 44 && MembersAt(text, c + 1, e, members[1..]);
    EntryIsRead(text, i, c, members[0], depth);
    assert members == [members[0]] + members[1..] && (|members| == 1 ==> members == [members[0]]);
    if |members| > 1 {
      MembersAreRead(text, c + 1, e, members[1..], depth);
    }
  }

  // ---- nothing else is read ----

  lemma {:induction false} SkippedIsBlank(text: CString, i: nat)
    requires i <= |text|
    ensures Blanks(text, i, SkipBlanks(text, i))
  {
  }

  lemma {:induction false} ReadIsString(text: CString, i: nat)
    requires i <= |text| && ReadString(text[i..]).Some?
    ensures var r := ReadString(text[i..]).value; StringAt(text, i, i + r.consumed, CStr(r.bytes))
  {
    hide ReadString, LiteralAt, UpToNul;
    var r := ReadString(text[i..]).value;
    StringIsWhatTheLiteralDenotes(text, i, i + r.consumed, r.bytes);
    CStrIsUpToNul(r.bytes, CStr(r.bytes));
  }

  lemma {:induction false} ReadIsNumber(text: CString, i: nat)
    requires i < |text| && ReadNumber(text[i..]).Some? && (text[i] == MINUS || IsDigit(text[i]))
    ensures var n := ReadNumber(text[i..]).value; NumberAt(text, i, i + n.consumed, n.value)
  {
    hide ReadNumber, NumberText, NumberMeans;
    var n := ReadNumber(text[i..]).value;
    ReadIsToken(text[i..]);
    assert text[i..][..n.consumed] == text[i..i + n.consumed];
  }

  /** Whatever the parser reads as a tree is a text of that tree. */
  lemma {:induction false} ReadIsValue(text: CString, i: nat, depth: nat)
    requires i <= |text| && ReadValue(text, i, depth).Some?
    ensures var v := ReadValue(text, i, depth).value; ValueAt(text, i, v.next, v.value)
    decreases |text| - i, 1
  {
    hide Has, ReadString, ReadNumber, ReadArray, ReadObject, StringAt, NumberAt;
    var v := ReadValue(text, i, depth).value;
    if Has(text, i, NULL_TEXT) {
      WordIsThere(text, i, v.next, NULL_TEXT);
    } else if Has(text, i, FALSE_TEXT) {
      WordIsThere(text, i, v.next, FALSE_TEXT);
    } else if Has(text, i, TRUE_TEXT) {
      WordIsThere(text, i, v.next, TRUE_TEXT);
    } else if text[i] == QUOTE {
      ReadIsString(text, i);
    } else if text[i] == MINUS || IsDigit(text[i]) {
      ReadIsNumber(text, i);
    } else if text[i] == LBRACKET {
      ReadIsArray(text, i, depth);
    } else {
      ReadIsObject(text, i, depth);
    }
  }

  lemma {:induction false} ReadIsArray(text: CString, i: nat, depth: nat)
    requires At(text, i, LBRACKET) && ReadArray(text, i, depth).Some?
    ensures var v := ReadArray(text, i, depth).value; v.value.Arr? && ValueAt(text, i, v.next, v.value)
    decreases |text| - i, 0
  {
    hide ItemsAt, ReadElements;
    var start := SkipBlanks(text, i + 1);
    SkippedIsBlank(text, i + 1);
    if !At(text, start, RBRACKET) {
      ReadIsItems(text, start, depth + 1);
      var r := ReadElements(text, start, depth + 1).value;
      ItemsAfterBlanks(text, i + 1, start, r.next, r.items);
    }
  }

  lemma {:induction false} ItemsAfterBlanks(text: CString, i: nat, j: nat, e: nat, items: seq<Json>)
    requires items != [] && Blanks(text, i, j) && ItemsAt(text, j, e, items)
    ensures ItemsAt(text, i, e, items)
  {
    hide ValueAt, Blanks;
    var c: nat :| && c < e <= |text| && ElementAt(text, j, c, items[0])
                  && if |items| == 1 then text[c] == 93 && e == c + 1
                     else text[c] == 44 && ItemsAt(text, c + 1, e, items[1..]);
    var a: nat, b: nat :| Blanks(text, j, a) && ValueAt(text, a, b, items[0]) && Blanks(text, b, c);
    BlanksJoin(text, i, j, a);
    assert ElementAt(text, i, c, items[0]);
  }

  lemma {:induction false} ReadIsElement(text: CString, i: nat, depth: nat)
    requires i <= |text| && ReadElement(text, i, depth).Some?
    ensures var v := ReadElement(text, i, depth).value; ElementAt(text, i, v.next, v.value)
    decreases |text| - i, 2
  {
    hide ValueAt, ReadValue, Blanks;
    var a := SkipBlanks(text, i);
    var v := ReadValue(text, a, depth).value;
    ReadIsValue(text, a, depth);
    SkippedIsBlank(text, i);
    SkippedIsBlank(text, v.next);
    assert Blanks(text, i, a) && ValueAt(text, a, v.next, v.value);
  }

  lemma {:induction false} ReadIsItems(text: CString, i: nat, depth: nat)
    requires i <= |text| && ReadElements(text, i, depth).Some?
    ensures var r := ReadElements(text, i, depth).value; r.items != [] && ItemsAt(text, i, r.next, r.items)
    decreases |text| - i, 3
  {
    hide ElementAt, ReadElement;
    var v := ReadElement(text, i, depth).value;
    var r := ReadElements(text, i, depth).value;
    ReadIsElement(text, i, depth);
    if At(text, v.next, COMMA) {
      ReadIsItems(text, v.next + 1, depth);
      assert r.items[1..] == ReadElements(text, v.next + 1, depth).value.items;
    }
    assert ElementAt(text, i, v.next, r.items[0]);
  }

  lemma {:induction false} ReadIsObject(text: CString, i: nat, depth: nat)
    requires At(text, i, LBRACE) && ReadObject(text, i, depth).Some?
    ensures var v := ReadObject(text, i, depth).value; v.value.Obj? && ValueAt(text, i, v.next, v.value)
    decreases |text| - i, 0
  {
    hide MembersAt, ReadEntries;
    var start := SkipBlanks(text, i + 1);
    SkippedIsBlank(text, i + 1);
    if !At(text, start, RBRACE) {
      ReadIsMembers(text, start, depth + 1);
      var r := ReadEntries(text, start, depth + 1).value;
      MembersAfterBlanks(text, i + 1, start, r.next, r.members);
    }
  }

  lemma {:induction false} MembersAfterBlanks(text: CString, i: nat, j: nat, e: nat, members: seq<Member>)
    requires members != [] && Blanks(text, i, j) && MembersAt(text, j, e, members)
    ensures MembersAt(text, i, e, members)
  {
    hide KeyAt, ValueAt, Blanks;
    var c: nat :| && c < e <= |text| && PairAt(text, j, c, members[0])
                  && if |members| == 1 then text[c] == 125 && e == c + 1
                     else text[c] == 44 && MembersAt(text, c + 1, e, members[1..]);
    var a: nat, b: nat :| KeyAt(text, j, a, members[0].key) && ValueAt(text, a, b, members[0].value) && Blanks(text, b, c);
    KeyAfterBlanks(text, i, j, a, members[0].key);
    assert PairAt(text, i, c, members[0]);
  }

  lemma {:induction false} KeyAfterBlanks(text: CString, i: nat, j: nat, e: nat, key: CString)
    requires Blanks(text, i, j) && KeyAt(text, j, e, key)
    ensures KeyAt(text, i, e, key)
  {
    hide StringAt, Blanks;
    var a: nat, b: nat, c: nat :| && Blanks(text, j, a) && StringAt(text, a, b, key) && Blanks(text, b, c)
                                  && c < e <= |text| && text[c] == 58 && Blanks(text, c + 1, e);
    BlanksJoin(text, i, j, a);
  }

  lemma {:induction false} ReadIsKey(text: CString, i: nat)
    requires i <= |text| && ReadKey(text, i).Some?
    ensures var k := ReadKey(text, i).value; KeyAt(text, i, k.next, CStr(k.bytes))
  {
    hide StringAt, ReadString, Blanks;
    var a := SkipBlanks(text, i);
    var b := a + ReadString(text[a..]).value.consumed;
    var c := SkipBlanks(text, b);
    SkippedIsBlank(text, i);
    ReadIsString(text, a);
    SkippedIsBlank(text, b);
    SkippedIsBlank(text, c + 1);
  }

  lemma {:induction false} ReadIsEntry(text: CString, i: nat, depth: nat)
    requires i <= |text| && ReadEntry(text, i, depth).Some?
    ensures var p := ReadEntry(text, i, depth).value; PairAt(text, i, p.next, p.member)
    decreases |text| - i, 2
  {
    hide KeyAt, ValueAt, ReadKey, ReadValue, Blanks;
    var a := ReadKey(text, i).value.next;
    ReadIsKey(text, i);
    ReadIsValue(text, a, depth);
    SkippedIsBlank(text, ReadValue(text, a, depth).value.next);
  }

  lemma {:induction false} ReadIsMembers(text: CString, i: nat, depth: nat)
    requires i <= |text| && ReadEntries(text, i, depth).Some?
    ensures var r := ReadEntries(text, i, depth).value; r.members != [] && MembersAt(text, i, r.next, r.members)
    decreases |text| - i, 3
  {
    hide PairAt, ReadEntry;
    var p := ReadEntry(text, i, depth).value;
    var r := ReadEntries(text, i, depth).value;
    ReadIsEntry(text, i, depth);
    if At(text, p.next, COMMA) {
      ReadIsMembers(text, p.next + 1, depth);
      assert r.members[1..] == ReadEntries(text, p.next + 1, depth).value.members;
    }
    assert PairAt(text, i, p.next, r.members[0]);
  }

  // ---- whole texts ----

  lemma {:induction false} MarkIsMarkLength(text: CString, m: nat, a: nat)
    requires MarkAt(text, m) && Blanks(text, m, a) && a < |text| && text[a] != 0xEF
    ensures MarkLength(text) == m
  {
    assert m == 3 ==> text[0] == text[..3][0] && text[1] == text[..3][1] && text[2] == text[..3][2];
  }

  lemma {:induction false} ValueStartsLow(text: CString, i: nat, e: nat, t: Json)
    requires ValueAt(text, i, e, t)
    ensures i < |text| && text[i] < 128
  {
    hide ItemsAt, MembersAt, NumberMeans, NumberText;
    match t
    case Null => assert text[i..e][0] == text[i];
    case Bool(b) => assert text[i..e][0] == text[i];
    case Num(_) => NumberStarts(text, i, e, t);
    case Real(_) => NumberStarts(text, i, e, t);
    case Str(s) =>
      var bytes :| LiteralAt(text, i, e, bytes) && UpToNul(bytes, s);
      LiteralRange(text, i, e, bytes);
    case _ =>
  }

  /** A text that starts with a tree is read as that tree, unless something follows that a number could go on with. */
  lemma {:induction false} StartIsRead(text: CString, e: nat, t: Json)
    requires StartsWith(text, e, t) && Nesting(t) <= 1000 && Stops(text, e, t)
    ensures e <= |text| && ReadText(text, false) == Some(ReadTree(t, e))
    ensures ReadText(text, true) == if SkipBlanks(text, e) == |text| then Some(ReadTree(t, |text|)) else None
  {
    hide ValueAt, ReadValue, MarkAt;
    var m: nat, a: nat :| MarkAt(text, m) && Blanks(text, m, a) && ValueAt(text, a, e, t);
    ValueStarts(text, a, e, t);
    ValueStartsLow(text, a, e, t);
    MarkIsMarkLength(text, m, a);
    BlanksSkipped(text, m, a);
    ValueIsRead(text, a, e, t, 0);
  }

  /** Whatever follows it, a text that starts with a tree is not refused. */
  lemma {:induction false} StartIsNotRefused(text: CString, e: nat, t: Json)
    requires StartsWith(text, e, t) && Nesting(t) <= 1000
    ensures ReadText(text, false).Some?
  {
    hide ValueAt, ReadValue, MarkAt;
    if Stops(text, e, t) {
      StartIsRead(text, e, t);
    } else {
      var m: nat, a: nat :| MarkAt(text, m) && Blanks(text, m, a) && ValueAt(text, a, e, t);
      ValueStarts(text, a, e, t);
      ValueStartsLow(text, a, e, t);
      MarkIsMarkLength(text, m, a);
      BlanksSkipped(text, m, a);
      SomeNumberIsRead(text, a, e, t, 0);
    }
  }

  /** Where a number stands, some number is read, if not that one. */
  lemma {:induction false} SomeNumberIsRead(text: CString, i: nat, e: nat, t: Json, depth: nat)
    requires ValueAt(text, i, e, t) && (t.Num? || t.Real?)
    ensures i <= |text| && ReadValue(text, i, depth).Some?
  {
    hide ReadString, NumberText, NumberMeans, Has;
    NumberStarts(text, i, e, t);
    WordsStart(text, i);
    PrefixIsRead(text[i..e], text[e..]);
    assert text[i..] == text[i..e] + text[e..];
  }

  /** A text is refused without asking for the end exactly when it starts with no tree that is shallow enough. */
  lemma {:induction false} RefusedStarts(text: CString)
    ensures ReadText(text, false) == None <==> forall e: nat, t :: !(StartsWith(text, e, t) && Nesting(t) <= 1000)
  {
    hide StartsWith, ReadValue, Nesting;
    if ReadText(text, false) == None {
      forall e: nat, t ensures !(StartsWith(text, e, t) && Nesting(t) <= 1000) {
        if StartsWith(text, e, t) && Nesting(t) <= 1000 { StartIsNotRefused(text, e, t); }
      }
    } else {
      ReadIsStart(text);
    }
  }

  /** And what is read without asking for the end is what the text starts with. */
  lemma {:induction false} ReadIsStart(text: CString)
    requires ReadText(text, false).Some?
    ensures var r := ReadText(text, false).value; StartsWith(text, r.next, r.value) && Nesting(r.value) <= 1000
  {
    hide ValueAt, ReadValue, Nesting;
    var m := MarkLength(text);
    var a := SkipBlanks(text, m);
    SkippedIsBlank(text, m);
    ReadIsValue(text, a, 0);
    AcceptedNesting(text, a, 0);
    assert m == 3 ==> text[..3] == [0xEF, 0xBB, 0xBF];
  }

  /**
   * With the end asked for, the texts that are read as a tree are exactly its texts, as long as it is nested at most
   * a thousand deep.
   */
  lemma {:induction false} ParserMeetsTheSyntax(text: CString, t: Json)
    ensures ReadText(text, true) == Some(ReadTree(t, |text|)) <==> IsTextOf(text, t) && Nesting(t) <= 1000
  {
    hide StartsWith, ReadValue, Nesting;
    if IsTextOf(text, t) && Nesting(t) <= 1000 {
      var e: nat :| StartsWith(text, e, t) && Blanks(text, e, |text|);
      BlanksSkipped(text, e, |text|);
      StartIsRead(text, e, t);
    }
    if ReadText(text, true) == Some(ReadTree(t, |text|)) {
      var e := ReadText(text, false).value.next;
      ReadIsStart(text);
      SkippedIsBlank(text, e);
    }
  }

  /** A text is refused exactly when it is no text of any tree that is shallow enough. */
  lemma {:induction false} RefusedTexts(text: CString)
    ensures ReadText(text, true) == None <==> forall t :: !(IsTextOf(text, t) && Nesting(t) <= 1000)
  {
    hide IsTextOf, ReadValue, Nesting;
    if ReadText(text, true) == None {
      forall t ensures !(IsTextOf(text, t) && Nesting(t) <= 1000) {
        ParserMeetsTheSyntax(text, t);
      }
    } else {
      ParserMeetsTheSyntax(text, ReadText(text, true).value.value);
    }
  }
}
