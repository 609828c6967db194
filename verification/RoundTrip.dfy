/** Printing a tree and parsing the text gives the tree back; parsing and printing any text normalises it. */
module RoundTrip {
  import opened Bytes
  import opened JsonTree
  import opened StringCodec
  import opened NumberCodec
  import opened Layout
  import opened Grammar

  predicate AllBlank(s: CString) {
    forall k :: 0 <= k < |s| ==> s[k] <= 32
  }

  lemma {:induction false} SkipOver(text: CString, i: nat, gap: CString)
    requires Has(text, i, gap) && AllBlank(gap)
    requires i + |gap| < |text| ==> text[i + |gap|] > 32
    ensures SkipBlanks(text, i) == i + |gap|
    decreases |gap|
  {
    if gap != [] {
      HasFirst(text, i, gap);
      assert gap == gap[..1] + gap[1..];
      HasParts(text, i, gap[..1], gap[1..]);
      SkipOver(text, i + 1, gap[1..]);
    }
  }

  /** A number that stops at `i` is not made longer by what follows. */
  predicate EndsNumber(text: CString, i: nat) {
    i < |text| ==> !IsNumberByte(text[i])
  }

  lemma {:induction false} LiteralHere(text: CString, i: nat, s: CString)
    requires Has(text, i, Quoted(s))
    ensures ReadString(text[i..]) == Some(Read(s, |Quoted(s)|))
    ensures CStr(s) == s
  {
    hide ReadString, Quoted;
    var rest := text[i + |Quoted(s)|..];
    assert text[i..] == Quoted(s) + rest;
    StringRoundTrip(s, rest);
    CStrOfNulFree(s);
  }

  lemma {:induction false} NumberHere(text: CString, i: nat, n: SmallInt)
    requires Has(text, i, Decimal(n)) && EndsNumber(text, i + |Decimal(n)|)
    ensures ReadNumber(text[i..]) == Some(ReadNum(Num(n), |Decimal(n)|))
  {
    hide ReadNumber, Decimal;
    var rest := text[i + |Decimal(n)|..];
    assert text[i..] == Decimal(n) + rest;
    NumberRoundTrip(n, rest);
  }

  // ---- values ----

  /** Which of the alternatives of parse_value is taken is decided by the first byte. */
  lemma {:induction false} WordsStart(text: CString, i: nat)
    ensures Has(text, i, NULL_TEXT) ==> At(text, i, LOWER_N)
    ensures Has(text, i, FALSE_TEXT) ==> At(text, i, LOWER_F)
    ensures Has(text, i, TRUE_TEXT) ==> At(text, i, LOWER_T)
  {
    if Has(text, i, NULL_TEXT) { HasFirst(text, i, NULL_TEXT); }
    if Has(text, i, FALSE_TEXT) { HasFirst(text, i, FALSE_TEXT); }
    if Has(text, i, TRUE_TEXT) { HasFirst(text, i, TRUE_TEXT); }
  }

  lemma {:induction false} ValueRoundTrip(t: Json, format: bool, depth: nat, open: nat, text: CString, i: nat)
    requires Printable(t) && open + Nesting(t) <= NESTING_LIMIT
    requires Has(text, i, Text(t, format, depth)) && EndsNumber(text, i + |Text(t, format, depth)|)
    ensures i < |text| && ReadValue(text, i, open) == Some(ReadTree(t, i + |Text(t, format, depth)|))
    decreases t
  {
    hide ReadString, ReadNumber, ReadArray, ReadObject, Decimal, Escape, Has, ItemsText, MembersText, Tabs;
    HasFirst(text, i, Text(t, format, depth));
    WordsStart(text, i);
    match t
    case Null =>
    case Bool(b) =>
    case Num(n) => NumberHere(text, i, n);
    case Str(s) => LiteralHere(text, i, s);
    case Arr(items) => ArrayRoundTrip(items, format, depth, open, text, i);
    case Obj(members) => ObjectRoundTrip(members, format, depth, open, text, i);
  }

  // ---- arrays ----

  lemma {:induction false} ArrayRoundTrip(items: seq<Json>, format: bool, depth: nat, open: nat, text: CString, i: nat)
    requires PrintableItems(items) && open + 1 + NestingOfItems(items) <= NESTING_LIMIT
    requires Has(text, i, Text(Arr(items), format, depth)) && i < |text|
    ensures ReadArray(text, i, open) == Some(ReadTree(Arr(items), i + |Text(Arr(items), format, depth)|))
    decreases items, 1
  {
    hide ReadElements, Has;
    var body := ItemsText(items, format, depth + 1);
    HasThree(text, i, [LBRACKET], body, [RBRACKET]);
    HasFirst(text, i + 1 + |body|, [RBRACKET]);
    if items != [] {
      HasFirst(text, i + 1, body);
      TextStart(items[0], format, depth + 1);
      ItemsRoundTrip(items, format, depth + 1, open + 1, text, i + 1, i + 1);
    }
  }

  lemma {:induction false} ElementHere(text: CString, from: nat, i: nat, end: nat, open: nat, v: Json)
    requires from <= i <= |text| && SkipBlanks(text, from) == i
    requires ReadValue(text, i, open) == Some(ReadTree(v, end))
    requires end < |text| && text[end] > 32
    ensures ReadElement(text, from, open) == Some(ReadTree(v, end))
  {
    hide ReadValue;
  }

  lemma {:induction false} ElementsStep(text: CString, from: nat, end: nat, open: nat, v: Json)
    requires from <= |text| && ReadElement(text, from, open) == Some(ReadTree(v, end)) && end < |text|
    ensures text[end] == RBRACKET ==> ReadElements(text, from, open) == Some(ReadItems([v], end + 1))
    ensures text[end] == COMMA && ReadElements(text, end + 1, open).Some? ==>
              var e := ReadElements(text, end + 1, open).value;
              ReadElements(text, from, open) == Some(ReadItems([v] + e.items, e.next))
  {
    hide ReadElement;
  }

  /** Where the pieces of a list of items are: the first value, the separator, and the other items. */
  lemma {:induction false} ItemsPieces(items: seq<Json>, format: bool, depth: nat, text: CString, i: nat)
    returns (end: nat, next: nat)
    requires items != [] && PrintableItems(items)
    requires Has(text, i, ItemsText(items, format, depth)) && At(text, i + |ItemsText(items, format, depth)|, RBRACKET)
    ensures end == i + |Text(items[0], format, depth)| && Has(text, i, Text(items[0], format, depth))
    ensures end < |text| && text[end] > 32 && !IsNumberByte(text[end])
    ensures items[1..] == [] ==> text[end] == RBRACKET && end == i + |ItemsText(items, format, depth)|
    ensures items[1..] != [] ==>
              && text[end] == COMMA && end < next < |text| && SkipBlanks(text, end + 1) == next
              && Has(text, next, ItemsText(items[1..], format, depth))
              && next + |ItemsText(items[1..], format, depth)| == i + |ItemsText(items, format, depth)|
  {
    hide Has, Text, ItemsText;
    end, next := ItemsParts(items, format, depth, text, i);
    if items[1..] != [] {
      HasParts(text, end, [COMMA], SpaceIf(format));
      HasFirst(text, end, [COMMA]);
      ItemsStart(items[1..], format, depth);
      HasFirst(text, next, ItemsText(items[1..], format, depth));
      SkipOver(text, end + 1, SpaceIf(format));
    } else {
      ItemsTextOfNone(format, depth);
    }
  }

  lemma {:induction false} ItemsRoundTrip(items: seq<Json>, format: bool, depth: nat, open: nat, text: CString,
                                          from: nat, i: nat)
    requires items != [] && PrintableItems(items) && open + NestingOfItems(items) <= NESTING_LIMIT
    requires from <= i < |text| && SkipBlanks(text, from) == i
    requires Has(text, i, ItemsText(items, format, depth)) && At(text, i + |ItemsText(items, format, depth)|, RBRACKET)
    ensures ReadElements(text, from, open) == Some(ReadItems(items, i + |ItemsText(items, format, depth)| + 1))
    decreases items, 0
  {
    hide ReadElements, ReadElement, ReadValue, Has, Text, ItemsText, NestingOfItems, Nesting, SkipBlanks,
      Printable, PrintableItems;
    UnfoldItems(items, format, depth);
    var end, next := ItemsPieces(items, format, depth, text, i);
    ValueRoundTrip(items[0], format, depth, open, text, i);
    ElementHere(text, from, i, end, open, items[0]);
    ElementsStep(text, from, end, open, items[0]);
    if items[1..] != [] {
      ItemsRoundTrip(items[1..], format, depth, open, text, end + 1, next);
    }
  }

  lemma {:induction false} ItemsStart(items: seq<Json>, format: bool, depth: nat)
    requires items != [] && PrintableItems(items)
    ensures ItemsText(items, format, depth) != [] && ItemsText(items, format, depth)[0] > 32
  {
    TextStart(items[0], format, depth);
  }

  // ---- objects ----

  lemma {:induction false} ObjectRoundTrip(members: seq<Member>, format: bool, depth: nat, open: nat, text: CString,
                                           i: nat)
    requires PrintableMembers(members) && open + 1 + NestingOfMembers(members) <= NESTING_LIMIT
    requires Has(text, i, Text(Obj(members), format, depth)) && i < |text|
    ensures ReadObject(text, i, open) == Some(ReadTree(Obj(members), i + |Text(Obj(members), format, depth)|))
    decreases members, 1
  {
    hide ReadEntries, Has, MembersText, Text, SkipBlanks, Tabs;
    var start, end := ObjectPieces(members, format, depth, text, i);
    ObjectStart(members, format, depth, text, i + 1, start);
    ItemsTextOfNone(format, depth + 1);
    if members != [] {
      MembersRoundTrip(members, format, depth + 1, open + 1, text, SkipBlanks(text, i + 1), start, Indent(format, depth));
    }
  }

  /** Where the pieces of an object are: the members, the last indentation and the closing brace. */
  lemma {:induction false} ObjectPieces(members: seq<Member>, format: bool, depth: nat, text: CString, i: nat)
    returns (start: nat, end: nat)
    requires PrintableMembers(members) && Has(text, i, Text(Obj(members), format, depth))
    ensures i + 1 <= start <= end < |text| && start == i + 1 + |NewlineIf(format)|
    ensures Has(text, i + 1, NewlineIf(format)) && Has(text, start, MembersText(members, format, depth + 1))
    ensures end == start + |MembersText(members, format, depth + 1)|
    ensures Has(text, end, Indent(format, depth)) && At(text, end + |Indent(format, depth)|, RBRACE)
    ensures i + |Text(Obj(members), format, depth)| == end + |Indent(format, depth)| + 1
  {
    hide Has, Text, MembersText, Tabs;
    var head := ObjectOpen(format);
    var body := MembersText(members, format, depth + 1);
    var indent := Indent(format, depth);
    UnfoldObject(members, format, depth);
    start, end := i + |head|, i + |head| + |body|;
    HasThree(text, i, head, body, indent + [RBRACE]);
    HasParts(text, i, [LBRACE], NewlineIf(format));
    HasParts(text, end, indent, [RBRACE]);
    HasFirst(text, end + |indent|, [RBRACE]);
  }

  /** The first byte inside the braces that is no whitespace. */
  lemma {:induction false} ObjectStart(members: seq<Member>, format: bool, depth: nat, text: CString, i: nat,
                       start: nat)
    requires PrintableMembers(members) && start == i + |NewlineIf(format)|
    requires Has(text, i, NewlineIf(format)) && Has(text, start, MembersText(members, format, depth + 1))
    requires var end := start + |MembersText(members, format, depth + 1)|;
             Has(text, end, Indent(format, depth)) && At(text, end + |Indent(format, depth)|, RBRACE)
    ensures members == [] ==> SkipBlanks(text, i) == start + |Indent(format, depth)|
    ensures members != [] ==>
              SkipBlanks(text, i) == start + |Indent(format, depth + 1)| && At(text, SkipBlanks(text, i), QUOTE)
  {
    hide Has, MembersText, Indent, NewlineIf;
    if members == [] {
      ObjectStartsEmpty(format, depth, text, i);
    } else {
      ObjectStartsFull(members, format, depth, text, i);
    }
  }

  lemma {:induction false} ObjectStartsFull(members: seq<Member>, format: bool, depth: nat, text: CString, i: nat)
    requires members != [] && PrintableMembers(members) && Has(text, i, NewlineIf(format))
    requires Has(text, i + |NewlineIf(format)|, MembersText(members, format, depth + 1))
    ensures i <= |text| && SkipBlanks(text, i) == i + |NewlineIf(format)| + |Indent(format, depth + 1)|
    ensures At(text, SkipBlanks(text, i), QUOTE)
  {
    hide Has, MembersText;
    MembersStart(members, format, depth + 1, text, i + |NewlineIf(format)|);
    HasBlanks(text, i, NewlineIf(format), Indent(format, depth + 1));
  }

  lemma {:induction false} ObjectStartsEmpty(format: bool, depth: nat, text: CString, i: nat)
    requires Has(text, i, NewlineIf(format))
    requires var start := i + |NewlineIf(format)|;
             && Has(text, start + |MembersText([], format, depth + 1)|, Indent(format, depth))
             && At(text, start + |MembersText([], format, depth + 1)| + |Indent(format, depth)|, RBRACE)
    ensures i <= |text| && SkipBlanks(text, i) == i + |NewlineIf(format)| + |Indent(format, depth)|
  {
    hide Has;
    ItemsTextOfNone(format, depth + 1);
    HasBlanks(text, i, NewlineIf(format), Indent(format, depth));
  }

  /** The members begin with the indentation and the quote of the first key. */
  lemma {:induction false} MembersStart(members: seq<Member>, format: bool, depth: nat, text: CString, i: nat)
    requires members != [] && PrintableMembers(members) && Has(text, i, MembersText(members, format, depth))
    ensures Has(text, i, Indent(format, depth)) && At(text, i + |Indent(format, depth)|, QUOTE)
  {
    hide MembersText, Has;
    var indent := Indent(format, depth);
    var body := MembersText(members, format, depth);
    assert body == indent + body[|indent|..] && body[|indent|] == QUOTE by { MembersStartText(members, format, depth); }
    HasParts(text, i, indent, body[|indent|..]);
    HasFirst(text, i + |indent|, body[|indent|..]);
  }

  lemma {:induction false} HasBlanks(text: CString, i: nat, a: CString, b: CString)
    requires Has(text, i, a) && Has(text, i + |a|, b) && AllBlank(a) && AllBlank(b)
    requires i + |a| + |b| < |text| ==> text[i + |a| + |b|] > 32
    ensures SkipBlanks(text, i) == i + |a| + |b|
  {
    assert text[i..i + |a| + |b|] == text[i..i + |a|] + text[i + |a|..i + |a| + |b|];
    SkipOver(text, i, a + b);
  }

  lemma {:induction false} KeyHere(text: CString, from: nat, i: nat, key: CString, format: bool)
    requires from <= i <= |text| && SkipBlanks(text, from) == i
    requires Has(text, i, Quoted(key) + [COLON] + TabIf(format))
    requires var end := i + |Quoted(key)| + 1 + |TabIf(format)|; end < |text| && text[end] > 32
    ensures ReadKey(text, from) == Some(ReadName(key, i + |Quoted(key)| + 1 + |TabIf(format)|))
  {
    hide ReadString, Has, Quoted;
    var colon := i + |Quoted(key)|;
    HasThree(text, i, Quoted(key), [COLON], TabIf(format));
    LiteralHere(text, i, key);
    HasFirst(text, colon, [COLON]);
    SkipOver(text, colon + 1, TabIf(format));
  }

  lemma {:induction false} EntryHere(text: CString, from: nat, i: nat, end: nat, next: nat, open: nat, key: CString,
                       v: Json)
    requires from <= i <= |text| && ReadKey(text, from) == Some(ReadName(key, i))
    requires ReadValue(text, i, open) == Some(ReadTree(v, end)) && end <= |text| && SkipBlanks(text, end) == next
    ensures ReadEntry(text, from, open) == Some(ReadPair(Member(key, v), next))
  {
    hide ReadValue, ReadKey;
    CStrOfNulFree(key);
  }

  lemma {:induction false} EntriesStep(text: CString, from: nat, end: nat, open: nat, m: Member)
    requires from <= |text| && ReadEntry(text, from, open) == Some(ReadPair(m, end)) && end < |text|
    ensures text[end] == RBRACE ==> ReadEntries(text, from, open) == Some(ReadMembers([m], end + 1))
    ensures text[end] == COMMA && ReadEntries(text, end + 1, open).Some? ==>
              var e := ReadEntries(text, end + 1, open).value;
              ReadEntries(text, from, open) == Some(ReadMembers([m] + e.members, e.next))
  {
    hide ReadEntry;
  }

  /** Reading starts at `from`, somewhere in the whitespace before the first key. */
  lemma {:induction false} MembersRoundTrip(members: seq<Member>, format: bool, depth: nat, open: nat, text: CString,
                                            from: nat, i: nat, indent: CString)
    requires members != [] && PrintableMembers(members) && open + NestingOfMembers(members) <= NESTING_LIMIT
    requires AllBlank(indent) && from <= |text| && SkipBlanks(text, from) == i + |Indent(format, depth)|
    requires Has(text, i, MembersText(members, format, depth))
    requires var end := i + |MembersText(members, format, depth)|;
             Has(text, end, indent) && At(text, end + |indent|, RBRACE)
    ensures ReadEntries(text, from, open) ==
            Some(ReadMembers(members, i + |MembersText(members, format, depth)| + |indent| + 1))
    decreases members, 0
  {
    hide ReadEntries, ReadEntry, ReadValue, ReadKey, Has, Text, MembersText, NestingOfMembers, Nesting,
      SkipBlanks, Tabs, Printable, PrintableMembers;
    var m := members[0];
    UnfoldMembers(members, format, depth);
    var start, end, sep, next := MembersPieces(members, format, depth, text, from, i, indent);
    ValueRoundTrip(m.value, format, depth, open, text, start);
    EntryHere(text, from, start, end, sep, open, m.key, m.value);
    EntriesStep(text, from, sep, open, m);
    if members[1..] != [] {
      MembersRoundTrip(members[1..], format, depth, open, text, sep + 1, next, indent);
    }
  }

  /** Where the pieces of a list of members are: the first value, the separator, and the other members. */
  lemma {:induction false} MembersPieces(members: seq<Member>, format: bool, depth: nat, text: CString, from: nat,
                       i: nat, indent: CString)
    returns (start: nat, end: nat, sep: nat, next: nat)
    requires members != [] && PrintableMembers(members)
    requires AllBlank(indent) && from <= |text| && SkipBlanks(text, from) == i + |Indent(format, depth)|
    requires Has(text, i, MembersText(members, format, depth))
    requires var last := i + |MembersText(members, format, depth)|;
             Has(text, last, indent) && At(text, last + |indent|, RBRACE)
    ensures start <= |text| && ReadKey(text, from) == Some(ReadName(members[0].key, start))
    ensures Has(text, start, Text(members[0].value, format, depth))
    ensures end == start + |Text(members[0].value, format, depth)| && EndsNumber(text, end)
    ensures end <= sep < |text| && SkipBlanks(text, end) == sep
    ensures members[1..] == [] ==>
              text[sep] == RBRACE && sep == i + |MembersText(members, format, depth)| + |indent|
    ensures members[1..] != [] ==>
              && text[sep] == COMMA && SkipBlanks(text, sep + 1) == next + |Indent(format, depth)|
              && Has(text, next, MembersText(members[1..], format, depth))
              && next + |MembersText(members[1..], format, depth)| == i + |MembersText(members, format, depth)|
  {
    hide ReadKey, Has, Text, MembersText, KeyText, AfterMember, SkipBlanks, Tabs;
    var m := members[0];
    var more := MembersText(members[1..], format, depth);
    start, end, next := MembersParts(members, format, depth, text, i);
    if members[1..] == [] { ItemsTextOfNone(format, depth); }
    TextStart(m.value, format, depth);
    KeyTextHere(text, from, i, m.key, format, depth, Text(m.value, format, depth));
    sep := AfterMemberHere(text, end, members[1..] == [], format, indent, more);
    if members[1..] != [] {
      MembersStart(members[1..], format, depth, text, next);
      HasBlanks(text, sep + 1, NewlineIf(format), Indent(format, depth));
    }
  }

  lemma {:induction false} KeyTextHere(text: CString, from: nat, i: nat, key: CString, format: bool, depth: nat,
                       word: CString)
    requires from <= |text| && SkipBlanks(text, from) == i + |Indent(format, depth)|
    requires Has(text, i, KeyText(key, format, depth)) && Has(text, i + |KeyText(key, format, depth)|, word)
    requires word != [] && word[0] > 32
    ensures ReadKey(text, from) == Some(ReadName(key, i + |KeyText(key, format, depth)|))
  {
    hide ReadKey, Has, Escape;
    var indent := Indent(format, depth);
    var quote := i + |indent|;
    var rest := Quoted(key) + [COLON] + TabIf(format);
    assert KeyText(key, format, depth) == indent + rest;
    HasParts(text, i, indent, rest);
    HasFirst(text, quote + |rest|, word);
    KeyHere(text, from, quote, key, format);
  }

  /** What stands behind the value of the first member: where the next separator is. */
  lemma {:induction false} AfterMemberHere(text: CString, end: nat, last: bool, format: bool, indent: CString,
                       more: CString)
    returns (next: nat)
    requires AllBlank(indent) && Has(text, end, AfterMember(!last, format)) && (last ==> more == [])
    requires var k := end + |AfterMember(!last, format)|;
             Has(text, k, more) && Has(text, k + |more|, indent) && At(text, k + |more| + |indent|, RBRACE)
    ensures end <= next < |text| && SkipBlanks(text, end) == next && EndsNumber(text, end)
    ensures last ==> text[next] == RBRACE && next == end + |AfterMember(false, format)| + |indent|
    ensures !last ==> next == end && text[next] == COMMA && Has(text, end + 1, NewlineIf(format))
                      && |AfterMember(true, format)| == 1 + |NewlineIf(format)|
  {
    hide Has;
    if last {
      assert AfterMember(false, format) == NewlineIf(format);
      next := end + |NewlineIf(format)| + |indent|;
      HasBlanks(text, end, NewlineIf(format), indent);
    } else {
      next := end;
      HasParts(text, end, [COMMA], NewlineIf(format));
      HasFirst(text, end, [COMMA]);
    }
  }

  // ---- the two laws ----

  /**
   * Parsing what was printed, formatted or not, succeeds with the terminator required and gives the same tree,
   * same members, same order, duplicate keys kept: exactly when the tree is no deeper than the parser allows.
   */
  lemma {:induction false} PrintThenParse(t: Json, format: bool)
    requires Printable(t)
    ensures ReadText(Text(t, format, 0), true) == Some(ReadTree(t, |Text(t, format, 0)|)) <==>
            Nesting(t) <= 1000
  {
    hide ReadValue, Text;
    var text := Text(t, format, 0);
    TextStart(t, format, 0);
    assert text[0..|text|] == text;
    if Nesting(t) <= NESTING_LIMIT {
      ValueRoundTrip(t, format, 0, 0, text, 0);
    } else if ReadText(text, true).Some? {
      AcceptedNesting(text, SkipBlanks(text, MarkLength(text)), 0);
    }
  }

  /** Whatever text was accepted, printing its tree and parsing again gives that tree: one step normalises. */
  lemma {:induction false} ParseThenPrintNormalises(text: CString, requireEnd: bool, format: bool)
    requires ReadText(text, requireEnd).Some? && Printable(ReadText(text, requireEnd).value.value)
    ensures var t := ReadText(text, requireEnd).value.value;
            ReadText(Text(t, format, 0), true) == Some(ReadTree(t, |Text(t, format, 0)|))
  {
    hide ReadValue;
    AcceptedNesting(text, SkipBlanks(text, MarkLength(text)), 0);
    PrintThenParse(ReadText(text, requireEnd).value.value, format);
  }
}
