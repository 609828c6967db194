/** The text of a tree: what print_value is meant to leave in its buffer. */
module Layout {
  import opened Bytes
  import opened JsonTree
  import opened StringCodec
  import opened NumberCodec

  function Tabs(n: nat): (s: CString)
    ensures |s| == n && forall i :: 0 <= i < n ==> s[i] == TAB
  {
    if n == 0 then [] else [TAB] + Tabs(n - 1)
  }

  function Indent(format: bool, depth: nat): CString {
    if format then Tabs(depth) else []
  }

  function NewlineIf(format: bool): CString {
    if format then [NEWLINE] else []
  }

  function SpaceIf(format: bool): CString {
    if format then [SPACE] else []
  }

  function TabIf(format: bool): CString {
    if format then [TAB] else []
  }

  /** The text of `t` with `depth` containers open around it. */
  function Text(t: Json, format: bool, depth: nat): (s: CString)
    requires Printable(t)
    ensures |s| > 0
    decreases t
  {
    match t
    case Null => NULL_TEXT
    case Bool(b) => if b then TRUE_TEXT else FALSE_TEXT
    case Num(n) => Decimal(n)
    case Str(s) => Quoted(s)
    case Arr(items) => [LBRACKET] + ItemsText(items, format, depth + 1) + [RBRACKET]
    case Obj(members) => ObjectOpen(format) + MembersText(members, format, depth + 1) + ObjectClose(format, depth)
  }

  function ObjectOpen(format: bool): CString {
    [LBRACE] + NewlineIf(format)
  }

  function ObjectClose(format: bool, depth: nat): CString {
    Indent(format, depth) + [RBRACE]
  }

  function ItemsText(items: seq<Json>, format: bool, depth: nat): CString
    requires PrintableItems(items)
    decreases items
  {
    if items == [] then []
    else Text(items[0], format, depth) + AfterItem(items[1..] != [], format) + ItemsText(items[1..], format, depth)
  }

  function AfterItem(more: bool, format: bool): CString {
    if more then [COMMA] + SpaceIf(format) else []
  }

  function MembersText(members: seq<Member>, format: bool, depth: nat): CString
    requires PrintableMembers(members)
    decreases members
  {
    if members == [] then []
    else MemberText(members[0], members[1..] != [], format, depth) + MembersText(members[1..], format, depth)
  }

  /** One "key: value" entry with what surrounds it. */
  function MemberText(m: Member, more: bool, format: bool, depth: nat): CString
    requires Printable(m.value)
    decreases m
  {
    KeyText(m.key, format, depth) + Text(m.value, format, depth) + AfterMember(more, format)
  }

  function KeyText(key: CString, format: bool, depth: nat): CString {
    Indent(format, depth) + Quoted(key) + [COLON] + TabIf(format)
  }

  function AfterMember(more: bool, format: bool): CString {
    (if more then [COMMA] else []) + NewlineIf(format)
  }

  // ---- the text one piece at a time ----

  /** The first byte of a value is never whitespace and never closes or separates anything. */
  lemma {:induction false} TextStart(t: Json, format: bool, depth: nat)
    requires Printable(t)
    ensures 32 < Text(t, format, depth)[0] < 128
    ensures Text(t, format, depth)[0] !in {RBRACKET, RBRACE, COMMA, COLON}
  {
  }

  lemma {:induction false} UnfoldItems(items: seq<Json>, format: bool, depth: nat)
    requires items != [] && PrintableItems(items)
    ensures items == [items[0]] + items[1..] && (items[1..] == [] ==> items == [items[0]])
    ensures ItemsText(items, format, depth) ==
            Text(items[0], format, depth) + AfterItem(items[1..] != [], format) + ItemsText(items[1..], format, depth)
    ensures Printable(items[0]) && PrintableItems(items[1..])
    ensures Nesting(items[0]) <= NestingOfItems(items) && NestingOfItems(items[1..]) <= NestingOfItems(items)
  {
  }

  lemma {:induction false} ItemsTextOfNone(format: bool, depth: nat)
    ensures ItemsText([], format, depth) == [] && MembersText([], format, depth) == []
  {
  }

  lemma {:induction false} UnfoldObject(members: seq<Member>, format: bool, depth: nat)
    requires PrintableMembers(members)
    ensures Text(Obj(members), format, depth) ==
            ObjectOpen(format) + MembersText(members, format, depth + 1) + (Indent(format, depth) + [RBRACE])
  {
  }

  lemma {:induction false} UnfoldMembers(members: seq<Member>, format: bool, depth: nat)
    requires members != [] && PrintableMembers(members)
    ensures members == [members[0]] + members[1..] && (members[1..] == [] ==> members == [members[0]])
    ensures MembersText(members, format, depth) ==
            KeyText(members[0].key, format, depth) + Text(members[0].value, format, depth)
            + AfterMember(members[1..] != [], format) + MembersText(members[1..], format, depth)
    ensures Printable(members[0].value) && PrintableMembers(members[1..])
    ensures Nesting(members[0].value) <= NestingOfMembers(members)
    ensures NestingOfMembers(members[1..]) <= NestingOfMembers(members)
  {
  }

  lemma {:induction false} ItemsParts(items: seq<Json>, format: bool, depth: nat, text: CString, i: nat)
    returns (end: nat, next: nat)
    requires items != [] && PrintableItems(items) && Has(text, i, ItemsText(items, format, depth))
    ensures end == i + |Text(items[0], format, depth)| && Has(text, i, Text(items[0], format, depth))
    ensures next == end + |AfterItem(items[1..] != [], format)|
    ensures Has(text, end, AfterItem(items[1..] != [], format))
    ensures Has(text, next, ItemsText(items[1..], format, depth))
    ensures next + |ItemsText(items[1..], format, depth)| == i + |ItemsText(items, format, depth)|
  {
    hide Has, Text, ItemsText, AfterItem;
    UnfoldItems(items, format, depth);
    end := i + |Text(items[0], format, depth)|;
    next := end + |AfterItem(items[1..] != [], format)|;
    HasThree(text, i, Text(items[0], format, depth), AfterItem(items[1..] != [], format),
             ItemsText(items[1..], format, depth));
  }

  lemma {:induction false} MembersParts(members: seq<Member>, format: bool, depth: nat, text: CString, i: nat)
    returns (start: nat, end: nat, next: nat)
    requires members != [] && PrintableMembers(members)
    requires Has(text, i, MembersText(members, format, depth))
    ensures start == i + |KeyText(members[0].key, format, depth)|
    ensures Has(text, i, KeyText(members[0].key, format, depth))
    ensures end == start + |Text(members[0].value, format, depth)|
    ensures Has(text, start, Text(members[0].value, format, depth))
    ensures next == end + |AfterMember(members[1..] != [], format)|
    ensures Has(text, end, AfterMember(members[1..] != [], format))
    ensures Has(text, next, MembersText(members[1..], format, depth))
    ensures next + |MembersText(members[1..], format, depth)| == i + |MembersText(members, format, depth)|
  {
    hide Has, Text, MembersText, KeyText, AfterMember;
    var head := KeyText(members[0].key, format, depth);
    var word := Text(members[0].value, format, depth);
    var after := AfterMember(members[1..] != [], format);
    UnfoldMembers(members, format, depth);
    HasParts(text, i, head + word + after, MembersText(members[1..], format, depth));
    HasThree(text, i, head, word, after);
    start, end, next := i + |head|, i + |head| + |word|, i + |head| + |word| + |after|;
  }

  lemma {:induction false} MembersStartText(members: seq<Member>, format: bool, depth: nat)
    requires members != [] && PrintableMembers(members)
    ensures var indent := Indent(format, depth);
            var body := MembersText(members, format, depth);
            |indent| < |body| && body == indent + body[|indent|..] && body[|indent|] == QUOTE
  {
  }
}
