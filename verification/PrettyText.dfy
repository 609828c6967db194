/**
 * The text of a tree without a word about depth: a nested value is the text of the value alone, with a tab put behind
 * every newline in it. `Layout`, which counts depth as the printer does, is proved to be the same.
 */
module PrettyText {
  import opened Bytes
  import opened JsonTree
  import opened StringCodec
  import opened NumberCodec
  import opened Layout

  // ---- the reference ----

  /** The text one level further in. */
  function Indented(s: CString): CString {
    if s == [] then [] else (if s[0] == 10 then [10, 9] else [s[0]]) + Indented(s[1..])
  }

  function Page(t: Json, format: bool): CString
    requires Printable(t)
    decreases t
  {
    match t
    case Null => [110, 117, 108, 108]
    case Bool(b) => if b then [116, 114, 117, 101] else [102, 97, 108, 115, 101]
    case Num(n) => Decimal(n)
    case Str(s) => [34] + Escape(s) + [34]
    case Arr(items) => [91] + (if format then Indented(ItemsPage(items, true)) else ItemsPage(items, false)) + [93]
    case Obj(members) =>
      if !format then [123] + MembersPage(members, false) + [125]
      else if members == [] then [123, 10, 125]
      else [123] + Indented([10] + MembersPage(members, true)) + [10, 125]
  }

  /** The elements with a comma between them, and a space behind it. */
  function ItemsPage(items: seq<Json>, format: bool): CString
    requires PrintableItems(items)
    decreases items
  {
    if items == [] then []
    else if |items| == 1 then Page(items[0], format)
    else Page(items[0], format) + (if format then [44, 32] else [44]) + ItemsPage(items[1..], format)
  }

  /** The members with a comma between them, each on its own line; a tab behind the colon. */
  function MembersPage(members: seq<Member>, format: bool): CString
    requires PrintableMembers(members)
    decreases members
  {
    if members == [] then []
    else if |members| == 1 then PairPage(members[0], format)
    else PairPage(members[0], format) + (if format then [44, 10] else [44]) + MembersPage(members[1..], format)
  }

  function PairPage(m: Member, format: bool): CString
    requires Printable(m.value)
    decreases m
  {
    [34] + Escape(m.key) + [34] + (if format then [58, 9] else [58]) + Page(m.value, format)
  }

  // ---- indenting several times ----

  function Deeper(s: CString, n: nat): CString {
    if n == 0 then s else Indented(Deeper(s, n - 1))
  }

  lemma {:induction false} IndentedSum(a: CString, b: CString)
    ensures Indented(a + b) == Indented(a) + Indented(b)
  {
    if a == [] {
      assert a + b == b;
    } else {
      assert (a + b)[1..] == a[1..] + b;
      IndentedSum(a[1..], b);
    }
  }

  lemma {:induction false} IndentedLine(s: CString)
    requires 10 !in s
    ensures Indented(s) == s
  {
    if s != [] { IndentedLine(s[1..]); }
  }

  lemma {:induction false} DeeperSum(a: CString, b: CString, n: nat)
    ensures Deeper(a + b, n) == Deeper(a, n) + Deeper(b, n)
  {
    if n > 0 {
      DeeperSum(a, b, n - 1);
      IndentedSum(Deeper(a, n - 1), Deeper(b, n - 1));
    }
  }

  lemma {:induction false} DeeperLine(s: CString, n: nat)
    requires 10 !in s
    ensures Deeper(s, n) == s
  {
    if n > 0 {
      DeeperLine(s, n - 1);
      IndentedLine(s);
    }
  }

  lemma {:induction false} DeeperNewline(n: nat)
    ensures Deeper([10], n) == [10] + Tabs(n)
  {
    if n > 0 {
      DeeperNewline(n - 1);
      IndentedSum([10], Tabs(n - 1));
      IndentedLine(Tabs(n - 1));
      assert Indented([10]) == [10, 9] + Indented([]);
      assert [9] + Tabs(n - 1) == Tabs(n);
    }
  }

  lemma {:induction false} DeeperIndented(s: CString, n: nat)
    ensures Deeper(Indented(s), n) == Deeper(s, n + 1)
  {
    if n > 0 { DeeperIndented(s, n - 1); }
  }

  // ---- the printer's text ----

  lemma {:induction false} QuotedLine(s: CString)
    ensures 10 !in Quoted(s)
  {
    EscapeOnOneLine(s);
  }

  lemma {:induction false} EscapeOnOneLine(s: CString)
    ensures 10 !in Escape(s)
  {
    if s != [] { EscapeOnOneLine(s[1..]); }
  }

  lemma {:induction false} DecimalLine(n: SmallInt)
    ensures 10 !in Decimal(n)
  {
  }

  /** What the formatted text at some depth is: the text alone, indented as often. */
  lemma {:induction false} FormattedText(t: Json, depth: nat)
    requires Printable(t)
    ensures Text(t, true, depth) == Deeper(Page(t, true), depth)
    decreases t, 1
  {
    match t
    case Null => DeeperLine(NULL_TEXT, depth);
    case Bool(b) => DeeperLine(Page(t, true), depth);
    case Num(n) =>
      DecimalLine(n);
      DeeperLine(Decimal(n), depth);
    case Str(s) =>
      QuotedLine(s);
      DeeperLine(Quoted(s), depth);
    case Arr(items) => FormattedArray(items, depth);
    case Obj(members) => FormattedObject(members, depth);
  }

  lemma {:induction false} FormattedArray(items: seq<Json>, depth: nat)
    requires PrintableItems(items)
    ensures Text(Arr(items), true, depth) == Deeper(Page(Arr(items), true), depth)
    decreases items, 3
  {
    hide ItemsText, ItemsPage, Indented, Deeper;
    var body := Indented(ItemsPage(items, true));
    FormattedItems(items, depth + 1);
    DeeperIndented(ItemsPage(items, true), depth);
    DeeperLine([91], depth);
    DeeperLine([93], depth);
    DeeperSum([91], body, depth);
    DeeperSum([91] + body, [93], depth);
  }

  lemma {:induction false} FormattedItems(items: seq<Json>, depth: nat)
    requires PrintableItems(items)
    ensures ItemsText(items, true, depth) == Deeper(ItemsPage(items, true), depth)
    decreases items, 2
  {
    hide Text, Page, Deeper, ItemsText, ItemsPage;
    if items == [] {
      DeeperLine([], depth);
      NoItems(depth);
    } else {
      UnfoldItems(items, true, depth);
      UnfoldItemsPage(items, true);
      FormattedText(items[0], depth);
      if |items| == 1 {
        assert items[1..] == [];
        ItemsTextOfNone(true, depth);
      } else {
        FormattedItems(items[1..], depth);
        DeeperLine([44, 32], depth);
        DeeperSum(Page(items[0], true), [44, 32], depth);
        DeeperSum(Page(items[0], true) + [44, 32], ItemsPage(items[1..], true), depth);
      }
    }
  }

  lemma {:induction false} NoItems(depth: nat)
    ensures ItemsText([], true, depth) == [] && ItemsPage([], true) == []
  {
  }

  lemma {:induction false} UnfoldItemsPage(items: seq<Json>, format: bool)
    requires items != [] && PrintableItems(items)
    ensures Printable(items[0]) && PrintableItems(items[1..])
    ensures ItemsPage(items, format) ==
            if |items| == 1 then Page(items[0], format)
            else Page(items[0], format) + (if format then [44, 32] else [44]) + ItemsPage(items[1..], format)
  {
  }

  lemma {:induction false} FormattedObject(members: seq<Member>, depth: nat)
    requires PrintableMembers(members)
    ensures Text(Obj(members), true, depth) == Deeper(Page(Obj(members), true), depth)
    decreases members, 3
  {
    hide Text, Page, MembersText, MembersPage, Indented, Deeper, Tabs;
    UnfoldObject(members, true, depth);
    UnfoldObjectPage(members);
    ClosingLine(depth);
    DeeperLine([123], depth);
    if members == [] {
      ItemsTextOfNone(true, depth + 1);
      DeeperSum([123], [10, 125], depth);
      assert [123] + [10, 125] == [123, 10, 125];
    } else {
      var body := [10] + MembersPage(members, true);
      FormattedMembers(members, depth + 1);
      FormattedBody(members, depth);
      DeeperSum([123], Indented(body), depth);
      DeeperSum([123] + Indented(body), [10, 125], depth);
    }
  }

  lemma {:induction false} FormattedBody(members: seq<Member>, depth: nat)
    requires PrintableMembers(members)
    ensures Deeper(Indented([10] + MembersPage(members, true)), depth) ==
            [10] + Tabs(depth + 1) + Deeper(MembersPage(members, true), depth + 1)
  {
    hide MembersPage, Indented, Deeper;
    DeeperNewline(depth + 1);
    DeeperSum([10], MembersPage(members, true), depth + 1);
    DeeperIndented([10] + MembersPage(members, true), depth);
  }

  lemma {:induction false} ClosingLine(depth: nat)
    ensures Deeper([10, 125], depth) == [10] + Tabs(depth) + [125]
  {
    hide Deeper;
    DeeperNewline(depth);
    DeeperLine([125], depth);
    DeeperSum([10], [125], depth);
    assert [10] + [125] == [10, 125];
  }

  lemma {:induction false} UnfoldObjectPage(members: seq<Member>)
    requires PrintableMembers(members)
    ensures Page(Obj(members), true) ==
            if members == [] then [123, 10, 125] else [123] + Indented([10] + MembersPage(members, true)) + [10, 125]
  {
  }

  /** The lines of the members: each begins with the tabs and ends with the newline that the next one starts from. */
  lemma {:induction false} FormattedMembers(members: seq<Member>, depth: nat)
    requires members != [] && PrintableMembers(members)
    ensures MembersText(members, true, depth) == Tabs(depth) + Deeper(MembersPage(members, true), depth) + [10]
    decreases members, 2
  {
    hide Text, PairPage, Deeper, MembersText, MembersPage;
    UnfoldMembers(members, true, depth);
    UnfoldMembersPage(members, true);
    FormattedPair(members[0], depth);
    if |members| == 1 {
      assert members[1..] == [];
      ItemsTextOfNone(true, depth);
    } else {
      FormattedMembers(members[1..], depth);
      SeparatorLine(depth);
      DeeperSum(PairPage(members[0], true), [44, 10], depth);
      DeeperSum(PairPage(members[0], true) + [44, 10], MembersPage(members[1..], true), depth);
    }
  }

  lemma {:induction false} SeparatorLine(depth: nat)
    ensures Deeper([44, 10], depth) == [44, 10] + Tabs(depth)
  {
    hide Deeper;
    DeeperNewline(depth);
    DeeperLine([44], depth);
    DeeperSum([44], [10], depth);
    assert [44] + [10] == [44, 10];
  }

  lemma {:induction false} UnfoldMembersPage(members: seq<Member>, format: bool)
    requires members != [] && PrintableMembers(members)
    ensures Printable(members[0].value) && PrintableMembers(members[1..])
    ensures MembersPage(members, format) ==
            if |members| == 1 then PairPage(members[0], format)
            else PairPage(members[0], format) + (if format then [44, 10] else [44]) + MembersPage(members[1..], format)
  {
  }

  lemma {:induction false} FormattedPair(m: Member, depth: nat)
    requires Printable(m.value)
    ensures KeyText(m.key, true, depth) + Text(m.value, true, depth) == Tabs(depth) + Deeper(PairPage(m, true), depth)
    decreases m, 1
  {
    hide Text, Page, Deeper, Escape;
    var head := Quoted(m.key) + [58, 9];
    QuotedLine(m.key);
    FormattedText(m.value, depth);
    DeeperLine(head, depth);
    DeeperSum(head, Page(m.value, true), depth);
    assert KeyText(m.key, true, depth) == Tabs(depth) + head;
  }

  lemma {:induction false} PlainText(t: Json, depth: nat)
    requires Printable(t)
    ensures Text(t, false, depth) == Page(t, false)
    decreases t, 1
  {
    match t
    case Arr(items) => PlainItems(items, depth + 1);
    case Obj(members) => PlainMembers(members, depth + 1);
    case _ =>
  }

  lemma {:induction false} PlainItems(items: seq<Json>, depth: nat)
    requires PrintableItems(items)
    ensures ItemsText(items, false, depth) == ItemsPage(items, false)
    decreases items, 2
  {
    hide Text, Page, ItemsText, ItemsPage;
    if items == [] {
      NoPlain(depth);
    } else {
      UnfoldItems(items, false, depth);
      UnfoldItemsPage(items, false);
      PlainText(items[0], depth);
      PlainItems(items[1..], depth);
      NoPlain(depth);
    }
  }

  lemma {:induction false} NoPlain(depth: nat)
    ensures ItemsText([], false, depth) == [] && ItemsPage([], false) == []
    ensures MembersText([], false, depth) == [] && MembersPage([], false) == []
  {
  }

  lemma {:induction false} PlainMembers(members: seq<Member>, depth: nat)
    requires PrintableMembers(members)
    ensures MembersText(members, false, depth) == MembersPage(members, false)
    decreases members, 2
  {
    hide Text, Page, MembersText, MembersPage, Escape;
    if members == [] {
      NoPlain(depth);
    } else {
      UnfoldMembers(members, false, depth);
      UnfoldMembersPage(members, false);
      PlainText(members[0].value, depth);
      PlainMembers(members[1..], depth);
      NoPlain(depth);
      assert KeyText(members[0].key, false, depth) == [34] + Escape(members[0].key) + [34] + [58];
    }
  }

  /** The text that is printed, formatted or not. */
  lemma {:induction false} PrintedText(t: Json, format: bool)
    requires Printable(t)
    ensures Text(t, format, 0) == Page(t, format)
  {
    if format { FormattedText(t, 0); } else { PlainText(t, 0); }
  }
}
