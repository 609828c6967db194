/** Minifying formatted output: for exactly which trees it gives the unformatted output. */
module MinifyPrint {
  import opened Bytes
  import opened JsonTree
  import opened StringCodec
  import opened NumberCodec
  import opened Layout
  import opened Minify

  // ---- the condition ----

  predicate EndsInBackslash(s: CString) {
    s != [] && s[|s| - 1] == BACKSLASH
  }

  /** No string and no key ends in a backslash. */
  predicate Clean(t: Json) {
    match t
    case Str(s) => !EndsInBackslash(s)
    case Arr(items) => CleanItems(items)
    case Obj(members) => CleanMembers(members)
    case _ => true
  }

  predicate CleanItems(items: seq<Json>) {
    items != [] ==> Clean(items[0]) && CleanItems(items[1..])
  }

  predicate CleanMembers(members: seq<Member>) {
    members != [] ==>
      !EndsInBackslash(members[0].key) && Clean(members[0].value) && CleanMembers(members[1..])
  }

  /** Clean, but for a string in last place with nothing but closing brackets after it. */
  predicate Commutes(t: Json) {
    match t
    case Str(s) => true
    case Arr(items) => CommutesItems(items)
    case Obj(members) => CleanMembers(members)
    case _ => true
  }

  predicate CommutesItems(items: seq<Json>) {
    items != [] ==>
      if items[1..] == [] then Commutes(items[0]) else Clean(items[0]) && CommutesItems(items[1..])
  }

  lemma {:induction false} CleanCommutes(t: Json)
    ensures Clean(t) ==> Commutes(t)
    decreases t
  {
    if t.Arr? { CleanItemsCommute(t.items); }
  }

  lemma {:induction false} CleanItemsCommute(items: seq<Json>)
    ensures CleanItems(items) ==> CommutesItems(items)
    decreases items
  {
    if items != [] {
      CleanCommutes(items[0]);
      CleanItemsCommute(items[1..]);
    }
  }

  // ---- scanning escaped text ----

  lemma {:induction false} ScanPlain(u: CString, k: nat, n: nat)
    requires k + n <= |u| && forall j :: k <= j < k + n ==> u[j] != QUOTE && u[j] != BACKSLASH
    ensures StringEnd(u, k) == StringEnd(u, k + n)
    decreases n
  {
    if n > 0 { ScanPlain(u, k + 1, n - 1); }
  }

  /** An escaped byte is passed over, unless it is a backslash and the next byte is a quote. */
  lemma {:induction false} ScanEscapeByte(b: CByte, u: CString, k: nat)
    requires Has(u, k, EscapeByte(b)) && k + |EscapeByte(b)| < |u|
    ensures var e := k + |EscapeByte(b)|;
            StringEnd(u, k) == if b == BACKSLASH && u[e] == QUOTE then StringEnd(u, e + 1) else StringEnd(u, e)
  {
    HasBytes(u, k, EscapeByte(b));
    if ShortEscape(b).None? {
      ScanPlain(u, if b < 32 then k + 1 else k, if b < 32 then 5 else 1);
    }
  }

  lemma {:induction false} HasBytes(u: CString, k: nat, word: CString)
    requires Has(u, k, word)
    ensures k + |word| <= |u| && forall j :: k <= j < k + |word| ==> u[j] == word[j - k]
  {
    assert forall j :: k <= j < k + |word| ==> u[j] == u[k..k + |word|][j - k];
  }

  lemma {:induction false} EscapeNeverStartsWithQuote(s: CString)
    requires s != []
    ensures Escape(s) != [] && Escape(s)[0] != QUOTE
  {
  }

  /** The scan of a printed string stops at its closing quote, or runs past it if the string ends in a backslash. */
  lemma {:induction false} ScanEscaped(s: CString, u: CString, k: nat)
    requires Has(u, k, Escape(s) + [QUOTE])
    ensures var e := k + |Escape(s)| + 1;
            StringEnd(u, k) == if EndsInBackslash(s) then StringEnd(u, e) else e
    decreases |s|
  {
    hide Has, EscapeByte, Escape;
    if s == [] {
      EscapedNone(u, k);
    } else {
      EscapedParts(s, u, k);
      ScanEscapeByte(s[0], u, k);
      if s[1..] != [] || s[0] != BACKSLASH { ScanEscaped(s[1..], u, k + |EscapeByte(s[0])|); }
    }
  }

  lemma {:induction false} EscapedNone(u: CString, k: nat)
    requires Has(u, k, Escape([]) + [QUOTE])
    ensures Escape([]) == [] && k < |u| && u[k] == QUOTE
  {
    HasFirst(u, k, [QUOTE]);
  }

  /** The first byte of a printed string and the rest of it, where the closing quote comes at once or not yet. */
  lemma {:induction false} EscapedParts(s: CString, u: CString, k: nat)
    requires s != [] && Has(u, k, Escape(s) + [QUOTE])
    ensures var e := k + |EscapeByte(s[0])|;
            && Has(u, k, EscapeByte(s[0])) && Has(u, e, Escape(s[1..]) + [QUOTE])
            && k + |Escape(s)| == e + |Escape(s[1..])|
            && e < |u| && (u[e] == QUOTE <==> s[1..] == []) && (s[1..] == [] ==> Escape(s[1..]) == [])
  {
    hide Has, EscapeByte;
    var word, rest := EscapeByte(s[0]), Escape(s[1..]) + [QUOTE];
    assert Escape(s) + [QUOTE] == word + rest;
    HasParts(u, k, word, rest);
    HasFirst(u, k + |word|, rest);
    if s[1..] != [] {
      EscapeNeverStartsWithQuote(s[1..]);
      assert rest[0] == Escape(s[1..])[0];
    }
  }

  // ---- squeezing what stands in the text ----

  /** What is written from inside a string on. */
  function Tail(u: CString, k: nat): CString
    requires k <= |u|
  {
    Verbatim(u, k, StringEnd(u, k))
  }

  /** What is written from `k` on, with the minifier outside or inside a string. */
  function Rest(u: CString, k: nat, outside: bool): CString
    requires k <= |u|
  {
    if outside then Squeeze(u, k) else Tail(u, k)
  }

  predicate IsOrdinary(c: CByte) {
    IsPlain(c) && c != BACKSLASH
  }

  lemma {:induction false} RestOfByte(u: CString, k: nat, outside: bool)
    requires k < |u| && IsOrdinary(u[k])
    ensures Rest(u, k, outside) == [u[k]] + Rest(u, k + 1, outside)
  {
    if !outside {
      var e := StringEnd(u, k + 1);
      assert u[k..e] == [u[k]] + u[k + 1..e];
    }
  }

  lemma {:induction false} RestOfWord(u: CString, k: nat, word: CString, outside: bool)
    requires Has(u, k, word) && forall j :: 0 <= j < |word| ==> IsOrdinary(word[j])
    ensures Rest(u, k, outside) == word + Rest(u, k + |word|, outside)
    decreases |word|
  {
    hide Rest;
    if word != [] {
      assert word == [word[0]] + word[1..];
      HasParts(u, k, [word[0]], word[1..]);
      assert u[k] == word[0] by { HasFirst(u, k, word); }
      RestOfByte(u, k, outside);
      RestOfWord(u, k + 1, word[1..], outside);
    }
  }

  lemma {:induction false} SqueezeGap(u: CString, k: nat, gap: CString)
    requires Has(u, k, gap) && forall j :: 0 <= j < |gap| ==> IsGap(gap[j])
    ensures Squeeze(u, k) == Squeeze(u, k + |gap|)
    decreases |gap|
  {
    if gap != [] {
      assert gap == [gap[0]] + gap[1..];
      HasFirst(u, k, gap);
      HasParts(u, k, [gap[0]], gap[1..]);
      SqueezeGap(u, k + 1, gap[1..]);
    }
  }

  lemma {:induction false} SqueezeLiteral(u: CString, k: nat, s: CString)
    requires Has(u, k, Quoted(s))
    ensures Squeeze(u, k) == Quoted(s) + Rest(u, k + |Quoted(s)|, !EndsInBackslash(s))
  {
    hide Has, Squeeze, Escape, StringEnd;
    var q := Quoted(s);
    var e := k + |q|;
    HasFirst(u, k, q);
    QuotedParts(s);
    HasParts(u, k, [QUOTE], Escape(s) + [QUOTE]);
    ScanEscaped(s, u, k + 1);
    SqueezeAtQuote(u, k);
    assert u[k..e] == q by { HasSlice(u, k, q); }
    if EndsInBackslash(s) {
      VerbatimLater(u, k, e, StringEnd(u, e));
    }
  }

  lemma {:induction false} QuotedParts(s: CString)
    ensures Quoted(s) == [QUOTE] + (Escape(s) + [QUOTE])
  {
  }

  lemma {:induction false} VerbatimLater(u: CString, k: nat, e: nat, to: nat)
    requires k <= e <= to <= |u|
    ensures Verbatim(u, k, to) == u[k..e] + Verbatim(u, e, to)
  {
    hide Squeeze;
    assert u[k..to] == u[k..e] + u[e..to];
  }

  lemma {:induction false} HasFits(u: CString, k: nat, word: CString)
    requires Has(u, k, word)
    ensures k + |word| <= |u|
  {
  }

  lemma {:induction false} HasSlice(u: CString, k: nat, word: CString)
    requires Has(u, k, word)
    ensures u[k..k + |word|] == word
  {
  }

  /** Inside a string, bytes that are neither quotes nor backslashes are copied, whitespace or not. */
  lemma {:induction false} TailKeeps(u: CString, k: nat, n: nat)
    requires k + n <= |u| && forall j :: k <= j < k + n ==> u[j] != QUOTE && u[j] != BACKSLASH
    ensures |Tail(u, k)| >= n && forall j :: 0 <= j < n ==> Tail(u, k)[j] == u[k + j]
  {
    ScanPlain(u, k, n);
  }

  lemma {:induction false} CancelLeft(a: CString, x: CString, y: CString)
    ensures a + x == a + y ==> x == y
  {
    if a + x == a + y {
      assert x == (a + x)[|a|..] == (a + y)[|a|..] == y;
    }
  }

  // ---- trees that commute ----

  lemma {:induction false} SqueezeValue(t: Json, d: nat, u: CString, i: nat)
    requires Printable(t) && Commutes(t) && Has(u, i, Text(t, true, d))
    ensures i + |Text(t, true, d)| <= |u|
    ensures Squeeze(u, i) == Text(t, false, d) + Rest(u, i + |Text(t, true, d)|, Clean(t))
    decreases t
  {
    hide Has, Squeeze, Rest, Escape, Decimal, ItemsText, MembersText, CleanItems, CleanMembers, CommutesItems;
    HasFits(u, i, Text(t, true, d));
    match t
    case Null => SqueezeWord(u, i, NULL_TEXT);
    case Bool(b) => SqueezeWord(u, i, if b then TRUE_TEXT else FALSE_TEXT);
    case Num(n) =>
      DecimalIsOrdinary(n);
      SqueezeWord(u, i, Decimal(n));
    case Str(s) => SqueezeLiteral(u, i, s);
    case Arr(items) => SqueezeArray(items, d, u, i);
    case Obj(members) => SqueezeObject(members, d, u, i);
  }

  lemma {:induction false} SqueezeWord(u: CString, i: nat, word: CString)
    requires Has(u, i, word) && forall j :: 0 <= j < |word| ==> IsOrdinary(word[j])
    ensures Squeeze(u, i) == word + Rest(u, i + |word|, true)
  {
    RestOfWord(u, i, word, true);
  }

  lemma {:induction false} DecimalIsOrdinary(n: SmallInt)
    ensures forall j :: 0 <= j < |Decimal(n)| ==> IsOrdinary(Decimal(n)[j])
  {
    hide Digits;
  }

  lemma {:induction false} SqueezeArray(items: seq<Json>, d: nat, u: CString, i: nat)
    requires PrintableItems(items) && CommutesItems(items) && Has(u, i, Text(Arr(items), true, d))
    ensures Squeeze(u, i) ==
            Text(Arr(items), false, d) + Rest(u, i + |Text(Arr(items), true, d)|, CleanItems(items))
    decreases items, 1
  {
    hide Has, Squeeze, Rest, ItemsText, CleanItems, CommutesItems;
    var body := ItemsText(items, true, d + 1);
    var end := i + 1 + |body|;
    HasThree(u, i, [LBRACKET], body, [RBRACKET]);
    SqueezeWord(u, i, [LBRACKET]);
    SqueezeItems(items, d + 1, u, i + 1);
    RestOfWord(u, end, [RBRACKET], CleanItems(items));
    RestIsSqueeze(u, i + 1);
  }

  lemma {:induction false} RestIsSqueeze(u: CString, k: nat)
    requires k <= |u|
    ensures Rest(u, k, true) == Squeeze(u, k)
  {
  }

  lemma {:induction false} SqueezeItems(items: seq<Json>, d: nat, u: CString, i: nat)
    requires PrintableItems(items) && CommutesItems(items) && Has(u, i, ItemsText(items, true, d))
    ensures Squeeze(u, i) ==
            ItemsText(items, false, d) + Rest(u, i + |ItemsText(items, true, d)|, CleanItems(items))
    decreases items, 0
  {
    hide Has, Squeeze, Rest, Text, ItemsText, Clean, Commutes;
    if items == [] {
      HasFits(u, i, ItemsText(items, true, d));
      ItemsTextOfNone(true, d);
      ItemsTextOfNone(false, d);
      RestIsSqueeze(u, i);
    } else {
      UnfoldItems(items, false, d);
      var end, next := ItemsParts(items, true, d, u, i);
      CleanCommutes(items[0]);
      SqueezeValue(items[0], d, u, i);
      if items[1..] != [] {
        SqueezeComma(u, end);
        SqueezeItems(items[1..], d, u, next);
      } else {
        ItemsTextOfNone(true, d);
        ItemsTextOfNone(false, d);
      }
    }
  }

  lemma {:induction false} SqueezeComma(u: CString, i: nat)
    requires Has(u, i, AfterItem(true, true))
    ensures i + 2 <= |u| && Rest(u, i, true) == [COMMA] + Squeeze(u, i + 2)
  {
    hide Has, Squeeze;
    HasFits(u, i, AfterItem(true, true));
    HasParts(u, i, [COMMA], SpaceIf(true));
    SqueezeWord(u, i, [COMMA]);
    SqueezeGap(u, i + 1, SpaceIf(true));
  }

  lemma {:induction false} SqueezeObject(members: seq<Member>, d: nat, u: CString, i: nat)
    requires PrintableMembers(members) && CleanMembers(members) && Has(u, i, Text(Obj(members), true, d))
    ensures Squeeze(u, i) == Text(Obj(members), false, d) + Rest(u, i + |Text(Obj(members), true, d)|, true)
    decreases members, 1
  {
    hide Has, Squeeze, Rest, Text, MembersText, CleanMembers, Tabs;
    var body := MembersText(members, true, d + 1);
    var end := i + 2 + |body|;
    UnfoldObject(members, true, d);
    UnfoldObject(members, false, d);
    HasThree(u, i, ObjectOpen(true), body, Indent(true, d) + [RBRACE]);
    SqueezeOpen(u, i);
    SqueezeMembers(members, d + 1, u, i + 2);
    HasParts(u, end, Indent(true, d), [RBRACE]);
    SqueezeGap(u, end, Indent(true, d));
    SqueezeWord(u, end + |Indent(true, d)|, [RBRACE]);
    assert Indent(false, d) == [];
  }

  lemma {:induction false} SqueezeOpen(u: CString, i: nat)
    requires Has(u, i, ObjectOpen(true))
    ensures Squeeze(u, i) == [LBRACE] + Squeeze(u, i + 2)
  {
    hide Has, Squeeze;
    HasParts(u, i, [LBRACE], NewlineIf(true));
    SqueezeWord(u, i, [LBRACE]);
    RestIsSqueeze(u, i + 1);
    SqueezeGap(u, i + 1, NewlineIf(true));
  }

  lemma {:induction false} SqueezeMembers(members: seq<Member>, d: nat, u: CString, i: nat)
    requires PrintableMembers(members) && CleanMembers(members) && Has(u, i, MembersText(members, true, d))
    ensures Squeeze(u, i) == MembersText(members, false, d) + Squeeze(u, i + |MembersText(members, true, d)|)
    decreases members, 0
  {
    hide Has, Squeeze, Rest, Text, MembersText, KeyText, AfterMember, Clean, EndsInBackslash;
    if members == [] {
      ItemsTextOfNone(true, d);
      ItemsTextOfNone(false, d);
    } else {
      var m := members[0];
      UnfoldMembers(members, false, d);
      var start, end, next := MembersParts(members, true, d, u, i);
      HasFits(u, i, KeyText(m.key, true, d));
      SqueezeKey(m.key, d, u, i);
      CleanCommutes(m.value);
      SqueezeValue(m.value, d, u, start);
      RestIsSqueeze(u, start);
      RestIsSqueeze(u, end);
      SqueezeAfterMember(members[1..] != [], u, end);
      SqueezeMembers(members[1..], d, u, next);
    }
  }

  lemma {:induction false} SqueezeKey(key: CString, d: nat, u: CString, i: nat)
    requires Has(u, i, KeyText(key, true, d)) && !EndsInBackslash(key)
    ensures Squeeze(u, i) == KeyText(key, false, d) + Rest(u, i + |KeyText(key, true, d)|, true)
  {
    hide Has, Squeeze, Rest, Escape, Tabs;
    var quote := i + d;
    var colon := quote + |Quoted(key)|;
    KeyTextParts(key, d);
    HasParts(u, i, Tabs(d), Quoted(key) + [COLON] + [TAB]);
    HasThree(u, quote, Quoted(key), [COLON], [TAB]);
    SqueezeGap(u, i, Tabs(d));
    SqueezeLiteral(u, quote, key);
    RestIsSqueeze(u, colon);
    SqueezeWord(u, colon, [COLON]);
    RestIsSqueeze(u, colon + 1);
    SqueezeGap(u, colon + 1, [TAB]);
    RestIsSqueeze(u, colon + 2);
  }

  lemma {:induction false} KeyTextParts(key: CString, d: nat)
    ensures KeyText(key, true, d) == Tabs(d) + (Quoted(key) + [COLON] + [TAB])
    ensures KeyText(key, false, d) == Quoted(key) + [COLON]
  {
  }

  lemma {:induction false} SqueezeAfterMember(more: bool, u: CString, i: nat)
    requires Has(u, i, AfterMember(more, true))
    ensures Squeeze(u, i) == AfterMember(more, false) + Squeeze(u, i + |AfterMember(more, true)|)
  {
    hide Has, Squeeze, Rest;
    var comma: CString := if more then [COMMA] else [];
    assert AfterMember(more, true) == comma + [NEWLINE];
    HasParts(u, i, comma, [NEWLINE]);
    SqueezeWord(u, i, comma);
    RestIsSqueeze(u, i + |comma|);
    SqueezeGap(u, i + |comma|, [NEWLINE]);
  }

  // ---- trees that do not ----

  lemma {:induction false} ValueDiffers(t: Json, d: nat, u: CString, i: nat, y: CString)
    requires Printable(t) && !Commutes(t) && Has(u, i, Text(t, true, d))
    ensures i <= |u| && Squeeze(u, i) != Text(t, false, d) + y
    decreases t
  {
    hide Has, Squeeze, Text, CommutesItems, CleanMembers;
    HasFits(u, i, Text(t, true, d));
    match t
    case Arr(items) => ArrayDiffers(items, d, u, i, y);
    case Obj(members) => ObjectDiffers(members, d, u, i, y);
  }

  lemma {:induction false} ArrayDiffers(items: seq<Json>, d: nat, u: CString, i: nat, y: CString)
    requires PrintableItems(items) && !CommutesItems(items) && Has(u, i, Text(Arr(items), true, d)) && i <= |u|
    ensures Squeeze(u, i) != Text(Arr(items), false, d) + y
    decreases items, 1
  {
    hide Has, Squeeze, ItemsText, CommutesItems;
    HasThree(u, i, [LBRACKET], ItemsText(items, true, d + 1), [RBRACKET]);
    HasFits(u, i, [LBRACKET]);
    SqueezeWord(u, i, [LBRACKET]);
    ItemsDiffer(items, d + 1, u, i + 1, [RBRACKET] + y);
    assert Text(Arr(items), false, d) + y == [LBRACKET] + (ItemsText(items, false, d + 1) + ([RBRACKET] + y));
    CancelLeft([LBRACKET], Squeeze(u, i + 1), ItemsText(items, false, d + 1) + ([RBRACKET] + y));
  }

  lemma {:induction false} ItemsDiffer(items: seq<Json>, d: nat, u: CString, i: nat, y: CString)
    requires PrintableItems(items) && !CommutesItems(items) && Has(u, i, ItemsText(items, true, d)) && i <= |u|
    ensures Squeeze(u, i) != ItemsText(items, false, d) + y
    decreases items, 0
  {
    hide Has, Squeeze, Rest, Text, ItemsText, Clean, Commutes, AfterItem;
    var head := Text(items[0], false, d);
    var after := AfterItem(items[1..] != [], false) + ItemsText(items[1..], false, d) + y;
    UnfoldItems(items, false, d);
    assert ItemsText(items, false, d) + y == head + after;
    var end, next := ItemsParts(items, true, d, u, i);
    CleanCommutes(items[0]);
    if !Commutes(items[0]) {
      ValueDiffers(items[0], d, u, i, after);
    } else {
      SqueezeValue(items[0], d, u, i);
      CancelLeft(head, Rest(u, end, Clean(items[0])), after);
      AfterItemDiffers(items, d, u, end, next, y);
    }
  }

  /** What follows the first item differs when that item or the others spoil the text. */
  lemma {:induction false} AfterItemDiffers(items: seq<Json>, d: nat, u: CString, end: nat, next: nat, y: CString)
    requires items != [] && PrintableItems(items) && !CommutesItems(items) && Commutes(items[0])
    requires end <= |u| && Has(u, end, AfterItem(items[1..] != [], true))
    requires next == end + |AfterItem(items[1..] != [], true)| && Has(u, next, ItemsText(items[1..], true, d))
    ensures Rest(u, end, Clean(items[0])) != AfterItem(items[1..] != [], false) + ItemsText(items[1..], false, d) + y
    decreases items[1..], 1
  {
    hide Has, Squeeze, Text, ItemsText, Clean, Commutes;
    var others := items[1..];
    var more := ItemsText(others, false, d) + y;
    assert others != [];
    assert AfterItem(true, false) + ItemsText(others, false, d) + y == [COMMA] + more;
    if Clean(items[0]) {
      SqueezeComma(u, end);
      ItemsDiffer(others, d, u, end + 2, y);
      CancelLeft([COMMA], Squeeze(u, end + 2), more);
    } else {
      assert AfterItem(true, true) == [COMMA, SPACE];
      HasBytes(u, end, [COMMA, SPACE]);
      TailKeeps(u, end, 2);
      assert Tail(u, end)[1] == u[end + 1] == SPACE;
      UnfoldItems(others, false, d);
      TextStart(others[0], false, d);
      assert more[0] == Text(others[0], false, d)[0];
      assert ([COMMA] + more)[1] == more[0];
    }
  }

  lemma {:induction false} ObjectDiffers(members: seq<Member>, d: nat, u: CString, i: nat, y: CString)
    requires PrintableMembers(members) && !CleanMembers(members) && i <= |u|
    requires Has(u, i, Text(Obj(members), true, d))
    ensures Squeeze(u, i) != Text(Obj(members), false, d) + y
    decreases members, 1
  {
    hide Has, Squeeze, Text, MembersText, CleanMembers, Tabs;
    UnfoldObject(members, true, d);
    UnfoldObject(members, false, d);
    HasThree(u, i, ObjectOpen(true), MembersText(members, true, d + 1), Indent(true, d) + [RBRACE]);
    HasFits(u, i, ObjectOpen(true));
    SqueezeOpen(u, i);
    MembersDiffer(members, d + 1, u, i + 2, y);
    var more := MembersText(members, false, d + 1) + ([RBRACE] + y);
    assert Text(Obj(members), false, d) + y == [LBRACE] + more;
    CancelLeft([LBRACE], Squeeze(u, i + 2), more);
  }

  lemma {:induction false} MembersDiffer(members: seq<Member>, d: nat, u: CString, i: nat, y: CString)
    requires PrintableMembers(members) && !CleanMembers(members) && i <= |u|
    requires Has(u, i, MembersText(members, true, d))
    ensures Squeeze(u, i) != MembersText(members, false, d) + ([RBRACE] + y)
    decreases members, 0
  {
    hide Has, Squeeze, Rest, Text, MembersText, KeyText, AfterMember, Clean, Commutes, EndsInBackslash;
    var m := members[0];
    var key := KeyText(m.key, false, d);
    var end := [RBRACE] + y;
    UnfoldMembers(members, false, d);
    var after := AfterMember(members[1..] != [], false) + MembersText(members[1..], false, d) + end;
    var value := Text(m.value, false, d) + after;
    assert MembersText(members, false, d) + end == key + value;
    var start, stop, next := MembersParts(members, true, d, u, i);
    HasFits(u, i, KeyText(m.key, true, d));
    if EndsInBackslash(m.key) {
      TextStart(m.value, false, d);
      KeyDiffers(m.key, d, u, i, Text(m.value, true, d), value);
    } else {
      SqueezeKey(m.key, d, u, i);
      RestIsSqueeze(u, start);
      CancelLeft(key, Squeeze(u, start), value);
      if !Commutes(m.value) {
        ValueDiffers(m.value, d, u, start, after);
      } else {
        SqueezeValue(m.value, d, u, start);
        CancelLeft(Text(m.value, false, d), Rest(u, stop, Clean(m.value)), after);
        AfterMemberDiffers(members, d, u, stop, next, y);
      }
    }
  }

  /** A key that ends in a backslash keeps the tab after its colon. */
  lemma {:induction false} KeyDiffers(key: CString, d: nat, u: CString, i: nat, word: CString, value: CString)
    requires Has(u, i, KeyText(key, true, d)) && EndsInBackslash(key) && i <= |u|
    requires value != [] && value[0] > 32
    ensures Squeeze(u, i) != KeyText(key, false, d) + value
  {
    hide Has, Squeeze, Escape, Tabs;
    var quote := i + d;
    var colon := quote + |Quoted(key)|;
    KeyTextParts(key, d);
    HasParts(u, i, Tabs(d), Quoted(key) + [COLON] + [TAB]);
    HasThree(u, quote, Quoted(key), [COLON], [TAB]);
    SqueezeGap(u, i, Tabs(d));
    SqueezeLiteral(u, quote, key);
    HasBytes(u, colon, [COLON]);
    HasBytes(u, colon + 1, [TAB]);
    TailKeeps(u, colon, 2);
    assert KeyText(key, false, d) + value == Quoted(key) + ([COLON] + value);
    CancelLeft(Quoted(key), Tail(u, colon), [COLON] + value);
    assert ([COLON] + value)[1] == value[0];
  }

  lemma {:induction false} AfterMemberDiffers(members: seq<Member>, d: nat, u: CString, stop: nat, next: nat,
      y: CString)
    requires members != [] && PrintableMembers(members) && !CleanMembers(members)
    requires !EndsInBackslash(members[0].key) && Commutes(members[0].value)
    requires stop <= |u| && Has(u, stop, AfterMember(members[1..] != [], true))
    requires next == stop + |AfterMember(members[1..] != [], true)|
    requires Has(u, next, MembersText(members[1..], true, d))
    ensures Rest(u, stop, Clean(members[0].value)) !=
            AfterMember(members[1..] != [], false) + MembersText(members[1..], false, d) + ([RBRACE] + y)
    decreases members[1..], 1
  {
    hide Has, Squeeze, MembersText, Clean, Commutes, EndsInBackslash;
    var others := members[1..];
    var more := MembersText(others, false, d) + ([RBRACE] + y);
    var comma := AfterMember(others != [], false);
    assert comma + MembersText(others, false, d) + ([RBRACE] + y) == comma + more;
    if Clean(members[0].value) {
      SqueezeAfterMember(others != [], u, stop);
      HasFits(u, stop, AfterMember(others != [], true));
      MembersDiffer(others, d, u, next, y);
      CancelLeft(comma, Squeeze(u, next), more);
    } else if others != [] {
      assert AfterMember(true, true) == [COMMA, NEWLINE];
      HasBytes(u, stop, [COMMA, NEWLINE]);
      TailKeeps(u, stop, 2);
      assert Tail(u, stop)[1] == u[stop + 1] == NEWLINE;
      assert (comma + more)[1] == more[0];
      MembersStartText(others, false, d);
      assert more[0] == QUOTE;
    } else {
      assert AfterMember(false, true) == [NEWLINE];
      HasBytes(u, stop, [NEWLINE]);
      TailKeeps(u, stop, 1);
      assert Tail(u, stop)[0] == u[stop] == NEWLINE;
      ItemsTextOfNone(false, d);
      assert comma == [] && more == [RBRACE] + y;
    }
  }

  // ---- the law ----

  /**
   * Minifying the formatted print of a tree gives its unformatted print, byte for byte, if and only if no
   * string or key ends in a backslash, a string that only closing brackets follow excepted.
   */
  lemma {:induction false} MinifyCommutesWithPrint(t: Json)
    requires Printable(t)
    ensures Minified(Text(t, true, 0)) == Text(t, false, 0) <==> Commutes(t)
  {
    hide Text, Commutes, Clean, Squeeze;
    var u := Text(t, true, 0);
    assert u[0..|u|] == u;
    if Commutes(t) {
      SqueezeValue(t, 0, u, 0);
      RestAtEnd(u, Clean(t));
    } else {
      ValueDiffers(t, 0, u, 0, []);
    }
  }

  lemma {:induction false} RestAtEnd(u: CString, outside: bool)
    ensures Rest(u, |u|, outside) == []
  {
  }
}
