/**
 * The texts of a tree, written independently of the parser: which texts stand for it, with any bytes up to 32 between
 * two tokens. `Conformance` proves that the parser reads exactly these.
 */
module Syntax {
  import opened Bytes
  import opened JsonTree
  import opened StringSyntax
  import opened NumberSyntax

  /** Nothing but bytes up to 32 from `i` to `j`. */
  predicate Blanks(text: CString, i: nat, j: nat) {
    i <= j <= |text| && forall k :: i <= k < j ==> text[k] <= 32
  }

  predicate WordAt(text: CString, i: nat, e: nat, word: CString) {
    i <= e <= |text| && text[i..e] == word
  }

  /** The C string in a block: the bytes before the first NUL. */
  predicate UpToNul(bytes: seq<Byte>, s: CString) {
    |s| <= |bytes| && bytes[..|s|] == s && (|s| < |bytes| ==> bytes[|s|] == 0)
  }

  /** A string literal from `i` to `e`; an escaped NUL ends the string early. */
  ghost predicate StringAt(text: CString, i: nat, e: nat, s: CString) {
    exists bytes :: LiteralAt(text, i, e, bytes) && UpToNul(bytes, s)
  }

  predicate NumberAt(text: CString, i: nat, e: nat, t: Json) {
    i < e <= |text| && text[i] != 46 && NumberText(text[i..e]) && NumberMeans(text[i..e], t)
  }

  /** From `i` to `e` stands the tree `t`. */
  ghost predicate ValueAt(text: CString, i: nat, e: nat, t: Json)
    decreases t, 0
  {
    match t
    case Null => WordAt(text, i, e, [110, 117, 108, 108])
    case Bool(b) => WordAt(text, i, e, if b then [116, 114, 117, 101] else [102, 97, 108, 115, 101])
    case Num(_) => NumberAt(text, i, e, t)
    case Real(_) => NumberAt(text, i, e, t)
    case Str(s) => StringAt(text, i, e, s)
    case Arr(items) =>
      && i + 2 <= e <= |text| && text[i] == 91
      && if items == [] then Blanks(text, i + 1, e - 1) && text[e - 1] == 93 else ItemsAt(text, i + 1, e, items)
    case Obj(members) =>
      && i + 2 <= e <= |text| && text[i] == 123
      && if members == [] then Blanks(text, i + 1, e - 1) && text[e - 1] == 125
         else MembersAt(text, i + 1, e, members)
  }

  /** A value with blanks on both sides. */
  ghost predicate ElementAt(text: CString, i: nat, e: nat, v: Json)
    decreases v, 1
  {
    exists a: nat, b: nat :: Blanks(text, i, a) && ValueAt(text, a, b, v) && Blanks(text, b, e)
  }

  /** Elements separated by commas, and the closing bracket. */
  ghost predicate ItemsAt(text: CString, i: nat, e: nat, items: seq<Json>)
    requires items != []
    decreases items
  {
    exists c: nat ::
      && c < e <= |text| && ElementAt(text, i, c, items[0])
      && if |items| == 1 then text[c] == 93 && e == c + 1
         else text[c] == 44 && ItemsAt(text, c + 1, e, items[1..])
  }

  /** A key with blanks on both sides, a colon, and blanks. */
  ghost predicate KeyAt(text: CString, i: nat, e: nat, key: CString) {
    exists a: nat, b: nat, c: nat ::
      && Blanks(text, i, a) && StringAt(text, a, b, key) && Blanks(text, b, c)
      && c < e <= |text| && text[c] == 58 && Blanks(text, c + 1, e)
  }

  ghost predicate PairAt(text: CString, i: nat, e: nat, m: Member)
    decreases m
  {
    exists a: nat, b: nat :: KeyAt(text, i, a, m.key) && ValueAt(text, a, b, m.value) && Blanks(text, b, e)
  }

  /** Pairs separated by commas, and the closing brace. */
  ghost predicate MembersAt(text: CString, i: nat, e: nat, members: seq<Member>)
    requires members != []
    decreases members
  {
    exists c: nat ::
      && c < e <= |text| && PairAt(text, i, c, members[0])
      && if |members| == 1 then text[c] == 125 && e == c + 1
         else text[c] == 44 && MembersAt(text, c + 1, e, members[1..])
  }

  /** A byte order mark, or nothing. */
  predicate MarkAt(text: CString, m: nat) {
    m == 0 || (m == 3 && |text| >= 3 && text[..3] == [0xEF, 0xBB, 0xBF])
  }

  /** The text up to `e`: a byte order mark at most, blanks, and the tree. */
  ghost predicate StartsWith(text: CString, e: nat, t: Json) {
    exists m: nat, a: nat :: MarkAt(text, m) && Blanks(text, m, a) && ValueAt(text, a, e, t)
  }

  /** The whole text stands for the tree. */
  ghost predicate IsTextOf(text: CString, t: Json) {
    exists e: nat :: StartsWith(text, e, t) && Blanks(text, e, |text|)
  }

  // ---- how deep ----

  /** Somewhere in the tree `n` containers are open at once. */
  predicate HasChain(t: Json, n: nat) {
    n > 0 ==>
      && (t.Arr? || t.Obj?)
      && (n > 1 ==> exists k :: 0 <= k < KidCount(t) && HasChain(KidValue(t, k), n - 1))
  }

  lemma {:induction false} NestingIsTheLongestChain(t: Json, n: nat)
    ensures HasChain(t, n) <==> n <= Nesting(t)
    decreases t
  {
    if n > 1 && (t.Arr? || t.Obj?) {
      forall k | 0 <= k < KidCount(t) ensures HasChain(KidValue(t, k), n - 1) <==> n - 1 <= Nesting(KidValue(t, k)) {
        NestingIsTheLongestChain(KidValue(t, k), n - 1);
      }
      DeepKid(t, n - 1);
    }
  }

  lemma {:induction false} DeepKid(t: Json, n: nat)
    requires n > 0 && (t.Arr? || t.Obj?)
    ensures n < Nesting(t) <==> exists k :: 0 <= k < KidCount(t) && n <= Nesting(KidValue(t, k))
  {
    if t.Arr? {
      DeepItem(t.items, n);
      assert forall k :: 0 <= k < KidCount(t) ==> KidValue(t, k) == t.items[k];
    } else {
      DeepMember(t.members, n);
      assert forall k :: 0 <= k < KidCount(t) ==> KidValue(t, k) == t.members[k].value;
    }
    if n < Nesting(t) {
      if t.Arr? {
        var k :| 0 <= k < |t.items| && n <= Nesting(t.items[k]);
        assert n <= Nesting(KidValue(t, k));
      } else {
        var k :| 0 <= k < |t.members| && n <= Nesting(t.members[k].value);
        assert n <= Nesting(KidValue(t, k));
      }
    }
  }

  lemma {:induction false} DeepItem(items: seq<Json>, n: nat)
    requires n > 0
    ensures n <= NestingOfItems(items) <==> exists k :: 0 <= k < |items| && n <= Nesting(items[k])
  {
    if items != [] {
      DeepItem(items[1..], n);
      if exists k :: 0 <= k < |items| && n <= Nesting(items[k]) {
        var k :| 0 <= k < |items| && n <= Nesting(items[k]);
        if k > 0 { assert items[1..][k - 1] == items[k]; }
      }
      if n <= NestingOfItems(items[1..]) {
        var k :| 0 <= k < |items[1..]| && n <= Nesting(items[1..][k]);
        assert items[k + 1] == items[1..][k];
      }
    }
  }

  lemma {:induction false} DeepMember(members: seq<Member>, n: nat)
    requires n > 0
    ensures n <= NestingOfMembers(members) <==> exists k :: 0 <= k < |members| && n <= Nesting(members[k].value)
  {
    if members != [] {
      DeepMember(members[1..], n);
      if exists k :: 0 <= k < |members| && n <= Nesting(members[k].value) {
        var k :| 0 <= k < |members| && n <= Nesting(members[k].value);
        if k > 0 { assert members[1..][k - 1] == members[k]; }
      }
      if n <= NestingOfMembers(members[1..]) {
        var k :| 0 <= k < |members[1..]| && n <= Nesting(members[1..][k].value);
        assert members[k + 1] == members[1..][k];
      }
    }
  }
}
