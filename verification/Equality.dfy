/** What the answer of cJSON_Compare says about two values, in terms of plain equality. */
module Equality {
  import opened Bytes
  import opened JsonTree
  import opened Census
  import opened Compare

  // ---- values with their keys in order ----

  /** Strict lexicographic order of byte strings. */
  predicate Less(k: CString, l: CString) {
    l != [] && (k == [] || k[0] < l[0] || (k[0] == l[0] && Less(k[1..], l[1..])))
  }

  predicate KeysAscend(members: seq<Member>) {
    forall i, j :: 0 <= i < j < |members| ==> Less(members[i].key, members[j].key)
  }

  /** In every object of the tree the keys are in strictly ascending order. */
  predicate Ordered(t: Json) {
    match t
    case Arr(items) => forall i :: 0 <= i < |items| ==> Ordered(items[i])
    case Obj(members) => KeysAscend(members) && forall i :: 0 <= i < |members| ==> Ordered(members[i].value)
    case _ => true
  }

  lemma {:induction false} LessIsStrict(k: CString, l: CString)
    requires Less(k, l)
    ensures k != l && !Less(l, k)
  {
    if k != [] && k[0] == l[0] { LessIsStrict(k[1..], l[1..]); }
  }

  predicate HasKey(members: seq<Member>, key: CString) {
    exists j :: 0 <= j < |members| && members[j].key == key
  }

  /** Every key of `ms` is also one of `ns`. */
  predicate KeysIn(ms: seq<Member>, ns: seq<Member>) {
    forall i :: 0 <= i < |ms| ==> HasKey(ns, ms[i].key)
  }

  predicate SameKeys(ms: seq<Member>, ns: seq<Member>) {
    |ms| == |ns| && forall i :: 0 <= i < |ms| ==> ms[i].key == ns[i].key
  }

  /** Two ascending lists of the same keys are the same list. */
  lemma {:induction false} SameKeysInOrder(ms: seq<Member>, ns: seq<Member>)
    requires KeysAscend(ms) && KeysAscend(ns) && KeysIn(ms, ns) && KeysIn(ns, ms)
    ensures SameKeys(ms, ns)
    decreases |ms|
  {
    hide KeysAscend, HasKey, SameKeys;
    if ms == [] || ns == [] {
      NoKeys(ms, ns);
    } else {
      FirstKeyFirst(ms, ns);
      RestOfKeys(ms, ns);
      RestOfKeys(ns, ms);
      SameKeysInOrder(ms[1..], ns[1..]);
      OneMoreKey(ms, ns);
    }
  }

  lemma {:induction false} NoKeys(ms: seq<Member>, ns: seq<Member>)
    requires KeysIn(ms, ns) && KeysIn(ns, ms) && (ms == [] || ns == [])
    ensures SameKeys(ms, ns)
  {
    assert ms != [] ==> HasKey(ns, ms[0].key);
    assert ns != [] ==> HasKey(ms, ns[0].key);
  }

  lemma {:induction false} OneMoreKey(ms: seq<Member>, ns: seq<Member>)
    requires ms != [] && ns != [] && ms[0].key == ns[0].key && SameKeys(ms[1..], ns[1..])
    ensures SameKeys(ms, ns)
  {
    forall i | 0 <= i < |ms| ensures ms[i].key == ns[i].key {
      if i > 0 { assert ms[i] == ms[1..][i - 1] && ns[i] == ns[1..][i - 1]; }
    }
  }

  lemma {:induction false} FirstKeyFirst(ms: seq<Member>, ns: seq<Member>)
    requires ms != [] && ns != [] && KeysAscend(ms) && KeysAscend(ns) && KeysIn(ms, ns) && KeysIn(ns, ms)
    ensures ms[0].key == ns[0].key
  {
    assert HasKey(ns, ms[0].key) && HasKey(ms, ns[0].key);
    var j :| 0 <= j < |ns| && ns[j].key == ms[0].key;
    var i :| 0 <= i < |ms| && ms[i].key == ns[0].key;
    if i > 0 && j > 0 {
      LessIsStrict(ms[0].key, ms[i].key);
    }
  }

  lemma {:induction false} RestOfKeys(ms: seq<Member>, ns: seq<Member>)
    requires ms != [] && ns != [] && ms[0].key == ns[0].key && KeysAscend(ms) && KeysIn(ms, ns)
    ensures KeysAscend(ms[1..]) && KeysIn(ms[1..], ns[1..])
  {
    hide Less;
    forall i | 0 <= i < |ms[1..]| ensures HasKey(ns[1..], ms[1..][i].key) {
      assert HasKey(ns, ms[i + 1].key);
      var j :| 0 <= j < |ns| && ns[j].key == ms[i + 1].key;
      LessIsStrict(ms[0].key, ms[i + 1].key);
      assert ns[1..][j - 1].key == ms[1..][i].key;
    }
  }

  // ---- the comparison on such values ----

  /** For anything but arrays and objects the answer is equality, in both case modes. */
  lemma {:induction false} ScalarsCompareByEquality(a: Json, b: Json, caseSensitive: bool)
    requires (!a.Arr? && !a.Obj?) || (!b.Arr? && !b.Obj?)
    ensures Same(a, b, caseSensitive) <==> a == b
  {
  }

  /** Values whose keys are in order are the same exactly when they are equal. */
  lemma {:induction false} SameIsEquality(a: Json, b: Json)
    requires Ordered(a) && Ordered(b)
    ensures Same(a, b, true) <==> a == b
    decreases NodeCount(a) + NodeCount(b), 1
  {
    hide Ordered, SameItems, Covers;
    if a == b {
      OrderedIsConsistent(a);
      CopyIsSame(a, true);
    } else if Same(a, b, true) {
      if a.Arr? {
        SameItemsAreEqual(a, b);
      } else if a.Obj? {
        SameMembersAreEqual(a, b);
      }
      assert false;
    }
  }

  lemma {:induction false} SameItemsAreEqual(a: Json, b: Json)
    requires a.Arr? && b.Arr? && Ordered(a) && Ordered(b) && SameItems(a.items, b.items, true)
    ensures a == b
    decreases NodeCount(a) + NodeCount(b), 0
  {
    hide Same;
    forall i | 0 <= i < |a.items| ensures a.items[i] == b.items[i] {
      ItemSize(a.items, i);
      ItemSize(b.items, i);
      SameIsEquality(a.items[i], b.items[i]);
    }
    assert a.items == b.items;
  }

  lemma {:induction false} SameMembersAreEqual(a: Json, b: Json)
    requires a.Obj? && b.Obj? && Ordered(a) && Ordered(b)
    requires Covers(a.members, b.members, true) && Covers(b.members, a.members, true)
    ensures a == b
    decreases NodeCount(a) + NodeCount(b), 0
  {
    hide Same, FirstMatch, KeysAscend, KeysIn, Covers, DistinctKeys, CoveredAt;
    var ms, ns := a.members, b.members;
    CoveredKeys(ms, ns);
    CoveredKeys(ns, ms);
    SameKeysInOrder(ms, ns);
    AscendingIsDistinct(ns);
    EachCovered(ms, ns, true);
    forall i | 0 <= i < |ms| ensures ms[i] == ns[i] {
      MatchAtOwnPlace(ms, ns, i);
      MemberSize(ms, i);
      MemberSize(ns, i);
      SameIsEquality(ms[i].value, ns[i].value);
    }
    assert ms == ns;
  }

  lemma {:induction false} MatchAtOwnPlace(ms: seq<Member>, ns: seq<Member>, i: nat)
    requires i < |ms| && i < |ns| && ms[i].key == ns[i].key && DistinctKeys(ns, true) && CoveredAt(ms, ns, i, true)
    ensures Same(ms[i].value, ns[i].value, true)
  {
    hide Same, FirstMatch;
    MatchOfOwnKey(ns, i, true);
  }

  lemma {:induction false} CoveredKeys(ms: seq<Member>, ns: seq<Member>)
    requires Covers(ms, ns, true)
    ensures KeysIn(ms, ns)
  {
    hide Same;
    EachCovered(ms, ns, true);
    forall i | 0 <= i < |ms| ensures HasKey(ns, ms[i].key) {
      assert CoveredAt(ms, ns, i, true);
      assert ns[FirstMatch(ns, ms[i].key, true)].key == ms[i].key;
    }
  }

  lemma {:induction false} AscendingIsDistinct(members: seq<Member>)
    requires KeysAscend(members)
    ensures DistinctKeys(members, true)
  {
    forall i, j | 0 <= i < j < |members| ensures !Matches(members[i].key, members[j].key, true) {
      LessIsStrict(members[i].key, members[j].key);
    }
  }

  lemma {:induction false} OrderedIsConsistent(t: Json)
    requires Ordered(t)
    ensures Consistent(t, true)
    decreases t
  {
    match t
    case Arr(items) =>
      forall i | 0 <= i < |items| ensures Consistent(items[i], true) {
        OrderedIsConsistent(items[i]);
      }
    case Obj(members) =>
      forall i | 0 <= i < |members| ensures Consistent(members[i].value, true) {
        OrderedIsConsistent(members[i].value);
      }
      AscendingIsDistinct(members);
    case _ =>
  }

  // ---- without regard to case ----

  function LowerLetter(c: CByte): CByte {
    if 65 <= c <= 90 then c + 32 else c
  }

  function LowerText(s: CString): (t: CString)
    ensures |t| == |s| && forall i :: 0 <= i < |s| ==> t[i] == LowerLetter(s[i])
  {
    seq(|s|, i requires 0 <= i < |s| => LowerLetter(s[i]))
  }

  /** The same tree with every key in lower case. */
  function LowerKeys(t: Json): Json
    decreases t, 0
  {
    match t
    case Arr(items) => Arr(LowerItems(items))
    case Obj(members) => Obj(LowerMembers(members))
    case _ => t
  }

  function LowerItems(items: seq<Json>): (r: seq<Json>)
    ensures |r| == |items| && forall i :: 0 <= i < |items| ==> r[i] == LowerKeys(items[i])
    decreases items, 1
  {
    seq(|items|, i requires 0 <= i < |items| => LowerKeys(items[i]))
  }

  function LowerMembers(members: seq<Member>): (r: seq<Member>)
    ensures |r| == |members|
    ensures forall i :: 0 <= i < |members| ==> r[i] == Member(LowerText(members[i].key), LowerKeys(members[i].value))
    decreases members, 1
  {
    seq(|members|, i requires 0 <= i < |members| => Member(LowerText(members[i].key), LowerKeys(members[i].value)))
  }

  lemma {:induction false} FoldIsLowerText(key: CString)
    ensures Fold(key, false) == LowerText(key)
  {
  }

  lemma {:induction false} FirstMatchInLower(members: seq<Member>, key: CString)
    ensures FirstMatch(LowerMembers(members), LowerText(key), true) == FirstMatch(members, key, false)
  {
    if members != [] {
      FoldIsLowerText(key);
      FoldIsLowerText(members[0].key);
      assert LowerMembers(members)[1..] == LowerMembers(members[1..]);
      FirstMatchInLower(members[1..], key);
    }
  }

  /** Without regard to case the answer is the one for the trees with their keys in lower case. */
  lemma {:induction false} CaseIsFolded(a: Json, b: Json)
    ensures Same(a, b, false) <==> Same(LowerKeys(a), LowerKeys(b), true)
    decreases NodeCount(a) + NodeCount(b), 0
  {
    match a
    case Arr(items) =>
      if b.Arr? { ItemsFolded(items, b.items); }
    case Obj(members) =>
      if b.Obj? {
        CoversFolded(members, b.members);
        CoversFolded(b.members, members);
      }
    case _ =>
  }

  lemma {:induction false} ItemsFolded(xs: seq<Json>, ys: seq<Json>)
    ensures SameItems(xs, ys, false) <==> SameItems(LowerItems(xs), LowerItems(ys), true)
    decreases NodeCountItems(xs) + NodeCountItems(ys), 1
  {
    hide Same, LowerKeys, NodeCountItems, NodeCount;
    if |xs| == |ys| {
      var ls, ms := LowerItems(xs), LowerItems(ys);
      forall i | 0 <= i < |xs| ensures Same(xs[i], ys[i], false) <==> Same(ls[i], ms[i], true) {
        ItemSize(xs, i);
        ItemSize(ys, i);
        CaseIsFolded(xs[i], ys[i]);
      }
      assert SameItems(xs, ys, false) <==> forall i :: 0 <= i < |xs| ==> Same(xs[i], ys[i], false);
      assert SameItems(ls, ms, true) <==> forall i :: 0 <= i < |ls| ==> Same(ls[i], ms[i], true);
    }
  }

  lemma {:induction false} CoversFolded(ms: seq<Member>, ns: seq<Member>)
    ensures Covers(ms, ns, false) <==> Covers(LowerMembers(ms), LowerMembers(ns), true)
    decreases NodeCountMembers(ms) + NodeCountMembers(ns), 1
  {
    hide Same, LowerKeys, NodeCountMembers, NodeCount, FirstMatch;
    var ks, ls := LowerMembers(ms), LowerMembers(ns);
    forall i | 0 <= i < |ms| ensures CoveredAt(ms, ns, i, false) <==> CoveredAt(ks, ls, i, true) {
      FirstMatchInLower(ns, ms[i].key);
      var k := FirstMatch(ns, ms[i].key, false);
      if k < |ns| {
        MemberSize(ms, i);
        MemberSize(ns, k);
        CaseIsFolded(ms[i].value, ns[k].value);
      }
    }
    EachCovered(ms, ns, false);
    EachCovered(ks, ls, true);
  }
}
