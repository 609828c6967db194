/** cJSON_Compare: what it decides about two values, and when that is equality. */
module Compare {
  import opened Bytes
  import opened JsonTree
  import opened Census

  // ---- keys ----

  /** tolower in the C locale */
  function LowerByte(c: CByte): CByte {
    if 65 <= c <= 90 then c + 32 else c
  }

  function Lower(s: CString): (t: CString)
    ensures |t| == |s|
  {
    seq(|s|, i requires 0 <= i < |s| => LowerByte(s[i]))
  }

  /** Two keys match when they are the same after folding. */
  function Fold(key: CString, caseSensitive: bool): CString {
    if caseSensitive then key else Lower(key)
  }

  predicate Matches(k: CString, l: CString, caseSensitive: bool) {
    Fold(k, caseSensitive) == Fold(l, caseSensitive)
  }

  /** An ASCII letter and itself in the other case. */
  predicate OtherCase(b: CByte, c: CByte) {
    (65 <= b <= 90 && c == b + 32) || (97 <= b <= 122 && c == b - 32)
  }

  /** The keys are equal; without regard to case a letter may stand for itself in the other case. */
  predicate KeysAgree(k: CString, l: CString, caseSensitive: bool) {
    if caseSensitive then k == l
    else |k| == |l| && forall i :: 0 <= i < |k| ==> k[i] == l[i] || OtherCase(k[i], l[i])
  }

  lemma {:induction false} MatchingIsAgreement(k: CString, l: CString, caseSensitive: bool)
    ensures Matches(k, l, caseSensitive) <==> KeysAgree(k, l, caseSensitive)
  {
    if !caseSensitive {
      forall i | 0 <= i < |k| && i < |l| ensures Lower(k)[i] == Lower(l)[i] <==> k[i] == l[i] || OtherCase(k[i], l[i]) {
      }
      if KeysAgree(k, l, false) { assert Lower(k) == Lower(l); }
      if Lower(k) == Lower(l) {
        forall i | 0 <= i < |k| ensures k[i] == l[i] || OtherCase(k[i], l[i]) {
          assert Lower(k)[i] == Lower(l)[i];
        }
      }
    }
  }

  /** Where get_object_item stops: at the first member whose key matches, or past the end. */
  function FirstMatch(members: seq<Member>, key: CString, caseSensitive: bool): (k: nat)
    ensures k <= |members| && (k < |members| ==> Matches(key, members[k].key, caseSensitive))
    ensures forall i :: 0 <= i < k ==> !Matches(key, members[i].key, caseSensitive)
  {
    if members == [] || Matches(key, members[0].key, caseSensitive) then 0
    else 1 + FirstMatch(members[1..], key, caseSensitive)
  }

  // ---- the comparison ----

  lemma {:induction false} ItemSize(items: seq<Json>, i: nat)
    requires i < |items|
    ensures NodeCount(items[i]) <= NodeCountItems(items)
  {
    if i > 0 { ItemSize(items[1..], i - 1); }
  }

  lemma {:induction false} MemberSize(members: seq<Member>, i: nat)
    requires i < |members|
    ensures NodeCount(members[i].value) <= NodeCountMembers(members)
  {
    if i > 0 { MemberSize(members[1..], i - 1); }
  }

  /** The answer of cJSON_Compare for two values in different places. */
  ghost predicate Same(a: Json, b: Json, caseSensitive: bool)
    decreases NodeCount(a) + NodeCount(b), 0
  {
    match a
    case Arr(items) => b.Arr? && SameItems(items, b.items, caseSensitive)
    case Obj(members) =>
      b.Obj? && Covers(members, b.members, caseSensitive) && Covers(b.members, members, caseSensitive)
    case _ => a == b
  }

  ghost predicate SameItems(xs: seq<Json>, ys: seq<Json>, caseSensitive: bool)
    decreases NodeCountItems(xs) + NodeCountItems(ys), 1
  {
    && |xs| == |ys|
    && forall i :: 0 <= i < |xs| ==> (ItemSize(xs, i); ItemSize(ys, i); Same(xs[i], ys[i], caseSensitive))
  }

  /** Every member of `ms` is the same as the first one in `ns` with a matching key. */
  ghost predicate Covers(ms: seq<Member>, ns: seq<Member>, caseSensitive: bool)
    decreases NodeCountMembers(ms) + NodeCountMembers(ns), 1
  {
    forall i :: 0 <= i < |ms| ==>
      var k := FirstMatch(ns, ms[i].key, caseSensitive);
      k < |ns| && (MemberSize(ms, i); MemberSize(ns, k); Same(ms[i].value, ns[k].value, caseSensitive))
  }

  ghost predicate CoveredAt(ms: seq<Member>, ns: seq<Member>, i: nat, caseSensitive: bool)
    requires i < |ms|
  {
    var j := FirstMatch(ns, ms[i].key, caseSensitive);
    j < |ns| && Same(ms[i].value, ns[j].value, caseSensitive)
  }

  lemma {:induction false} EachCovered(ms: seq<Member>, ns: seq<Member>, caseSensitive: bool)
    ensures Covers(ms, ns, caseSensitive) <==> forall i :: 0 <= i < |ms| ==> CoveredAt(ms, ns, i, caseSensitive)
  {
    hide Same, FirstMatch;
    if !Covers(ms, ns, caseSensitive) {
      var i :| 0 <= i < |ms| && !(var k := FirstMatch(ns, ms[i].key, caseSensitive);
                                  k < |ns| && Same(ms[i].value, ns[k].value, caseSensitive));
      assert !CoveredAt(ms, ns, i, caseSensitive);
    }
  }

  // ---- a partial equivalence ----

  lemma {:induction false} SameSymmetric(a: Json, b: Json, caseSensitive: bool)
    requires Same(a, b, caseSensitive)
    ensures Same(b, a, caseSensitive)
    decreases a
  {
    match a
    case Arr(items) =>
      forall i | 0 <= i < |items| ensures Same(b.items[i], items[i], caseSensitive) {
        SameSymmetric(items[i], b.items[i], caseSensitive);
      }
    case _ =>
  }

  lemma {:induction false} SameTransitive(a: Json, b: Json, c: Json, caseSensitive: bool)
    requires Same(a, b, caseSensitive) && Same(b, c, caseSensitive)
    ensures Same(a, c, caseSensitive)
    decreases NodeCount(a) + NodeCount(b) + NodeCount(c), 0
  {
    hide Covers, SameItems, NodeCountItems, NodeCountMembers;
    match a
    case Arr(items) =>
      ItemsTransitive(items, b.items, c.items, caseSensitive);
    case Obj(members) =>
      CoversTransitive(members, b.members, c.members, caseSensitive);
      CoversTransitive(c.members, b.members, members, caseSensitive);
    case _ =>
  }

  lemma {:induction false} ItemsTransitive(xs: seq<Json>, ys: seq<Json>, zs: seq<Json>, caseSensitive: bool)
    requires SameItems(xs, ys, caseSensitive) && SameItems(ys, zs, caseSensitive)
    ensures SameItems(xs, zs, caseSensitive)
    decreases NodeCountItems(xs) + NodeCountItems(ys) + NodeCountItems(zs), 1
  {
    hide Same, NodeCount, NodeCountItems;
    forall i | 0 <= i < |xs| ensures Same(xs[i], zs[i], caseSensitive) {
      ItemSize(xs, i);
      ItemSize(ys, i);
      ItemSize(zs, i);
      SameTransitive(xs[i], ys[i], zs[i], caseSensitive);
    }
  }

  lemma {:induction false} CoversTransitive(ms: seq<Member>, ns: seq<Member>, os: seq<Member>, caseSensitive: bool)
    requires Covers(ms, ns, caseSensitive) && Covers(ns, os, caseSensitive)
    ensures Covers(ms, os, caseSensitive)
    decreases NodeCountMembers(ms) + NodeCountMembers(ns) + NodeCountMembers(os), 1
  {
    hide Same, NodeCount, NodeCountMembers, FirstMatch;
    forall i | 0 <= i < |ms|
      ensures var k := FirstMatch(os, ms[i].key, caseSensitive);
              k < |os| && Same(ms[i].value, os[k].value, caseSensitive)
    {
      var j := FirstMatch(ns, ms[i].key, caseSensitive);
      var k := FirstMatch(os, ns[j].key, caseSensitive);
      MatchesAlike(os, ms[i].key, ns[j].key, caseSensitive);
      MemberSize(ms, i);
      MemberSize(ns, j);
      MemberSize(os, k);
      SameTransitive(ms[i].value, ns[j].value, os[k].value, caseSensitive);
    }
  }

  lemma {:induction false} MatchesAlike(members: seq<Member>, k: CString, l: CString, caseSensitive: bool)
    requires Matches(k, l, caseSensitive)
    ensures FirstMatch(members, k, caseSensitive) == FirstMatch(members, l, caseSensitive)
  {
    if members != [] { MatchesAlike(members[1..], k, l, caseSensitive); }
  }

  // ---- when a value is the same as a copy of itself ----

  /** No object of the tree has two members with matching keys and values that are not the same. */
  ghost predicate Consistent(t: Json, caseSensitive: bool) {
    match t
    case Arr(items) => forall i :: 0 <= i < |items| ==> Consistent(items[i], caseSensitive)
    case Obj(members) =>
      && (forall i :: 0 <= i < |members| ==> Consistent(members[i].value, caseSensitive))
      && (forall i, j :: 0 <= i < |members| && 0 <= j < |members| && i != j ==>
            (Matches(members[i].key, members[j].key, caseSensitive) ==>
               Same(members[i].value, members[j].value, caseSensitive)))
    case _ => true
  }

  /** Comparing a tree with a copy of itself succeeds exactly when the tree is consistent. */
  lemma {:induction false} CopyIsSame(t: Json, caseSensitive: bool)
    ensures Same(t, t, caseSensitive) <==> Consistent(t, caseSensitive)
    decreases t
  {
    match t
    case Arr(items) =>
      forall i | 0 <= i < |items|
        ensures Same(items[i], items[i], caseSensitive) <==> Consistent(items[i], caseSensitive)
      {
        CopyIsSame(items[i], caseSensitive);
      }
    case Obj(members) =>
      forall i | 0 <= i < |members|
        ensures Same(members[i].value, members[i].value, caseSensitive) <==> Consistent(members[i].value, caseSensitive)
      {
        CopyIsSame(members[i].value, caseSensitive);
      }
      if Covers(members, members, caseSensitive) {
        CoveredIsConsistent(members, caseSensitive);
      }
      if Consistent(t, caseSensitive) {
        ConsistentIsCovered(members, caseSensitive);
      }
    case _ =>
  }

  lemma {:induction false} CoveredIsConsistent(members: seq<Member>, caseSensitive: bool)
    requires Covers(members, members, caseSensitive)
    ensures forall i :: 0 <= i < |members| ==> Same(members[i].value, members[i].value, caseSensitive)
    ensures forall i, j :: 0 <= i < |members| && 0 <= j < |members| ==>
              (Matches(members[i].key, members[j].key, caseSensitive) ==>
                 Same(members[i].value, members[j].value, caseSensitive))
  {
    forall i, j | 0 <= i < |members| && 0 <= j < |members| && Matches(members[i].key, members[j].key, caseSensitive)
      ensures Same(members[i].value, members[j].value, caseSensitive)
    {
      var k := FirstMatch(members, members[i].key, caseSensitive);
      MatchesAlike(members, members[i].key, members[j].key, caseSensitive);
      assert Same(members[i].value, members[k].value, caseSensitive);
      assert Same(members[j].value, members[k].value, caseSensitive);
      SameSymmetric(members[j].value, members[k].value, caseSensitive);
      SameTransitive(members[i].value, members[k].value, members[j].value, caseSensitive);
    }
    forall i | 0 <= i < |members| ensures Same(members[i].value, members[i].value, caseSensitive) {
      assert Matches(members[i].key, members[i].key, caseSensitive);
    }
  }

  lemma {:induction false} ConsistentIsCovered(members: seq<Member>, caseSensitive: bool)
    requires Consistent(Obj(members), caseSensitive)
    requires forall i :: 0 <= i < |members| ==> Same(members[i].value, members[i].value, caseSensitive)
    ensures Covers(members, members, caseSensitive)
  {
    forall i | 0 <= i < |members|
      ensures var k := FirstMatch(members, members[i].key, caseSensitive);
              k < |members| && Same(members[i].value, members[k].value, caseSensitive)
    {
      var k := FirstMatch(members, members[i].key, caseSensitive);
      assert Matches(members[i].key, members[i].key, caseSensitive);
    }
  }

  /** It does fail: an object that says two things about one key is not even the same as its own copy. */
  lemma {:induction false} TwoValuesForOneKey(key: CString, caseSensitive: bool)
    ensures var t := Obj([Member(key, Num(1)), Member(key, Num(2))]);
            !Consistent(t, caseSensitive) && !Same(t, t, caseSensitive)
  {
    var members := [Member(key, Num(1)), Member(key, Num(2))];
    CopyIsSame(Obj(members), caseSensitive);
    assert Matches(members[0].key, members[1].key, caseSensitive);
    assert !Same(members[0].value, members[1].value, caseSensitive);
  }

  // ---- objects as finite maps ----

  predicate DistinctKeys(members: seq<Member>, caseSensitive: bool) {
    forall i, j :: 0 <= i < j < |members| ==> !Matches(members[i].key, members[j].key, caseSensitive)
  }

  /** The object as a map from folded keys to values. */
  function Entries(members: seq<Member>, caseSensitive: bool): map<CString, Json> {
    if members == [] then map[]
    else Entries(members[1..], caseSensitive)[Fold(members[0].key, caseSensitive) := members[0].value]
  }

  lemma {:induction false} EntriesLookup(members: seq<Member>, key: CString, caseSensitive: bool)
    ensures var k := FirstMatch(members, key, caseSensitive);
            var m := Entries(members, caseSensitive);
            && (Fold(key, caseSensitive) in m <==> k < |members|)
            && (k < |members| ==> m[Fold(key, caseSensitive)] == members[k].value)
  {
    if members != [] { EntriesLookup(members[1..], key, caseSensitive); }
  }

  lemma {:induction false} EntriesOfMembers(members: seq<Member>, folded: CString, caseSensitive: bool) returns (i: nat)
    requires folded in Entries(members, caseSensitive)
    ensures i < |members| && Fold(members[i].key, caseSensitive) == folded
  {
    if Fold(members[0].key, caseSensitive) == folded {
      i := 0;
    } else {
      i := EntriesOfMembers(members[1..], folded, caseSensitive);
      i := i + 1;
    }
  }

  lemma {:induction false} MatchOfOwnKey(members: seq<Member>, i: nat, caseSensitive: bool)
    requires DistinctKeys(members, caseSensitive) && i < |members|
    ensures FirstMatch(members, members[i].key, caseSensitive) == i
  {
    var k := FirstMatch(members, members[i].key, caseSensitive);
    assert Matches(members[i].key, members[i].key, caseSensitive);
  }

  /** With distinct keys the comparison is equality of finite maps: the order of the members does not count. */
  lemma {:induction false} ObjectsAreMaps(a: seq<Member>, b: seq<Member>, caseSensitive: bool)
    requires DistinctKeys(a, caseSensitive) && DistinctKeys(b, caseSensitive)
    ensures var m, n := Entries(a, caseSensitive), Entries(b, caseSensitive);
            Same(Obj(a), Obj(b), caseSensitive) <==>
              m.Keys == n.Keys && forall k :: k in m ==> k in n && Same(m[k], n[k], caseSensitive)
  {
    var m, n := Entries(a, caseSensitive), Entries(b, caseSensitive);
    if Same(Obj(a), Obj(b), caseSensitive) {
      CoveredEntries(a, b, caseSensitive);
      CoveredEntries(b, a, caseSensitive);
    }
    if m.Keys == n.Keys && forall k :: k in m ==> k in n && Same(m[k], n[k], caseSensitive) {
      forall k | k in n ensures k in m && Same(n[k], m[k], caseSensitive) {
        assert k in m.Keys;
        SameSymmetric(m[k], n[k], caseSensitive);
      }
      EntriesCover(a, b, caseSensitive);
      EntriesCover(b, a, caseSensitive);
    }
  }

  lemma {:induction false} CoveredEntries(a: seq<Member>, b: seq<Member>, caseSensitive: bool)
    requires DistinctKeys(a, caseSensitive) && Covers(a, b, caseSensitive)
    ensures var m, n := Entries(a, caseSensitive), Entries(b, caseSensitive);
            forall k :: k in m ==> k in n && Same(m[k], n[k], caseSensitive)
  {
    var m, n := Entries(a, caseSensitive), Entries(b, caseSensitive);
    forall k | k in m ensures k in n && Same(m[k], n[k], caseSensitive) {
      var i := EntriesOfMembers(a, k, caseSensitive);
      MatchOfOwnKey(a, i, caseSensitive);
      EntriesLookup(a, a[i].key, caseSensitive);
      EntriesLookup(b, a[i].key, caseSensitive);
    }
  }

  lemma {:induction false} EntriesCover(a: seq<Member>, b: seq<Member>, caseSensitive: bool)
    requires DistinctKeys(a, caseSensitive)
    requires var m, n := Entries(a, caseSensitive), Entries(b, caseSensitive);
             forall k :: k in m ==> k in n && Same(m[k], n[k], caseSensitive)
    ensures Covers(a, b, caseSensitive)
  {
    forall i | 0 <= i < |a|
      ensures var k := FirstMatch(b, a[i].key, caseSensitive);
              k < |b| && Same(a[i].value, b[k].value, caseSensitive)
    {
      MatchOfOwnKey(a, i, caseSensitive);
      EntriesLookup(a, a[i].key, caseSensitive);
      EntriesLookup(b, a[i].key, caseSensitive);
    }
  }
}
