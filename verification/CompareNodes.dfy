/** cJSON_Compare and get_object_item on nodes. */
module CompareNodes {
  import opened Bytes
  import opened JsonTree
  import opened Memory
  import opened Builder
  import opened Reading
  import opened Census
  import opened Compare
  import opened Equality
  import opened Duplicate

  // ---- strings ----

  function ToLower(b: Byte): Byte {
    if b == NUL then NUL else LowerByte(b)
  }

  /** case_insensitive_strcmp: zero for equal strings after folding, never for NULL. */
  method CaseInsensitiveStrcmp(h: Heap, string1: Ptr, string2: Ptr, ghost k: CString, ghost l: CString)
    returns (diff: int)
    requires string1 != NULL ==> HoldsString(h, string1, k)
    requires string2 != NULL ==> HoldsString(h, string2, l)
    ensures diff == 0 <==> string1 != NULL && string2 != NULL && KeysAgree(k, l, false)
    ensures string1 != NULL && string2 != NULL && diff != 0 ==> Differ(k, l, diff)
  {
    hide KeysAgree, Differ, LowerByte, Matches;
    MatchingMeansLower(k, l);
    if string1 == NULL || string2 == NULL {
      return 1;
    }
    if string1 == string2 {
      return 0;
    }
    var b1, b2 := h.blocks[string1], h.blocks[string2];
    var i := 0;
    while ToLower(b1[i]) == ToLower(b2[i])
      invariant i <= |k| && i <= |l| && forall j :: 0 <= j < i ==> LowerByte(k[j]) == LowerByte(l[j])
      decreases |k| - i
    {
      if b1[i] == NUL {
        SameInLower(k, l);
        return 0;
      }
      i := i + 1;
    }
    diff := ToLower(b1[i]) - ToLower(b2[i]);
    FirstDifference(k, l, i, diff);
  }

  lemma {:induction false} MatchingMeansLower(k: CString, l: CString)
    ensures Lower(k) == Lower(l) <==> KeysAgree(k, l, false)
  {
    MatchingIsAgreement(k, l, false);
  }

  lemma {:induction false} SameInLower(k: CString, l: CString)
    requires |k| == |l| && forall j :: 0 <= j < |k| ==> LowerByte(k[j]) == LowerByte(l[j])
    ensures Lower(k) == Lower(l)
  {
  }

  lemma {:induction false} FirstDifference(k: CString, l: CString, i: nat, diff: int)
    requires i <= |k| && i <= |l| && (forall j :: 0 <= j < i ==> LowerByte(k[j]) == LowerByte(l[j])) && diff != 0
    requires diff == (if i < |k| then LowerByte(k[i]) else 0) - (if i < |l| then LowerByte(l[i]) else 0)
    ensures Lower(k) != Lower(l) && Differ(k, l, diff)
  {
    assert i < |k| && i < |l| ==> Lower(k)[i] != Lower(l)[i];
    MatchingIsAgreement(k[..i], l[..i], false);
    assert Lower(k[..i]) == Lower(l[..i]);
    assert DifferAt(k, l, i, diff);
  }

  /** The strings agree on `i` bytes, and then `diff` is how far the next ones are apart, in lower case. */
  predicate DifferAt(k: CString, l: CString, i: nat, diff: int) {
    && i <= |k| && i <= |l| && KeysAgree(k[..i], l[..i], false)
    && diff == (if i < |k| then LowerLetter(k[i]) else 0) - (if i < |l| then LowerLetter(l[i]) else 0)
  }

  predicate Differ(k: CString, l: CString, diff: int) {
    exists i :: 0 <= i <= |k| && DifferAt(k, l, i, diff)
  }

  /** The names along a list of children, NULL where a child has none. */
  predicate Named(h: Heap, ts: seq<Tree>, names: seq<Option<CString>>) {
    && Listed(h, ts) && |ts| == |names|
    && forall i :: 0 <= i < |ts| ==>
         ts[i].ptr in h.nodes && NameIs(h, h.nodes[ts[i].ptr].name, names[i])
  }

  predicate NameIs(h: Heap, p: Ptr, name: Option<CString>) {
    match name
    case None => p == NULL
    case Some(s) => HoldsString(h, p, s)
  }

  /**
   * Where the walk of get_object_item stops: at the first match or past the end, but the case-sensitive walk does
   * not get past a child without a name.
   */
  function LookUp(names: seq<Option<CString>>, key: CString, caseSensitive: bool): (k: nat)
    ensures k <= |names|
    ensures k < |names| ==> Stops(names[k], key, caseSensitive)
    ensures forall i :: 0 <= i < k ==> !Stops(names[i], key, caseSensitive)
  {
    if names == [] || Stops(names[0], key, caseSensitive) then 0 else 1 + LookUp(names[1..], key, caseSensitive)
  }

  predicate Stops(name: Option<CString>, key: CString, caseSensitive: bool) {
    match name
    case None => caseSensitive
    case Some(s) => Matches(key, s, caseSensitive)
  }

  /** get_object_item */
  method GetObjectItem(h: Heap, owner: Ptr, name: Ptr, caseSensitive: bool,
                       ghost ts: seq<Tree>, ghost names: seq<Option<CString>>, ghost key: CString)
    returns (item: Ptr)
    requires owner != NULL ==> owner in h.nodes && h.nodes[owner].child == First(ts) && Named(h, ts, names)
    requires name != NULL ==> HoldsString(h, name, key)
    ensures owner != NULL ==> |ts| == |names|
    ensures item == if owner == NULL || name == NULL then NULL
                    else var k := LookUp(names, key, caseSensitive);
                         if k < |names| && names[k].Some? then ts[k].ptr else NULL
    ensures owner != NULL && name != NULL ==>
              var k := LookUp(names, key, caseSensitive);
              if item != NULL then k < |names| && FirstAgreeing(names, key, caseSensitive, k) && item == ts[k].ptr
              else forall i :: 0 <= i < |names| ==> !FirstAgreeing(names, key, caseSensitive, i)
  {
    hide LookUp, Stops, NameIs, Listed, HoldsString, KeysAgree, FirstAgreeing, Matches;
    LookUpFindsAgreement(names, key, caseSensitive);
    if owner == NULL || name == NULL {
      return NULL;
    }
    ghost var stop := LookUp(names, key, caseSensitive);
    var current := h.nodes[owner].child;
    ghost var i := 0;
    ListedFirst(h, ts);
    while current != NULL
      invariant i <= stop && current == (if i < |ts| then ts[i].ptr else NULL) && (current == NULL <==> i == |ts|)
      decreases |ts| - i
    {
      ListedAt(h, ts, i);
      var node := h.nodes[current];
      StopsMeans(h, name, node.name, key, names[i]);
      var found: bool;
      if caseSensitive {
        found := node.name == NULL || CStr(h.blocks[name]) == CStr(h.blocks[node.name]);
      } else {
        var diff := CaseInsensitiveStrcmp(h, name, node.name, key, if names[i].Some? then names[i].value else []);
        found := diff == 0;
      }
      if found {
        return if node.name == NULL then NULL else current;
      }
      current := node.next;
      i := i + 1;
      if i < |ts| { ListedAt(h, ts, i); }
    }
    item := NULL;
  }

  /** The test of the two loops, on the name of one child. */
  lemma {:induction false} StopsMeans(h: Heap, p: Ptr, q: Ptr, key: CString, name: Option<CString>)
    requires HoldsString(h, p, key) && NameIs(h, q, name)
    ensures q == NULL <==> name == None
    ensures q != NULL ==> p in h.blocks && q in h.blocks && HoldsString(h, q, name.value)
    ensures Stops(name, key, true) <==> q == NULL || CStr(h.blocks[p]) == CStr(h.blocks[q])
    ensures Stops(name, key, false) <==> q != NULL && KeysAgree(key, name.value, false)
  {
    if name.Some? { MatchingIsAgreement(key, name.value, false); }
  }

  /**
   * The child at `k` is the first whose name agrees with the key; the case-sensitive walk does not get past a child
   * without a name.
   */
  predicate FirstAgreeing(names: seq<Option<CString>>, key: CString, caseSensitive: bool, k: nat) {
    && k < |names| && names[k].Some? && KeysAgree(key, names[k].value, caseSensitive)
    && forall i :: 0 <= i < k ==> if names[i].Some? then !KeysAgree(key, names[i].value, caseSensitive) else !caseSensitive
  }

  lemma {:induction false} LookUpFindsAgreement(names: seq<Option<CString>>, key: CString, caseSensitive: bool)
    ensures var k := LookUp(names, key, caseSensitive);
            if k < |names| && names[k].Some? then FirstAgreeing(names, key, caseSensitive, k)
            else forall i :: 0 <= i < |names| ==> !FirstAgreeing(names, key, caseSensitive, i)
  {
    hide LookUp, Matches, KeysAgree;
    forall i | 0 <= i < |names| && names[i].Some?
      ensures Stops(names[i], key, caseSensitive) <==> KeysAgree(key, names[i].value, caseSensitive)
    {
      MatchingIsAgreement(key, names[i].value, caseSensitive);
    }
  }

  /** The names of an object that reads strictly are the keys of its members. */
  function Names(members: seq<Member>): (names: seq<Option<CString>>)
    ensures |names| == |members| && forall i :: 0 <= i < |names| ==> names[i] == Some(members[i].key)
  {
    seq(|members|, i requires 0 <= i < |members| => Some(members[i].key))
  }

  lemma {:induction false} LookUpIsFirstMatch(members: seq<Member>, key: CString, caseSensitive: bool)
    ensures LookUp(Names(members), key, caseSensitive) == FirstMatch(members, key, caseSensitive)
  {
    if members != [] {
      assert Names(members)[1..] == Names(members[1..]);
      LookUpIsFirstMatch(members[1..], key, caseSensitive);
    }
  }

  lemma {:induction false} MembersAreNamed(h: Heap, ts: seq<Tree>, members: seq<Member>)
    requires ReadsMembers(h, ts, members, false)
    ensures Named(h, ts, Names(members))
  {
    hide Reads, Listed;
    forall i | 0 <= i < |ts|
      ensures ts[i].ptr in h.nodes && NameIs(h, h.nodes[ts[i].ptr].name, Names(members)[i])
    {
      assert Spells(h, h.nodes[ts[i].ptr].name, members[i].key, false);
    }
  }

  // ---- numbers ----

  function Abs(x: int): nat { if x < 0 then -x else x }

  /** compare_double, with DBL_EPSILON = 2^-52, on doubles that are whole numbers */
  predicate CompareDouble(a: int, b: int) {
    Abs(a - b) * 0x10_0000_0000_0000 <= (if Abs(a) > Abs(b) then Abs(a) else Abs(b))
  }

  /** Below 10^15 the tolerance never hides a difference. */
  lemma {:induction false} CompareDoubleIsExact(a: SmallInt, b: SmallInt)
    ensures CompareDouble(a, b) <==> a == b
  {
  }

  // ---- the comparison ----

  /** The two trees share no node. */
  predicate Separate(a: Tree, b: Tree) {
    NodesOf(a) !! NodesOf(b)
  }

  /** Where the shortcut for one and the same node does no harm. */
  ghost predicate Comparable(t: Tree, u: Tree, v: Json, w: Json, caseSensitive: bool) {
    Separate(t, u) || Consistent(v, caseSensitive) || Consistent(w, caseSensitive)
  }

  lemma {:induction false} ComparableTurned(t: Tree, u: Tree, v: Json, w: Json, caseSensitive: bool)
    requires Comparable(t, u, v, w, caseSensitive)
    ensures Comparable(u, t, w, v, caseSensitive)
  {
    hide NodesOf, Consistent;
  }

  lemma {:induction false} ComparableKids(t: Tree, u: Tree, v: Json, w: Json, i: nat, j: nat, caseSensitive: bool)
    requires Comparable(t, u, v, w, caseSensitive) && i < |t.kids| == KidCount(v) && j < |u.kids| == KidCount(w)
    ensures Comparable(t.kids[i], u.kids[j], KidValue(v, i), KidValue(w, j), caseSensitive)
  {
    hide NodesOf, NodesOfAll;
    NodesOfKid(t.kids, i);
    NodesOfKid(u.kids, j);
    RootAndKids(t);
    RootAndKids(u);
    ConsistentKid(v, i, caseSensitive);
    ConsistentKid(w, j, caseSensitive);
  }

  lemma {:induction false} ConsistentKid(v: Json, i: nat, caseSensitive: bool)
    requires i < KidCount(v)
    ensures Consistent(v, caseSensitive) ==> Consistent(KidValue(v, i), caseSensitive)
  {
  }

  /** One and the same node is the same as itself, if the trees may be compared. */
  lemma {:induction false} SharedIsSame(h: Heap, t: Tree, u: Tree, v: Json, w: Json, caseSensitive: bool)
    requires Reads(h, t, v, false) && Reads(h, u, w, false) && t.ptr == u.ptr && Comparable(t, u, v, w, caseSensitive)
    ensures Same(v, w, caseSensitive)
  {
    hide NodesOf, Reads, Consistent, Same;
    RootAndKids(t);
    RootAndKids(u);
    ReadsOne(h, t, u, v, w);
    CopyIsSame(v, caseSensitive);
  }

  /**
   * cJSON_Compare on trees without Raw items, their numbers whole. A node is the same as itself without further
   * ado, even where a copy of it would not be.
   */
  method CompareItems(h: Heap, a: Ptr, b: Ptr, caseSensitive: bool,
                      ghost t: Tree, ghost u: Tree, ghost v: Json, ghost w: Json)
    returns (same: bool)
    requires a != NULL ==> a == t.ptr && Reads(h, t, v, false) && Printable(v)
    requires b != NULL ==> b == u.ptr && Reads(h, u, w, false) && Printable(w)
    requires a != NULL && b != NULL && a != b ==> Comparable(t, u, v, w, caseSensitive)
    ensures same <==> a != NULL && b != NULL && (a == b || Same(v, w, caseSensitive))
    ensures a != NULL && b != NULL && caseSensitive && Ordered(v) && Ordered(w) ==> (same <==> v == w)
    ensures a != NULL && b != NULL && !v.Arr? && !v.Obj? ==> (same <==> v == w)
    decreases NodeCount(v) + NodeCount(w), 3
  {
    hide Ordered, SameItems, Covers, Comparable, ReadsItems, ReadsMembers, KidCount, KidValue;
    if a == NULL || b == NULL {
      return false;
    }
    AnswerIsEquality(h, t, u, v, w, caseSensitive);
    var n, m := h.nodes[a], h.nodes[b];
    if n.kind != m.kind {
      SameKind(v, w, caseSensitive);
      return false;
    }
    if a == b {
      return true;
    }
    match n.kind
    case KFalse | KTrue | KNull => same := true;
    case KNumber =>
      CompareDoubleIsExact(v.n, w.n);
      same := CompareDouble(n.valuedouble.n, m.valuedouble.n);
    case KString =>
      same := CStr(h.blocks[n.valuestring]) == CStr(h.blocks[m.valuestring]);
    case KArray =>
      same := CompareArrays(h, n.child, m.child, caseSensitive, t, u, v.items, w.items);
    case KObject =>
      same := CompareMembers(h, a, b, caseSensitive, t, u, v.members, w.members);
      if same {
        ComparableTurned(t, u, v, w, caseSensitive);
        same := CompareMembers(h, b, a, caseSensitive, u, t, w.members, v.members);
      }
    case _ => same := false;
  }

  /** What the answer says in terms of equality. */
  lemma {:induction false} AnswerIsEquality(h: Heap, t: Tree, u: Tree, v: Json, w: Json, caseSensitive: bool)
    requires Reads(h, t, v, false) && Reads(h, u, w, false)
    ensures t.ptr == u.ptr ==> v == w
    ensures Ordered(v) && Ordered(w) ==> (Same(v, w, true) <==> v == w)
    ensures !v.Arr? && !v.Obj? ==> (Same(v, w, caseSensitive) <==> v == w)
  {
    hide Reads, Same, Ordered;
    if t.ptr == u.ptr { ReadsOne(h, t, u, v, w); }
    if Ordered(v) && Ordered(w) { SameIsEquality(v, w); }
    if !v.Arr? && !v.Obj? { ScalarsCompareByEquality(v, w, caseSensitive); }
  }

  /** Values of different kinds are never the same. */
  lemma {:induction false} SameKind(v: Json, w: Json, caseSensitive: bool)
    requires KindOf(v) != KindOf(w)
    ensures !Same(v, w, caseSensitive)
  {
  }

  /** The array case: two lists walked side by side. */
  method CompareArrays(h: Heap, first: Ptr, second: Ptr, caseSensitive: bool,
                       ghost t: Tree, ghost u: Tree, ghost xs: seq<Json>, ghost ys: seq<Json>)
    returns (same: bool)
    requires ReadsItems(h, t.kids, xs, false) && PrintableItems(xs) && first == First(t.kids)
    requires ReadsItems(h, u.kids, ys, false) && PrintableItems(ys) && second == First(u.kids)
    requires Comparable(t, u, Arr(xs), Arr(ys), caseSensitive)
    ensures same <==> SameItems(xs, ys, caseSensitive)
    decreases NodeCountItems(xs) + NodeCountItems(ys), 4
  {
    hide Reads, Comparable, Same, Listed, NodeCount, NodeCountItems, PrintableItems, Printable;
    var a, b := first, second;
    ghost var i := 0;
    ListedFirst(h, t.kids);
    ListedFirst(h, u.kids);
    while a != NULL && b != NULL
      invariant i <= |xs| && i <= |ys|
      invariant a == (if i < |xs| then t.kids[i].ptr else NULL) && (a == NULL <==> i == |xs|)
      invariant b == (if i < |ys| then u.kids[i].ptr else NULL) && (b == NULL <==> i == |ys|)
      invariant forall k :: 0 <= k < i ==> Same(xs[k], ys[k], caseSensitive)
      decreases |xs| - i
    {
      ListedAt(h, t.kids, i);
      ListedAt(h, u.kids, i);
      ComparableKids(t, u, Arr(xs), Arr(ys), i, i, caseSensitive);
      PrintableItem(xs, i);
      PrintableItem(ys, i);
      ItemSize(xs, i);
      ItemSize(ys, i);
      var equal := CompareItems(h, a, b, caseSensitive, t.kids[i], u.kids[i], xs[i], ys[i]);
      if !equal {
        return false;
      }
      if a == b { SharedIsSame(h, t.kids[i], u.kids[i], xs[i], ys[i], caseSensitive); }
      a, b := h.nodes[a].next, h.nodes[b].next;
      i := i + 1;
      if i < |xs| { ListedAt(h, t.kids, i); }
      if i < |ys| { ListedAt(h, u.kids, i); }
    }
    if a != b {
      return false;
    }
    same := true;
  }

  lemma {:induction false} PrintableItem(items: seq<Json>, i: nat)
    requires PrintableItems(items) && i < |items|
    ensures Printable(items[i])
  {
    if i > 0 { PrintableItem(items[1..], i - 1); }
  }

  lemma {:induction false} PrintableMember(members: seq<Member>, i: nat)
    requires PrintableMembers(members) && i < |members|
    ensures Printable(members[i].value)
  {
    if i > 0 { PrintableMember(members[1..], i - 1); }
  }

  /** One of the two loops of the object case: every member of `a` looked up in `b`. */
  method CompareMembers(h: Heap, a: Ptr, b: Ptr, caseSensitive: bool,
                        ghost t: Tree, ghost u: Tree, ghost ms: seq<Member>, ghost ns: seq<Member>)
    returns (same: bool)
    requires a != NULL && a == t.ptr && Reads(h, t, Obj(ms), false) && PrintableMembers(ms)
    requires b != NULL && b == u.ptr && Reads(h, u, Obj(ns), false) && PrintableMembers(ns)
    requires Comparable(t, u, Obj(ms), Obj(ns), caseSensitive)
    ensures same <==> Covers(ms, ns, caseSensitive)
    decreases NodeCountMembers(ms) + NodeCountMembers(ns), 5
  {
    hide Reads, Comparable, Listed, NodeCount, NodeCountMembers, PrintableMembers, CoveredAt, Covers;
    ReadsObject(h, t, ms, false);
    EachCovered(ms, ns, caseSensitive);
    ListedFirst(h, t.kids);
    var element := h.nodes[a].child;
    ghost var i := 0;
    while element != NULL
      invariant i <= |ms| && element == (if i < |ms| then t.kids[i].ptr else NULL) && (element == NULL <==> i == |ms|)
      invariant forall k :: 0 <= k < i ==> CoveredAt(ms, ns, k, caseSensitive)
      decreases |ms| - i
    {
      ListedAt(h, t.kids, i);
      var found := CompareMember(h, element, b, caseSensitive, t, u, ms, ns, i);
      if !found {
        return false;
      }
      element := h.nodes[element].next;
      i := i + 1;
      if i < |ms| { ListedAt(h, t.kids, i); }
    }
    same := true;
  }

  /** One round of that loop. */
  method CompareMember(h: Heap, element: Ptr, b: Ptr, caseSensitive: bool,
                       ghost t: Tree, ghost u: Tree, ghost ms: seq<Member>, ghost ns: seq<Member>, ghost i: nat)
    returns (same: bool)
    requires Reads(h, t, Obj(ms), false) && PrintableMembers(ms) && i < |ms| == |t.kids| && element == t.kids[i].ptr
    requires b != NULL && b == u.ptr && Reads(h, u, Obj(ns), false) && PrintableMembers(ns)
    requires Comparable(t, u, Obj(ms), Obj(ns), caseSensitive)
    ensures same <==> CoveredAt(ms, ns, i, caseSensitive)
    decreases NodeCountMembers(ms) + NodeCountMembers(ns), 4
  {
    hide Reads, Comparable, Same, Listed, HoldsString, LookUp, Named;
    hide NodeCount, NodeCountMembers, FirstMatch, PrintableMembers, Printable;
    ReadsObject(h, t, ms, false);
    ReadsObject(h, u, ns, false);
    MembersAreNamed(h, u.kids, ns);
    ListedAt(h, t.kids, i);
    ghost var j := FirstMatch(ns, ms[i].key, caseSensitive);
    LookUpIsFirstMatch(ns, ms[i].key, caseSensitive);
    var name := h.nodes[element].name;
    NameThere(h, name, ms[i].key);
    var other := GetObjectItem(h, b, name, caseSensitive, u.kids, Names(ns), ms[i].key);
    if j < |ns| { ListedAt(h, u.kids, j); }
    if other == NULL {
      return false;
    }
    ComparableKids(t, u, Obj(ms), Obj(ns), i, j, caseSensitive);
    PrintableMember(ms, i);
    PrintableMember(ns, j);
    MemberSize(ms, i);
    MemberSize(ns, j);
    same := CompareItems(h, element, other, caseSensitive, t.kids[i], u.kids[j], ms[i].value, ns[j].value);
    if element == other { SharedIsSame(h, t.kids[i], u.kids[j], ms[i].value, ns[j].value, caseSensitive); }
  }

  lemma {:induction false} NameThere(h: Heap, p: Ptr, s: CString)
    requires Spells(h, p, s, false)
    ensures p != NULL && HoldsString(h, p, s)
  {
  }

  // ---- a tree and its duplicate ----

  /**
   * A tree and its recursive duplicate share no node, so cJSON_Compare does compare them. It finds them the same
   * exactly when no object in the tree holds two members with matching keys and different values.
   */
  method DuplicateAndCompare(memory: CHeap, item: Ptr, caseSensitive: bool, ghost t: Tree, ghost j: Json)
    returns (newitem: Ptr, same: bool, ghost copy: Tree)
    requires item == t.ptr && Owns(memory.heap, t) && Denotes(memory.heap, t, j) && Legible(memory.heap, t)
    requires Printable(j)
    modifies memory
    ensures newitem == NULL ==> memory.heap == old(memory.heap) && memory.refused && !same
    ensures newitem != NULL ==> Copied(old(memory.heap), memory.heap, copy) && newitem == copy.ptr && newitem != item
    ensures newitem != NULL ==> !memory.refused && (same <==> Consistent(j, caseSensitive))
  {
    hide Owns, Denotes, Legible, Copied, SameName, BareKids, Comparable, Same, Consistent, Reads, Printable;
    OwnsIsPresent(memory.heap, t);
    ghost var h0 := memory.heap;
    newitem, copy := Duplicate.Duplicate(memory, item, true, t, j);
    if newitem == NULL {
      OwnedReads(h0, t, j, false);
    } else {
      ReadyToCompare(h0, memory.heap, t, copy, j, caseSensitive);
    }
    same := CompareItems(memory.heap, item, newitem, caseSensitive, t, copy, j, j);
  }

  lemma {:induction false} ReadyToCompare(h0: Heap, h: Heap, t: Tree, copy: Tree, j: Json, caseSensitive: bool)
    requires Owns(h0, t) && Denotes(h0, t, j) && Copied(h0, h, copy) && Denotes(h, copy, j)
    ensures Reads(h, t, j, false) && Reads(h, copy, j, false) && t.ptr != copy.ptr && copy.ptr != NULL
    ensures Comparable(t, copy, j, j, caseSensitive) && (Same(j, j, caseSensitive) <==> Consistent(j, caseSensitive))
  {
    hide Owns, Denotes, Apart, NodesOf, NodesOfAll, BlocksOf, BlocksOfAll, Same, Consistent, Grown, Reads;
    TreeStays(h0, h, NodesOf(copy), BlocksOf(copy), t);
    RootAndKids(t);
    RootAndKids(copy);
    CopyIsSame(j, caseSensitive);
    OwnedReads(h, t, j, false);
    OwnedReads(h, copy, j, false);
    OwnsIsPresent(h, copy);
  }
}
