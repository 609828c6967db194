/** The children of an array or object as a doubly linked list, and what the list operations do to the sequence. */
module ChildList {
  import opened Bytes
  import opened JsonTree
  import opened Memory
  import opened Builder

  // ---- the list as a sequence of addresses ----

  function Roots(ts: seq<Tree>): (ps: seq<Ptr>)
    ensures |ps| == |ts| && forall i :: 0 <= i < |ts| ==> ps[i] == ts[i].ptr
  {
    seq(|ts|, i requires 0 <= i < |ts| => ts[i].ptr)
  }

  function Head(ps: seq<Ptr>): Ptr {
    if ps == [] then NULL else ps[0]
  }

  function After(ps: seq<Ptr>, i: nat): Ptr
    requires i < |ps|
  {
    if i + 1 < |ps| then ps[i + 1] else NULL
  }

  function Before(ps: seq<Ptr>, i: nat): Ptr
    requires i < |ps|
  {
    if i > 0 then ps[i - 1] else ps[|ps| - 1]
  }

  /** `next` runs through these nodes to NULL, `prev` is its inverse, and the head's `prev` is the tail. */
  predicate Chain(nodes: map<Ptr, Node>, ps: seq<Ptr>) {
    && Distinct(ps)
    && (forall i :: 0 <= i < |ps| ==> ps[i] != NULL && ps[i] in nodes)
    && (forall i :: 0 <= i < |ps| ==> nodes[ps[i]].next == After(ps, i))
    && (forall i :: 0 <= i < |ps| ==> nodes[ps[i]].prev == Before(ps, i))
  }

  /** `n` elements from position `k` on replaced by `xs`. */
  function Spliced<T>(s: seq<T>, k: nat, n: nat, xs: seq<T>): seq<T>
    requires k + n <= |s|
  {
    s[..k] + xs + s[k + n..]
  }

  lemma {:induction false} SplicedIs<T>(s: seq<T>, k: nat, xs: seq<T>)
    requires k <= |s|
    ensures Spliced(s, k, 0, xs) == s[..k] + xs + s[k..]
    ensures k < |s| ==> Spliced(s, k, 1, xs) == s[..k] + xs + s[k + 1..]
    ensures k < |s| ==> Spliced(s, k, 1, []) == s[..k] + s[k + 1..]
  {
    assert s[..k] + [] == s[..k];
  }

  function WithNext(nodes: map<Ptr, Node>, p: Ptr, q: Ptr): map<Ptr, Node>
    requires p in nodes
  {
    nodes[p := nodes[p].(next := q)]
  }

  function WithPrev(nodes: map<Ptr, Node>, p: Ptr, q: Ptr): map<Ptr, Node>
    requires p in nodes
  {
    nodes[p := nodes[p].(prev := q)]
  }

  function WithChild(nodes: map<Ptr, Node>, p: Ptr, q: Ptr): map<Ptr, Node>
    requires p in nodes
  {
    nodes[p := nodes[p].(child := q)]
  }

  /** A node outside the list may change. */
  lemma {:induction false} ChainElsewhere(nodes: map<Ptr, Node>, ps: seq<Ptr>, p: Ptr, n: Node)
    requires Chain(nodes, ps) && p !in ps
    ensures Chain(nodes[p := n], ps)
  {
  }

  lemma {:induction false} ChainAt(nodes: map<Ptr, Node>, ps: seq<Ptr>, i: nat)
    requires Chain(nodes, ps) && i < |ps|
    ensures ps[i] != NULL && ps[i] in nodes && ps[i] in ps
    ensures nodes[ps[i]].next == After(ps, i) && nodes[ps[i]].prev == Before(ps, i)
  {
  }

  lemma {:induction false} ChainDistinct(nodes: map<Ptr, Node>, ps: seq<Ptr>, i: nat, j: nat)
    requires Chain(nodes, ps) && i < |ps| && j < |ps|
    ensures i != j ==> ps[i] != ps[j]
  {
  }

  lemma {:induction false} SplicedAt<T>(s: seq<T>, k: nat, n: nat, xs: seq<T>, i: nat)
    requires k + n <= |s| && i < |Spliced(s, k, n, xs)|
    ensures i < |s| - n + |xs| && Spliced(s, k, n, xs)[i] == SplicedElement(s, k, n, xs, i)
  {
  }

  /** Node `i` of a list is where it should be, and differs from the others. */
  predicate InPlace(nodes: map<Ptr, Node>, ps: seq<Ptr>, i: nat)
    requires i < |ps|
  {
    && ps[i] != NULL && ps[i] in nodes
    && nodes[ps[i]].next == After(ps, i) && nodes[ps[i]].prev == Before(ps, i)
  }

  predicate Distinct(ps: seq<Ptr>) {
    forall i, j :: 0 <= i < j < |ps| ==> ps[i] != ps[j]
  }

  lemma {:induction false} SplicedDistinct(ps: seq<Ptr>, k: nat, n: nat, xs: seq<Ptr>)
    requires Distinct(ps) && k + n <= |ps| && Distinct(xs) && forall x :: x in xs ==> x !in ps
    ensures Distinct(Spliced(ps, k, n, xs))
  {
    var qs := Spliced(ps, k, n, xs);
    forall i, j | 0 <= i < j < |qs| ensures qs[i] != qs[j] {
      SplicedAt(ps, k, n, xs, i);
      SplicedAt(ps, k, n, xs, j);
      assert i < k ==> ps[i] in ps;
      assert k <= i < k + |xs| ==> xs[i - k] in xs;
      assert k <= j < k + |xs| ==> xs[j - k] in xs;
      assert j >= k + |xs| ==> ps[j - |xs| + n] in ps;
    }
  }

  lemma {:induction false} AllInPlace(nodes: map<Ptr, Node>, ps: seq<Ptr>)
    requires Distinct(ps) && forall i :: 0 <= i < |ps| ==> InPlace(nodes, ps, i)
    ensures Chain(nodes, ps)
  {
    forall i | 0 <= i < |ps|
      ensures ps[i] != NULL && ps[i] in nodes && nodes[ps[i]].next == After(ps, i) && nodes[ps[i]].prev == Before(ps, i)
    {
      assert InPlace(nodes, ps, i);
    }
  }

  function Inserted(nodes: map<Ptr, Node>, ps: seq<Ptr>, k: nat, item: Ptr): map<Ptr, Node>
    requires Chain(nodes, ps) && k < |ps| && item in nodes
  {
    var n1 := WithPrev(WithPrev(WithNext(nodes, item, ps[k]), item, Before(ps, k)), ps[k], item);
    if k == 0 then n1 else WithNext(n1, ps[k - 1], item)
  }

  lemma {:induction false} InsertedInPlace(nodes: map<Ptr, Node>, ps: seq<Ptr>, k: nat, item: Ptr, i: nat)
    requires Chain(nodes, ps) && k < |ps| && item !in ps && item != NULL && item in nodes && i <= |ps|
    ensures i < |Spliced(ps, k, 0, [item])|
    ensures InPlace(Inserted(nodes, ps, k, item), Spliced(ps, k, 0, [item]), i)
  {
    hide Chain, Spliced;
    SplicedEnds(ps, k, 0, [item], i);
    ChainAt(nodes, ps, k);
    assert ps[k] != item;
    if k > 0 { ChainAt(nodes, ps, k - 1); ChainDistinct(nodes, ps, k - 1, k); assert ps[k - 1] != item; }
    if i != k {
      var m := if i < k then i else i - 1;
      ChainAt(nodes, ps, m);
      assert ps[m] != item;
      ChainDistinct(nodes, ps, m, k);
      if k > 0 { ChainDistinct(nodes, ps, m, k - 1); }
    }
  }

  /** The elements around position `i` after splicing, and the last one. */
  lemma {:induction false} SplicedEnds<T>(s: seq<T>, k: nat, n: nat, xs: seq<T>, i: nat)
    requires k + n <= |s| && i < |s| - n + |xs|
    ensures var r := Spliced(s, k, n, xs);
            && |r| == |s| - n + |xs|
            && r[i] == SplicedElement(s, k, n, xs, i)
            && (i > 0 ==> r[i - 1] == SplicedElement(s, k, n, xs, i - 1))
            && (i + 1 < |r| ==> r[i + 1] == SplicedElement(s, k, n, xs, i + 1))
            && r[|r| - 1] == SplicedElement(s, k, n, xs, |r| - 1)
  {
  }

  function SplicedElement<T>(s: seq<T>, k: nat, n: nat, xs: seq<T>, i: nat): T
    requires k + n <= |s| && i < |s| - n + |xs|
  {
    if i < k then s[i] else if i < k + |xs| then xs[i - k] else s[i - |xs| + n]
  }

  /** suffix_object behind the tail, and the head's `prev` moved to the new tail */
  function Appended(nodes: map<Ptr, Node>, ps: seq<Ptr>, item: Ptr): map<Ptr, Node>
    requires Chain(nodes, ps) && ps != [] && item in nodes
  {
    var tail := ps[|ps| - 1];
    WithPrev(WithPrev(WithNext(nodes, tail, item), item, tail), ps[0], item)
  }

  lemma {:induction false} AppendedInPlace(nodes: map<Ptr, Node>, ps: seq<Ptr>, item: Ptr, i: nat)
    requires Chain(nodes, ps) && ps != [] && item !in ps && item != NULL && item in nodes && nodes[item].next == NULL
    requires i <= |ps|
    ensures i < |Spliced(ps, |ps|, 0, [item])|
    ensures InPlace(Appended(nodes, ps, item), Spliced(ps, |ps|, 0, [item]), i)
  {
    hide Chain, Spliced;
    SplicedEnds(ps, |ps|, 0, [item], i);
    ChainAt(nodes, ps, 0);
    ChainAt(nodes, ps, |ps| - 1);
    ChainDistinct(nodes, ps, 0, |ps| - 1);
    assert ps[0] != item && ps[|ps| - 1] != item;
    if i < |ps| {
      ChainAt(nodes, ps, i);
      assert ps[i] != item;
      ChainDistinct(nodes, ps, i, 0);
      ChainDistinct(nodes, ps, i, |ps| - 1);
    }
  }

  function Detached(nodes: map<Ptr, Node>, ps: seq<Ptr>, k: nat): map<Ptr, Node>
    requires Chain(nodes, ps) && k < |ps|
  {
    var n1 := if k == 0 then nodes else WithNext(nodes, ps[k - 1], After(ps, k));
    var n2 := if k + 1 == |ps| then n1 else WithPrev(n1, ps[k + 1], Before(ps, k));
    if k > 0 && k + 1 == |ps| then WithPrev(n2, ps[0], Before(ps, k)) else n2
  }

  lemma {:induction false} DetachedInPlace(nodes: map<Ptr, Node>, ps: seq<Ptr>, k: nat, i: nat)
    requires Chain(nodes, ps) && k < |ps| && i < |ps| - 1
    ensures i < |Spliced(ps, k, 1, [])| && InPlace(Detached(nodes, ps, k), Spliced(ps, k, 1, []), i)
  {
    hide Chain, Spliced;
    SplicedEnds(ps, k, 1, [], i);
    ChainAt(nodes, ps, k);
    ChainAt(nodes, ps, 0);
    if k > 0 { ChainAt(nodes, ps, k - 1); ChainDistinct(nodes, ps, k - 1, 0); }
    if k + 1 < |ps| { ChainAt(nodes, ps, k + 1); }
    var m := if i < k then i else i + 1;
    ChainAt(nodes, ps, m);
    ChainDistinct(nodes, ps, m, 0);
    if k > 0 { ChainDistinct(nodes, ps, m, k - 1); }
    if k + 1 < |ps| { ChainDistinct(nodes, ps, m, k + 1); }
  }

  function Replaced(nodes: map<Ptr, Node>, ps: seq<Ptr>, k: nat, item: Ptr): map<Ptr, Node>
    requires Chain(nodes, ps) && k < |ps| && item in nodes
  {
    var n1 := WithPrev(WithNext(nodes, item, After(ps, k)), item, Before(ps, k));
    var n2 := if k + 1 == |ps| then n1 else WithPrev(n1, ps[k + 1], item);
    var n3 := if k > 0 then WithNext(n2, ps[k - 1], item) else if |ps| == 1 then WithPrev(n2, item, item) else n2;
    if k > 0 && k + 1 == |ps| then WithPrev(n3, ps[0], item) else n3
  }

  lemma {:induction false} ReplacedInPlace(nodes: map<Ptr, Node>, ps: seq<Ptr>, k: nat, item: Ptr, i: nat)
    requires Chain(nodes, ps) && k < |ps| && item !in ps && item != NULL && item in nodes && i < |ps|
    ensures i < |Spliced(ps, k, 1, [item])| && InPlace(Replaced(nodes, ps, k, item), Spliced(ps, k, 1, [item]), i)
  {
    hide Chain, Spliced;
    SplicedEnds(ps, k, 1, [item], i);
    ChainAt(nodes, ps, k);
    ChainAt(nodes, ps, 0);
    assert ps[0] != item && ps[k] != item;
    if k > 0 { ChainAt(nodes, ps, k - 1); assert ps[k - 1] != item; }
    if k + 1 < |ps| { ChainAt(nodes, ps, k + 1); assert ps[k + 1] != item; }
    if i != k {
      ChainAt(nodes, ps, i);
      assert ps[i] != item;
      ChainDistinct(nodes, ps, i, 0);
      if k > 0 { ChainDistinct(nodes, ps, i, k - 1); ChainDistinct(nodes, ps, 0, k - 1); }
      if k + 1 < |ps| { ChainDistinct(nodes, ps, i, k + 1); }
      if k > 0 && k + 1 < |ps| { ChainDistinct(nodes, ps, k - 1, k + 1); }
    }
  }

  lemma {:induction false} ChainAppend(nodes: map<Ptr, Node>, ps: seq<Ptr>, item: Ptr)
    requires Chain(nodes, ps) && ps != [] && item !in ps && item != NULL && item in nodes && nodes[item].next == NULL
    ensures Chain(Appended(nodes, ps, item), Spliced(ps, |ps|, 0, [item]))
  {
    hide InPlace, Appended;
    var qs := Spliced(ps, |ps|, 0, [item]);
    SplicedDistinct(ps, |ps|, 0, [item]);
    forall i | 0 <= i < |qs| ensures InPlace(Appended(nodes, ps, item), qs, i) {
      AppendedInPlace(nodes, ps, item, i);
    }
    AllInPlace(Appended(nodes, ps, item), qs);
  }

  lemma {:induction false} ChainInsert(nodes: map<Ptr, Node>, ps: seq<Ptr>, k: nat, item: Ptr)
    requires Chain(nodes, ps) && k < |ps| && item !in ps && item != NULL && item in nodes
    ensures Chain(Inserted(nodes, ps, k, item), Spliced(ps, k, 0, [item]))
  {
    hide InPlace, Inserted;
    var qs := Spliced(ps, k, 0, [item]);
    SplicedDistinct(ps, k, 0, [item]);
    forall i | 0 <= i < |qs| ensures InPlace(Inserted(nodes, ps, k, item), qs, i) {
      InsertedInPlace(nodes, ps, k, item, i);
    }
    AllInPlace(Inserted(nodes, ps, k, item), qs);
  }

  lemma {:induction false} ChainDetach(nodes: map<Ptr, Node>, ps: seq<Ptr>, k: nat)
    requires Chain(nodes, ps) && k < |ps|
    ensures Chain(Detached(nodes, ps, k), Spliced(ps, k, 1, []))
  {
    hide InPlace, Detached;
    var qs := Spliced(ps, k, 1, []);
    SplicedDistinct(ps, k, 1, []);
    forall i | 0 <= i < |qs| ensures InPlace(Detached(nodes, ps, k), qs, i) {
      DetachedInPlace(nodes, ps, k, i);
    }
    AllInPlace(Detached(nodes, ps, k), qs);
  }

  lemma {:induction false} ChainReplace(nodes: map<Ptr, Node>, ps: seq<Ptr>, k: nat, item: Ptr)
    requires Chain(nodes, ps) && k < |ps| && item !in ps && item != NULL && item in nodes
    ensures Chain(Replaced(nodes, ps, k, item), Spliced(ps, k, 1, [item]))
  {
    hide InPlace, Replaced;
    var qs := Spliced(ps, k, 1, [item]);
    SplicedDistinct(ps, k, 1, [item]);
    forall i | 0 <= i < |qs| ensures InPlace(Replaced(nodes, ps, k, item), qs, i) {
      ReplacedInPlace(nodes, ps, k, item, i);
    }
    AllInPlace(Replaced(nodes, ps, k, item), qs);
  }

  // ---- the list inside a tree ----

  /** An array or object that owns its children, with its list well linked. */
  predicate Family(h: Heap, t: Tree) {
    Owns(h, t) && Apart(t) && !h.nodes[t.ptr].isReference && PrevLinked(h, t.kids)
  }

  /** A whole tree that shares nothing with `parent`. */
  predicate Loose(h: Heap, parent: Tree, t: Tree) {
    Owns(h, t) && Apart(t) && NodesOf(t) !! NodesOf(parent) && BlocksOf(t) !! BlocksOf(parent)
  }

  /** Only the links of these nodes differ. */
  predicate LinksOnly(n0: map<Ptr, Node>, n1: map<Ptr, Node>, ps: seq<Ptr>) {
    && n1.Keys == n0.Keys
    && (forall p :: p in n0 ==> n1[p].(next := NULL, prev := NULL) == n0[p].(next := NULL, prev := NULL))
    && (forall p :: p in n0 && p !in ps ==> n1[p] == n0[p])
  }

  /** Only the links of these nodes and the `child` of the parent differ. */
  predicate Relinked(h0: Heap, h1: Heap, parent: Ptr, ps: seq<Ptr>) {
    && parent in h0.nodes && parent in h1.nodes && h1.blocks == h0.blocks
    && LinksOnly(h0.nodes, WithChild(h1.nodes, parent, h0.nodes[parent].child), ps)
    && h1.nodes[parent] == h0.nodes[parent].(child := h1.nodes[parent].child)
  }

  /** Every value and every name of these trees is still there. */
  ghost predicate KeepsValues(h0: Heap, h1: Heap, ts: seq<Tree>) {
    && (forall i, v :: 0 <= i < |ts| && Denotes(h0, ts[i], v) ==> Denotes(h1, ts[i], v))
    && (forall i, s :: 0 <= i < |ts| && HoldsString(h0, ts[i].name, s) ==> HoldsString(h1, ts[i].name, s))
  }

  lemma {:induction false} FamilyChain(h: Heap, t: Tree)
    requires Family(h, t)
    ensures t.ptr in h.nodes && Chain(h.nodes, Roots(t.kids)) && h.nodes[t.ptr].child == Head(Roots(t.kids))
    ensures Apart(t) && ApartAll(t.kids) && t.ptr !in NodesOfAll(t.kids) && t.ptr !in Roots(t.kids)
  {
    hide Apart, ApartAll, Owns, NodesOf, BlocksOf, NodesOfAll, BlocksOfAll, Chain;
    FamilyParts(h, t);
    var ps := Roots(t.kids);
    forall i, j | 0 <= i < j < |ps| ensures ps[i] != ps[j] {
      RootIsOutside(t.kids, i, j);
    }
    forall i | 0 <= i < |ps| ensures InPlace(h.nodes, ps, i) && ps[i] != t.ptr {
      OwnsIsPresent(h, t.kids[i]);
      NodesOfKid(t.kids, i);
    }
    AllInPlace(h.nodes, ps);
  }

  lemma {:induction false} FamilyParts(h: Heap, t: Tree)
    requires Family(h, t)
    ensures OwnsList(h, t.kids) && OwnsRoot(h, t) && h.nodes[t.ptr].child == First(t.kids)
    ensures ApartAll(t.kids) && t.ptr !in NodesOfAll(t.kids)
  {
  }

  /** A tree of the list after the links were changed. */
  lemma {:induction false} KidRelinked(h0: Heap, h1: Heap, parent: Ptr, all: seq<Tree>, i: nat)
    requires ApartAll(all) && parent !in NodesOfAll(all) && i < |all| && Owns(h0, all[i])
    requires Relinked(h0, h1, parent, Roots(all))
    ensures Owns(h1, all[i]) && forall v :: Denotes(h0, all[i], v) ==> Denotes(h1, all[i], v)
  {
    hide Apart, ApartAll, Owns, Denotes, NodesOf, BlocksOf, BlocksOfAll;
    var t := all[i];
    NodesOfKid(all, i);
    RootAndKids(t);
    forall q | q in NodesOfAll(t.kids) && q in h0.nodes ensures q in h1.nodes && h1.nodes[q] == h0.nodes[q] {
      if q in Roots(all) {
        var k :| 0 <= k < |all| && Roots(all)[k] == q;
        RootIsOutside(all, i, k);
        assert false;
      }
      assert q != parent;
    }
    FrameHere(h0, h1, t);
  }

  /** The trees of `kids` are among those of `all`, and no tree twice. */
  lemma {:induction false} ApartSome(all: seq<Tree>, kids: seq<Tree>)
    requires ApartAll(all) && Distinct(Roots(kids)) && forall i :: 0 <= i < |kids| ==> kids[i] in all
    ensures ApartAll(kids) && NodesOfAll(kids) <= NodesOfAll(all) && BlocksOfAll(kids) <= BlocksOfAll(all)
  {
    hide Apart, NodesOf, BlocksOf;
    forall i, j | 0 <= i < j < |kids|
      ensures NodesOf(kids[i]) !! NodesOf(kids[j]) && BlocksOf(kids[i]) !! BlocksOf(kids[j])
    {
      var a :| 0 <= a < |all| && all[a] == kids[i];
      var b :| 0 <= b < |all| && all[b] == kids[j];
      assert Roots(kids)[i] != Roots(kids)[j];
      if a < b { TwoApart(all, a, b); } else { TwoApart(all, b, a); }
    }
  }

  /** The parent with its new list of children. */
  lemma {:induction false} FamilyRelinked(h0: Heap, h1: Heap, parent: Tree, all: seq<Tree>, kids: seq<Tree>)
    requires OwnsRoot(h0, parent) && !h0.nodes[parent.ptr].isReference && Apart(parent.(kids := all))
    requires forall i :: 0 <= i < |all| ==> Owns(h0, all[i])
    requires Relinked(h0, h1, parent.ptr, Roots(all)) && h1.nodes[parent.ptr].child == First(kids)
    requires Chain(h1.nodes, Roots(kids)) && forall i :: 0 <= i < |kids| ==> kids[i] in all
    ensures Family(h1, parent.(kids := kids)) && KeepsValues(h0, h1, all)
    ensures forall i :: 0 <= i < |all| ==> Owns(h1, all[i])
  {
    hide ApartAll, NodesOf, NodesOfAll, BlocksOf, BlocksOfAll;
    hide Denotes, Chain, KeepsValues, LinksOnly, OwnsList, PrevLinked;
    AllRelinked(h0, h1, parent.ptr, all);
    ChainIsDistinct(h1.nodes, Roots(kids));
    ApartSome(all, kids);
    KidsLinked(h1, all, kids);
  }

  lemma {:induction false} ChainIsDistinct(nodes: map<Ptr, Node>, ps: seq<Ptr>)
    requires Chain(nodes, ps)
    ensures Distinct(ps)
  {
  }

  lemma {:induction false} AllRelinked(h0: Heap, h1: Heap, parent: Ptr, all: seq<Tree>)
    requires ApartAll(all) && parent !in NodesOfAll(all) && forall i :: 0 <= i < |all| ==> Owns(h0, all[i])
    requires Relinked(h0, h1, parent, Roots(all))
    ensures KeepsValues(h0, h1, all) && forall i :: 0 <= i < |all| ==> Owns(h1, all[i])
  {
    hide Apart, ApartAll, Owns, Denotes, NodesOf, NodesOfAll, BlocksOf, BlocksOfAll, HoldsString, LinksOnly;
    StringsKept(h0, h1);
    forall i | 0 <= i < |all|
      ensures Owns(h1, all[i]) && forall v :: Denotes(h0, all[i], v) ==> Denotes(h1, all[i], v)
    {
      KidRelinked(h0, h1, parent, all, i);
    }
  }

  lemma {:induction false} StringsKept(h0: Heap, h1: Heap)
    requires h1.blocks == h0.blocks
    ensures forall p, s :: HoldsString(h0, p, s) ==> HoldsString(h1, p, s)
  {
  }

  lemma {:induction false} KidsLinked(h: Heap, all: seq<Tree>, kids: seq<Tree>)
    requires forall i :: 0 <= i < |all| ==> Owns(h, all[i])
    requires Chain(h.nodes, Roots(kids)) && forall i :: 0 <= i < |kids| ==> kids[i] in all
    ensures OwnsList(h, kids) && PrevLinked(h, kids)
  {
    hide Owns, Chain;
    var ps := Roots(kids);
    forall i | 0 <= i < |kids|
      ensures Owns(h, kids[i]) && kids[i].ptr in h.nodes
      ensures h.nodes[kids[i].ptr].next == NextOf(kids, i) && h.nodes[kids[i].ptr].prev == Before(ps, i)
    {
      ChainAt(h.nodes, ps, i);
    }
  }

  // ---- the changes each operation makes ----

  lemma {:induction false} LooseChild(h: Heap, parent: Tree, t: Tree)
    requires Family(h, parent) && Loose(h, parent, t)
    ensures var all := parent.kids + [t];
            && t.ptr !in Roots(parent.kids) && t.ptr != parent.ptr && t.ptr != NULL && t.ptr in h.nodes
            && Apart(parent.(kids := all)) && Roots(all) == Roots(parent.kids) + [t.ptr]
            && forall i :: 0 <= i < |all| ==> Owns(h, all[i])
  {
    hide Owns, ApartAll, NodesOf, NodesOfAll, BlocksOfAll;
    FamilyParts(h, parent);
    OwnsIsPresent(h, t);
    RootAndKids(t);
    RootAndKids(parent);
    forall i | 0 <= i < |parent.kids| ensures Owns(h, parent.kids[i]) && parent.kids[i].ptr != t.ptr {
      NodesOfKid(parent.kids, i);
    }
    ApartSnoc(parent.kids, t);
    AddressesOfSnoc(parent.kids, t);
  }

  lemma {:induction false} NextSet(n0: map<Ptr, Node>, n1: map<Ptr, Node>, ps: seq<Ptr>, p: Ptr, q: Ptr)
    requires LinksOnly(n0, n1, ps) && p in ps && p in n1
    ensures LinksOnly(n0, WithNext(n1, p, q), ps) && WithNext(n1, p, q).Keys == n1.Keys
  {
  }

  lemma {:induction false} PrevSet(n0: map<Ptr, Node>, n1: map<Ptr, Node>, ps: seq<Ptr>, p: Ptr, q: Ptr)
    requires LinksOnly(n0, n1, ps) && p in ps && p in n1
    ensures LinksOnly(n0, WithPrev(n1, p, q), ps) && WithPrev(n1, p, q).Keys == n1.Keys
  {
  }

  lemma {:induction false} NothingSet(n: map<Ptr, Node>, ps: seq<Ptr>)
    ensures LinksOnly(n, n, ps)
  {
  }

  lemma {:induction false} InList(nodes: map<Ptr, Node>, ps: seq<Ptr>, item: Ptr, i: nat)
    requires Chain(nodes, ps) && i < |ps|
    ensures ps[i] in nodes && ps[i] in ps + [item] && item in ps + [item]
  {
  }

  lemma {:induction false} LinksOfAppended(nodes: map<Ptr, Node>, ps: seq<Ptr>, item: Ptr)
    requires Chain(nodes, ps) && ps != [] && item in nodes
    ensures LinksOnly(nodes, Appended(nodes, ps, item), ps + [item])
  {
    hide Chain, LinksOnly, WithNext, WithPrev;
    var all, tail := ps + [item], ps[|ps| - 1];
    InList(nodes, ps, item, 0);
    InList(nodes, ps, item, |ps| - 1);
    NothingSet(nodes, all);
    NextSet(nodes, nodes, all, tail, item);
    PrevSet(nodes, WithNext(nodes, tail, item), all, item, tail);
    PrevSet(nodes, WithPrev(WithNext(nodes, tail, item), item, tail), all, ps[0], item);
  }

  lemma {:induction false} LinksOfInserted(nodes: map<Ptr, Node>, ps: seq<Ptr>, k: nat, item: Ptr)
    requires Chain(nodes, ps) && k < |ps| && item in nodes
    ensures LinksOnly(nodes, Inserted(nodes, ps, k, item), ps + [item])
  {
    hide Chain, LinksOnly, WithNext, WithPrev;
    var all := ps + [item];
    InList(nodes, ps, item, k);
    NothingSet(nodes, all);
    NextSet(nodes, nodes, all, item, ps[k]);
    var n0 := WithNext(nodes, item, ps[k]);
    PrevSet(nodes, n0, all, item, Before(ps, k));
    var n1 := WithPrev(n0, item, Before(ps, k));
    PrevSet(nodes, n1, all, ps[k], item);
    if k > 0 {
      InList(nodes, ps, item, k - 1);
      NextSet(nodes, WithPrev(n1, ps[k], item), all, ps[k - 1], item);
    }
  }

  /** The links of the detached node are cut as well. */
  lemma {:induction false} LinksOfDetached(nodes: map<Ptr, Node>, ps: seq<Ptr>, k: nat)
    requires Chain(nodes, ps) && k < |ps|
    ensures ps[k] in nodes && Detached(nodes, ps, k).Keys == nodes.Keys
    ensures LinksOnly(nodes, WithNext(WithPrev(Detached(nodes, ps, k), ps[k], NULL), ps[k], NULL), ps)
  {
    hide Chain, LinksOnly, WithNext, WithPrev;
    ChainAt(nodes, ps, 0);
    ChainAt(nodes, ps, k);
    NothingSet(nodes, ps);
    var n1 := nodes;
    if k > 0 {
      ChainAt(nodes, ps, k - 1);
      NextSet(nodes, nodes, ps, ps[k - 1], After(ps, k));
      n1 := WithNext(nodes, ps[k - 1], After(ps, k));
    }
    if k + 1 < |ps| {
      ChainAt(nodes, ps, k + 1);
      PrevSet(nodes, n1, ps, ps[k + 1], Before(ps, k));
    } else if k > 0 {
      PrevSet(nodes, n1, ps, ps[0], Before(ps, k));
    }
    var n3 := Detached(nodes, ps, k);
    LinksCut(nodes, n3, ps, ps[k]);
  }

  lemma {:induction false} LinksOfReplaced(nodes: map<Ptr, Node>, ps: seq<Ptr>, k: nat, item: Ptr)
    requires Chain(nodes, ps) && k < |ps| && item in nodes
    ensures LinksOnly(nodes, Replaced(nodes, ps, k, item), ps + [item])
  {
    hide Chain, LinksOnly, WithNext, WithPrev;
    var all := ps + [item];
    InList(nodes, ps, item, 0);
    NothingSet(nodes, all);
    NextSet(nodes, nodes, all, item, After(ps, k));
    var n0 := WithNext(nodes, item, After(ps, k));
    PrevSet(nodes, n0, all, item, Before(ps, k));
    var n1 := WithPrev(n0, item, Before(ps, k));
    var n2 := n1;
    if k + 1 < |ps| {
      InList(nodes, ps, item, k + 1);
      PrevSet(nodes, n1, all, ps[k + 1], item);
      n2 := WithPrev(n1, ps[k + 1], item);
    }
    if k > 0 {
      InList(nodes, ps, item, k - 1);
      NextSet(nodes, n2, all, ps[k - 1], item);
      PrevSet(nodes, WithNext(n2, ps[k - 1], item), all, ps[0], item);
    } else {
      PrevSet(nodes, n2, all, item, item);
    }
  }

  lemma {:induction false} LinksCut(n0: map<Ptr, Node>, n1: map<Ptr, Node>, ps: seq<Ptr>, p: Ptr)
    requires LinksOnly(n0, n1, ps) && p in ps && p in n1
    ensures LinksOnly(n0, WithNext(WithPrev(n1, p, NULL), p, NULL), ps)
  {
    hide LinksOnly;
    PrevSet(n0, n1, ps, p, NULL);
    NextSet(n0, WithPrev(n1, p, NULL), ps, p, NULL);
  }

  lemma {:induction false} RelinkedBy(h0: Heap, n1: map<Ptr, Node>, parent: Ptr, q: Ptr, ps: seq<Ptr>)
    requires LinksOnly(h0.nodes, n1, ps) && parent in h0.nodes && parent !in ps
    ensures parent in n1 && Relinked(h0, h0.(nodes := WithChild(n1, parent, q)), parent, ps)
  {
    var h1 := h0.(nodes := WithChild(n1, parent, q));
    assert WithChild(h1.nodes, parent, h0.nodes[parent].child) == n1;
  }

  // ---- the operations ----

  /** get_array_item */
  method GetArrayItem(memory: CHeap, owner: Ptr, index: nat, ghost parent: Tree) returns (child: Ptr)
    requires owner != NULL ==> owner == parent.ptr && Family(memory.heap, parent)
    ensures child == if owner != NULL && index < |parent.kids| then parent.kids[index].ptr else NULL
  {
    hide Family, Chain;
    if owner == NULL {
      return NULL;
    }
    FamilyChain(memory.heap, parent);
    ghost var ps := Roots(parent.kids);
    child := memory.heap.nodes[owner].child;
    var left := index;
    ghost var i := 0;
    if ps != [] { ChainAt(memory.heap.nodes, ps, 0); }
    while child != NULL && left > 0
      invariant 0 <= left && i <= |ps| && left + i == index
      invariant (i < |ps| ==> ps[i] != NULL) && child == (if i < |ps| then ps[i] else NULL)
      decreases left
    {
      left := left - 1;
      ChainAt(memory.heap.nodes, ps, i);
      child := memory.heap.nodes[child].next;
      i := i + 1;
      if i < |ps| { ChainAt(memory.heap.nodes, ps, i); }
    }
  }

  /** add_item_to_array: the item has to arrive with no `next`. */
  method AddItemToArray(memory: CHeap, owner: Ptr, item: Ptr, ghost parent: Tree, ghost t: Tree) returns (ok: bool)
    requires owner != NULL ==> owner == parent.ptr && Family(memory.heap, parent)
    requires owner != NULL && item != NULL && item != owner ==>
               item == t.ptr && Loose(memory.heap, parent, t) && memory.heap.nodes[item].next == NULL
    modifies memory
    ensures ok <==> item != NULL && owner != NULL && owner != item
    ensures !ok ==> memory.heap == old(memory.heap)
    ensures ok ==>
              && Family(memory.heap, parent.(kids := parent.kids + [t]))
              && Relinked(old(memory.heap), memory.heap, owner, Roots(parent.kids + [t]))
              && KeepsValues(old(memory.heap), memory.heap, parent.kids + [t])
  {
    hide Family, Chain, Apart, Relinked, LinksOnly, KeepsValues;
    if item == NULL || owner == NULL || owner == item {
      return false;
    }
    ghost var h := memory.heap;
    ghost var ps, all := Roots(parent.kids), parent.kids + [t];
    FamilyChain(h, parent);
    LooseChild(h, parent, t);
    var child := memory.heap.nodes[owner].child;
    if child == NULL {
      memory.SetNode(owner, memory.heap.nodes[owner].(child := item));
      memory.SetNode(item, memory.heap.nodes[item].(prev := item));
      memory.SetNode(item, memory.heap.nodes[item].(next := NULL));
      assert parent.kids == [] by { if ps != [] { ChainAt(h.nodes, ps, 0); } }
      AppendedToNone(h, memory.heap, parent, t);
    } else {
      ChainAt(h.nodes, ps, 0);
      ChainAt(h.nodes, ps, |ps| - 1);
      var tail := memory.heap.nodes[child].prev;
      if tail != NULL {
        memory.SetNode(tail, memory.heap.nodes[tail].(next := item));
        memory.SetNode(item, memory.heap.nodes[item].(prev := tail));
        memory.SetNode(child, memory.heap.nodes[child].(prev := item));
      }
      AppendedToSome(h, memory.heap, parent, t);
    }
    ok := true;
  }

  lemma {:induction false} ChainOfOne(nodes: map<Ptr, Node>, item: Ptr)
    requires item != NULL && item in nodes
    ensures Chain(WithNext(WithPrev(nodes, item, item), item, NULL), [item])
  {
  }

  lemma {:induction false} AppendedToNone(h: Heap, h1: Heap, parent: Tree, t: Tree)
    requires Family(h, parent) && Loose(h, parent, t) && parent.kids == [] && t.ptr in h.nodes && t.ptr != parent.ptr
    requires h1.blocks == h.blocks
    requires h1.nodes == WithNext(WithPrev(WithChild(h.nodes, parent.ptr, t.ptr), t.ptr, t.ptr), t.ptr, NULL)
    ensures Family(h1, parent.(kids := parent.kids + [t])) && Relinked(h, h1, parent.ptr, Roots(parent.kids + [t]))
    ensures KeepsValues(h, h1, parent.kids + [t])
  {
    hide Apart, Relinked, KeepsValues, OwnsList, PrevLinked, Loose, Chain;
    var all := parent.kids + [t];
    LooseChild(h, parent, t);
    var n1 := WithNext(WithPrev(h.nodes, t.ptr, t.ptr), t.ptr, NULL);
    assert LinksOnly(h.nodes, n1, Roots(all)) by { assert Roots(all)[0] == t.ptr; }
    assert h1.nodes == WithChild(n1, parent.ptr, t.ptr);
    RelinkedBy(h, n1, parent.ptr, t.ptr, Roots(all));
    ChainOfOne(h.nodes, t.ptr);
    ChainElsewhere(n1, [t.ptr], parent.ptr, h1.nodes[parent.ptr]);
    assert Roots(all) == [t.ptr];
    FamilyRelinked(h, h1, parent, all, all);
  }

  lemma {:induction false} AppendedToSome(h: Heap, h1: Heap, parent: Tree, t: Tree)
    requires Family(h, parent) && Loose(h, parent, t) && parent.kids != []
    requires Chain(h.nodes, Roots(parent.kids)) && t.ptr in h.nodes && h.nodes[t.ptr].next == NULL
    requires h1 == h.(nodes := Appended(h.nodes, Roots(parent.kids), t.ptr))
    ensures Family(h1, parent.(kids := parent.kids + [t])) && Relinked(h, h1, parent.ptr, Roots(parent.kids + [t]))
    ensures KeepsValues(h, h1, parent.kids + [t])
  {
    hide Apart, Relinked, KeepsValues, Chain, LinksOnly, Appended, OwnsList, PrevLinked;
    var ps, all := Roots(parent.kids), parent.kids + [t];
    FamilyChain(h, parent);
    LooseChild(h, parent, t);
    ChainAppend(h.nodes, ps, t.ptr);
    LinksOfAppended(h.nodes, ps, t.ptr);
    assert Spliced(ps, |ps|, 0, [t.ptr]) == Roots(all);
    UnchangedChild(h, h1, parent.ptr, Roots(all));
    FamilyRelinked(h, h1, parent, all, all);
  }

  lemma {:induction false} UnchangedChild(h: Heap, h1: Heap, parent: Ptr, ps: seq<Ptr>)
    requires LinksOnly(h.nodes, h1.nodes, ps) && h1.blocks == h.blocks && parent in h.nodes && parent !in ps
    ensures Relinked(h, h1, parent, ps) && h1.nodes[parent] == h.nodes[parent]
  {
    RelinkedBy(h, h1.nodes, parent, h.nodes[parent].child, ps);
    assert WithChild(h1.nodes, parent, h.nodes[parent].child) == h1.nodes;
    assert h.(nodes := h1.nodes) == h1;
  }

  /** cJSON_InsertItemInArray: past the end a NULL item is refused, in front of a child it is dereferenced. */
  method InsertItemInArray(memory: CHeap, owner: Ptr, which: int, newitem: Ptr, ghost parent: Tree, ghost t: Tree)
    returns (ok: bool)
    requires owner != NULL ==> owner == parent.ptr && Family(memory.heap, parent)
    requires owner != NULL && 0 <= which < |parent.kids| ==> newitem != NULL && newitem != owner
    requires owner != NULL && newitem != NULL && newitem != owner ==>
               && newitem == t.ptr && Loose(memory.heap, parent, t)
               && (which >= |parent.kids| ==> memory.heap.nodes[newitem].next == NULL)
    modifies memory
    ensures ok <==>
            owner != NULL && which >= 0 && (which >= |parent.kids| ==> newitem != NULL && newitem != owner)
    ensures !ok ==> memory.heap == old(memory.heap)
    ensures ok ==>
              var k := if which < |parent.kids| then which else |parent.kids|;
              && Family(memory.heap, parent.(kids := parent.kids[..k] + [t] + parent.kids[k..]))
              && Relinked(old(memory.heap), memory.heap, owner, Roots(parent.kids + [t]))
              && KeepsValues(old(memory.heap), memory.heap, parent.kids + [t])
  {
    hide Family, Chain, Apart, Relinked, LinksOnly, KeepsValues;
    if which < 0 {
      return false;
    }
    ghost var h := memory.heap;
    ghost var ps := Roots(parent.kids);
    SplicedIs(parent.kids, if which < |parent.kids| then which else |parent.kids|, [t]);
    if owner != NULL {
      FamilyChain(h, parent);
      if which < |ps| {
        LooseChild(h, parent, t);
        ChainAt(h.nodes, ps, which);
      }
    }
    var afterInserted := GetArrayItem(memory, owner, which, parent);
    if afterInserted == NULL {
      ok := AddItemToArray(memory, owner, newitem, parent, t);
      assert Spliced(parent.kids, |parent.kids|, 0, [t]) == parent.kids + [t];
      return;
    }
    LinkBefore(memory, owner, afterInserted, newitem, ps, which);
    InsertedChild(h, memory.heap, parent, t, which);
    ok := true;
  }

  /** What it does to the nodes. */
  method LinkBefore(memory: CHeap, owner: Ptr, afterInserted: Ptr, newitem: Ptr, ghost ps: seq<Ptr>, ghost k: nat)
    requires Chain(memory.heap.nodes, ps) && k < |ps| && afterInserted == ps[k]
    requires newitem in memory.heap.nodes && newitem !in ps && newitem != NULL && newitem != owner
    requires owner in memory.heap.nodes && owner !in ps && memory.heap.nodes[owner].child == ps[0]
    modifies memory
    ensures memory.heap.blocks == old(memory.heap).blocks
    ensures var n := Inserted(old(memory.heap).nodes, ps, k, newitem);
            owner in n && memory.heap.nodes == WithChild(n, owner, if k == 0 then newitem else ps[0])
  {
    hide Chain;
    ghost var h := memory.heap;
    ChainAt(h.nodes, ps, k);
    ChainAt(h.nodes, ps, 0);
    ChainDistinct(h.nodes, ps, k, 0);
    if k > 0 { ChainAt(h.nodes, ps, k - 1); ChainDistinct(h.nodes, ps, k - 1, k); }
    memory.SetNode(newitem, memory.heap.nodes[newitem].(next := afterInserted));
    memory.SetNode(newitem, memory.heap.nodes[newitem].(prev := memory.heap.nodes[afterInserted].prev));
    memory.SetNode(afterInserted, memory.heap.nodes[afterInserted].(prev := newitem));
    if afterInserted == memory.heap.nodes[owner].child {
      memory.SetNode(owner, memory.heap.nodes[owner].(child := newitem));
    } else {
      var before := memory.heap.nodes[newitem].prev;
      memory.SetNode(before, memory.heap.nodes[before].(next := newitem));
    }
  }

  lemma {:induction false} InsertedChild(h: Heap, h1: Heap, parent: Tree, t: Tree, k: nat)
    requires Family(h, parent) && Loose(h, parent, t) && k < |parent.kids| && t.ptr in h.nodes
    requires Chain(h.nodes, Roots(parent.kids)) && h1.blocks == h.blocks
    requires var n := Inserted(h.nodes, Roots(parent.kids), k, t.ptr);
             parent.ptr in n && h1.nodes == WithChild(n, parent.ptr, if k == 0 then t.ptr else parent.kids[0].ptr)
    ensures Family(h1, parent.(kids := Spliced(parent.kids, k, 0, [t])))
    ensures Relinked(h, h1, parent.ptr, Roots(parent.kids + [t])) && KeepsValues(h, h1, parent.kids + [t])
  {
    hide Apart, Relinked, KeepsValues, Chain, LinksOnly, Inserted, OwnsList, PrevLinked;
    var ps, all := Roots(parent.kids), parent.kids + [t];
    var kids := Spliced(parent.kids, k, 0, [t]);
    FamilyChain(h, parent);
    LooseChild(h, parent, t);
    ChainInsert(h.nodes, ps, k, t.ptr);
    LinksOfInserted(h.nodes, ps, k, t.ptr);
    var n := Inserted(h.nodes, ps, k, t.ptr);
    RelinkedBy(h, n, parent.ptr, h1.nodes[parent.ptr].child, Roots(all));
    RootsSpliced(parent.kids, k, 0, [t]);
    assert Roots([t]) == [t.ptr];
    assert parent.ptr !in Roots(kids);
    ChainElsewhere(n, Roots(kids), parent.ptr, h1.nodes[parent.ptr]);
    FamilyRelinked(h, h1, parent, all, kids);
  }

  /** cJSON_DetachItemViaPointer */
  method DetachItemViaPointer(memory: CHeap, owner: Ptr, item: Ptr, ghost parent: Tree, ghost k: nat)
    returns (detached: Ptr)
    requires owner != NULL && item != NULL ==>
               && owner == parent.ptr && Family(memory.heap, parent)
               && k < |parent.kids| && item == parent.kids[k].ptr
    modifies memory
    ensures owner == NULL || item == NULL ==> detached == NULL && memory.heap == old(memory.heap)
    ensures owner != NULL && item != NULL ==>
              && detached == item
              && Family(memory.heap, parent.(kids := parent.kids[..k] + parent.kids[k + 1..]))
              && Loose(memory.heap, parent.(kids := parent.kids[..k] + parent.kids[k + 1..]), parent.kids[k])
              && memory.heap.nodes[item].next == NULL && memory.heap.nodes[item].prev == NULL
              && Relinked(old(memory.heap), memory.heap, owner, Roots(parent.kids))
              && KeepsValues(old(memory.heap), memory.heap, parent.kids)
  {
    hide Family, Chain, Apart, Relinked, LinksOnly, KeepsValues, Loose;
    if owner == NULL || item == NULL {
      return NULL;
    }
    SplicedIs(parent.kids, k, []);
    FamilyChain(memory.heap, parent);
    Unlink(memory, owner, item, Roots(parent.kids), k);
    DetachedChild(old(memory.heap), memory.heap, parent, k);
    detached := item;
  }

  /** What it does to the nodes. */
  method Unlink(memory: CHeap, owner: Ptr, item: Ptr, ghost ps: seq<Ptr>, ghost k: nat)
    requires Chain(memory.heap.nodes, ps) && k < |ps| && item == ps[k]
    requires owner in memory.heap.nodes && owner !in ps && memory.heap.nodes[owner].child == ps[0]
    modifies memory
    ensures memory.heap.blocks == old(memory.heap).blocks
    ensures var n := Detached(old(memory.heap).nodes, ps, k);
            owner in n && item in n && memory.heap.nodes ==
              WithChild(WithNext(WithPrev(n, item, NULL), item, NULL), owner, if k == 0 then After(ps, 0) else ps[0])
  {
    hide Chain;
    ghost var h := memory.heap;
    ChainAt(h.nodes, ps, k);
    ChainAt(h.nodes, ps, 0);
    ChainDistinct(h.nodes, ps, 0, k);
    if k > 0 { ChainAt(h.nodes, ps, k - 1); ChainDistinct(h.nodes, ps, k - 1, k); }
    if k + 1 < |ps| { ChainAt(h.nodes, ps, k + 1); ChainDistinct(h.nodes, ps, k + 1, k); }
    var node := memory.heap.nodes[item];
    if item != memory.heap.nodes[owner].child {
      memory.SetNode(node.prev, memory.heap.nodes[node.prev].(next := node.next));
    }
    if node.next != NULL {
      memory.SetNode(node.next, memory.heap.nodes[node.next].(prev := node.prev));
    }
    if item == memory.heap.nodes[owner].child {
      memory.SetNode(owner, memory.heap.nodes[owner].(child := node.next));
    } else if node.next == NULL {
      var head := memory.heap.nodes[owner].child;
      memory.SetNode(head, memory.heap.nodes[head].(prev := node.prev));
    }
    memory.SetNode(item, memory.heap.nodes[item].(prev := NULL));
    memory.SetNode(item, memory.heap.nodes[item].(next := NULL));
  }

  lemma {:induction false} DetachedChild(h: Heap, h1: Heap, parent: Tree, k: nat)
    requires Family(h, parent) && k < |parent.kids|
    requires Chain(h.nodes, Roots(parent.kids)) && h1.blocks == h.blocks
    requires var n := Detached(h.nodes, Roots(parent.kids), k);
             var p := parent.kids[k].ptr;
             parent.ptr in n && p in n && h1.nodes ==
               WithChild(WithNext(WithPrev(n, p, NULL), p, NULL), parent.ptr,
                 if k == 0 then After(Roots(parent.kids), 0) else parent.kids[0].ptr)
    ensures Family(h1, parent.(kids := Spliced(parent.kids, k, 1, [])))
    ensures Loose(h1, parent.(kids := Spliced(parent.kids, k, 1, [])), parent.kids[k])
    ensures Relinked(h, h1, parent.ptr, Roots(parent.kids)) && KeepsValues(h, h1, parent.kids)
  {
    hide Apart, Relinked, KeepsValues, Chain, LinksOnly, Detached, OwnsList, PrevLinked, Loose;
    var ps, all := Roots(parent.kids), parent.kids;
    var p, kids := parent.kids[k].ptr, Spliced(parent.kids, k, 1, []);
    FamilyChain(h, parent);
    ChainDetach(h.nodes, ps, k);
    LinksOfDetached(h.nodes, ps, k);
    var n := Detached(h.nodes, ps, k);
    var cut := WithNext(WithPrev(n, p, NULL), p, NULL);
    RelinkedBy(h, cut, parent.ptr, h1.nodes[parent.ptr].child, ps);
    RootsSpliced(parent.kids, k, 1, []);
    assert Roots([]) == [];
    ChainWithout(h.nodes, ps, k);
    assert parent.ptr !in Roots(kids);
    ChainElsewhere(n, Roots(kids), p, cut[p]);
    assert cut == n[p := cut[p]];
    ChainElsewhere(cut, Roots(kids), parent.ptr, h1.nodes[parent.ptr]);
    FamilyParts(h, parent);
    FamilyRelinked(h, h1, parent, all, kids);
    DetachedIsLoose(h1, parent, k);
  }

  lemma {:induction false} ChainWithout(nodes: map<Ptr, Node>, ps: seq<Ptr>, k: nat)
    requires Chain(nodes, ps) && k < |ps|
    ensures ps[k] !in Spliced(ps, k, 1, [])
  {
  }

  lemma {:induction false} DetachedIsLoose(h: Heap, parent: Tree, k: nat)
    requires Apart(parent) && k < |parent.kids| && Owns(h, parent.kids[k])
    ensures Loose(h, parent.(kids := Spliced(parent.kids, k, 1, [])), parent.kids[k])
  {
    hide Owns, NodesOf, NodesOfAll, BlocksOf, BlocksOfAll, ApartAll;
    var t, kids := parent.kids[k], Spliced(parent.kids, k, 1, []);
    NodesOfKid(parent.kids, k);
    TwoApart(parent.kids, k, k);
    forall i | 0 <= i < |kids| ensures NodesOf(kids[i]) !! NodesOf(t) && BlocksOf(kids[i]) !! BlocksOf(t) {
      if i < k { TwoApart(parent.kids, i, k); } else { TwoApart(parent.kids, k, i + 1); }
    }
    ApartFromAll(kids, t);
    ApartFromRoot(parent, kids, t);
  }

  lemma {:induction false} ApartFromAll(ts: seq<Tree>, t: Tree)
    requires forall i :: 0 <= i < |ts| ==> NodesOf(ts[i]) !! NodesOf(t) && BlocksOf(ts[i]) !! BlocksOf(t)
    ensures NodesOfAll(ts) !! NodesOf(t) && BlocksOfAll(ts) !! BlocksOf(t)
  {
    hide NodesOf, BlocksOf;
  }

  lemma {:induction false} ApartFromRoot(parent: Tree, kids: seq<Tree>, t: Tree)
    requires Apart(parent) && NodesOf(t) <= NodesOfAll(parent.kids) && BlocksOf(t) <= BlocksOfAll(parent.kids)
    requires NodesOfAll(kids) !! NodesOf(t) && BlocksOfAll(kids) !! BlocksOf(t)
    ensures NodesOf(t) !! NodesOf(parent.(kids := kids)) && BlocksOf(t) !! BlocksOf(parent.(kids := kids))
  {
    hide ApartAll, NodesOfAll, BlocksOfAll;
    assert NodesOf(parent.(kids := kids)) == {parent.ptr} + NodesOfAll(kids);
    assert BlocksOf(parent.(kids := kids)) == Own(parent.str) + Own(parent.name) + BlocksOfAll(kids);
  }

  /** cJSON_ReplaceItemViaPointer: the old item is deleted with everything below it, and nothing else is. */
  method ReplaceItemViaPointer(memory: CHeap, owner: Ptr, item: Ptr, replacement: Ptr,
                               ghost parent: Tree, ghost k: nat, ghost t: Tree)
    returns (ok: bool)
    requires owner != NULL && item != NULL && replacement != NULL && replacement != item ==>
               && owner == parent.ptr && Family(memory.heap, parent) && k < |parent.kids| && item == parent.kids[k].ptr
               && replacement == t.ptr && Loose(memory.heap, parent, t)
    modifies memory
    ensures ok <==> owner != NULL && item != NULL && replacement != NULL
    ensures !ok || replacement == item ==> memory.heap == old(memory.heap)
    ensures ok && replacement != item ==>
              && Family(memory.heap, parent.(kids := parent.kids[..k] + [t] + parent.kids[k + 1..]))
              && KeepsValues(old(memory.heap), memory.heap, parent.kids[..k] + [t] + parent.kids[k + 1..])
              && owner in memory.heap.nodes && memory.heap.nodes[owner].kind == old(memory.heap).nodes[owner].kind
              && memory.heap.nodes.Keys == old(memory.heap).nodes.Keys - NodesOf(parent.kids[k])
              && memory.heap.blocks == old(memory.heap).blocks - BlocksOf(parent.kids[k])
              && (forall p :: p in memory.heap.nodes && p !in NodesOf(parent) + NodesOf(t) ==>
                    memory.heap.nodes[p] == old(memory.heap).nodes[p])
  {
    hide Family, Chain, Apart, Relinked, LinksOnly, KeepsValues, Loose, NodesOf, BlocksOf;
    if owner == NULL || replacement == NULL || item == NULL {
      return false;
    }
    if replacement == item {
      return true;
    }
    FamilyChain(memory.heap, parent);
    LooseChild(memory.heap, parent, t);
    Substitute(memory, owner, item, replacement, Roots(parent.kids), k);
    ghost var h1 := memory.heap;
    ReplacedChild(old(memory.heap), h1, parent, k, t);
    memory.Delete(item, [parent.kids[k]]);
    ReplacedAndDeleted(old(memory.heap), h1, parent, k, t);
    ok := true;
  }

  /** What it does to the nodes before the old item is deleted. */
  method Substitute(memory: CHeap, owner: Ptr, item: Ptr, replacement: Ptr, ghost ps: seq<Ptr>, ghost k: nat)
    requires Chain(memory.heap.nodes, ps) && k < |ps| && item == ps[k]
    requires replacement in memory.heap.nodes && replacement !in ps && replacement != NULL && replacement != owner
    requires owner in memory.heap.nodes && owner !in ps && memory.heap.nodes[owner].child == ps[0]
    modifies memory
    ensures memory.heap.blocks == old(memory.heap).blocks
    ensures var n := Replaced(old(memory.heap).nodes, ps, k, replacement);
            owner in n && item in n && memory.heap.nodes ==
              WithPrev(WithNext(WithChild(n, owner, if k == 0 then replacement else ps[0]), item, NULL), item, NULL)
  {
    hide Chain;
    ghost var h := memory.heap;
    ChainAt(h.nodes, ps, k);
    ChainAt(h.nodes, ps, 0);
    ChainDistinct(h.nodes, ps, 0, k);
    ChainDistinct(h.nodes, ps, 0, |ps| - 1);
    if k > 0 { ChainAt(h.nodes, ps, k - 1); ChainDistinct(h.nodes, ps, k - 1, k); }
    if k + 1 < |ps| { ChainAt(h.nodes, ps, k + 1); ChainDistinct(h.nodes, ps, k + 1, k); }
    var node := memory.heap.nodes[item];
    memory.SetNode(replacement, memory.heap.nodes[replacement].(next := node.next));
    memory.SetNode(replacement, memory.heap.nodes[replacement].(prev := node.prev));
    if node.next != NULL {
      memory.SetNode(node.next, memory.heap.nodes[node.next].(prev := replacement));
    }
    LinkReplacement(memory, owner, item, replacement, ps, k);
    memory.SetNode(item, memory.heap.nodes[item].(next := NULL));
    memory.SetNode(item, memory.heap.nodes[item].(prev := NULL));
  }

  /** The replacement stands between the neighbours already; now the head, the node before it or the parent. */
  method LinkReplacement(memory: CHeap, owner: Ptr, item: Ptr, replacement: Ptr, ghost ps: seq<Ptr>, ghost k: nat)
    requires k < |ps| && item == ps[k] && item in memory.heap.nodes
    requires (memory.heap.nodes[item].prev == item <==> |ps| == 1)
    requires replacement in memory.heap.nodes && replacement !in ps && replacement != owner
    requires memory.heap.nodes[replacement].next == After(ps, k) && memory.heap.nodes[replacement].prev == Before(ps, k)
    requires owner in memory.heap.nodes && owner !in ps && memory.heap.nodes[owner].child == ps[0]
    requires (k == 0 <==> item == ps[0]) && ps[0] in memory.heap.nodes && (k + 1 < |ps| ==> ps[k + 1] != NULL)
    requires k > 0 ==> ps[k - 1] in memory.heap.nodes && ps[k - 1] != NULL
    modifies memory
    ensures memory.heap.blocks == old(memory.heap).blocks
    ensures var n2 := old(memory.heap).nodes;
            var n3 := if k > 0 then WithNext(n2, ps[k - 1], replacement)
                      else if |ps| == 1 then WithPrev(n2, replacement, replacement) else n2;
            var n4 := if k > 0 && k + 1 == |ps| then WithPrev(n3, ps[0], replacement) else n3;
            memory.heap.nodes == WithChild(n4, owner, if k == 0 then replacement else ps[0])
  {
    if memory.heap.nodes[owner].child == item {
      if memory.heap.nodes[item].prev == item {
        memory.SetNode(replacement, memory.heap.nodes[replacement].(prev := replacement));
      }
      memory.SetNode(owner, memory.heap.nodes[owner].(child := replacement));
    } else {
      var before := memory.heap.nodes[replacement].prev;
      if before != NULL {
        memory.SetNode(before, memory.heap.nodes[before].(next := replacement));
      }
      if memory.heap.nodes[replacement].next == NULL {
        var head := memory.heap.nodes[owner].child;
        memory.SetNode(head, memory.heap.nodes[head].(prev := replacement));
      }
    }
  }

  lemma {:induction false} ReplacedChild(h: Heap, h1: Heap, parent: Tree, k: nat, t: Tree)
    requires Family(h, parent) && k < |parent.kids| && Loose(h, parent, t) && t.ptr in h.nodes
    requires Chain(h.nodes, Roots(parent.kids)) && h1.blocks == h.blocks
    requires var n := Replaced(h.nodes, Roots(parent.kids), k, t.ptr);
             var p := parent.kids[k].ptr;
             parent.ptr in n && p in n && h1.nodes ==
               WithPrev(WithNext(WithChild(n, parent.ptr, if k == 0 then t.ptr else parent.kids[0].ptr), p, NULL), p, NULL)
    ensures Family(h1, parent.(kids := Spliced(parent.kids, k, 1, [t])))
    ensures Relinked(h, h1, parent.ptr, Roots(parent.kids + [t])) && KeepsValues(h, h1, parent.kids + [t])
    ensures OwnsList(h1, [parent.kids[k]]) && ApartAll([parent.kids[k]]) && ApartAll(parent.kids + [t])
    ensures forall i :: 0 <= i < |parent.kids + [t]| ==> Owns(h1, (parent.kids + [t])[i])
  {
    hide Relinked, KeepsValues, Chain, Replaced, PrevLinked, NodesOf, NodesOfAll, BlocksOf, BlocksOfAll, Owns, Apart;
    hide WithNext, WithPrev, WithChild, Spliced, OwnsList, ApartAll;
    var ps, all := Roots(parent.kids), parent.kids + [t];
    var kids := Spliced(parent.kids, k, 1, [t]);
    FamilyParts(h, parent);
    FamilyChain(h, parent);
    LooseChild(h, parent, t);
    ReplacedLinks(h, h1, parent.ptr, ps, k, t.ptr);
    RootsSpliced(parent.kids, k, 1, [t]);
    assert Roots([t]) == [t.ptr];
    ApartParts(parent.(kids := all));
    TwoApart(all, k, k);
    SplicedAmong(parent.kids, k, 1, [t]);
    FamilyRelinked(h, h1, parent, all, kids);
    assert all[k] == parent.kids[k];
    AloneInList(h1, all, k);
  }

  /** A tree without a next one is a list by itself. */
  lemma {:induction false} AloneInList(h: Heap, ts: seq<Tree>, k: nat)
    requires k < |ts| && Owns(h, ts[k]) && ApartAll(ts) && ts[k].ptr in h.nodes && h.nodes[ts[k].ptr].next == NULL
    ensures OwnsList(h, [ts[k]]) && ApartAll([ts[k]])
  {
    hide Owns, Apart, NodesOf, BlocksOf;
    TwoApart(ts, k, k);
  }

  lemma {:induction false} SplicedAmong<T>(s: seq<T>, k: nat, n: nat, xs: seq<T>)
    requires k + n <= |s|
    ensures |Spliced(s, k, n, xs)| == |s| - n + |xs|
    ensures forall i :: 0 <= i < |Spliced(s, k, n, xs)| ==> Spliced(s, k, n, xs)[i] in s + xs
    ensures |s| > 0 && n <= |xs| ==> Spliced(s, k, n, xs)[0] == (if k > 0 || xs == [] then s[0] else xs[0])
  {
  }

  lemma {:induction false} ReplacedLinks(h: Heap, h1: Heap, owner: Ptr, ps: seq<Ptr>, k: nat, item: Ptr)
    requires Chain(h.nodes, ps) && k < |ps| && item !in ps && item != NULL && item in h.nodes && item != owner
    requires owner in h.nodes && owner !in ps && h1.blocks == h.blocks
    requires var n := Replaced(h.nodes, ps, k, item);
             owner in n && ps[k] in n && h1.nodes ==
               WithPrev(WithNext(WithChild(n, owner, if k == 0 then item else ps[0]), ps[k], NULL), ps[k], NULL)
    ensures Relinked(h, h1, owner, ps + [item]) && Chain(h1.nodes, Spliced(ps, k, 1, [item]))
    ensures h1.nodes[owner].child == (if k == 0 then item else ps[0]) && ps[k] in h1.nodes
    ensures h1.nodes[ps[k]].next == NULL
  {
    hide Relinked, Chain, LinksOnly, Replaced, Spliced;
    var all, p, qs := ps + [item], ps[k], Spliced(ps, k, 1, [item]);
    var n := Replaced(h.nodes, ps, k, item);
    ChainReplace(h.nodes, ps, k, item);
    LinksOfReplaced(h.nodes, ps, k, item);
    InList(h.nodes, ps, item, k);
    assert p in ps;
    LinksCut(h.nodes, n, all, p);
    var cut := WithNext(WithPrev(n, p, NULL), p, NULL);
    assert cut == n[p := cut[p]];
    CutLater(n, owner, if k == 0 then item else ps[0], p);
    RelinkedBy(h, cut, owner, if k == 0 then item else ps[0], all);
    ChainWithoutOld(h.nodes, ps, k, item);
    SplicedAmong(ps, k, 1, [item]);
    assert owner !in qs;
    ChainElsewhere(n, qs, p, cut[p]);
    ChainElsewhere(cut, qs, owner, h1.nodes[owner]);
  }

  lemma {:induction false} RootsSpliced(ts: seq<Tree>, k: nat, n: nat, xs: seq<Tree>)
    requires k + n <= |ts|
    ensures Roots(Spliced(ts, k, n, xs)) == Spliced(Roots(ts), k, n, Roots(xs))
  {
    var all := Spliced(ts, k, n, xs);
    forall i | 0 <= i < |all| ensures Roots(all)[i] == Spliced(Roots(ts), k, n, Roots(xs))[i] {
      SplicedAt(ts, k, n, xs, i);
      SplicedAt(Roots(ts), k, n, Roots(xs), i);
    }
  }

  lemma {:induction false} CutLater(n: map<Ptr, Node>, owner: Ptr, q: Ptr, p: Ptr)
    requires p in n && owner in n && p != owner
    ensures WithPrev(WithNext(WithChild(n, owner, q), p, NULL), p, NULL) ==
            WithChild(WithNext(WithPrev(n, p, NULL), p, NULL), owner, q)
  {
  }

  lemma {:induction false} ApartParts(t: Tree)
    requires Apart(t)
    ensures ApartAll(t.kids) && t.ptr !in NodesOfAll(t.kids)
  {
  }

  lemma {:induction false} ChainWithoutOld(nodes: map<Ptr, Node>, ps: seq<Ptr>, k: nat, item: Ptr)
    requires Chain(nodes, ps) && k < |ps| && item !in ps
    ensures ps[k] !in Spliced(ps, k, 1, [item])
  {
    assert ps[k] in ps;
  }

  /** A family keeps everything when a tree apart from it is freed. */
  lemma {:induction false} FamilyAfterDelete(h1: Heap, h2: Heap, t: Tree, gone: Tree)
    requires Family(h1, t) && h2 == Without(h1, NodesOf(gone), BlocksOf(gone))
    requires NodesOf(gone) !! NodesOf(t) && BlocksOf(gone) !! BlocksOf(t)
    ensures Family(h2, t) && KeepsValues(h1, h2, t.kids)
  {
    hide NodesOf, BlocksOf, NodesOfAll, BlocksOfAll, Owns, OwnsList, Apart, Denotes;
    FamilyParts(h1, t);
    RootAndKids(t);
    OwnsIsPresent(h1, t);
    FrameHere(h1, h2, t);
    BlocksBelow(t);
    forall i | 0 <= i < |t.kids|
      ensures t.kids[i].ptr in h2.nodes && h2.nodes[t.kids[i].ptr] == h1.nodes[t.kids[i].ptr]
      ensures forall v :: Denotes(h1, t.kids[i], v) ==> Denotes(h2, t.kids[i], v)
      ensures forall s :: HoldsString(h1, t.kids[i].name, s) ==> HoldsString(h2, t.kids[i].name, s)
    {
      KidOf(h1, t.kids, i);
      NodesOfKid(t.kids, i);
      RootAndKids(t.kids[i]);
      FrameHere(h1, h2, t.kids[i]);
      forall s | HoldsString(h1, t.kids[i].name, s) ensures HoldsString(h2, t.kids[i].name, s) {
        NameBelow(t.kids[i]);
      }
    }
  }

  lemma {:induction false} NameBelow(t: Tree)
    ensures Own(t.name) <= BlocksOf(t)
  {
  }

  lemma {:induction false} KidOf(h: Heap, ts: seq<Tree>, i: nat)
    requires OwnsList(h, ts) && i < |ts|
    ensures Owns(h, ts[i]) && ts[i].ptr in h.nodes
  {
  }

  lemma {:induction false} BlocksBelow(t: Tree)
    ensures BlocksOfAll(t.kids) <= BlocksOf(t)
  {
  }

  lemma {:induction false} ReplacedAndDeleted(h: Heap, h1: Heap, parent: Tree, k: nat, t: Tree)
    requires k < |parent.kids| && h1.blocks == h.blocks
    requires Family(h1, parent.(kids := Spliced(parent.kids, k, 1, [t]))) && Apart(parent)
    requires Relinked(h, h1, parent.ptr, Roots(parent.kids + [t])) && KeepsValues(h, h1, parent.kids + [t])
    requires ApartAll(parent.kids + [t])
    ensures var h2 := Without(h1, NodesOfAll([parent.kids[k]]), BlocksOfAll([parent.kids[k]]));
            && Family(h2, parent.(kids := Spliced(parent.kids, k, 1, [t])))
            && KeepsValues(h, h2, Spliced(parent.kids, k, 1, [t]))
            && parent.ptr in h2.nodes && h2.nodes[parent.ptr].kind == h.nodes[parent.ptr].kind
            && h2.nodes.Keys == h.nodes.Keys - NodesOf(parent.kids[k])
            && h2.blocks == h.blocks - BlocksOf(parent.kids[k])
            && (forall p :: p in h2.nodes && p !in NodesOf(parent) + NodesOf(t) ==> h2.nodes[p] == h.nodes[p])
  {
    hide NodesOf, BlocksOf, NodesOfAll, BlocksOfAll, Apart, ApartAll, Family, Denotes;
    var all, gone, kids := parent.kids + [t], parent.kids[k], Spliced(parent.kids, k, 1, [t]);
    var h2 := Without(h1, NodesOfAll([gone]), BlocksOfAll([gone]));
    AddressesOfOne(gone);
    forall i | 0 <= i < |kids| ensures NodesOf(kids[i]) !! NodesOf(gone) && BlocksOf(kids[i]) !! BlocksOf(gone) {
      if i < k { TwoApart(all, i, k); } else { TwoApart(all, k, if i == k then |parent.kids| else i); }
    }
    ApartFromAll(kids, gone);
    NodesOfKid(parent.kids, k);
    ApartFromRoot(parent, kids, gone);
    FamilyAfterDelete(h1, h2, parent.(kids := kids), gone);
    KeepsSome(h, h1, all, kids);
    KeepsTwice(h, h1, h2, kids);
    forall p | p in Roots(all) ensures p in NodesOf(parent) + NodesOf(t) {
      RootsBelow(parent, t);
    }
    RootAndKids(parent);
    RootAndKids(parent.(kids := kids));
  }

  lemma {:induction false} KeepsSome(h0: Heap, h1: Heap, all: seq<Tree>, ts: seq<Tree>)
    requires KeepsValues(h0, h1, all) && forall i :: 0 <= i < |ts| ==> ts[i] in all
    ensures KeepsValues(h0, h1, ts)
  {
    hide Denotes, HoldsString;
    forall i | 0 <= i < |ts|
      ensures forall v :: Denotes(h0, ts[i], v) ==> Denotes(h1, ts[i], v)
      ensures forall s :: HoldsString(h0, ts[i].name, s) ==> HoldsString(h1, ts[i].name, s)
    {
      var m :| 0 <= m < |all| && all[m] == ts[i];
    }
  }

  lemma {:induction false} KeepsTwice(h0: Heap, h1: Heap, h2: Heap, ts: seq<Tree>)
    requires KeepsValues(h0, h1, ts) && KeepsValues(h1, h2, ts)
    ensures KeepsValues(h0, h2, ts)
  {
    hide Denotes, HoldsString;
  }

  lemma {:induction false} RootsBelow(parent: Tree, t: Tree)
    ensures forall p :: p in Roots(parent.kids + [t]) ==> p in NodesOf(parent) + NodesOf(t)
  {
    hide NodesOf, NodesOfAll;
    RootAndKids(parent);
    RootAndKids(t);
    var all := parent.kids + [t];
    forall i | 0 <= i < |all| ensures all[i].ptr in NodesOf(parent) + NodesOf(t) {
      if i < |parent.kids| { NodesOfKid(parent.kids, i); }
    }
  }

  // ---- what the operations mean for the value ----

  /** An array whose list was spliced denotes the spliced sequence of values. */
  lemma {:induction false} SplicedArray(h0: Heap, h1: Heap, parent: Tree, k: nat, n: nat, xs: seq<Tree>,
                                        items: seq<Json>, vs: seq<Json>)
    requires Denotes(h0, parent, Arr(items)) && DenoteItems(h0, xs, vs) && k + n <= |items|
    requires |parent.kids| == |items| && Family(h1, parent.(kids := Spliced(parent.kids, k, n, xs)))
    requires KeepsValues(h0, h1, Spliced(parent.kids, k, n, xs))
    requires parent.ptr in h0.nodes && parent.ptr in h1.nodes && h1.nodes[parent.ptr].kind == h0.nodes[parent.ptr].kind
    ensures Denotes(h1, parent.(kids := Spliced(parent.kids, k, n, xs)), Arr(Spliced(items, k, n, vs)))
  {
    var kids, values := Spliced(parent.kids, k, n, xs), Spliced(items, k, n, vs);
    ItemsOfArray(h0, parent, items);
    SplicedItems(h0, h1, parent.kids, k, n, xs, items, vs);
    assert DenoteItems(h1, kids, values);
  }

  lemma {:induction false} ItemsOfArray(h: Heap, t: Tree, items: seq<Json>)
    requires Denotes(h, t, Arr(items))
    ensures DenoteItems(h, t.kids, items)
  {
  }

  lemma {:induction false} SplicedItems(h0: Heap, h1: Heap, ts: seq<Tree>, k: nat, n: nat, xs: seq<Tree>,
                       items: seq<Json>, vs: seq<Json>)
    requires DenoteItems(h0, ts, items) && DenoteItems(h0, xs, vs) && k + n <= |items|
    requires KeepsValues(h0, h1, Spliced(ts, k, n, xs))
    ensures DenoteItems(h1, Spliced(ts, k, n, xs), Spliced(items, k, n, vs))
  {
    hide Denotes;
    var kids, values := Spliced(ts, k, n, xs), Spliced(items, k, n, vs);
    forall i | 0 <= i < |kids| ensures Denotes(h1, kids[i], values[i]) {
      SplicedAt(ts, k, n, xs, i);
      SplicedAt(items, k, n, vs, i);
      assert Denotes(h0, kids[i], values[i]);
    }
  }

  /** An object likewise: the names travel with their nodes. */
  lemma {:induction false} SplicedObject(h0: Heap, h1: Heap, parent: Tree, k: nat, n: nat, xs: seq<Tree>,
                                         ms: seq<Member>, ns: seq<Member>)
    requires Denotes(h0, parent, Obj(ms)) && DenoteMembers(h0, xs, ns) && k + n <= |ms|
    requires |parent.kids| == |ms| && Family(h1, parent.(kids := Spliced(parent.kids, k, n, xs)))
    requires KeepsValues(h0, h1, Spliced(parent.kids, k, n, xs))
    requires parent.ptr in h0.nodes && parent.ptr in h1.nodes && h1.nodes[parent.ptr].kind == h0.nodes[parent.ptr].kind
    ensures Denotes(h1, parent.(kids := Spliced(parent.kids, k, n, xs)), Obj(Spliced(ms, k, n, ns)))
  {
    var kids, members := Spliced(parent.kids, k, n, xs), Spliced(ms, k, n, ns);
    MembersOfObject(h0, parent, ms);
    SplicedMembers(h0, h1, parent.kids, k, n, xs, ms, ns);
    assert DenoteMembers(h1, kids, members);
  }

  lemma {:induction false} MembersOfObject(h: Heap, t: Tree, ms: seq<Member>)
    requires Denotes(h, t, Obj(ms))
    ensures DenoteMembers(h, t.kids, ms)
  {
  }

  lemma {:induction false} SplicedMembers(h0: Heap, h1: Heap, ts: seq<Tree>, k: nat, n: nat, xs: seq<Tree>,
                       ms: seq<Member>,
                       ns: seq<Member>)
    requires DenoteMembers(h0, ts, ms) && DenoteMembers(h0, xs, ns) && k + n <= |ms|
    requires KeepsValues(h0, h1, Spliced(ts, k, n, xs))
    ensures DenoteMembers(h1, Spliced(ts, k, n, xs), Spliced(ms, k, n, ns))
  {
    hide Denotes, HoldsString;
    var kids, members := Spliced(ts, k, n, xs), Spliced(ms, k, n, ns);
    forall i | 0 <= i < |kids|
      ensures Denotes(h1, kids[i], members[i].value) && HoldsString(h1, kids[i].name, members[i].key)
    {
      SplicedAt(ts, k, n, xs, i);
      SplicedAt(ms, k, n, ns, i);
      assert Denotes(h0, kids[i], members[i].value) && HoldsString(h0, kids[i].name, members[i].key);
    }
  }
}
