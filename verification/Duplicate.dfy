/** cJSON_Duplicate: a copy of a tree, or nothing at all. */
module Duplicate {
  import opened Bytes
  import opened JsonTree
  import opened Memory
  import opened Reading
  import opened Builder
  import opened ChildList

  // ---- a copy under construction ----

  /** `h` is `h0` and one new tree that stands alone. */
  predicate Copied(h0: Heap, h: Heap, t: Tree) {
    && Grown(h0, h, NodesOf(t), BlocksOf(t)) && Owns(h, t) && Apart(t)
    && h.nodes[t.ptr].next == NULL && !h.nodes[t.ptr].isReference
  }

  /** The value of a node without its children. */
  function Shell(j: Json): Json {
    match j
    case Arr(_) => Arr([])
    case Obj(_) => Obj([])
    case _ => j
  }

  /** The name of a member, if the tree owns one, was copied too. */
  ghost predicate SameName(h0: Heap, h: Heap, t: Tree, copy: Tree) {
    (copy.name == NULL <==> t.name == NULL)
    && forall s :: HoldsString(h0, t.name, s) ==> HoldsString(h, copy.name, s)
  }

  /** `h` is `h0` with one new node that has at most its two strings. */
  predicate IsLeaf(h0: Heap, h: Heap, t: Tree) {
    && t.kids == [] && t.ptr != NULL && t.ptr !in h0.nodes && t.ptr in h.nodes
    && h.nodes == h0.nodes[t.ptr := h.nodes[t.ptr]]
    && h.blocks - (Own(t.str) + Own(t.name)) == h0.blocks && Own(t.str) + Own(t.name) <= h.blocks.Keys
    && Own(t.str) + Own(t.name) !! h0.blocks.Keys && (t.str != NULL ==> t.str != t.name)
    && var n := h.nodes[t.ptr];
    && n.child == NULL && n.next == NULL && !n.isReference && n.valuestring == t.str
    && (if n.stringIsConst then t.name == NULL else n.name == t.name)
  }

  lemma {:induction false} LeafCopied(h0: Heap, h: Heap, t: Tree)
    requires IsLeaf(h0, h, t)
    ensures Copied(h0, h, t)
  {
    assert NodesOfAll([]) == {} && BlocksOfAll([]) == {};
    assert NodesOf(t) == {t.ptr} && BlocksOf(t) == Own(t.str) + Own(t.name);
    assert h.nodes - {t.ptr} == h0.nodes;
  }

  lemma {:induction false} BareLeaf(h0: Heap, p: Ptr, n: Node)
    requires p != NULL && p !in h0.nodes && n.name == NULL
    requires n.child == NULL && n.next == NULL && !n.isReference && n.valuestring == NULL
    ensures IsLeaf(h0, h0.(nodes := h0.nodes[p := n]), Leaf(p, NULL))
  {
    assert h0.blocks - (Own(NULL) + Own(NULL)) == h0.blocks;
  }

  lemma {:induction false} LeafGetsString(h0: Heap, h: Heap, t: Tree, str: Ptr, block: seq<Byte>)
    requires IsLeaf(h0, h, t) && t.str == NULL && str != NULL && str !in h.blocks && t.name == NULL
    ensures var h1 := Heap(h.nodes[t.ptr := h.nodes[t.ptr].(valuestring := str)], h.blocks[str := block]);
            IsLeaf(h0, h1, t.(str := str))
  {
    assert Own(t.str) + Own(t.name) == {} && Own(str) + Own(t.name) == {str};
    assert h.blocks == h.blocks - {} == h0.blocks;
    assert h.blocks[str := block] - {str} == h0.blocks;
  }

  lemma {:induction false} LeafGetsName(h0: Heap, h: Heap, t: Tree, name: Ptr, block: seq<Byte>)
    requires IsLeaf(h0, h, t) && t.name == NULL && name != NULL && name !in h.blocks && !h.nodes[t.ptr].stringIsConst
    ensures var h1 := Heap(h.nodes[t.ptr := h.nodes[t.ptr].(name := name)], h.blocks[name := block]);
            IsLeaf(h0, h1, t.(name := name))
  {
    assert Own(t.str) + Own(t.name) == Own(t.str) && Own(t.str) + Own(name) == Own(t.str) + {name};
    assert h.blocks[name := block] - (Own(t.str) + {name}) == h.blocks - Own(t.str);
  }

  /** Nothing that was in the heap before has changed. */
  lemma {:induction false} OldStays(h0: Heap, h: Heap, ptrs: set<Ptr>, strs: set<Ptr>)
    requires Grown(h0, h, ptrs, strs)
    ensures forall p :: p in h0.nodes ==> p in h.nodes && h.nodes[p] == h0.nodes[p] && p !in ptrs
    ensures forall p :: p in h0.blocks ==> p in h.blocks && h.blocks[p] == h0.blocks[p] && p !in strs
  {
    assert forall p :: p in h0.nodes ==> p in h.nodes - ptrs && (h.nodes - ptrs)[p] == h0.nodes[p];
    assert forall p :: p in h0.blocks ==> p in h.blocks - strs && (h.blocks - strs)[p] == h0.blocks[p];
  }

  lemma {:induction false} GrownTwice(h0: Heap, h1: Heap, h2: Heap, p1: set<Ptr>, s1: set<Ptr>, p2: set<Ptr>,
                       s2: set<Ptr>)
    requires Grown(h0, h1, p1, s1) && Grown(h1, h2, p2, s2)
    ensures Grown(h0, h2, p1 + p2, s1 + s2)
  {
    OldStays(h1, h2, p2, s2);
    WithoutTwice(h2, p2, s2, p1, s1);
    assert p2 + p1 == p1 + p2 && s2 + s1 == s1 + s2;
  }

  /** What is in the new part may still change in place. */
  lemma {:induction false} GrownInPlace(h0: Heap, h1: Heap, h2: Heap, ptrs: set<Ptr>, strs: set<Ptr>)
    requires Grown(h0, h1, ptrs, strs) && h2.blocks == h1.blocks && h2.nodes.Keys == h1.nodes.Keys
    requires forall p :: p in h1.nodes && p !in ptrs ==> h2.nodes[p] == h1.nodes[p]
    ensures Grown(h0, h2, ptrs, strs)
  {
    assert h2.nodes - ptrs == h1.nodes - ptrs;
  }

  /** A tree keeps everything when the heap only grows. */
  lemma {:induction false} TreeStays(h0: Heap, h: Heap, ptrs: set<Ptr>, strs: set<Ptr>, t: Tree)
    requires Grown(h0, h, ptrs, strs) && Owns(h0, t)
    ensures Owns(h, t) && (forall v :: Denotes(h0, t, v) ==> Denotes(h, t, v))
    ensures t.ptr in h0.nodes && t.ptr in h.nodes && h.nodes[t.ptr] == h0.nodes[t.ptr]
    ensures NodesOf(t) !! ptrs && BlocksOf(t) !! strs
  {
    hide Owns, Denotes, Grown, NodesOf, BlocksOf, BlocksOfAll;
    OldStays(h0, h, ptrs, strs);
    OwnedIsPresent(h0, t);
    OwnsIsPresent(h0, t);
    FrameHere(h0, h, t);
  }

  lemma {:induction false} StringStays(h0: Heap, h: Heap, ptrs: set<Ptr>, strs: set<Ptr>)
    requires Grown(h0, h, ptrs, strs)
    ensures forall p, s :: HoldsString(h0, p, s) ==> HoldsString(h, p, s)
  {
    OldStays(h0, h, ptrs, strs);
  }

  // ---- linking the copy of a child ----

  /** The new child behind the last one, or as the first one. */
  function Linked(h: Heap, root: Tree, p: Ptr): Heap
    requires root.ptr in h.nodes && p in h.nodes && (root.kids != [] ==> Last(root.kids) in h.nodes)
  {
    if root.kids == [] then h.(nodes := WithChild(h.nodes, root.ptr, p))
    else h.(nodes := WithPrev(WithNext(h.nodes, Last(root.kids), p), p, Last(root.kids)))
  }

  /** The facts about a tree whose list is not closed yet. */
  predicate Open(h: Heap, t: Tree) {
    Owns(h, t) && Apart(t) && !h.nodes[t.ptr].isReference && h.nodes[t.ptr].next == NULL && ChainedBack(h, t.kids)
  }

  lemma {:induction false} OpenParts(h: Heap, t: Tree)
    requires Open(h, t)
    ensures OwnsList(h, t.kids) && OwnsRoot(h, t) && ApartAll(t.kids) && t.ptr !in NodesOfAll(t.kids)
  {
  }

  lemma {:induction false} ApartWith(root: Tree, c: Tree)
    requires Apart(root) && Apart(c) && NodesOf(c) !! NodesOf(root) && BlocksOf(c) !! BlocksOf(root)
    ensures Apart(root.(kids := root.kids + [c])) && c.ptr != root.ptr
    ensures NodesOf(root.(kids := root.kids + [c])) == NodesOf(root) + NodesOf(c)
    ensures BlocksOf(root.(kids := root.kids + [c])) == BlocksOf(root) + BlocksOf(c)
  {
    hide ApartAll, NodesOfAll, BlocksOfAll;
    RootAndKids(root);
    RootAndKids(c);
    BlocksBelow(root);
    ApartSnoc(root.kids, c);
    AddressesOfSnoc(root.kids, c);
  }

  lemma {:induction false} LinkedIsRelinked(h: Heap, root: Tree, c: Tree)
    requires Open(h, root) && Owns(h, c) && c.ptr != root.ptr && Apart(root.(kids := root.kids + [c]))
    ensures c.ptr in h.nodes && root.ptr in h.nodes && (root.kids != [] ==> Last(root.kids) in h.nodes)
    ensures Relinked(h, Linked(h, root, c.ptr), root.ptr, Roots(root.kids + [c]))
    ensures forall p :: p in h.nodes && p !in NodesOf(root) + NodesOf(c) ==> Linked(h, root, c.ptr).nodes[p] == h.nodes[p]
  {
    hide Owns, Apart, ApartAll, NodesOf, NodesOfAll, BlocksOf, BlocksOfAll, LinksOnly, Relinked;
    var all := root.kids + [c];
    OpenParts(h, root);
    ApartParts(root.(kids := all));
    OwnsIsPresent(h, c);
    KidsPresent(h, root.kids);
    RootNotInList(root.ptr, all);
    RootsBelow(root, c);
    RootAndKids(root);
    RootAndKids(c);
    NothingSet(h.nodes, Roots(all));
    if root.kids == [] {
      RelinkedBy(h, h.nodes, root.ptr, c.ptr, Roots(all));
    } else {
      var last := Last(root.kids);
      assert Roots(all)[|root.kids| - 1] == last && Roots(all)[|root.kids|] == c.ptr;
      NextSet(h.nodes, h.nodes, Roots(all), last, c.ptr);
      PrevSet(h.nodes, WithNext(h.nodes, last, c.ptr), Roots(all), c.ptr, last);
      UnchangedChild(h, Linked(h, root, c.ptr), root.ptr, Roots(all));
    }
  }

  lemma {:induction false} RootNotInList(p: Ptr, ts: seq<Tree>)
    requires p !in NodesOfAll(ts)
    ensures p !in Roots(ts)
  {
    hide NodesOf, NodesOfAll;
    forall i | 0 <= i < |ts| ensures Roots(ts)[i] != p {
      NodesOfKid(ts, i);
    }
  }

  /** The links of the list after one more child was linked. */
  lemma {:induction false} LinkedList(h: Heap, root: Tree, c: Tree, i: nat)
    requires Open(h, root) && Owns(h, c) && h.nodes[c.ptr].next == NULL && ApartAll(root.kids + [c])
    requires c.ptr != root.ptr && root.ptr !in NodesOfAll(root.kids + [c])
    requires c.ptr in h.nodes && root.ptr in h.nodes && (root.kids != [] ==> Last(root.kids) in h.nodes)
    requires i <= |root.kids|
    ensures var all, h2 := root.kids + [c], Linked(h, root, c.ptr);
            && all[i].ptr in h2.nodes && h2.nodes[all[i].ptr].next == NextOf(all, i)
            && (i > 0 ==> h2.nodes[all[i].ptr].prev == all[i - 1].ptr)
  {
    hide Open, Owns, Apart, ApartAll, NodesOf, NodesOfAll, BlocksOf, BlocksOfAll;
    var all, last := root.kids + [c], |root.kids| - 1;
    NodesOfKid(all, i);
    assert all[|root.kids|] == c;
    RootIsOutside(all, i, |root.kids|);
    if root.kids != [] {
      assert all[last] == root.kids[last] && Last(root.kids) == all[last].ptr;
      RootIsOutside(all, i, last);
      RootIsOutside(all, last, |root.kids|);
    }
    if i < |root.kids| { OpenAt(h, root, i); }
  }

  lemma {:induction false} OpenAt(h: Heap, t: Tree, i: nat)
    requires Open(h, t) && i < |t.kids|
    ensures t.kids[i].ptr in h.nodes && h.nodes[t.kids[i].ptr].next == NextOf(t.kids, i)
    ensures i > 0 ==> h.nodes[t.kids[i].ptr].prev == t.kids[i - 1].ptr
  {
    hide Owns, Apart;
    OpenParts(h, t);
    OwnsIsPresent(h, t.kids[i]);
  }

  /** Linking a copied child to a copy under construction. */
  lemma {:induction false} LinkCopy(h0: Heap, h: Heap, h1: Heap, root: Tree, c: Tree)
    requires Grown(h0, h, NodesOf(root), BlocksOf(root)) && Open(h, root) && Copied(h, h1, c)
    ensures root.ptr in h1.nodes && c.ptr in h1.nodes && (root.kids != [] ==> Last(root.kids) in h1.nodes)
    ensures var all, h2 := root.kids + [c], Linked(h1, root, c.ptr);
            && Grown(h0, h2, NodesOf(root.(kids := all)), BlocksOf(root.(kids := all)))
            && Open(h2, root.(kids := all))
            && KeepsValues(h1, h2, all) && KeepsValues(h, h1, root.kids)
            && root.ptr in h2.nodes && h2.nodes[root.ptr] == h.nodes[root.ptr].(child := First(all))
  {
    hide Owns, Apart, NodesOf, NodesOfAll, BlocksOf, BlocksOfAll;
    hide Denotes, Linked, Relinked, KeepsValues, HoldsString, Grown;
    var all := root.kids + [c];
    OpenStays(h, h1, root, c);
    ApartWith(root, c);
    ApartParts(root.(kids := all));
    LinkedIsRelinked(h1, root, c);
    var h2 := Linked(h1, root, c.ptr);
    GrownTwice(h0, h, h1, NodesOf(root), BlocksOf(root), NodesOf(c), BlocksOf(c));
    RelinkedKeys(h1, h2, root.ptr, Roots(all));
    GrownInPlace(h0, h1, h2, NodesOf(root) + NodesOf(c), BlocksOf(root) + BlocksOf(c));
    OpenParts(h1, root);
    forall i | 0 <= i < |all| ensures Owns(h1, all[i]) {
      if i < |root.kids| { KidOf(h1, root.kids, i); }
    }
    AllRelinked(h1, h2, root.ptr, all);
    forall i | 0 <= i < |all|
      ensures all[i].ptr in h2.nodes && h2.nodes[all[i].ptr].next == NextOf(all, i)
      ensures i > 0 ==> h2.nodes[all[i].ptr].prev == all[i - 1].ptr
    {
      LinkedList(h1, root, c, i);
    }
    LinkedRoot(h1, root, c);
    OpenAgain(h1, h2, root, all);
  }

  lemma {:induction false} RelinkedKeys(h: Heap, h1: Heap, parent: Ptr, ps: seq<Ptr>)
    requires Relinked(h, h1, parent, ps)
    ensures h1.blocks == h.blocks && h1.nodes.Keys == h.nodes.Keys
  {
  }

  lemma {:induction false} LinkedRoot(h: Heap, root: Tree, c: Tree)
    requires Open(h, root) && c.ptr in h.nodes && root.ptr in h.nodes && (root.kids != [] ==> Last(root.kids) in h.nodes)
    requires c.ptr != root.ptr && (root.kids != [] ==> Last(root.kids) != root.ptr)
    ensures var h2 := Linked(h, root, c.ptr);
            root.ptr in h2.nodes && h2.nodes[root.ptr] == h.nodes[root.ptr].(child := First(root.kids + [c]))
  {
    hide Owns, Apart;
    OpenParts(h, root);
  }

  lemma {:induction false} OpenAgain(h1: Heap, h2: Heap, root: Tree, all: seq<Tree>)
    requires Open(h1, root) && root.ptr in h2.nodes && h2.nodes[root.ptr] == h1.nodes[root.ptr].(child := First(all))
    requires h2.blocks == h1.blocks && Apart(root.(kids := all))
    requires forall i :: 0 <= i < |all| ==> Owns(h2, all[i]) && all[i].ptr in h2.nodes
    requires forall i :: 0 <= i < |all| ==> h2.nodes[all[i].ptr].next == NextOf(all, i)
    requires forall i :: 0 < i < |all| ==> h2.nodes[all[i].ptr].prev == all[i - 1].ptr
    ensures Open(h2, root.(kids := all))
  {
    hide Apart;
    OpenParts(h1, root);
    assert OwnsRoot(h2, root.(kids := all));
    assert OwnsList(h2, all);
  }

  /** Nothing happens to the copy so far while a child is copied. */
  lemma {:induction false} OpenStays(h: Heap, h1: Heap, root: Tree, c: Tree)
    requires Open(h, root) && Copied(h, h1, c)
    ensures Open(h1, root) && root.ptr in h1.nodes && h1.nodes[root.ptr] == h.nodes[root.ptr]
    ensures NodesOf(c) !! NodesOf(root) && BlocksOf(c) !! BlocksOf(root)
    ensures KeepsValues(h, h1, root.kids) && root.ptr != c.ptr && c.ptr in h1.nodes
    ensures root.kids != [] ==> Last(root.kids) in h1.nodes && Last(root.kids) != root.ptr
  {
    hide Owns, Apart, NodesOf, NodesOfAll, BlocksOf, BlocksOfAll, Denotes, HoldsString, Grown;
    OpenParts(h, root);
    TreeStays(h, h1, NodesOf(c), BlocksOf(c), root);
    StringStays(h, h1, NodesOf(c), BlocksOf(c));
    RootAndKids(root);
    RootAndKids(c);
    OwnsIsPresent(h1, c);
    forall i | 0 <= i < |root.kids|
      ensures root.kids[i].ptr in h.nodes && root.kids[i].ptr != root.ptr
      ensures root.kids[i].ptr in h1.nodes && h1.nodes[root.kids[i].ptr] == h.nodes[root.kids[i].ptr]
      ensures forall v :: Denotes(h, root.kids[i], v) ==> Denotes(h1, root.kids[i], v)
    {
      KidOf(h, root.kids, i);
      TreeStays(h, h1, NodesOf(c), BlocksOf(c), root.kids[i]);
      NodesOfKid(root.kids, i);
    }
  }

  // ---- closing the list ----

  /** `newitem->child->prev = newchild` */
  function Closed(h: Heap, ts: seq<Tree>): Heap
    requires First(ts) != NULL ==> First(ts) in h.nodes
  {
    if First(ts) == NULL then h else h.(nodes := WithPrev(h.nodes, First(ts), Last(ts)))
  }

  lemma {:induction false} CloseCopy(h0: Heap, h: Heap, root: Tree)
    requires Grown(h0, h, NodesOf(root), BlocksOf(root)) && Open(h, root)
    ensures First(root.kids) != NULL ==> First(root.kids) in h.nodes
    ensures var h1 := Closed(h, root.kids);
            && Copied(h0, h1, root) && PrevLinked(h1, root.kids) && KeepsValues(h, h1, root.kids)
            && h1.blocks == h.blocks
            && root.ptr in h1.nodes && root.ptr in h.nodes && h1.nodes[root.ptr] == h.nodes[root.ptr]
  {
    hide Owns, Apart, ApartAll, NodesOf, NodesOfAll, BlocksOf;
    hide BlocksOfAll, Denotes, Relinked, KeepsValues, HoldsString, Grown;
    var ts := root.kids;
    OpenParts(h, root);
    FirstPresent(h, ts);
    RootAndKids(root);
    var h1 := Closed(h, ts);
    ClosedIsRelinked(h, root);
    RelinkedKeys(h, h1, root.ptr, Roots(ts));
    GrownInPlace(h0, h, h1, NodesOf(root), BlocksOf(root));
    forall i | 0 <= i < |ts| ensures Owns(h, ts[i]) {
      KidOf(h, ts, i);
    }
    AllRelinked(h, h1, root.ptr, ts);
    forall i | 0 <= i < |ts|
      ensures ts[i].ptr in h1.nodes && h1.nodes[ts[i].ptr].next == NextOf(ts, i)
      ensures h1.nodes[ts[i].ptr].prev == if i == 0 then Last(ts) else ts[i - 1].ptr
    {
      OwnsIsPresent(h, ts[i]);
      RootIsOutside(ts, i, 0);
    }
    OpenAgain(h, h1, root, ts);
  }

  lemma {:induction false} ClosedIsRelinked(h: Heap, root: Tree)
    requires Open(h, root) && (root.kids != [] ==> First(root.kids) in h.nodes)
    requires First(root.kids) != NULL <==> root.kids != []
    ensures var h1 := Closed(h, root.kids);
            && Relinked(h, h1, root.ptr, Roots(root.kids))
            && root.ptr in h1.nodes && root.ptr in h.nodes && h1.nodes[root.ptr] == h.nodes[root.ptr]
            && forall p :: p in h.nodes && p !in NodesOf(root) ==> h1.nodes[p] == h.nodes[p]
  {
    hide Owns, Apart, ApartAll, NodesOf, NodesOfAll, BlocksOf, BlocksOfAll, LinksOnly, Relinked;
    var ts := root.kids;
    OpenParts(h, root);
    RootNotInList(root.ptr, ts);
    NothingSet(h.nodes, Roots(ts));
    RootAndKids(root);
    if ts != [] {
      assert Roots(ts)[0] == First(ts);
      PrevSet(h.nodes, h.nodes, Roots(ts), First(ts), Last(ts));
      NodesOfKid(ts, 0);
    }
    UnchangedChild(h, Closed(h, ts), root.ptr, Roots(ts));
  }

  // ---- what is copied ----

  /** The first `|ts|` children of `j`, with their names. */
  predicate KidsDenote(h: Heap, ts: seq<Tree>, j: Json) {
    && |ts| <= KidCount(j)
    && (forall k :: 0 <= k < |ts| ==> Denotes(h, ts[k], KidValue(j, k)))
    && (j.Obj? ==> forall k :: 0 <= k < |ts| ==> HoldsString(h, ts[k].name, j.members[k].key))
  }

  lemma {:induction false} AllKidsDenote(h: Heap, t: Tree, j: Json)
    requires Denotes(h, t, j)
    ensures |t.kids| == KidCount(j) && KidsDenote(h, t.kids, j)
  {
  }

  /** A node with the fields of `n` that are not links, strings or flags. */
  predicate SameFields(n: Node, copy: Node) {
    copy.kind == n.kind && copy.valuedouble == n.valuedouble
  }

  ghost predicate SameString(h0: Heap, h: Heap, t: Tree, copy: Tree) {
    (copy.str == NULL <==> t.str == NULL)
    && forall s :: HoldsString(h0, t.str, s) ==> HoldsString(h, copy.str, s)
  }

  /** The node alone fits the value. */
  predicate RootDenotes(h: Heap, t: Tree, j: Json) {
    && t.ptr in h.nodes
    && var n := h.nodes[t.ptr];
    && !n.isReference && ((j.Num? || j.Real?) ==> n.valuedouble == j)
    && n.kind == KindOf(j) && (if j.Str? then HoldsString(h, t.str, j.s) else t.str == NULL)
  }

  lemma {:induction false} RootOf(h: Heap, t: Tree, j: Json)
    requires Denotes(h, t, j)
    ensures RootDenotes(h, t, j)
  {
  }

  lemma {:induction false} RootAndKidsDenote(h: Heap, t: Tree, j: Json)
    requires RootDenotes(h, t, j) && KidsDenote(h, t.kids, j) && |t.kids| == KidCount(j) && PrevLinked(h, t.kids)
    ensures Denotes(h, t, j)
  {
    match j
    case Arr(items) => assert forall k :: 0 <= k < |items| ==> Denotes(h, t.kids[k], KidValue(j, k));
    case Obj(members) => assert forall k :: 0 <= k < |members| ==> Denotes(h, t.kids[k], KidValue(j, k));
    case _ =>
  }

  lemma {:induction false} CopiedRoot(h0: Heap, h: Heap, t: Tree, j: Json, copy: Tree)
    requires RootDenotes(h0, t, j) && copy.ptr in h.nodes && SameFields(h0.nodes[t.ptr], h.nodes[copy.ptr])
    requires !h.nodes[copy.ptr].isReference && SameString(h0, h, t, copy)
    ensures RootDenotes(h, copy, j) && RootDenotes(h, copy, Shell(j))
  {
  }

  // ---- names ----

  lemma {:induction false} LegibleStays(h0: Heap, h: Heap, t: Tree)
    requires Legible(h0, t) && forall p :: p in h0.blocks ==> p in h.blocks && h.blocks[p] == h0.blocks[p]
    ensures Legible(h, t)
    decreases t
  {
    forall i | 0 <= i < |t.kids| ensures Legible(h, t.kids[i]) {
      LegibleStays(h0, h, t.kids[i]);
    }
  }

  /** A copy can be deleted again, and nothing is left of it. */
  lemma {:induction false} CopyCanGo(h0: Heap, h: Heap, t: Tree)
    requires Copied(h0, h, t)
    ensures OwnsList(h, [t]) && ApartAll([t]) && Without(h, NodesOfAll([t]), BlocksOfAll([t])) == h0
  {
    hide Owns, Apart, NodesOf, NodesOfAll, BlocksOf, BlocksOfAll;
    AddressesOfOne(t);
    OwnsIsPresent(h, t);
  }

  // ---- the operation ----

  /** cJSON_strdup */
  method Strdup(memory: CHeap, text: Ptr, ghost s: CString) returns (copy: Ptr)
    requires text != NULL ==> HoldsString(memory.heap, text, s)
    modifies memory
    ensures old(memory.refused) ==> memory.refused
    ensures copy == NULL ==> memory.heap == old(memory.heap) && (text == NULL || memory.refused)
    ensures copy != NULL ==>
              && text != NULL && copy !in old(memory.heap).blocks && copy in memory.heap.blocks
              && memory.heap == old(memory.heap).(blocks := old(memory.heap).blocks[copy := memory.heap.blocks[copy]])
              && HoldsString(memory.heap, copy, s) && memory.refused == old(memory.refused)
  {
    if text == NULL {
      return NULL;
    }
    ghost var h := memory.heap;
    var source := memory.heap.blocks[text];
    var length := |CStr(source)| + 1;
    copy := memory.Allocate(length);
    if copy == NULL {
      return;
    }
    for i := 0 to length
      invariant copy in memory.heap.blocks && |memory.heap.blocks[copy]| == length
      invariant memory.heap == h.(blocks := h.blocks[copy := memory.heap.blocks[copy]])
      invariant memory.heap.blocks[copy][..i] == source[..i] && memory.refused == old(memory.refused)
    {
      memory.Store(copy, i, source[i]);
    }
    assert memory.heap.blocks[copy] == source[..length] == s + [NUL] + [];
    CStrOfTerminated(s, []);
  }

  /** The new node and its string. */
  method DuplicateNode(memory: CHeap, item: Ptr, ghost t: Tree, ghost j: Json) returns (newitem: Ptr, ghost copy: Tree)
    requires item == t.ptr && Owns(memory.heap, t) && RootDenotes(memory.heap, t, j) && IsString(memory.heap, t.name)
    modifies memory
    ensures old(memory.refused) ==> memory.refused
    ensures newitem == NULL ==> memory.heap == old(memory.heap) && memory.refused
    ensures newitem != NULL ==>
              && copy.ptr == newitem && copy.name == NULL && IsLeaf(old(memory.heap), memory.heap, copy)
              && item in old(memory.heap).nodes && newitem in memory.heap.nodes
              && SameFields(old(memory.heap).nodes[item], memory.heap.nodes[newitem])
              && memory.heap.nodes[newitem].stringIsConst == old(memory.heap).nodes[item].stringIsConst
              && memory.heap.nodes[newitem].name == NULL && memory.refused == old(memory.refused)
              && SameString(old(memory.heap), memory.heap, t, copy)
  {
    hide Owns, RootDenotes, Copied, IsLeaf;
    ghost var h := memory.heap;
    StringsOfRoot(h, t, j);
    copy := t;
    newitem := memory.NewItem();
    if newitem == NULL {
      return;
    }
    var node := memory.heap.nodes[item];
    var n := ZERO_NODE.(kind := node.kind, stringIsConst := node.stringIsConst, valuedouble := node.valuedouble);
    memory.SetNode(newitem, n);
    copy := Leaf(newitem, NULL);
    BareLeaf(h, newitem, n);
    assert memory.heap == h.(nodes := h.nodes[newitem := n]);
    if node.valuestring != NULL {
      ghost var h1 := memory.heap;
      var copied := Strdup(memory, node.valuestring, CStr(h.blocks[node.valuestring]));
      memory.SetNode(newitem, memory.heap.nodes[newitem].(valuestring := copied));
      if copied == NULL {
        assert memory.heap == h1;
        LeafCopied(h, h1, copy);
        CopyCanGo(h, h1, copy);
        memory.Delete(newitem, [copy]);
        newitem := NULL;
        return;
      }
      LeafGetsString(h, h1, copy, copied, memory.heap.blocks[copied]);
      copy := copy.(str := copied);
    }
  }

  /** Its name: shared if it is constant, copied otherwise. */
  method DuplicateName(memory: CHeap, item: Ptr, newitem: Ptr, ghost h: Heap, ghost t: Tree, ghost leaf: Tree)
    returns (ok: bool, ghost copy: Tree)
    requires item == t.ptr && newitem == leaf.ptr && IsLeaf(h, memory.heap, leaf) && leaf.name == NULL
    requires item in h.nodes && item in memory.heap.nodes && memory.heap.nodes[item] == h.nodes[item]
    requires memory.heap.nodes[newitem].stringIsConst == h.nodes[item].stringIsConst
    requires memory.heap.nodes[newitem].name == NULL
    requires if h.nodes[item].stringIsConst then t.name == NULL else t.name == h.nodes[item].name
    requires t.name != NULL ==> t.name in h.blocks && HoldsString(h, t.name, CStr(h.blocks[t.name]))
    requires forall p :: p in h.blocks ==> p in memory.heap.blocks && memory.heap.blocks[p] == h.blocks[p]
    modifies memory
    ensures old(memory.refused) ==> memory.refused
    ensures !ok ==> memory.heap == h && memory.refused
    ensures ok ==>
              && copy == leaf.(name := copy.name) && Copied(h, memory.heap, copy) && newitem in memory.heap.nodes
              && memory.heap.nodes[newitem] == old(memory.heap).nodes[newitem].(name := memory.heap.nodes[newitem].name)
              && (h.nodes[item].stringIsConst ==> memory.heap.nodes[newitem].name == h.nodes[item].name)
              && SameName(h, memory.heap, t, copy) && memory.refused == old(memory.refused)
              && forall p :: p in old(memory.heap).blocks ==>
                   p in memory.heap.blocks && memory.heap.blocks[p] == old(memory.heap).blocks[p]
  {
    hide Copied;
    ok, copy := true, leaf;
    var node := memory.heap.nodes[item];
    if node.name != NULL {
      var name := node.name;
      if !node.stringIsConst {
        name := Strdup(memory, node.name, CStr(h.blocks[node.name]));
      }
      memory.SetNode(newitem, memory.heap.nodes[newitem].(name := name));
      if name == NULL {
        assert memory.heap == old(memory.heap);
        LeafCopied(h, memory.heap, leaf);
        CopyCanGo(h, memory.heap, leaf);
        memory.Delete(newitem, [leaf]);
        ok := false;
        return;
      }
      if !node.stringIsConst {
        LeafGetsName(h, old(memory.heap), leaf, name, memory.heap.blocks[name]);
        copy := leaf.(name := name);
      }
    }
    LeafCopied(h, memory.heap, copy);
  }

  /** The strings the node names are there to be copied. */
  lemma {:induction false} StringsOfRoot(h: Heap, t: Tree, j: Json)
    requires Owns(h, t) && RootDenotes(h, t, j) && IsString(h, t.name)
    ensures t.ptr in h.nodes && t.ptr != NULL
    ensures var n := h.nodes[t.ptr];
            && !n.isReference && n.valuestring == t.str && (if n.stringIsConst then t.name == NULL else t.name == n.name)
            && (t.str != NULL ==> HoldsString(h, t.str, CStr(h.blocks[t.str])))
            && (t.name != NULL ==> HoldsString(h, t.name, CStr(h.blocks[t.name])))
  {
  }

  /** A copied leaf is the start of a copy whose list is still open. */
  lemma {:induction false} LeafIsOpen(h0: Heap, h: Heap, t: Tree)
    requires Copied(h0, h, t) && t.kids == []
    ensures Open(h, t) && Grown(h0, h, NodesOf(t), BlocksOf(t)) && t.ptr in h.nodes
  {
  }

  /** The children of the copy after the next one was linked. */
  lemma {:induction false} OneMoreKid(h: Heap, h1: Heap, h2: Heap, ts: seq<Tree>, c: Tree, j: Json)
    requires KidsDenote(h, ts, j) && |ts| < KidCount(j) && Denotes(h1, c, KidValue(j, |ts|))
    requires j.Obj? ==> HoldsString(h1, c.name, j.members[|ts|].key)
    requires KeepsValues(h, h1, ts) && KeepsValues(h1, h2, ts + [c])
    ensures KidsDenote(h2, ts + [c], j)
  {
    hide Denotes, HoldsString, KeepsValues;
    var all := ts + [c];
    forall k | 0 <= k < |all|
      ensures Denotes(h2, all[k], KidValue(j, k)) && (j.Obj? ==> HoldsString(h2, all[k].name, j.members[k].key))
    {
      if k < |ts| { KeptAt(h, h1, ts, k); }
      KeptAt(h1, h2, all, k);
    }
  }

  lemma {:induction false} KeptAt(h: Heap, h1: Heap, ts: seq<Tree>, k: nat)
    requires KeepsValues(h, h1, ts) && k < |ts|
    ensures forall v :: Denotes(h, ts[k], v) ==> Denotes(h1, ts[k], v)
    ensures forall s :: HoldsString(h, ts[k].name, s) ==> HoldsString(h1, ts[k].name, s)
  {
    hide Denotes, HoldsString;
  }

  lemma {:induction false} KidsStay(h: Heap, h1: Heap, ts: seq<Tree>, j: Json)
    requires KidsDenote(h, ts, j) && KeepsValues(h, h1, ts)
    ensures KidsDenote(h1, ts, j)
  {
    hide Denotes, HoldsString, KeepsValues;
    forall k | 0 <= k < |ts|
      ensures Denotes(h1, ts[k], KidValue(j, k)) && (j.Obj? ==> HoldsString(h1, ts[k].name, j.members[k].key))
    {
      KeptAt(h, h1, ts, k);
    }
  }

  /** Child `i` of the source, while the heap has only grown since. */
  lemma {:induction false} SourceKid(h0: Heap, h: Heap, ptrs: set<Ptr>, strs: set<Ptr>, t: Tree, j: Json, i: nat)
    requires Grown(h0, h, ptrs, strs) && Owns(h0, t) && Denotes(h0, t, j) && Legible(h0, t) && i < |t.kids|
    ensures |t.kids| == KidCount(j) && Owns(h, t.kids[i]) && Denotes(h, t.kids[i], KidValue(j, i))
    ensures Legible(h, t.kids[i])
    ensures j.Obj? ==> HoldsString(h, t.kids[i].name, j.members[i].key)
    ensures t.kids[i].ptr != NULL && t.kids[i].ptr in h.nodes && h.nodes[t.kids[i].ptr].next == NextOf(t.kids, i)
  {
    hide Denotes, Grown, HoldsString;
    OldStays(h0, h, ptrs, strs);
    StringStays(h0, h, ptrs, strs);
    AllKidsDenote(h0, t, j);
    OwnsKids(h0, t);
    KidOf(h0, t.kids, i);
    TreeStays(h0, h, ptrs, strs, t.kids[i]);
    OwnsIsPresent(h, t.kids[i]);
    LegibleStays(h0, h, t.kids[i]);
  }

  lemma {:induction false} OwnsKids(h: Heap, t: Tree)
    requires Owns(h, t)
    ensures OwnsList(h, t.kids) && t.ptr in h.nodes
    ensures !h.nodes[t.ptr].isReference ==> h.nodes[t.ptr].child == First(t.kids)
  {
  }

  lemma {:induction false} LegibleName(h: Heap, t: Tree)
    requires Legible(h, t)
    ensures IsString(h, t.name)
  {
  }

  lemma {:induction false} LeafStays(h: Heap, h1: Heap, leaf: Tree)
    requires IsLeaf(h, h1, leaf)
    ensures BlocksKept(h, h1) && leaf.ptr !in h.nodes && leaf.ptr in h1.nodes && leaf.kids == []
    ensures h1.nodes[leaf.ptr].child == NULL
    ensures forall p :: p in h.nodes ==> p in h1.nodes && h1.nodes[p] == h.nodes[p]
  {
    assert forall p :: p in h.blocks ==> p in h1.blocks - (Own(leaf.str) + Own(leaf.name));
  }

  /** Strings that are there stay as they are while the heap grows. */
  lemma {:induction false} SameStringLater(h: Heap, h1: Heap, h2: Heap, t: Tree, c1: Tree, c2: Tree)
    requires BlocksKept(h1, h2)
    ensures SameString(h, h1, t, c1) && c2.str == c1.str ==> SameString(h, h2, t, c2)
    ensures SameName(h, h1, t, c1) && c2.name == c1.name ==> SameName(h, h2, t, c2)
  {
  }

  lemma {:induction false} ShellOf(h: Heap, h1: Heap, t: Tree, j: Json, copy: Tree)
    requires Denotes(h, t, j) && Copied(h, h1, copy) && copy.ptr in h1.nodes && copy.kids == []
    requires SameFields(h.nodes[t.ptr], h1.nodes[copy.ptr]) && SameString(h, h1, t, copy)
    ensures Denotes(h1, copy, Shell(j))
  {
    hide Owns, Apart, Denotes, Grown, SameString;
    RootOf(h, t, j);
    CopiedRoot(h, h1, t, j, copy);
    RootAndKidsDenote(h1, copy, Shell(j));
  }

  lemma {:induction false} WholeCopy(h: Heap, h1: Heap, t: Tree, j: Json, copy: Tree)
    requires Denotes(h, t, j) && Copied(h, h1, copy) && copy.ptr in h1.nodes
    requires SameFields(h.nodes[t.ptr], h1.nodes[copy.ptr]) && SameString(h, h1, t, copy)
    requires KidsDenote(h1, copy.kids, j) && |copy.kids| == KidCount(j) && PrevLinked(h1, copy.kids)
    ensures Denotes(h1, copy, j)
  {
    hide Owns, Apart, Denotes, Grown, SameString, KidsDenote, PrevLinked;
    RootOf(h, t, j);
    CopiedRoot(h, h1, t, j, copy);
    RootAndKidsDenote(h1, copy, j);
  }

  lemma {:induction false} OpenIsCopied(h0: Heap, h: Heap, t: Tree)
    requires Grown(h0, h, NodesOf(t), BlocksOf(t)) && Open(h, t)
    ensures Copied(h0, h, t)
  {
  }

  /**
   * cJSON_Duplicate. NULL leaves the heap as it was. Otherwise the heap gained exactly the nodes and blocks of a
   * tree with the same value, or with the value of the bare node if `recurse` is off.
   */
  method Duplicate(memory: CHeap, item: Ptr, recurse: bool, ghost t: Tree, ghost j: Json)
    returns (newitem: Ptr, ghost copy: Tree)
    requires item != NULL ==>
               item == t.ptr && Owns(memory.heap, t) && Denotes(memory.heap, t, j) && Legible(memory.heap, t)
    modifies memory
    ensures newitem == NULL ==> memory.heap == old(memory.heap) && (item == NULL || memory.refused)
    ensures newitem != NULL ==>
              && item != NULL && !memory.refused && copy.ptr == newitem && Copied(old(memory.heap), memory.heap, copy)
              && Denotes(memory.heap, copy,
                         if recurse || !(j.Arr? || j.Obj?) then j else if j.Arr? then Arr([]) else Obj([]))
              && SameName(old(memory.heap), memory.heap, t, copy) && Legible(memory.heap, copy)
              && (recurse && BareKids(t.kids, j) ==> BareKids(copy.kids, j))
              && item in old(memory.heap).nodes && newitem in memory.heap.nodes
              && var n, m := old(memory.heap).nodes[item], memory.heap.nodes[newitem];
              && m.stringIsConst == n.stringIsConst && (n.stringIsConst ==> m.name == n.name)
    decreases t, 1
  {
    hide GoodNames, BareKids;
    hide Owns, Denotes, Copied, RootDenotes, SameFields, SameString, SameName, IsLeaf, Grown, Legible;
    memory.refused := false;
    newitem, copy := NULL, t;
    if item == NULL {
      return;
    }
    ghost var h := memory.heap;
    RootOf(h, t, j);
    assert IsString(h, t.name) by { LegibleName(h, t); }
    StringsOfRoot(h, t, j);
    newitem, copy := DuplicateNode(memory, item, t, j);
    if newitem == NULL {
      return;
    }
    ghost var h1, leaf := memory.heap, copy;
    LeafStays(h, h1, leaf);
    var ok;
    ok, copy := DuplicateName(memory, item, newitem, h, t, leaf);
    if !ok {
      newitem := NULL;
      return;
    }
    SameStringLater(h, h1, memory.heap, t, leaf, copy);
    FieldsAgree(h.nodes[item], h1.nodes[newitem], memory.heap.nodes[newitem]);
    if !recurse {
      ShellOf(h, memory.heap, t, j, copy);
      LegibleCopy(h, memory.heap, t, copy);
      return;
    }
    ok, copy := DuplicateChildren(memory, item, newitem, h, t, j, copy);
    if !ok {
      newitem := NULL;
      return;
    }
    NamesGiven(memory.heap, copy.kids, t.kids, j);
    LegibleCopy(h, memory.heap, t, copy);
  }

  lemma {:induction false} FieldsAgree(n: Node, n1: Node, n2: Node)
    requires SameFields(n, n1) && n2 == n1.(name := n2.name)
    ensures SameFields(n, n2)
  {
  }

  /** The source, while the heap has only grown. */
  lemma {:induction false} SourceRoot(h0: Heap, h: Heap, copy: Tree, t: Tree, j: Json)
    requires Grown(h0, h, NodesOf(copy), BlocksOf(copy)) && Owns(h0, t) && Denotes(h0, t, j)
    ensures t.ptr in h.nodes && h.nodes[t.ptr].child == First(t.kids) && (First(t.kids) == NULL <==> t.kids == [])
    ensures |t.kids| == KidCount(j)
  {
    hide Denotes, Owns;
    TreeStays(h0, h, NodesOf(copy), BlocksOf(copy), t);
    AllKidsDenote(h0, t, j);
    OwnsKids(h0, t);
    RootOf(h0, t, j);
    FirstPresent(h0, t.kids);
  }

  lemma {:induction false} NoKidsYet(h: Heap, leaf: Tree, j: Json)
    requires leaf.kids == []
    ensures KidsDenote(h, leaf.kids, j) && BlocksKept(h, h)
  {
  }

  lemma {:induction false} NextSource(h0: Heap, h: Heap, copy: Tree, t: Tree, j: Json, i: nat)
    requires Grown(h0, h, NodesOf(copy), BlocksOf(copy)) && Owns(h0, t) && Denotes(h0, t, j) && Legible(h0, t)
    requires i < |t.kids|
    ensures t.kids[i].ptr in h.nodes
    ensures h.nodes[t.kids[i].ptr].next == (if i + 1 < |t.kids| then t.kids[i + 1].ptr else NULL)
    ensures i + 1 < |t.kids| ==> t.kids[i + 1].ptr != NULL
  {
    hide Denotes, Owns, Grown, Legible;
    SourceKid(h0, h, NodesOf(copy), BlocksOf(copy), t, j, i);
    if i + 1 < |t.kids| { SourceKid(h0, h, NodesOf(copy), BlocksOf(copy), t, j, i + 1); }
  }

  /** The copy of child `i` joins the list. */
  lemma {:induction false} CopiedKid(h: Heap, h1: Heap, h2: Heap, t: Tree, c: Tree, i: nat, ts: seq<Tree>, j: Json)
    requires KidsDenote(h, ts, j) && |ts| == i < |t.kids| && |t.kids| == KidCount(j)
    requires Copied(h, h1, c) && Denotes(h1, c, KidValue(j, i)) && SameName(h, h1, t.kids[i], c)
    requires h2.blocks == h1.blocks
    requires j.Obj? ==> HoldsString(h, t.kids[i].name, j.members[i].key)
    requires KeepsValues(h, h1, ts) && KeepsValues(h1, h2, ts + [c])
    ensures KidsDenote(h2, ts + [c], j) && BlocksKept(h, h1) && BlocksKept(h, h2)
  {
    hide Denotes, Owns, Apart, KidsDenote, KeepsValues, HoldsString, Grown;
    OneMoreKid(h, h1, h2, ts, c, j);
    OldStays(h, h1, NodesOf(c), BlocksOf(c));
  }

  /** The copied children: their names are strings, and none is named that was not named before. */
  predicate GoodNames(h: Heap, ts: seq<Tree>, sources: seq<Tree>, j: Json) {
    && (forall k :: 0 <= k < |ts| ==> Legible(h, ts[k]))
    && (BareKids(sources, j) ==> BareKids(ts, j))
  }

  lemma {:induction false} NamesGiven(h: Heap, ts: seq<Tree>, sources: seq<Tree>, j: Json)
    requires GoodNames(h, ts, sources, j)
    ensures (forall k :: 0 <= k < |ts| ==> Legible(h, ts[k])) && (BareKids(sources, j) ==> BareKids(ts, j))
  {
  }

  lemma {:induction false} NoNamesYet(h: Heap, sources: seq<Tree>, j: Json)
    ensures GoodNames(h, [], sources, j)
  {
  }

  lemma {:induction false} NamesLater(h: Heap, h1: Heap, ts: seq<Tree>, sources: seq<Tree>, j: Json)
    requires GoodNames(h, ts, sources, j) && BlocksKept(h, h1)
    ensures GoodNames(h1, ts, sources, j)
  {
    hide Legible, BareKids;
    forall k | 0 <= k < |ts| ensures Legible(h1, ts[k]) {
      LegibleStays(h, h1, ts[k]);
    }
  }

  lemma {:induction false} OneMoreName(h: Heap, h1: Heap, h2: Heap, t: Tree, c: Tree, i: nat, ts: seq<Tree>, j: Json)
    requires GoodNames(h, ts, t.kids, j) && |ts| == i < |t.kids| && |t.kids| == KidCount(j)
    requires BlocksKept(h, h1) && h2.blocks == h1.blocks && Legible(h1, c) && SameName(h, h1, t.kids[i], c)
    requires BareKids(t.kids[i].kids, KidValue(j, i)) ==> BareKids(c.kids, KidValue(j, i))
    ensures GoodNames(h2, ts + [c], t.kids, j)
  {
    hide Legible;
    NamesLater(h, h2, ts, t.kids, j);
    LegibleStays(h1, h2, c);
    if BareKids(t.kids, j) {
      BareMore(ts, c, j, i, t.kids);
    }
  }

  lemma {:induction false} BareMore(ts: seq<Tree>, c: Tree, j: Json, i: nat, sources: seq<Tree>)
    requires BareKids(ts, j) && BareKids(sources, j) && |ts| == i < |sources| && |sources| == KidCount(j)
    requires BareKids(sources[i].kids, KidValue(j, i)) ==> BareKids(c.kids, KidValue(j, i))
    requires c.name == NULL <==> sources[i].name == NULL
    ensures BareKids(ts + [c], j)
  {
    assert (j.Arr? ==> sources[i].name == NULL) && BareKids(sources[i].kids, KidValue(j, i));
    var all := ts + [c];
    forall k | 0 <= k < |all| ensures (j.Arr? ==> all[k].name == NULL) && BareKids(all[k].kids, KidValue(j, k)) {
      if k < |ts| { assert all[k] == ts[k]; }
    }
  }

  lemma {:induction false} LegibleCopy(h0: Heap, h: Heap, t: Tree, copy: Tree)
    requires IsString(h0, t.name) && SameName(h0, h, t, copy)
    requires forall k :: 0 <= k < |copy.kids| ==> Legible(h, copy.kids[k])
    ensures Legible(h, copy)
  {
    hide Legible;
    if t.name != NULL { assert HoldsString(h0, t.name, CStr(h0.blocks[t.name])); }
    LegibleRoot(h, copy);
  }

  lemma {:induction false} LegibleRoot(h: Heap, t: Tree)
    requires IsString(h, t.name) && forall k :: 0 <= k < |t.kids| ==> Legible(h, t.kids[k])
    ensures Legible(h, t)
  {
  }

  /** `next->next` and `newchild->prev`, or `newitem->child` */
  method LinkChild(memory: CHeap, newitem: Ptr, next: Ptr, newchild: Ptr, ghost copy: Tree)
    requires newitem == copy.ptr && next == Last(copy.kids) && (next == NULL <==> copy.kids == [])
    requires newitem in memory.heap.nodes && newchild in memory.heap.nodes && (next != NULL ==> next in memory.heap.nodes)
    modifies memory
    ensures memory.heap == Linked(old(memory.heap), copy, newchild) && memory.heap.blocks == old(memory.heap).blocks
    ensures memory.refused == old(memory.refused)
  {
    if next != NULL {
      memory.SetNode(next, memory.heap.nodes[next].(next := newchild));
      memory.SetNode(newchild, memory.heap.nodes[newchild].(prev := next));
    } else {
      memory.SetNode(newitem, memory.heap.nodes[newitem].(child := newchild));
    }
  }

  /** The children one by one, each behind the one before it, and the list closed at the end. */
  method DuplicateChildren(memory: CHeap, item: Ptr, newitem: Ptr, ghost h0: Heap, ghost t: Tree, ghost j: Json,
                           ghost leaf: Tree)
    returns (ok: bool, ghost copy: Tree)
    requires item == t.ptr && Owns(h0, t) && Denotes(h0, t, j) && Legible(h0, t)
    requires newitem == leaf.ptr && leaf.kids == [] && Copied(h0, memory.heap, leaf)
    requires item in h0.nodes && newitem in memory.heap.nodes && memory.heap.nodes[newitem].child == NULL
    requires SameFields(h0.nodes[item], memory.heap.nodes[newitem])
    requires SameString(h0, memory.heap, t, leaf) && SameName(h0, memory.heap, t, leaf) && !memory.refused
    modifies memory
    ensures memory.refused == !ok
    ensures !ok ==> memory.heap == h0
    ensures ok ==>
              && copy == leaf.(kids := copy.kids) && Copied(h0, memory.heap, copy)
              && Denotes(memory.heap, copy, j) && SameName(h0, memory.heap, t, copy)
              && GoodNames(memory.heap, copy.kids, t.kids, j)
              && newitem in memory.heap.nodes && memory.heap.nodes[newitem].name == old(memory.heap).nodes[newitem].name
              && memory.heap.nodes[newitem].stringIsConst == old(memory.heap).nodes[newitem].stringIsConst
    decreases t, 0
  {
    hide Owns, Denotes, Copied, SameString, SameName, Grown, Legible, Open, KidsDenote, KeepsValues, Linked;
    hide GoodNames, BareKids, NodesOf, NodesOfAll, BlocksOf, BlocksOfAll;
    ghost var base := memory.heap;
    LeafIsOpen(h0, base, leaf);
    ghost var i := 0;
    copy := leaf;
    SourceRoot(h0, base, leaf, t, j);
    NoKidsYet(base, leaf, j);
    NoNamesYet(base, t.kids, j);
    var child := memory.heap.nodes[item].child;
    var next, newchild: Ptr := NULL, NULL;
    while child != NULL
      invariant i == |copy.kids| <= |t.kids| && copy == leaf.(kids := copy.kids)
      invariant child == (if i < |t.kids| then t.kids[i].ptr else NULL) && (child == NULL <==> i == |t.kids|)
      invariant next == newchild == Last(copy.kids) && (next == NULL <==> i == 0)
      invariant Grown(h0, memory.heap, NodesOf(copy), BlocksOf(copy)) && Open(memory.heap, copy)
      invariant newitem in memory.heap.nodes
      invariant memory.heap.nodes[newitem] == base.nodes[newitem].(child := First(copy.kids))
      invariant KidsDenote(memory.heap, copy.kids, j) && BlocksKept(base, memory.heap)
      invariant GoodNames(memory.heap, copy.kids, t.kids, j) && !memory.refused
      decreases |t.kids| - i
    {
      ghost var h := memory.heap;
      SourceKid(h0, h, NodesOf(copy), BlocksOf(copy), t, j, i);
      ghost var c;
      newchild, c := Duplicate(memory, child, true, t.kids[i], KidValue(j, i));
      if newchild == NULL {
        OpenIsCopied(h0, h, copy);
        CopyCanGo(h0, h, copy);
        memory.Delete(newitem, [copy]);
        ok := false;
        return;
      }
      ghost var h1 := memory.heap;
      LinkCopy(h0, h, h1, copy, c);
      LinkChild(memory, newitem, next, newchild, copy);
      next := newchild;
      CopiedKid(h, h1, memory.heap, t, c, i, copy.kids, j);
      OneMoreName(h, h1, memory.heap, t, c, i, copy.kids, j);
      copy := copy.(kids := copy.kids + [c]);
      NextSource(h0, memory.heap, copy, t, j, i);
      child := memory.heap.nodes[child].next;
      i := i + 1;
    }
    ghost var h := memory.heap;
    CloseCopy(h0, h, copy);
    if memory.heap.nodes[newitem].child != NULL {
      var head := memory.heap.nodes[newitem].child;
      memory.SetNode(head, memory.heap.nodes[head].(prev := newchild));
    }
    KidsStay(h, memory.heap, copy.kids, j);
    NamesLater(h, memory.heap, copy.kids, t.kids, j);
    SameStringLater(h0, base, memory.heap, t, leaf, copy);
    AllKidsDenote(h0, t, j);
    WholeCopy(h0, memory.heap, t, j, copy);
    ok := true;
  }
}
