/** How parse_array and parse_object grow a list of children on the heap, step by step. */
module Builder {
  import opened Bytes
  import opened JsonTree
  import opened Memory
  import opened Scanner

  /** A node that was allocated for a value and holds none yet; it may carry a name. */
  predicate Blank(h: Heap, item: Ptr) {
    && item != NULL && item in h.nodes
    && var n := h.nodes[item];
    && n.child == NULL && n.valuestring == NULL && !n.isReference && !n.stringIsConst
    && Own(n.name) <= h.blocks.Keys
  }

  /** `h1` is `h0` with exactly these new nodes and blocks. */
  predicate Grown(h0: Heap, h1: Heap, ptrs: set<Ptr>, strs: set<Ptr>) {
    && Without(h1, ptrs, strs) == h0
    && ptrs !! h0.nodes.Keys && strs !! h0.blocks.Keys
    && ptrs <= h1.nodes.Keys && strs <= h1.blocks.Keys
  }

  /** The two nodes differ at most in what parse_value sets. */
  predicate SamePlace(n0: Node, n1: Node) {
    n1.next == n0.next && n1.prev == n0.prev && n1.name == n0.name
    && n1.isReference == n0.isReference && n1.stringIsConst == n0.stringIsConst
  }

  /** `h1` is `h0` after `item` was given the value `j`: new children `kids` and a new string `str`. */
  predicate Filled(h0: Heap, h1: Heap, item: Ptr, str: Ptr, kids: seq<Tree>, j: Json) {
    && item in h0.nodes && item in h1.nodes && SamePlace(h0.nodes[item], h1.nodes[item])
    && Grown(h0.(nodes := h0.nodes[item := h1.nodes[item]]), h1, NodesOfAll(kids), Own(str) + BlocksOfAll(kids))
    && var t := Tree(item, str, h0.nodes[item].name, kids);
    && Owns(h1, t) && Apart(t) && Denotes(h1, t, j) && BareKids(kids, j)
  }

  /** The elements read so far, which carry no names. */
  predicate ItemsBuilt(h: Heap, ts: seq<Tree>, items: seq<Json>) {
    DenoteItems(h, ts, items) && BareKids(ts, Arr(items))
  }

  /** Whatever the trees denoted they denote still. */
  ghost predicate StillDenote(h: Heap, h1: Heap, ts: seq<Tree>) {
    forall i, v :: 0 <= i < |ts| && Denotes(h, ts[i], v) ==> Denotes(h1, ts[i], v)
  }

  /** The members read so far. */
  predicate MembersBuilt(h: Heap, ts: seq<Tree>, members: seq<Member>) {
    DenoteMembers(h, ts, members) && BareKids(ts, Obj(members))
  }

  /** `h` is `h0` and a list of new trees, chained both ways but for the head's `prev`. */
  predicate Building(h0: Heap, h: Heap, ts: seq<Tree>) {
    && Grown(h0, h, NodesOfAll(ts), BlocksOfAll(ts))
    && OwnsList(h, ts) && ApartAll(ts) && ChainedBack(h, ts)
  }

  predicate ChainedBack(h: Heap, ts: seq<Tree>) {
    forall i :: 1 <= i < |ts| ==> ts[i].ptr in h.nodes && h.nodes[ts[i].ptr].prev == ts[i - 1].ptr
  }

  function Last(ts: seq<Tree>): Ptr {
    if ts == [] then NULL else ts[|ts| - 1].ptr
  }

  function Leaf(p: Ptr, name: Ptr): Tree {
    Tree(p, NULL, name, [])
  }

  lemma {:induction false} NothingBuilt(h: Heap)
    ensures Building(h, h, []) && ItemsBuilt(h, [], []) && MembersBuilt(h, [], [])
  {
    NothingGone(h);
    assert NodesOfAll([]) == {} && BlocksOfAll([]) == {};
  }

  /** Giving up: deleting the list leaves the heap as it was. */
  lemma {:induction false} DeletedList(h0: Heap, h: Heap, ts: seq<Tree>)
    requires Building(h0, h, ts)
    ensures Without(h, NodesOfAll(ts), BlocksOfAll(ts)) == h0 && OwnsList(h, ts) && ApartAll(ts)
  {
  }

  // ---- scalars ----

  lemma {:induction false} FilledScalar(h0: Heap, item: Ptr, n: Node, j: Json)
    requires Blank(h0, item) && SamePlace(h0.nodes[item], n) && n.child == NULL && n.valuestring == NULL
    requires match j
             case Null => n.kind == KNull
             case Bool(b) => n.kind == (if b then KTrue else KFalse)
             case Num(_) => n.kind == KNumber && n.valuedouble == j
             case Real(_) => n.kind == KNumber && n.valuedouble == j
             case _ => false
    ensures Filled(h0, h0.(nodes := h0.nodes[item := n]), item, NULL, [], j)
  {
    var h1 := h0.(nodes := h0.nodes[item := n]);
    NothingGone(h1);
    assert NodesOfAll([]) == {} && BlocksOfAll([]) == {};
    assert Own(NULL) + BlocksOfAll([]) == {};
  }

  lemma {:induction false} FilledString(h0: Heap, h1: Heap, item: Ptr, str: Ptr, s: CString)
    requires Blank(h0, item) && GotString(h0, h1, item, str, s)
    ensures Filled(h0, h1, item, str, [], Str(s))
  {
    hide Owns, Apart, Denotes;
    assert NodesOfAll([]) == {} && BlocksOfAll([]) == {};
    assert Own(str) + BlocksOfAll([]) == {str};
    StringGrows(h0, h1, item, str, s);
    StringStands(h0, h1, item, str, s);
  }

  lemma {:induction false} StringStands(h0: Heap, h1: Heap, item: Ptr, str: Ptr, s: CString)
    requires Blank(h0, item) && GotString(h0, h1, item, str, s)
    ensures var t := Tree(item, str, h0.nodes[item].name, []);
            Owns(h1, t) && Apart(t) && Denotes(h1, t, Str(s))
  {
    assert NodesOfAll([]) == {} && BlocksOfAll([]) == {};
  }

  lemma {:induction false} StringGrows(h0: Heap, h1: Heap, item: Ptr, str: Ptr, s: CString)
    requires GotString(h0, h1, item, str, s)
    ensures Grown(h0.(nodes := h0.nodes[item := h1.nodes[item]]), h1, {}, {str})
  {
    var base := h0.(nodes := h0.nodes[item := h1.nodes[item]]);
    assert h1.nodes - {} == base.nodes;
    assert h1.blocks - {str} == base.blocks;
  }

  // ---- attaching a new node at the end ----

  /** The heap after a zeroed node `p` was chained behind `q`, if there is one. */
  function Attached(h: Heap, q: Ptr, p: Ptr): Heap
    requires p !in h.nodes && (q != NULL ==> q in h.nodes)
  {
    if q == NULL then h.(nodes := h.nodes[p := ZERO_NODE])
    else h.(nodes := h.nodes[p := ZERO_NODE.(prev := q)][q := h.nodes[q].(next := p)])
  }

  lemma {:induction false} KidsPresent(h: Heap, ts: seq<Tree>)
    requires OwnsList(h, ts)
    ensures NodesOfAll(ts) <= h.nodes.Keys && BlocksOfAll(ts) <= h.blocks.Keys
    ensures ts != [] ==> Last(ts) != NULL && Last(ts) in h.nodes && Last(ts) in NodesOfAll(ts)
  {
    hide Owns, NodesOf, BlocksOf;
    forall i | 0 <= i < |ts|
      ensures NodesOf(ts[i]) <= h.nodes.Keys && BlocksOf(ts[i]) <= h.blocks.Keys && ts[i].ptr != NULL
    {
      OwnedIsPresent(h, ts[i]);
      OwnsIsPresent(h, ts[i]);
    }
    if ts != [] {
      NodesOfKid(ts, |ts| - 1);
    }
  }

  lemma {:induction false} RootAndKids(t: Tree)
    ensures t.ptr in NodesOf(t) && NodesOfAll(t.kids) <= NodesOf(t)
  {
  }

  /** The last node of the list is no inner node of any of its trees. */
  lemma {:induction false} LastIsOutside(ts: seq<Tree>, i: nat)
    requires ApartAll(ts) && i < |ts|
    ensures Last(ts) !in NodesOfAll(ts[i].kids)
  {
    hide NodesOf, NodesOfAll, BlocksOf, ApartAll;
    var last := |ts| - 1;
    RootAndKids(ts[last]);
    RootAndKids(ts[i]);
    TwoApart(ts, i, last);
  }

  lemma {:induction false} TwoApart(ts: seq<Tree>, i: nat, j: nat)
    requires ApartAll(ts) && i <= j < |ts|
    ensures i < j ==> NodesOf(ts[i]) !! NodesOf(ts[j]) && BlocksOf(ts[i]) !! BlocksOf(ts[j])
    ensures Apart(ts[i]) && ts[i].ptr !in NodesOfAll(ts[i].kids)
  {
    hide NodesOf, NodesOfAll, BlocksOf;
  }

  lemma {:induction false} TreeAfterAttach(h: Heap, ts: seq<Tree>, p: Ptr, i: nat)
    requires OwnsList(h, ts) && ApartAll(ts) && p != NULL && p !in h.nodes && i < |ts|
    requires Last(ts) in h.nodes
    ensures var h1 := Attached(h, Last(ts), p);
            Owns(h1, ts[i]) && forall j :: Denotes(h, ts[i], j) ==> Denotes(h1, ts[i], j)
  {
    hide Owns, Denotes, ApartAll, NodesOf, BlocksOf;
    var h1 := Attached(h, Last(ts), p);
    LastIsOutside(ts, i);
    assert Owns(h, ts[i]);
    FrameHere(h, h1, ts[i]);
  }

  lemma {:induction false} FrameHere(h: Heap, h1: Heap, t: Tree)
    requires Owns(h, t) && SameButLinks(h, h1, t.ptr)
    requires Agree(h, h1, NodesOfAll(t.kids), BlocksOf(t))
    ensures Owns(h1, t) && forall j :: Denotes(h, t, j) ==> Denotes(h1, t, j)
  {
    hide Owns, Denotes;
    OwnsFrame(h, h1, t);
    forall j | Denotes(h, t, j) ensures Denotes(h1, t, j) {
      DenotesFrame(h, h1, t, j);
    }
  }

  lemma {:induction false} AttachGrows(h0: Heap, h: Heap, ts: seq<Tree>, p: Ptr)
    requires Building(h0, h, ts) && p != NULL && p !in h.nodes && (ts != [] ==> Last(ts) in h.nodes)
    ensures Grown(h0, Attached(h, Last(ts), p), NodesOfAll(ts + [Leaf(p, NULL)]), BlocksOfAll(ts + [Leaf(p, NULL)]))
  {
    hide OwnsList, ApartAll, NodesOf, NodesOfAll, BlocksOf, BlocksOfAll, ChainedBack;
    var h1 := Attached(h, Last(ts), p);
    var ptrs, strs := NodesOfAll(ts), BlocksOfAll(ts);
    KidsPresent(h, ts);
    AddressesOfSnoc(ts, Leaf(p, NULL));
    AddressesOfLeaf(p, NULL);
    assert p !in h0.nodes;
    assert h1.nodes - (ptrs + {p}) == h0.nodes;
    assert strs + {} == strs;
  }

  lemma {:induction false} AddressesOfLeaf(p: Ptr, name: Ptr)
    ensures NodesOf(Leaf(p, name)) == {p} && BlocksOf(Leaf(p, name)) == Own(name)
  {
    assert NodesOfAll([]) == {} && BlocksOfAll([]) == {};
  }

  /** After the new node is attached, each tree of the list is owned and points at its successor. */
  lemma {:induction false} LinkAfterAttach(h: Heap, ts: seq<Tree>, p: Ptr, i: nat)
    requires OwnsList(h, ts) && ApartAll(ts) && p != NULL && p !in h.nodes && i < |ts| && Last(ts) in h.nodes
    ensures var h1 := Attached(h, Last(ts), p);
            Owns(h1, ts[i]) && ts[i].ptr in h1.nodes
            && h1.nodes[ts[i].ptr].next == if i + 1 < |ts| then ts[i + 1].ptr else p
  {
    hide Denotes, ApartAll, Owns;
    TreeAfterAttach(h, ts, p, i);
    DistinctRoots(ts, i);
    OwnsIsPresent(h, ts[i]);
  }

  lemma {:induction false} LeafIsOwned(h: Heap, q: Ptr, p: Ptr)
    requires p != NULL && p !in h.nodes && (q != NULL ==> q in h.nodes)
    ensures var h1 := Attached(h, q, p);
            p in h1.nodes && Owns(h1, Leaf(p, NULL)) && h1.nodes[p] == ZERO_NODE.(prev := q) && Blank(h1, p)
  {
  }

  lemma {:induction false} AttachOwns(h: Heap, ts: seq<Tree>, p: Ptr)
    requires OwnsList(h, ts) && ApartAll(ts) && p != NULL && p !in h.nodes && (ts != [] ==> Last(ts) in h.nodes)
    ensures OwnsList(Attached(h, Last(ts), p), ts + [Leaf(p, NULL)])
  {
    hide Owns, ApartAll, Attached;
    var h1, ts1 := Attached(h, Last(ts), p), ts + [Leaf(p, NULL)];
    LeafIsOwned(h, Last(ts), p);
    forall i | 0 <= i < |ts1|
      ensures Owns(h1, ts1[i]) && ts1[i].ptr in h1.nodes && h1.nodes[ts1[i].ptr].next == NextOf(ts1, i)
    {
      if i < |ts| { LinkAfterAttach(h, ts, p, i); }
    }
  }

  lemma {:induction false} AttachChains(h: Heap, ts: seq<Tree>, p: Ptr)
    requires OwnsList(h, ts) && ChainedBack(h, ts) && p != NULL && p !in h.nodes && (ts != [] ==> Last(ts) in h.nodes)
    ensures ChainedBack(Attached(h, Last(ts), p), ts + [Leaf(p, NULL)])
  {
    hide Owns;
    var h1, ts1 := Attached(h, Last(ts), p), ts + [Leaf(p, NULL)];
    forall i | 1 <= i < |ts1|
      ensures ts1[i].ptr in h1.nodes && h1.nodes[ts1[i].ptr].prev == ts1[i - 1].ptr
    {
      if i < |ts| { OwnsIsPresent(h, ts[i]); }
    }
  }

  lemma {:induction false} ApartSnoc(ts: seq<Tree>, t: Tree)
    requires ApartAll(ts) && Apart(t)
    requires NodesOf(t) !! NodesOfAll(ts) && BlocksOf(t) !! BlocksOfAll(ts)
    ensures ApartAll(ts + [t])
  {
    hide Apart, NodesOf, BlocksOf;
    var ts1 := ts + [t];
    forall i, j | 0 <= i < j < |ts1|
      ensures NodesOf(ts1[i]) !! NodesOf(ts1[j]) && BlocksOf(ts1[i]) !! BlocksOf(ts1[j])
    {
      if j == |ts| { NodesOfKid(ts, i); }
    }
  }

  /** Attaching a fresh node to a list under construction. */
  lemma {:induction false} BuildingGrows(h0: Heap, h: Heap, ts: seq<Tree>, p: Ptr)
    requires Building(h0, h, ts) && p != NULL && p !in h.nodes
    ensures ts != [] ==> Last(ts) != NULL && Last(ts) in h.nodes
    ensures Building(h0, Attached(h, Last(ts), p), ts + [Leaf(p, NULL)]) && Blank(Attached(h, Last(ts), p), p)
    ensures Attached(h, Last(ts), p).nodes[p] == ZERO_NODE.(prev := Last(ts))
  {
    hide Owns, OwnsList, Apart, ApartAll, NodesOf, NodesOfAll, BlocksOf, BlocksOfAll, ChainedBack, Grown, Attached;
    KidsPresent(h, ts);
    AttachGrows(h0, h, ts, p);
    AttachOwns(h, ts, p);
    AttachChains(h, ts, p);
    LeafIsOwned(h, Last(ts), p);
    AddressesOfLeaf(p, NULL);
    LeafIsApart(p);
    ApartSnoc(ts, Leaf(p, NULL));
  }

  lemma {:induction false} LeafIsApart(p: Ptr)
    ensures Apart(Leaf(p, NULL))
  {
  }

  /** Only the last tree of the list has the last tree's root. */
  lemma {:induction false} DistinctRoots(ts: seq<Tree>, i: nat)
    requires ApartAll(ts) && i < |ts|
    ensures ts[i].ptr == Last(ts) <==> i == |ts| - 1
  {
    if i < |ts| - 1 {
      assert ts[i].ptr in NodesOf(ts[i]) && Last(ts) in NodesOf(ts[|ts| - 1]);
    }
  }

  // ---- filling the last node ----

  /** `h1` is `h` after node `p` changed in place, not in the list, and new nodes and blocks appeared. */
  predicate Redone(h: Heap, h1: Heap, p: Ptr, ptrs: set<Ptr>, strs: set<Ptr>) {
    && p in h.nodes && p in h1.nodes
    && h1.nodes[p].next == h.nodes[p].next && h1.nodes[p].prev == h.nodes[p].prev
    && Grown(h.(nodes := h.nodes[p := h1.nodes[p]]), h1, ptrs, strs)
  }

  lemma {:induction false} RedoneElsewhere(h: Heap, h1: Heap, p: Ptr, ptrs: set<Ptr>, strs: set<Ptr>, q: Ptr)
    requires Redone(h, h1, p, ptrs, strs) && q in h.nodes && q != p
    ensures q in h1.nodes && h1.nodes[q] == h.nodes[q]
  {
    assert (h1.nodes - ptrs)[q] == h.nodes[q];
  }

  lemma {:induction false} RedoneBlocks(h: Heap, h1: Heap, p: Ptr, ptrs: set<Ptr>, strs: set<Ptr>, b: Ptr)
    requires Redone(h, h1, p, ptrs, strs) && b in h.blocks
    ensures b in h1.blocks && h1.blocks[b] == h.blocks[b]
  {
    assert (h1.blocks - strs)[b] == h.blocks[b];
  }

  /** A tree that does not contain the node keeps its place and its value. */
  lemma {:induction false} TreeAfterRedo(h: Heap, h1: Heap, p: Ptr, ptrs: set<Ptr>, strs: set<Ptr>, t: Tree)
    requires Redone(h, h1, p, ptrs, strs) && Owns(h, t) && p !in NodesOf(t)
    ensures Owns(h1, t) && t.ptr in h1.nodes && h1.nodes[t.ptr] == h.nodes[t.ptr]
    ensures forall j :: Denotes(h, t, j) ==> Denotes(h1, t, j)
  {
    hide Owns, Denotes, Redone, BlocksOf;
    OwnedIsPresent(h, t);
    RootAndKids(t);
    forall q | q in NodesOf(t) ensures q in h1.nodes && h1.nodes[q] == h.nodes[q] {
      RedoneElsewhere(h, h1, p, ptrs, strs, q);
    }
    forall b | b in BlocksOf(t) ensures b in h1.blocks && h1.blocks[b] == h.blocks[b] {
      RedoneBlocks(h, h1, p, ptrs, strs, b);
    }
    FrameHere(h, h1, t);
  }

  lemma {:induction false} SnocSplit(ts: seq<Tree>, t: Tree)
    requires ApartAll(ts + [t])
    ensures ApartAll(ts) && Apart(t) && NodesOf(t) !! NodesOfAll(ts) && BlocksOf(t) !! BlocksOfAll(ts)
  {
    hide NodesOf, BlocksOf, Apart;
    var ts1 := ts + [t];
    assert ts1[|ts|] == t;
    forall i | 0 <= i < |ts| ensures Apart(ts[i]) && NodesOf(ts[i]) !! NodesOf(t) && BlocksOf(ts[i]) !! BlocksOf(t) {
      TwoApart(ts1, i, |ts|);
      assert ts1[i] == ts[i];
    }
    forall i, j | 0 <= i < j < |ts| ensures NodesOf(ts[i]) !! NodesOf(ts[j]) && BlocksOf(ts[i]) !! BlocksOf(ts[j]) {
      TwoApart(ts1, i, j);
    }
  }

  lemma {:induction false} OwnsSnocParts(h: Heap, ts: seq<Tree>, t: Tree)
    requires OwnsList(h, ts + [t])
    ensures Owns(h, t) && t.ptr in h.nodes && h.nodes[t.ptr].next == NULL
    ensures forall i :: 0 <= i < |ts| ==>
              Owns(h, ts[i]) && ts[i].ptr in h.nodes && h.nodes[ts[i].ptr].next == NextOf(ts + [t], i)
  {
    hide Owns;
    var ts1 := ts + [t];
    assert ts1[|ts|] == t;
    forall i | 0 <= i < |ts|
      ensures Owns(h, ts[i]) && ts[i].ptr in h.nodes && h.nodes[ts[i].ptr].next == NextOf(ts1, i)
    {
      assert ts1[i] == ts[i];
      OwnsIsPresent(h, ts[i]);
    }
    OwnsIsPresent(h, t);
  }

  lemma {:induction false} RedoOwns(h: Heap, h1: Heap, ts: seq<Tree>, t: Tree, t1: Tree, ptrs: set<Ptr>, strs: set<Ptr>)
    requires OwnsList(h, ts + [t]) && ApartAll(ts + [t])
    requires t1.ptr == t.ptr && Owns(h1, t1) && Redone(h, h1, t.ptr, ptrs, strs)
    ensures OwnsList(h1, ts + [t1])
    ensures StillDenote(h, h1, ts)
  {
    hide Owns, Denotes, ApartAll, NodesOf, NodesOfAll, BlocksOf, BlocksOfAll, Grown;
    var ts1 := ts + [t1];
    OwnsSnocParts(h, ts, t);
    SnocSplit(ts, t);
    RootAndKids(t);
    forall i | 0 <= i < |ts|
      ensures Owns(h1, ts[i]) && ts[i].ptr in h1.nodes && h1.nodes[ts[i].ptr].next == NextOf(ts1, i)
      ensures forall j :: Denotes(h, ts[i], j) ==> Denotes(h1, ts[i], j)
    {
      NodesOfKid(ts, i);
      TreeAfterRedo(h, h1, t.ptr, ptrs, strs, ts[i]);
    }
    forall i | 0 <= i < |ts1|
      ensures Owns(h1, ts1[i]) && ts1[i].ptr in h1.nodes && h1.nodes[ts1[i].ptr].next == NextOf(ts1, i)
    {
      if i < |ts| { assert ts1[i] == ts[i]; }
    }
  }

  lemma {:induction false} RedoGrows(h0: Heap, h: Heap, h1: Heap, p: Ptr, ptrs: set<Ptr>, strs: set<Ptr>,
                       ptrs0: set<Ptr>, strs0: set<Ptr>)
    requires Grown(h0, h, ptrs0, strs0) && Redone(h, h1, p, ptrs, strs) && p in ptrs0
    ensures Grown(h0, h1, ptrs0 + ptrs, strs0 + strs)
  {
    assert h1.nodes - (ptrs0 + ptrs) == (h1.nodes - ptrs) - ptrs0 == h.nodes - ptrs0;
    assert h1.blocks - (strs0 + strs) == (h1.blocks - strs) - strs0;
    assert (h1.nodes - ptrs).Keys == h.nodes.Keys && (h1.blocks - strs).Keys == h.blocks.Keys;
    assert (h.nodes - ptrs0).Keys == h0.nodes.Keys && (h.blocks - strs0).Keys == h0.blocks.Keys;
    assert h.nodes.Keys <= h1.nodes.Keys && h.blocks.Keys <= h1.blocks.Keys;
  }

  lemma {:induction false} RedoChains(h: Heap, h1: Heap, ts: seq<Tree>, t: Tree, t1: Tree, ptrs: set<Ptr>,
                       strs: set<Ptr>)
    requires ChainedBack(h, ts + [t]) && t1.ptr == t.ptr && Redone(h, h1, t.ptr, ptrs, strs)
    ensures ChainedBack(h1, ts + [t1])
  {
    hide Redone;
    var all, all1 := ts + [t], ts + [t1];
    forall i | 1 <= i < |all1| ensures all1[i].ptr in h1.nodes && h1.nodes[all1[i].ptr].prev == all1[i - 1].ptr {
      assert all[i].ptr == all1[i].ptr && all[i - 1].ptr == all1[i - 1].ptr;
      if all[i].ptr != t.ptr {
        RedoneElsewhere(h, h1, t.ptr, ptrs, strs, all[i].ptr);
      } else {
        RedoneRoot(h, h1, t.ptr, ptrs, strs);
      }
    }
  }

  lemma {:induction false} RedoneRoot(h: Heap, h1: Heap, p: Ptr, ptrs: set<Ptr>, strs: set<Ptr>)
    requires Redone(h, h1, p, ptrs, strs)
    ensures p in h.nodes && p in h1.nodes
    ensures h1.nodes[p].next == h.nodes[p].next && h1.nodes[p].prev == h.nodes[p].prev
    ensures ptrs !! h.nodes.Keys && strs !! h.blocks.Keys
  {
  }

  /** Filling in the last node of a list under construction. */
  lemma {:induction false} BuildingRedone(h0: Heap, h: Heap, h1: Heap, ts: seq<Tree>, t: Tree, t1: Tree,
                       ptrs: set<Ptr>, strs: set<Ptr>)
    requires Building(h0, h, ts + [t])
    requires t1.ptr == t.ptr && Owns(h1, t1) && Apart(t1) && Redone(h, h1, t.ptr, ptrs, strs)
    requires NodesOf(t1) == NodesOf(t) + ptrs && BlocksOf(t1) == BlocksOf(t) + strs
    ensures Building(h0, h1, ts + [t1])
    ensures StillDenote(h, h1, ts)
  {
    hide Owns, OwnsList, Denotes, Apart, ApartAll, NodesOf;
    hide NodesOfAll, BlocksOf, BlocksOfAll, ChainedBack, Grown, Redone;
    RedoOwns(h, h1, ts, t, t1, ptrs, strs);
    RedoChains(h, h1, ts, t, t1, ptrs, strs);
    RedoneRoot(h, h1, t.ptr, ptrs, strs);
    KidsPresent(h, ts + [t]);
    SnocSplit(ts, t);
    AddressesOfSnoc(ts, t);
    AddressesOfSnoc(ts, t1);
    RootAndKids(t);
    RedoGrows(h0, h, h1, t.ptr, ptrs, strs, NodesOfAll(ts + [t]), BlocksOfAll(ts + [t]));
    ApartSnoc(ts, t1);
    assert NodesOfAll(ts) + NodesOf(t) + ptrs == NodesOfAll(ts) + (NodesOf(t) + ptrs);
    assert BlocksOfAll(ts) + BlocksOf(t) + strs == BlocksOfAll(ts) + (BlocksOf(t) + strs);
  }

  /** parse_value filled the last node. */
  lemma {:induction false} BuildingFilled(h0: Heap, h: Heap, h1: Heap, ts: seq<Tree>, p: Ptr, name: Ptr, str: Ptr,
                       kids: seq<Tree>, j: Json)
    requires Building(h0, h, ts + [Leaf(p, name)]) && p in h.nodes && h.nodes[p].name == name
    requires Filled(h, h1, p, str, kids, j)
    ensures Building(h0, h1, ts + [Tree(p, str, name, kids)])
    ensures Denotes(h1, Tree(p, str, name, kids), j) && BareKids(kids, j)
    ensures StillDenote(h, h1, ts)
  {
    hide Owns, Denotes, Apart, Building, NodesOfAll, BlocksOfAll;
    var t, t1 := Leaf(p, name), Tree(p, str, name, kids);
    AddressesOfLeaf(p, name);
    assert NodesOf(t1) == NodesOf(t) + NodesOfAll(kids);
    assert BlocksOf(t1) == BlocksOf(t) + (Own(str) + BlocksOfAll(kids));
    BuildingRedone(h0, h, h1, ts, t, t1, NodesOfAll(kids), Own(str) + BlocksOfAll(kids));
  }

  /** The heap after the string just read into `p` was made its name. */
  function Renamed(h: Heap, p: Ptr, key: Ptr): Heap
    requires p in h.nodes
  {
    h.(nodes := h.nodes[p := h.nodes[p].(name := key, valuestring := NULL)])
  }

  /** parse_object named the last node. */
  lemma {:induction false} BuildingNamed(h0: Heap, h: Heap, hs: Heap, ts: seq<Tree>, p: Ptr, key: Ptr, s: CString)
    requires Building(h0, h, ts + [Leaf(p, NULL)]) && Blank(h, p) && h.nodes[p].name == NULL
    requires GotString(h, hs, p, key, s)
    ensures p in hs.nodes && Building(h0, Renamed(hs, p, key), ts + [Leaf(p, key)])
    ensures Blank(Renamed(hs, p, key), p) && p in Renamed(hs, p, key).nodes && Renamed(hs, p, key).nodes[p].name == key
    ensures HoldsString(Renamed(hs, p, key), key, s)
    ensures StillDenote(h, Renamed(hs, p, key), ts)
  {
    hide Denotes, Building, Owns, Apart, NodesOf, BlocksOf;
    var h1 := Renamed(hs, p, key);
    NamedLeaf(h, hs, p, key, s);
    AddressesOfLeaf(p, NULL);
    AddressesOfLeaf(p, key);
    assert {p} == {p} + {} && {key} == Own(NULL) + {key};
    BuildingRedone(h0, h, h1, ts, Leaf(p, NULL), Leaf(p, key), {}, {key});
  }

  lemma {:induction false} NamedLeaf(h: Heap, hs: Heap, p: Ptr, key: Ptr, s: CString)
    requires Blank(h, p) && h.nodes[p].name == NULL && GotString(h, hs, p, key, s)
    ensures var h1 := Renamed(hs, p, key);
            Owns(h1, Leaf(p, key)) && Apart(Leaf(p, key)) && Redone(h, h1, p, {}, {key})
  {
    var h1 := Renamed(hs, p, key);
    assert h1.nodes - {} == h.nodes[p := h1.nodes[p]];
    assert h1.blocks - {key} == h.blocks;
    assert BlocksOfAll([]) == {} && NodesOfAll([]) == {};
  }

  // ---- finishing a container ----

  /** The heap after the head's `prev` was pointed at the tail and the list was hung under `item`. */
  function Finished(h: Heap, head: Ptr, tail: Ptr, item: Ptr, kind: Kind): Heap
    requires (head != NULL ==> head in h.nodes) && item in h.nodes
  {
    var nodes := if head == NULL then h.nodes else h.nodes[head := h.nodes[head].(prev := tail)];
    h.(nodes := nodes[item := nodes[item].(kind := kind, child := head)])
  }

  lemma {:induction false} RootIsOutside(ts: seq<Tree>, i: nat, k: nat)
    requires ApartAll(ts) && i < |ts| && k < |ts|
    ensures ts[k].ptr !in NodesOfAll(ts[i].kids) && (i != k ==> ts[i].ptr != ts[k].ptr)
  {
    hide NodesOf, NodesOfAll, BlocksOf, ApartAll;
    RootAndKids(ts[k]);
    RootAndKids(ts[i]);
    if i <= k { TwoApart(ts, i, k); } else { TwoApart(ts, k, i); }
  }

  lemma {:induction false} TreeAfterFinish(h: Heap, ts: seq<Tree>, item: Ptr, kind: Kind, i: nat)
    requires OwnsList(h, ts) && ApartAll(ts) && i < |ts|
    requires item in h.nodes && item !in NodesOfAll(ts) && First(ts) in h.nodes
    ensures var h1 := Finished(h, First(ts), Last(ts), item, kind);
            && Owns(h1, ts[i]) && (forall j :: Denotes(h, ts[i], j) ==> Denotes(h1, ts[i], j))
            && ts[i].ptr in h1.nodes && h1.nodes[ts[i].ptr].next == NextOf(ts, i)
            && ts[i].ptr in h.nodes
            && h1.nodes[ts[i].ptr].prev == if i == 0 then Last(ts) else h.nodes[ts[i].ptr].prev
  {
    hide Owns, Denotes, ApartAll, NodesOf, NodesOfAll, BlocksOf;
    var h1 := Finished(h, First(ts), Last(ts), item, kind);
    OwnsIsPresent(h, ts[i]);
    NodesOfKid(ts, i);
    RootAndKids(ts[i]);
    RootIsOutside(ts, i, 0);
    FrameHere(h, h1, ts[i]);
  }

  lemma {:induction false} FinishedList(h: Heap, ts: seq<Tree>, item: Ptr, kind: Kind)
    requires OwnsList(h, ts) && ApartAll(ts) && ChainedBack(h, ts)
    requires item in h.nodes && item !in NodesOfAll(ts) && (ts != [] ==> First(ts) in h.nodes && First(ts) != NULL)
    ensures var h1 := Finished(h, First(ts), Last(ts), item, kind);
            OwnsList(h1, ts) && PrevLinked(h1, ts)
            && StillDenote(h, h1, ts)
  {
    hide Owns, Denotes, ApartAll, NodesOfAll, Finished;
    var h1 := Finished(h, First(ts), Last(ts), item, kind);
    forall i | 0 <= i < |ts|
      ensures Owns(h1, ts[i]) && ts[i].ptr in h1.nodes && h1.nodes[ts[i].ptr].next == NextOf(ts, i)
      ensures h1.nodes[ts[i].ptr].prev == if i == 0 then Last(ts) else ts[i - 1].ptr
      ensures forall j :: Denotes(h, ts[i], j) ==> Denotes(h1, ts[i], j)
    {
      TreeAfterFinish(h, ts, item, kind, i);
    }
    if ts != [] { TreeAfterFinish(h, ts, item, kind, 0); }
  }

  lemma {:induction false} FinishGrows(h0: Heap, h: Heap, head: Ptr, tail: Ptr, item: Ptr, kind: Kind, ptrs: set<Ptr>,
                       strs: set<Ptr>)
    requires Grown(h0, h, ptrs, strs) && item in h0.nodes && (head != NULL ==> head in ptrs)
    ensures item in h.nodes && item !in ptrs && h.nodes[item] == h0.nodes[item]
    ensures var h1 := Finished(h, head, tail, item, kind);
            && item in h1.nodes && h1.nodes[item] == h0.nodes[item].(kind := kind, child := head)
            && Grown(h0.(nodes := h0.nodes[item := h1.nodes[item]]), h1, ptrs, strs)
  {
    assert h0.nodes[item] == (h.nodes - ptrs)[item];
    var h1 := Finished(h, head, tail, item, kind);
    var base := h0.(nodes := h0.nodes[item := h1.nodes[item]]);
    assert (h.nodes - ptrs).Keys == h0.nodes.Keys;
    assert forall p :: p in h1.nodes - ptrs <==> p in base.nodes;
    assert forall p :: p in h0.nodes ==> h0.nodes[p] == (h.nodes - ptrs)[p];
    assert h1.nodes - ptrs == base.nodes;
  }

  /** The list holds the values of the container `j`. */
  predicate Gathered(h: Heap, ts: seq<Tree>, kind: Kind, j: Json) {
    if j.Arr? then kind == KArray && ItemsBuilt(h, ts, j.items)
    else j.Obj? && kind == KObject && MembersBuilt(h, ts, j.members)
  }

  lemma {:induction false} ContainerFilled(h0: Heap, h: Heap, ts: seq<Tree>, item: Ptr, kind: Kind, j: Json)
    requires Building(h0, h, ts) && Blank(h0, item)
    requires Gathered(h, ts, kind, j)
    ensures item in h.nodes && (ts != [] ==> First(ts) in h.nodes && First(ts) != NULL)
    ensures Filled(h0, Finished(h, First(ts), Last(ts), item, kind), item, NULL, ts, j)
  {
    hide Owns, OwnsList, Denotes, ApartAll, NodesOf, NodesOfAll;
    hide BlocksOf, BlocksOfAll, ChainedBack, Grown, PrevLinked, Finished;
    KidsPresent(h, ts);
    FirstPresent(h, ts);
    FinishGrows(h0, h, First(ts), Last(ts), item, kind, NodesOfAll(ts), BlocksOfAll(ts));
    FinishedList(h, ts, item, kind);
    FinishedRoot(h0, h, ts, item, kind, j);
    assert Own(NULL) + BlocksOfAll(ts) == BlocksOfAll(ts);
  }

  lemma {:induction false} FirstPresent(h: Heap, ts: seq<Tree>)
    requires OwnsList(h, ts)
    ensures ts != [] ==> First(ts) in h.nodes && First(ts) != NULL && First(ts) in NodesOfAll(ts)
  {
    hide Owns;
    if ts != [] {
      OwnsIsPresent(h, ts[0]);
      NodesOfKid(ts, 0);
    }
  }

  lemma {:induction false} FinishedRoot(h0: Heap, h: Heap, ts: seq<Tree>, item: Ptr, kind: Kind, j: Json)
    requires Building(h0, h, ts) && Blank(h0, item) && item in h.nodes && (ts != [] ==> First(ts) in h.nodes)
    requires Gathered(h, ts, kind, j)
    requires var h1 := Finished(h, First(ts), Last(ts), item, kind);
             && OwnsList(h1, ts) && PrevLinked(h1, ts)
             && StillDenote(h, h1, ts)
             && h1.nodes[item] == h0.nodes[item].(kind := kind, child := First(ts))
    ensures var h1 := Finished(h, First(ts), Last(ts), item, kind);
            var t := Tree(item, NULL, h0.nodes[item].name, ts);
            Owns(h1, t) && Apart(t) && Denotes(h1, t, j)
  {
    hide OwnsList, ApartAll, NodesOf, NodesOfAll, BlocksOf, BlocksOfAll, ChainedBack, PrevLinked;
    GrownFacts(h0, h, NodesOfAll(ts), BlocksOfAll(ts));
    var h1 := Finished(h, First(ts), Last(ts), item, kind);
    assert h1.blocks == h.blocks;
    GatheredStill(h, h1, ts, kind, j);
  }

  lemma {:induction false} GrownFacts(h0: Heap, h: Heap, ptrs: set<Ptr>, strs: set<Ptr>)
    requires Grown(h0, h, ptrs, strs)
    ensures h0.nodes.Keys <= h.nodes.Keys - ptrs && h0.blocks.Keys <= h.blocks.Keys - strs
  {
    assert (h.nodes - ptrs).Keys == h0.nodes.Keys && (h.blocks - strs).Keys == h0.blocks.Keys;
  }

  lemma {:induction false} GatheredStill(h: Heap, h1: Heap, ts: seq<Tree>, kind: Kind, j: Json)
    requires Gathered(h, ts, kind, j) && h1.blocks == h.blocks
    requires StillDenote(h, h1, ts)
    ensures Gathered(h1, ts, kind, j)
  {
    hide Denotes;
    if j.Arr? {
      forall i | 0 <= i < |ts| ensures Denotes(h1, ts[i], j.items[i]) {
        assert Denotes(h, ts[i], j.items[i]);
      }
    } else {
      forall i | 0 <= i < |ts|
        ensures Denotes(h1, ts[i], j.members[i].value) && HoldsString(h1, ts[i].name, j.members[i].key)
      {
        assert Denotes(h, ts[i], j.members[i].value);
      }
    }
  }

  // ---- the values gathered so far ----

  lemma {:induction false} NoneBuilt(h0: Heap, h: Heap, ts: seq<Tree>)
    requires Building(h0, h, ts) && First(ts) == NULL
    ensures h == h0
  {
    FirstPresent(h, ts);
    NothingGone(h);
  }

  lemma {:induction false} ItemsStill(h: Heap, h1: Heap, ts: seq<Tree>, items: seq<Json>)
    requires ItemsBuilt(h, ts, items)
    requires StillDenote(h, h1, ts)
    ensures ItemsBuilt(h1, ts, items)
  {
    hide Denotes;
    forall i | 0 <= i < |ts| ensures Denotes(h1, ts[i], items[i]) {
      assert Denotes(h, ts[i], items[i]);
    }
  }

  lemma {:induction false} ItemsMore(h: Heap, h1: Heap, ts: seq<Tree>, items: seq<Json>, t: Tree, v: Json)
    requires ItemsBuilt(h, ts, items) && Denotes(h1, t, v) && t.name == NULL && BareKids(t.kids, v)
    requires StillDenote(h, h1, ts)
    ensures ItemsBuilt(h1, ts + [t], items + [v])
  {
    hide Denotes;
    ItemsStill(h, h1, ts, items);
  }

  lemma {:induction false} MembersStill(h: Heap, h1: Heap, ts: seq<Tree>, members: seq<Member>)
    requires MembersBuilt(h, ts, members)
    requires StillDenote(h, h1, ts)
    requires BlocksKept(h, h1)
    ensures MembersBuilt(h1, ts, members)
  {
    hide Denotes;
    forall i | 0 <= i < |ts| ensures Denotes(h1, ts[i], members[i].value) {
      assert Denotes(h, ts[i], members[i].value);
    }
  }

  lemma {:induction false} MembersMore(h: Heap, h1: Heap, ts: seq<Tree>, members: seq<Member>, t: Tree, m: Member)
    requires MembersBuilt(h, ts, members) && Denotes(h1, t, m.value) && HoldsString(h1, t.name, m.key)
    requires BareKids(t.kids, m.value)
    requires StillDenote(h, h1, ts)
    requires BlocksKept(h, h1)
    ensures MembersBuilt(h1, ts + [t], members + [m])
  {
    hide Denotes, HoldsString;
    MembersStill(h, h1, ts, members);
  }

  predicate BlocksKept(h: Heap, h1: Heap) {
    forall b :: b in h.blocks ==> b in h1.blocks && h1.blocks[b] == h.blocks[b]
  }

  lemma {:induction false} FillKeepsBlocks(h: Heap, h1: Heap, item: Ptr, str: Ptr, kids: seq<Tree>, j: Json, key: Ptr,
                       s: CString)
    requires Filled(h, h1, item, str, kids, j) && HoldsString(h, key, s)
    ensures BlocksKept(h, h1) && HoldsString(h1, key, s)
  {
    hide Owns, Denotes, Apart, NodesOfAll, BlocksOfAll;
    var strs := Own(str) + BlocksOfAll(kids);
    assert forall b :: b in h.blocks ==> b in h1.blocks - strs && h.blocks[b] == (h1.blocks - strs)[b];
  }

  lemma {:induction false} StringInItem(h: Heap, hs: Heap, item: Ptr, key: Ptr, s: CString)
    requires GotString(h, hs, item, key, s)
    ensures item in hs.nodes && hs.nodes[item].valuestring == key
    ensures BlocksKept(h, Renamed(hs, item, key))
    ensures Renamed(hs, item, key) == hs.(nodes := hs.nodes[item := hs.nodes[item].(name := key, valuestring := NULL)])
  {
  }

  // ---- the root of a parsed tree ----

  lemma {:induction false} NewRoot(h0: Heap, h: Heap, item: Ptr)
    requires item != NULL && item !in h0.nodes && h == h0.(nodes := h0.nodes[item := ZERO_NODE])
    ensures Blank(h, item) && item in h.nodes && h.nodes[item] == ZERO_NODE
  {
  }

  lemma {:induction false} AddressesOfOne(t: Tree)
    ensures NodesOfAll([t]) == NodesOf(t) && BlocksOfAll([t]) == BlocksOf(t)
  {
    hide NodesOf, BlocksOf;
    assert [t][0] == t;
  }

  lemma {:induction false} RootOnly(h0: Heap, h: Heap, item: Ptr)
    requires item != NULL && item !in h0.nodes && h == h0.(nodes := h0.nodes[item := ZERO_NODE])
    ensures OwnsList(h, [Leaf(item, NULL)]) && ApartAll([Leaf(item, NULL)])
    ensures Without(h, NodesOfAll([Leaf(item, NULL)]), BlocksOfAll([Leaf(item, NULL)])) == h0
  {
    AddressesOfOne(Leaf(item, NULL));
    AddressesOfLeaf(item, NULL);
    assert Owns(h, Leaf(item, NULL)) && Apart(Leaf(item, NULL));
    assert h.nodes - {item} == h0.nodes && h.blocks - {} == h0.blocks;
  }

  lemma {:induction false} RootFilled(h0: Heap, h: Heap, h1: Heap, item: Ptr, str: Ptr, kids: seq<Tree>, j: Json)
    requires item != NULL && item !in h0.nodes && h == h0.(nodes := h0.nodes[item := ZERO_NODE])
    requires Filled(h, h1, item, str, kids, j)
    ensures var t := Tree(item, str, NULL, kids);
            && Grown(h0, h1, NodesOf(t), BlocksOf(t)) && OwnsList(h1, [t]) && ApartAll([t]) && Denotes(h1, t, j)
            && BareKids(kids, j)
            && Without(h1, NodesOfAll([t]), BlocksOfAll([t])) == h0
  {
    hide Owns, Denotes, Apart, NodesOfAll, BlocksOfAll;
    var t := Tree(item, str, NULL, kids);
    AddressesOfOne(t);
    assert NodesOf(t) == {item} + NodesOfAll(kids);
    assert BlocksOf(t) == Own(str) + BlocksOfAll(kids);
    RootGrown(h0, h, h1, item, NodesOfAll(kids), BlocksOf(t));
    assert forall i :: 0 <= i < 1 ==> [t][i] == t;
  }

  lemma {:induction false} RootGrown(h0: Heap, h: Heap, h1: Heap, item: Ptr, ptrs: set<Ptr>, strs: set<Ptr>)
    requires item !in h0.nodes && h == h0.(nodes := h0.nodes[item := ZERO_NODE])
    requires item in h1.nodes && Grown(h.(nodes := h.nodes[item := h1.nodes[item]]), h1, ptrs, strs)
    ensures Grown(h0, h1, {item} + ptrs, strs)
  {
    assert h1.nodes - ({item} + ptrs) == (h1.nodes - ptrs) - {item} == h0.nodes;
  }
}
