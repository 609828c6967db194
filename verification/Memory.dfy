/**
 * The C heap: cJSON nodes and byte blocks behind pointers that malloc hands out and free takes back. An
 * address that is not in the heap cannot be read, written or freed.
 */
module Memory {
  import opened Bytes
  import opened JsonTree

  type Ptr = nat

  const NULL: Ptr := 0

  datatype Kind = KInvalid | KFalse | KTrue | KNull | KNumber | KString | KArray | KObject | KRaw

  /** struct cJSON, with the two flag bits of `type` apart. `valuedouble` is a Num or a Real. */
  datatype Node = Node(
    next: Ptr, prev: Ptr, child: Ptr,
    kind: Kind, isReference: bool, stringIsConst: bool,
    valuestring: Ptr, valuedouble: Json, name: Ptr)

  const ZERO_NODE: Node := Node(NULL, NULL, NULL, KInvalid, false, false, NULL, Num(0), NULL)

  datatype Heap = Heap(nodes: map<Ptr, Node>, blocks: map<Ptr, seq<Byte>>)

  // ---- what a tree of nodes owns ----

  /** The shape of a tree in the heap: its addresses, the blocks it owns, and its children in order. */
  datatype Tree = Tree(ptr: Ptr, str: Ptr, name: Ptr, kids: seq<Tree>)

  function First(ts: seq<Tree>): Ptr {
    if ts == [] then NULL else ts[0].ptr
  }

  function NextOf(ts: seq<Tree>, i: nat): Ptr
    requires i < |ts|
  {
    if i + 1 < |ts| then ts[i + 1].ptr else NULL
  }

  function NodesOf(t: Tree): set<Ptr>
  {
    {t.ptr} + NodesOfAll(t.kids)
  }

  function NodesOfAll(ts: seq<Tree>): set<Ptr> {
    set i, p | 0 <= i < |ts| && p in NodesOf(ts[i]) :: p
  }

  function Own(p: Ptr): set<Ptr> {
    if p == NULL then {} else {p}
  }

  function BlocksOf(t: Tree): set<Ptr>
  {
    Own(t.str) + Own(t.name) + BlocksOfAll(t.kids)
  }

  function BlocksOfAll(ts: seq<Tree>): set<Ptr> {
    set i, p | 0 <= i < |ts| && p in BlocksOf(ts[i]) :: p
  }

  /** No address occurs twice. */
  predicate Apart(t: Tree) {
    && t.ptr !in NodesOfAll(t.kids)
    && (t.str != NULL ==> t.str != t.name && t.str !in BlocksOfAll(t.kids))
    && (t.name != NULL ==> t.name !in BlocksOfAll(t.kids))
    && ApartAll(t.kids)
  }

  predicate ApartAll(ts: seq<Tree>) {
    && (forall i :: 0 <= i < |ts| ==> Apart(ts[i]))
    && (forall i, j :: 0 <= i < j < |ts| ==> NodesOf(ts[i]) !! NodesOf(ts[j]))
    && (forall i, j :: 0 <= i < j < |ts| ==> BlocksOf(ts[i]) !! BlocksOf(ts[j]))
  }

  /** The fields of the root that ownership depends on. */
  predicate OwnsRoot(h: Heap, t: Tree) {
    && t.ptr != NULL && t.ptr in h.nodes
    && Own(t.str) <= h.blocks.Keys && Own(t.name) <= h.blocks.Keys
    && var n := h.nodes[t.ptr];
    && (if n.isReference then t.kids == [] && t.str == NULL
        else n.child == First(t.kids) && n.valuestring == t.str)
    && (if n.stringIsConst then t.name == NULL else n.name == t.name)
  }

  /** `t` is laid out in the heap at its addresses, children chained by `next`. */
  predicate Owns(h: Heap, t: Tree) {
    OwnsRoot(h, t) && OwnsList(h, t.kids)
  }

  /** The strings that deleting a tree frees at its root, in terms of the flags of the node. */
  lemma {:induction false} FlagsDecide(h: Heap, t: Tree)
    requires Owns(h, t)
    ensures t.ptr in h.nodes
    ensures var n := h.nodes[t.ptr];
            && (n.isReference ==> t.kids == [])
            && (!n.isReference ==> n.child == First(t.kids))
            && BlocksOf(t) == BlocksOfAll(t.kids)
                              + (if n.isReference || n.valuestring == NULL then {} else {n.valuestring})
                              + (if n.stringIsConst || n.name == NULL then {} else {n.name})
  {
  }

  predicate OwnsList(h: Heap, ts: seq<Tree>) {
    forall i :: 0 <= i < |ts| ==> Owns(h, ts[i]) && h.nodes[ts[i].ptr].next == NextOf(ts, i)
  }

  // ---- lists of children ----

  /** `prev` undoes `next`, and the head's `prev` is the tail. */
  predicate PrevLinked(h: Heap, ts: seq<Tree>) {
    && (forall i :: 0 <= i < |ts| ==> ts[i].ptr in h.nodes)
    && (forall i :: 1 <= i < |ts| ==> h.nodes[ts[i].ptr].prev == ts[i - 1].ptr)
    && (ts != [] ==> h.nodes[ts[0].ptr].prev == ts[|ts| - 1].ptr)
  }

  // ---- the value of a tree ----

  predicate HoldsString(h: Heap, p: Ptr, s: CString) {
    p != NULL && p in h.blocks && CStr(h.blocks[p]) == s && |s| < |h.blocks[p]|
  }

  /** The node and its descendants stand for the value `j`. */
  predicate Denotes(h: Heap, t: Tree, j: Json) {
    && t.ptr in h.nodes
    && var n := h.nodes[t.ptr];
    && !n.isReference && PrevLinked(h, t.kids)
    && match j
       case Null => n.kind == KNull && t.kids == [] && t.str == NULL
       case Bool(b) => n.kind == (if b then KTrue else KFalse) && t.kids == [] && t.str == NULL
       case Num(_) => n.kind == KNumber && n.valuedouble == j && t.kids == [] && t.str == NULL
       case Real(_) => n.kind == KNumber && n.valuedouble == j && t.kids == [] && t.str == NULL
       case Str(s) => n.kind == KString && HoldsString(h, t.str, s) && t.kids == []
       case Arr(items) => n.kind == KArray && t.str == NULL && DenoteItems(h, t.kids, items)
       case Obj(members) => n.kind == KObject && t.str == NULL && DenoteMembers(h, t.kids, members)
  }

  predicate DenoteItems(h: Heap, ts: seq<Tree>, items: seq<Json>) {
    |ts| == |items| && forall i :: 0 <= i < |ts| ==> Denotes(h, ts[i], items[i])
  }

  predicate DenoteMembers(h: Heap, ts: seq<Tree>, members: seq<Member>)
  {
    && |ts| == |members|
    && forall i :: 0 <= i < |ts| ==> Denotes(h, ts[i], members[i].value) && HoldsString(h, ts[i].name, members[i].key)
  }

  // ---- names ----

  /** The trees are the first children of `j` and, all the way down, no element of an array carries a name. */
  predicate BareKids(ts: seq<Tree>, j: Json) {
    && |ts| <= KidCount(j)
    && forall k :: 0 <= k < |ts| ==> (j.Arr? ==> ts[k].name == NULL) && BareKids(ts[k].kids, KidValue(j, k))
  }

  predicate IsString(h: Heap, p: Ptr) {
    p != NULL ==> p in h.blocks && |CStr(h.blocks[p])| < |h.blocks[p]|
  }

  /** Every name in the tree is a C string. */
  predicate Legible(h: Heap, t: Tree) {
    IsString(h, t.name) && forall i :: 0 <= i < |t.kids| ==> Legible(h, t.kids[i])
  }

  /** With no names on array elements, the names are the keys, which are strings. */
  lemma {:induction false} BareIsLegible(h: Heap, t: Tree, j: Json)
    requires Denotes(h, t, j) && BareKids(t.kids, j) && IsString(h, t.name)
    ensures Legible(h, t)
    decreases t
  {
    match j
    case Arr(items) =>
      forall i | 0 <= i < |t.kids| ensures Legible(h, t.kids[i]) {
        BareIsLegible(h, t.kids[i], KidValue(j, i));
      }
    case Obj(members) =>
      forall i | 0 <= i < |t.kids| ensures Legible(h, t.kids[i]) {
        BareIsLegible(h, t.kids[i], KidValue(j, i));
      }
    case _ =>
  }

  // ---- frames ----

  /** The two heaps agree on the given addresses. */
  predicate Agree(h0: Heap, h1: Heap, ptrs: set<Ptr>, strs: set<Ptr>) {
    && (forall p :: p in ptrs && p in h0.nodes ==> p in h1.nodes && h1.nodes[p] == h0.nodes[p])
    && (forall p :: p in strs && p in h0.blocks ==> p in h1.blocks && h1.blocks[p] == h0.blocks[p])
  }

  /** The node `p` has the same fields in both heaps, but for its place in a list. */
  predicate SameButLinks(h0: Heap, h1: Heap, p: Ptr) {
    p in h0.nodes ==> p in h1.nodes && h1.nodes[p].(next := NULL, prev := NULL) == h0.nodes[p].(next := NULL, prev := NULL)
  }

  lemma {:induction false} NodesOfKid(ts: seq<Tree>, i: nat)
    requires i < |ts|
    ensures NodesOf(ts[i]) <= NodesOfAll(ts) && BlocksOf(ts[i]) <= BlocksOfAll(ts) && ts[i].ptr in NodesOf(ts[i])
  {
  }

  /** A tree stays owned when nothing below its root changed. */
  lemma {:induction false} OwnsFrame(h0: Heap, h1: Heap, t: Tree)
    requires Owns(h0, t) && SameButLinks(h0, h1, t.ptr)
    requires Agree(h0, h1, NodesOfAll(t.kids), BlocksOf(t))
    ensures Owns(h1, t)
    decreases t
  {
    OwnsListFrame(h0, h1, t.kids);
  }

  lemma {:induction false} OwnsListFrame(h0: Heap, h1: Heap, ts: seq<Tree>)
    requires OwnsList(h0, ts) && Agree(h0, h1, NodesOfAll(ts), BlocksOfAll(ts))
    ensures OwnsList(h1, ts)
    decreases ts
  {
    forall i | 0 <= i < |ts|
      ensures Owns(h1, ts[i]) && h1.nodes[ts[i].ptr].next == NextOf(ts, i)
    {
      NodesOfKid(ts, i);
      OwnsFrame(h0, h1, ts[i]);
    }
  }

  /** Its value stays the same as well. */
  lemma {:induction false} DenotesFrame(h0: Heap, h1: Heap, t: Tree, j: Json)
    requires Owns(h0, t) && Denotes(h0, t, j) && SameButLinks(h0, h1, t.ptr)
    requires Agree(h0, h1, NodesOfAll(t.kids), BlocksOf(t))
    ensures Denotes(h1, t, j)
    decreases t
  {
    hide Owns, Agree, NodesOfAll, BlocksOf;
    KidsAgree(h0, h1, t);
    OwnsIsPresent(h0, t);
    match j
    case Arr(items) =>
      forall i | 0 <= i < |t.kids| ensures Denotes(h1, t.kids[i], items[i]) {
        DenotesFrame(h0, h1, t.kids[i], items[i]);
      }
    case Obj(members) =>
      forall i | 0 <= i < |t.kids|
        ensures Denotes(h1, t.kids[i], members[i].value) && HoldsString(h1, t.kids[i].name, members[i].key)
      {
        DenotesFrame(h0, h1, t.kids[i], members[i].value);
      }
    case _ =>
  }

  /** What the frame of a tree says about its children. */
  lemma {:induction false} KidsAgree(h0: Heap, h1: Heap, t: Tree)
    requires Owns(h0, t) && Agree(h0, h1, NodesOfAll(t.kids), BlocksOf(t))
    ensures t.str != NULL && t.str in h0.blocks ==> t.str in h1.blocks && h1.blocks[t.str] == h0.blocks[t.str]
    ensures forall i :: 0 <= i < |t.kids| ==>
              && Owns(h0, t.kids[i]) && SameButLinks(h0, h1, t.kids[i].ptr)
              && Agree(h0, h1, NodesOfAll(t.kids[i].kids), BlocksOf(t.kids[i]))
              && (t.kids[i].name != NULL && t.kids[i].name in h0.blocks ==>
                    t.kids[i].name in h1.blocks && h1.blocks[t.kids[i].name] == h0.blocks[t.kids[i].name])
              && t.kids[i].ptr in h1.nodes && h1.nodes[t.kids[i].ptr] == h0.nodes[t.kids[i].ptr]
  {
    forall i | 0 <= i < |t.kids|
      ensures Owns(h0, t.kids[i]) && SameButLinks(h0, h1, t.kids[i].ptr)
      ensures Agree(h0, h1, NodesOfAll(t.kids[i].kids), BlocksOf(t.kids[i]))
      ensures t.kids[i].name != NULL && t.kids[i].name in h0.blocks ==>
                t.kids[i].name in h1.blocks && h1.blocks[t.kids[i].name] == h0.blocks[t.kids[i].name]
      ensures t.kids[i].ptr in h1.nodes && h1.nodes[t.kids[i].ptr] == h0.nodes[t.kids[i].ptr]
    {
      NodesOfKid(t.kids, i);
    }
  }

  /** The heap without some of its nodes and blocks. */
  function Without(h: Heap, ptrs: set<Ptr>, strs: set<Ptr>): Heap {
    Heap(h.nodes - ptrs, h.blocks - strs)
  }

  lemma {:induction false} OwnedIsPresent(h: Heap, t: Tree)
    requires Owns(h, t)
    ensures NodesOf(t) <= h.nodes.Keys && BlocksOf(t) <= h.blocks.Keys
    decreases t
  {
    forall i | 0 <= i < |t.kids| ensures NodesOf(t.kids[i]) <= h.nodes.Keys && BlocksOf(t.kids[i]) <= h.blocks.Keys {
      OwnedIsPresent(h, t.kids[i]);
    }
  }

  lemma {:induction false} AddressesOfTwo(t: Tree, ts: seq<Tree>)
    ensures NodesOfAll([t] + ts) == NodesOf(t) + NodesOfAll(ts)
    ensures BlocksOfAll([t] + ts) == BlocksOf(t) + BlocksOfAll(ts)
  {
    var all := [t] + ts;
    assert forall i :: 0 <= i < |ts| ==> all[i + 1] == ts[i];
    assert all[0] == t;
  }

  lemma {:induction false} ApartOthers(ts: seq<Tree>)
    requires ts != [] && ApartAll(ts)
    ensures ApartAll(ts[1..]) && Apart(ts[0])
    ensures NodesOf(ts[0]) !! NodesOfAll(ts[1..]) && BlocksOf(ts[0]) !! BlocksOfAll(ts[1..])
  {
    hide Apart, NodesOf, BlocksOf;
  }

  lemma {:induction false} OwnsTail(h: Heap, ts: seq<Tree>)
    requires ts != [] && OwnsList(h, ts)
    ensures OwnsList(h, ts[1..]) && Owns(h, ts[0]) && h.nodes[ts[0].ptr].next == First(ts[1..])
  {
    hide Owns;
    var others := ts[1..];
    forall i | 0 <= i < |others|
      ensures Owns(h, others[i]) && others[i].ptr in h.nodes && h.nodes[others[i].ptr].next == NextOf(others, i)
    {
      assert others[i] == ts[i + 1];
      OwnsIsPresent(h, others[i]);
    }
    OwnsIsPresent(h, ts[0]);
  }

  /** Taking away the first tree of a list leaves the others owned. */
  lemma {:induction false} OwnsOthers(h: Heap, ts: seq<Tree>)
    requires ts != [] && OwnsList(h, ts) && ApartAll(ts)
    ensures OwnsList(Without(h, NodesOf(ts[0]), BlocksOf(ts[0])), ts[1..]) && ApartAll(ts[1..])
  {
    hide Owns, OwnsList, Apart, ApartAll, NodesOf, NodesOfAll, BlocksOf, BlocksOfAll;
    ApartOthers(ts);
    OwnsTail(h, ts);
    OwnsListFrame(h, Without(h, NodesOf(ts[0]), BlocksOf(ts[0])), ts[1..]);
  }

  lemma {:induction false} WithoutTwice(h: Heap, p1: set<Ptr>, s1: set<Ptr>, p2: set<Ptr>, s2: set<Ptr>)
    ensures Without(Without(h, p1, s1), p2, s2) == Without(h, p1 + p2, s1 + s2)
  {
    assert (h.nodes - p1) - p2 == h.nodes - (p1 + p2);
    assert (h.blocks - s1) - s2 == h.blocks - (s1 + s2);
  }

  lemma {:induction false} NothingGone(h: Heap)
    ensures Without(h, NodesOfAll([]), BlocksOfAll([])) == h
  {
    assert h.nodes - {} == h.nodes && h.blocks - {} == h.blocks;
    assert NodesOfAll([]) == {} && BlocksOfAll([]) == {};
  }

  lemma {:induction false} OwnsIsPresent(h: Heap, t: Tree)
    requires Owns(h, t)
    ensures t.ptr != NULL && t.ptr in h.nodes
  {
  }

  lemma {:induction false} NoKids(h: Heap, t: Tree)
    requires Owns(h, t) && (h.nodes[t.ptr].isReference || h.nodes[t.ptr].child == NULL)
    ensures t.kids == []
  {
    if t.kids != [] { OwnsIsPresent(h, t.kids[0]); }
  }

  lemma {:induction false} AddressesOfSnoc(ts: seq<Tree>, t: Tree)
    ensures NodesOfAll(ts + [t]) == NodesOfAll(ts) + NodesOf(t)
    ensures BlocksOfAll(ts + [t]) == BlocksOfAll(ts) + BlocksOf(t)
  {
    hide NodesOf, BlocksOf;
    var all := ts + [t];
    assert forall i :: 0 <= i < |ts| ==> all[i] == ts[i];
    assert all[|ts|] == t;
  }

  function Written(h: Heap, p: Ptr, i: nat, b: Byte): Heap
    requires p in h.blocks && i < |h.blocks[p]|
  {
    var block: seq<Byte> := h.blocks[p][..i] + [b] + h.blocks[p][i + 1..];
    h.(blocks := h.blocks[p := block])
  }

  class CHeap {
    var heap: Heap
    /** Some allocation was refused. */
    ghost var refused: bool

    constructor ()
      ensures heap == Heap(map[], map[]) && !refused
    {
      heap := Heap(map[], map[]);
      refused := false;
    }

    /** cJSON_New_Item: any address not in use, or NULL; the node is zeroed. */
    method NewItem() returns (p: Ptr)
      modifies this
      ensures p == NULL ==> heap == old(heap) && refused
      ensures p != NULL ==>
                && p !in old(heap).nodes && refused == old(refused)
                && heap == old(heap).(nodes := old(heap).nodes[p := ZERO_NODE])
    {
      p := *;
      if p == NULL || p in heap.nodes {
        p, refused := NULL, true;
      } else {
        heap := heap.(nodes := heap.nodes[p := ZERO_NODE]);
      }
    }

    /** malloc of a byte block: any address not in use, or NULL; the contents are arbitrary. */
    method Allocate(size: nat) returns (p: Ptr)
      modifies this
      ensures p == NULL ==> heap == old(heap) && refused
      ensures p != NULL ==>
                && p !in old(heap).blocks && p in heap.blocks && |heap.blocks[p]| == size && refused == old(refused)
                && heap == old(heap).(blocks := old(heap).blocks[p := heap.blocks[p]])
    {
      p := *;
      if p == NULL || p in heap.blocks {
        p, refused := NULL, true;
      } else {
        var block: seq<Byte> := seq(size, _ => NUL);
        block :| |block| == size;
        heap := heap.(blocks := heap.blocks[p := block]);
      }
    }

    /** free of a node: only of one that is in the heap, so never twice. */
    method FreeNode(p: Ptr)
      requires p in heap.nodes
      modifies this
      ensures heap == Without(old(heap), {p}, {}) && refused == old(refused)
    {
      heap := heap.(nodes := heap.nodes - {p});
      assert heap.blocks == old(heap).blocks - {};
    }

    method FreeBlock(p: Ptr)
      requires p in heap.blocks
      modifies this
      ensures heap == Without(old(heap), {}, {p}) && refused == old(refused)
    {
      heap := heap.(blocks := heap.blocks - {p});
      assert heap.nodes == old(heap).nodes - {};
    }

    /** `blocks[p][i] = b` */
    method Store(p: Ptr, i: nat, b: Byte)
      requires p in heap.blocks && i < |heap.blocks[p]|
      modifies this
      ensures heap == Written(old(heap), p, i, b) && refused == old(refused)
    {
      heap := Written(heap, p, i, b);
    }

    /** `*p = n` */
    method SetNode(p: Ptr, n: Node)
      requires p in heap.nodes
      modifies this
      ensures heap == old(heap).(nodes := old(heap).nodes[p := n]) && refused == old(refused)
    {
      heap := heap.(nodes := heap.nodes[p := n]);
    }

    /** cJSON_Delete: frees every node and block of the list exactly once, and nothing else. */
    method Delete(list: Ptr, ghost ts: seq<Tree>)
      requires list == First(ts) && OwnsList(heap, ts) && ApartAll(ts)
      modifies this
      ensures heap == Without(old(heap), NodesOfAll(ts), BlocksOfAll(ts)) && refused == old(refused)
      decreases ts
    {
      hide Owns, OwnsList, Apart, ApartAll, NodesOf, NodesOfAll, BlocksOf, BlocksOfAll, Without;
      var item := list;
      ghost var rest := ts;
      ghost var before: seq<Tree> := [];
      NothingGone(heap);
      while item != NULL
        invariant ts == before + rest && item == First(rest)
        invariant OwnsList(heap, rest) && ApartAll(rest)
        invariant heap == Without(old(heap), NodesOfAll(before), BlocksOfAll(before)) && refused == old(refused)
        decreases |rest|
      {
        OwnsTail(heap, rest);
        OwnsOthers(heap, rest);
        ApartOthers(rest);
        OwnsIsPresent(heap, rest[0]);
        assert rest[0] == ts[|before|];
        var next := heap.nodes[item].next;
        DeleteItem(item, rest[0]);
        AddressesOfSnoc(before, rest[0]);
        WithoutTwice(old(heap), NodesOfAll(before), BlocksOfAll(before), NodesOf(rest[0]), BlocksOf(rest[0]));
        before, rest := before + [rest[0]], rest[1..];
        item := next;
      }
      if rest != [] {
        OwnsTail(heap, rest);
        OwnsIsPresent(heap, rest[0]);
      }
      assert before == ts;
    }

    /** One round of the loop of cJSON_Delete. */
    method DeleteItem(item: Ptr, ghost t: Tree)
      requires item == t.ptr && Owns(heap, t) && Apart(t)
      modifies this
      ensures heap == Without(old(heap), NodesOf(t), BlocksOf(t)) && refused == old(refused)
      decreases t
    {
      hide OwnsList, ApartAll, NodesOfAll, BlocksOfAll;
      var node := heap.nodes[item];
      ghost var ptrs, strs := NodesOfAll(t.kids), BlocksOfAll(t.kids);
      NothingGone(heap);
      if !node.isReference && node.child != NULL {
        Delete(node.child, t.kids);
      } else {
        assert t.kids == [] by { NoKids(heap, t); }
      }
      assert heap == Without(old(heap), ptrs, strs);
      if !node.isReference {
        FreeString(node.valuestring);
        WithoutTwice(old(heap), ptrs, strs, {}, Own(t.str));
      }
      strs := strs + Own(t.str);
      assert heap == Without(old(heap), ptrs, strs);
      if !node.stringIsConst {
        FreeString(node.name);
        WithoutTwice(old(heap), ptrs, strs, {}, Own(t.name));
      }
      strs := strs + Own(t.name);
      FreeNode(item);
      WithoutTwice(old(heap), ptrs, strs, {item}, {});
      assert NodesOf(t) == ptrs + {item} && BlocksOf(t) == strs + {};
    }

    /** free of a string, if there is one. */
    method FreeString(p: Ptr)
      requires p != NULL ==> p in heap.blocks
      modifies this
      ensures heap == Without(old(heap), {}, Own(p)) && refused == old(refused)
    {
      if p != NULL {
        FreeBlock(p);
      } else {
        assert heap.nodes - {} == heap.nodes && heap.blocks - {} == heap.blocks;
      }
    }
  }
}
