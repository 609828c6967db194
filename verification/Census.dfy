/** How many allocations a tree holds. */
module Census {
  import opened Bytes
  import opened JsonTree
  import opened Memory
  import opened Builder

  /** One for every value. */
  function NodeCount(j: Json): nat {
    match j
    case Arr(items) => 1 + NodeCountItems(items)
    case Obj(members) => 1 + NodeCountMembers(members)
    case _ => 1
  }

  function NodeCountItems(items: seq<Json>): nat {
    if items == [] then 0 else NodeCount(items[0]) + NodeCountItems(items[1..])
  }

  function NodeCountMembers(members: seq<Member>): nat {
    if members == [] then 0 else NodeCount(members[0].value) + NodeCountMembers(members[1..])
  }

  /** One for every string and one for every name of a member. */
  function StringCount(j: Json): nat {
    match j
    case Str(_) => 1
    case Arr(items) => StringCountItems(items)
    case Obj(members) => StringCountMembers(members)
    case _ => 0
  }

  function StringCountItems(items: seq<Json>): nat {
    if items == [] then 0 else StringCount(items[0]) + StringCountItems(items[1..])
  }

  function StringCountMembers(members: seq<Member>): nat {
    if members == [] then 0 else 1 + StringCount(members[0].value) + StringCountMembers(members[1..])
  }

  /** One for every `valuestring` and every `string` that is not NULL. */
  function StringFields(t: Tree): nat {
    (if t.str == NULL then 0 else 1) + (if t.name == NULL then 0 else 1) + StringFieldsAll(t.kids)
  }

  function StringFieldsAll(ts: seq<Tree>): nat {
    if ts == [] then 0 else StringFields(ts[0]) + StringFieldsAll(ts[1..])
  }

  lemma {:induction false} Disjoint(a: set<Ptr>, b: set<Ptr>)
    requires a !! b
    ensures |a + b| == |a| + |b|
  {
  }

  lemma {:induction false} BlocksCounted(t: Tree)
    requires Apart(t)
    ensures |BlocksOf(t)| == StringFields(t)
    decreases t, 0
  {
    AllBlocksCounted(t.kids);
    Disjoint(Own(t.str), Own(t.name));
    Disjoint(Own(t.str) + Own(t.name), BlocksOfAll(t.kids));
  }

  lemma {:induction false} AllBlocksCounted(ts: seq<Tree>)
    requires ApartAll(ts)
    ensures |BlocksOfAll(ts)| == StringFieldsAll(ts)
    decreases ts
  {
    hide Apart, BlocksOf, BlocksOfAll, StringFields;
    if ts == [] {
      NoAddresses();
    } else {
      ApartOthers(ts);
      AddressesOfTwo(ts[0], ts[1..]);
      assert ts == [ts[0]] + ts[1..];
      BlocksCounted(ts[0]);
      AllBlocksCounted(ts[1..]);
      Disjoint(BlocksOf(ts[0]), BlocksOfAll(ts[1..]));
    }
  }

  lemma {:induction false} NoAddresses()
    ensures NodesOfAll([]) == {} && BlocksOfAll([]) == {}
  {
  }

  /** One node per value. */
  lemma {:induction false} NodesCounted(h: Heap, t: Tree, j: Json)
    requires Denotes(h, t, j) && Apart(t)
    ensures |NodesOf(t)| == NodeCount(j)
    decreases t, 0
  {
    match j
    case Arr(items) => ItemsCounted(h, t.kids, items);
    case Obj(members) => MembersCounted(h, t.kids, members);
    case _ => NoAddresses();
  }

  lemma {:induction false} ItemsCounted(h: Heap, ts: seq<Tree>, items: seq<Json>)
    requires DenoteItems(h, ts, items) && ApartAll(ts)
    ensures |NodesOfAll(ts)| == NodeCountItems(items)
    decreases ts
  {
    hide Apart, NodesOf, NodesOfAll, Denotes, NodeCount;
    if ts == [] {
      NoAddresses();
    } else {
      ApartOthers(ts);
      AddressesOfTwo(ts[0], ts[1..]);
      assert ts == [ts[0]] + ts[1..];
      NodesCounted(h, ts[0], items[0]);
      ItemsCounted(h, ts[1..], items[1..]);
      Disjoint(NodesOf(ts[0]), NodesOfAll(ts[1..]));
    }
  }

  lemma {:induction false} MembersCounted(h: Heap, ts: seq<Tree>, members: seq<Member>)
    requires DenoteMembers(h, ts, members) && ApartAll(ts)
    ensures |NodesOfAll(ts)| == NodeCountMembers(members)
    decreases ts
  {
    hide Apart, NodesOf, NodesOfAll, Denotes, NodeCount, HoldsString;
    if ts == [] {
      NoAddresses();
    } else {
      ApartOthers(ts);
      AddressesOfTwo(ts[0], ts[1..]);
      assert ts == [ts[0]] + ts[1..];
      NodesCounted(h, ts[0], members[0].value);
      MembersCounted(h, ts[1..], members[1..]);
      Disjoint(NodesOf(ts[0]), NodesOfAll(ts[1..]));
    }
  }

  // ---- strings ----

  /** The string fields of a tree without names on array elements are those its value asks for. */
  lemma {:induction false} StringsCounted(h: Heap, t: Tree, j: Json)
    requires Denotes(h, t, j) && BareKids(t.kids, j)
    ensures StringFields(t) == StringCount(j) + (if t.name == NULL then 0 else 1)
    decreases t, 0
  {
    match j
    case Arr(items) => ItemStringsCounted(h, t.kids, items);
    case Obj(members) => MemberStringsCounted(h, t.kids, members);
    case _ =>
  }

  lemma {:induction false} ItemStringsCounted(h: Heap, ts: seq<Tree>, items: seq<Json>)
    requires DenoteItems(h, ts, items) && BareKids(ts, Arr(items))
    ensures StringFieldsAll(ts) == StringCountItems(items)
    decreases ts
  {
    hide Denotes, StringFields, StringCount;
    if ts != [] {
      BareHere(ts, Arr(items), 0);
      StringsCounted(h, ts[0], items[0]);
      BareTailOfItems(ts, items);
      ItemStringsCounted(h, ts[1..], items[1..]);
    }
  }

  lemma {:induction false} MemberStringsCounted(h: Heap, ts: seq<Tree>, members: seq<Member>)
    requires DenoteMembers(h, ts, members) && BareKids(ts, Obj(members))
    ensures StringFieldsAll(ts) == StringCountMembers(members)
    decreases ts
  {
    hide Denotes, StringFields, StringCount;
    if ts != [] {
      BareHere(ts, Obj(members), 0);
      StringsCounted(h, ts[0], members[0].value);
      BareTailOfMembers(ts, members);
      MemberStringsCounted(h, ts[1..], members[1..]);
    }
  }

  lemma {:induction false} BareHere(ts: seq<Tree>, j: Json, k: nat)
    requires BareKids(ts, j) && k < |ts|
    ensures |ts| <= KidCount(j) && (j.Arr? ==> ts[k].name == NULL) && BareKids(ts[k].kids, KidValue(j, k))
  {
  }

  lemma {:induction false} BareTailOfItems(ts: seq<Tree>, items: seq<Json>)
    requires ts != [] && items != [] && BareKids(ts, Arr(items))
    ensures BareKids(ts[1..], Arr(items[1..]))
  {
    var others, rest := ts[1..], Arr(items[1..]);
    forall k | 0 <= k < |others| ensures others[k].name == NULL && BareKids(others[k].kids, KidValue(rest, k)) {
      BareHere(ts, Arr(items), k + 1);
    }
  }

  lemma {:induction false} BareTailOfMembers(ts: seq<Tree>, members: seq<Member>)
    requires ts != [] && members != [] && BareKids(ts, Obj(members))
    ensures BareKids(ts[1..], Obj(members[1..]))
  {
    var others, rest := ts[1..], Obj(members[1..]);
    forall k | 0 <= k < |others| ensures BareKids(others[k].kids, KidValue(rest, k)) {
      BareHere(ts, Obj(members), k + 1);
    }
  }

  /**
   * What a tree that was added to the heap takes: one node per value and one block per string field. If no element
   * of an array carries a name, that is one block per string, per member and for the name of the root.
   */
  lemma {:induction false} AllocationsOfATree(h0: Heap, h1: Heap, t: Tree, j: Json)
    requires Grown(h0, h1, NodesOf(t), BlocksOf(t)) && ApartAll([t]) && Denotes(h1, t, j)
    ensures |h1.nodes| == |h0.nodes| + NodeCount(j) && |h1.blocks| == |h0.blocks| + StringFields(t)
    ensures BareKids(t.kids, j) ==>
              |h1.blocks| == |h0.blocks| + StringCount(j) + (if t.name == NULL then 0 else 1)
    ensures forall p :: p in h0.nodes ==> p in h1.nodes && h1.nodes[p] == h0.nodes[p]
    ensures forall p :: p in h0.blocks ==> p in h1.blocks && h1.blocks[p] == h0.blocks[p]
  {
    hide NodesOf, BlocksOf, Denotes, Apart, Owns, NodeCount, StringCount, StringFields, BareKids;
    assert Apart([t][0]);
    NodesCounted(h1, t, j);
    BlocksCounted(t);
    if BareKids(t.kids, j) { StringsCounted(h1, t, j); }
    Added(h0.nodes, h1.nodes, NodesOf(t));
    Added(h0.blocks, h1.blocks, BlocksOf(t));
  }

  lemma {:induction false} Added<V>(m0: map<Ptr, V>, m1: map<Ptr, V>, more: set<Ptr>)
    requires m1 - more == m0 && more <= m1.Keys
    ensures |m1| == |m0| + |more|
    ensures forall p :: p in m0 ==> p in m1 && m1[p] == m0[p]
  {
    assert m1.Keys == m0.Keys + more;
    assert |m1| == |m1.Keys| && |m0| == |m0.Keys|;
    Disjoint(m0.Keys, more);
  }
}
