/**
 * What a tree of nodes says to code that only reads it. Nobody has to own anything: references, constant keys and
 * shared nodes read like any others.
 */
module Reading {
  import opened Bytes
  import opened JsonTree
  import opened Memory

  function KindOf(j: Json): Kind {
    match j
    case Null => KNull
    case Bool(b) => if b then KTrue else KFalse
    case Num(_) => KNumber
    case Real(_) => KNumber
    case Str(_) => KString
    case Arr(_) => KArray
    case Obj(_) => KObject
  }

  /** A string field; where `nulls` are allowed, NULL stands for the empty string. */
  predicate Spells(h: Heap, p: Ptr, s: CString, nulls: bool) {
    if p == NULL then nulls && s == [] else HoldsString(h, p, s)
  }

  /** The nodes follow each other by `next`, and the last one has none. */
  predicate Listed(h: Heap, ts: seq<Tree>) {
    forall i :: 0 <= i < |ts| ==>
      ts[i].ptr != NULL && ts[i].ptr in h.nodes && h.nodes[ts[i].ptr].next == NextOf(ts, i)
  }

  /** The node at the root of `t` and what hangs below it read as `j`. */
  predicate Reads(h: Heap, t: Tree, j: Json, nulls: bool)
    decreases t, 0
  {
    && t.ptr != NULL && t.ptr in h.nodes
    && var n := h.nodes[t.ptr];
    && n.kind == KindOf(j)
    && (j.Num? || j.Real? ==> n.valuedouble == j)
    && (j.Str? ==> Spells(h, n.valuestring, j.s, nulls))
    && (j.Arr? ==> n.child == First(t.kids) && ReadsItems(h, t.kids, j.items, nulls))
    && (j.Obj? ==> n.child == First(t.kids) && ReadsMembers(h, t.kids, j.members, nulls))
  }

  predicate ReadsItems(h: Heap, ts: seq<Tree>, items: seq<Json>, nulls: bool)
    decreases ts, 1
  {
    Listed(h, ts) && |ts| == |items| && forall i :: 0 <= i < |ts| ==> Reads(h, ts[i], items[i], nulls)
  }

  predicate ReadsMembers(h: Heap, ts: seq<Tree>, members: seq<Member>, nulls: bool)
    decreases ts, 1
  {
    && Listed(h, ts) && |ts| == |members|
    && forall i :: 0 <= i < |ts| ==>
         && Reads(h, ts[i], members[i].value, nulls)
         && ts[i].ptr in h.nodes && Spells(h, h.nodes[ts[i].ptr].name, members[i].key, nulls)
  }

  /** The type of a node says what kind of value it is. */
  lemma {:induction false} TypeOfANode(h: Heap, t: Tree, j: Json, nulls: bool)
    requires Reads(h, t, j, nulls)
    ensures t.ptr in h.nodes
    ensures match h.nodes[t.ptr].kind
            case KFalse => j == Bool(false)
            case KTrue => j == Bool(true)
            case KNull => j == Null
            case KNumber => j == h.nodes[t.ptr].valuedouble && (j.Num? || j.Real?)
            case KString => j.Str?
            case KArray => j.Arr?
            case KObject => j.Obj?
            case _ => false
  {
  }

  lemma {:induction false} ReadsIsPresent(h: Heap, t: Tree, j: Json, nulls: bool)
    requires Reads(h, t, j, nulls)
    ensures t.ptr != NULL && t.ptr in h.nodes && h.nodes[t.ptr].kind == KindOf(j)
  {
  }

  lemma {:induction false} ReadsArray(h: Heap, t: Tree, items: seq<Json>, nulls: bool)
    requires Reads(h, t, Arr(items), nulls)
    ensures t.ptr in h.nodes && h.nodes[t.ptr].child == First(t.kids) && ReadsItems(h, t.kids, items, nulls)
  {
  }

  lemma {:induction false} ReadsObject(h: Heap, t: Tree, members: seq<Member>, nulls: bool)
    requires Reads(h, t, Obj(members), nulls)
    ensures t.ptr in h.nodes && h.nodes[t.ptr].child == First(t.kids) && ReadsMembers(h, t.kids, members, nulls)
  {
  }

  lemma {:induction false} ListedAt(h: Heap, ts: seq<Tree>, i: nat)
    requires Listed(h, ts) && i < |ts|
    ensures ts[i].ptr != NULL && ts[i].ptr in h.nodes && First(ts[i..]) == ts[i].ptr
    ensures h.nodes[ts[i].ptr].next == First(ts[i + 1..]) == (if i + 1 < |ts| then ts[i + 1].ptr else NULL)
    ensures h.nodes[ts[i].ptr].next != NULL <==> i + 1 < |ts|
  {
    if i + 1 < |ts| { assert ts[i + 1].ptr != NULL; }
  }

  lemma {:induction false} ListedFirst(h: Heap, ts: seq<Tree>)
    requires Listed(h, ts)
    ensures First(ts) == NULL <==> ts == []
  {
  }

  /** A tree that is owned reads as the value it denotes. */
  lemma {:induction false} OwnedReads(h: Heap, t: Tree, j: Json, nulls: bool)
    requires Owns(h, t) && Denotes(h, t, j)
    ensures Reads(h, t, j, nulls)
    decreases t, 1
  {
    match j
    case Arr(items) => OwnedReadsItems(h, t, items, nulls);
    case Obj(members) => OwnedReadsMembers(h, t, members, nulls);
    case _ =>
  }

  lemma {:induction false} OwnedReadsItems(h: Heap, t: Tree, items: seq<Json>, nulls: bool)
    requires Owns(h, t) && DenoteItems(h, t.kids, items)
    ensures ReadsItems(h, t.kids, items, nulls)
    decreases t, 0
  {
    hide Owns, Denotes, Reads;
    OwnedListed(h, t);
    OwnedKids(h, t);
    forall i | 0 <= i < |t.kids| ensures Reads(h, t.kids[i], items[i], nulls) {
      OwnedReads(h, t.kids[i], items[i], nulls);
    }
  }

  lemma {:induction false} OwnedReadsMembers(h: Heap, t: Tree, members: seq<Member>, nulls: bool)
    requires Owns(h, t) && DenoteMembers(h, t.kids, members)
    ensures ReadsMembers(h, t.kids, members, nulls)
    decreases t, 0
  {
    hide Owns, Denotes, Reads;
    OwnedListed(h, t);
    OwnedKids(h, t);
    forall i | 0 <= i < |t.kids|
      ensures Reads(h, t.kids[i], members[i].value, nulls)
      ensures t.kids[i].ptr in h.nodes && Spells(h, h.nodes[t.kids[i].ptr].name, members[i].key, nulls)
    {
      OwnedReads(h, t.kids[i], members[i].value, nulls);
      OwnedName(h, t.kids[i], members[i].key);
    }
  }

  lemma {:induction false} OwnedListed(h: Heap, t: Tree)
    requires Owns(h, t)
    ensures Listed(h, t.kids)
  {
    hide Owns, OwnsRoot;
    OwnedKids(h, t);
    forall i | 0 <= i < |t.kids|
      ensures t.kids[i].ptr != NULL && t.kids[i].ptr in h.nodes && h.nodes[t.kids[i].ptr].next == NextOf(t.kids, i)
    {
      OwnsIsPresent(h, t.kids[i]);
    }
  }

  lemma {:induction false} OwnedKids(h: Heap, t: Tree)
    requires Owns(h, t)
    ensures OwnsList(h, t.kids)
  {
  }

  lemma {:induction false} OwnedName(h: Heap, t: Tree, key: CString)
    requires Owns(h, t) && HoldsString(h, t.name, key)
    ensures t.ptr in h.nodes && h.nodes[t.ptr].name == t.name
  {
  }

  // ---- a node reads in one way only ----

  lemma {:induction false} SpellsOne(h: Heap, p: Ptr, s: CString, t: CString)
    requires Spells(h, p, s, false) && Spells(h, p, t, false)
    ensures s == t
  {
  }

  /** Two lists from the same node on are the same nodes. */
  lemma {:induction false} SameList(h: Heap, ts: seq<Tree>, us: seq<Tree>, i: nat)
    requires Listed(h, ts) && Listed(h, us) && First(ts) == First(us) && i < |ts|
    ensures i < |us| && us[i].ptr == ts[i].ptr
  {
    if i == 0 {
      ListedFirst(h, ts);
      ListedFirst(h, us);
    } else {
      SameList(h, ts, us, i - 1);
      ListedAt(h, ts, i - 1);
      ListedAt(h, us, i - 1);
    }
  }

  lemma {:induction false} SameLength(h: Heap, ts: seq<Tree>, us: seq<Tree>)
    requires Listed(h, ts) && Listed(h, us) && First(ts) == First(us)
    ensures |ts| == |us| && forall i :: 0 <= i < |ts| ==> us[i].ptr == ts[i].ptr
  {
    forall i | 0 <= i < |ts| ensures i < |us| && us[i].ptr == ts[i].ptr {
      SameList(h, ts, us, i);
    }
    if us != [] { SameList(h, us, ts, |us| - 1); }
    if ts != [] { SameList(h, ts, us, |ts| - 1); }
  }

  lemma {:induction false} ReadsOne(h: Heap, t: Tree, u: Tree, v: Json, w: Json)
    requires Reads(h, t, v, false) && Reads(h, u, w, false) && t.ptr == u.ptr
    ensures v == w
    decreases t
  {
    match v
    case Str(s) => SpellsOne(h, h.nodes[t.ptr].valuestring, s, w.s);
    case Arr(items) =>
      SameLength(h, t.kids, u.kids);
      forall i | 0 <= i < |items| ensures items[i] == w.items[i] {
        ReadsOne(h, t.kids[i], u.kids[i], items[i], w.items[i]);
      }
      assert items == w.items;
    case Obj(members) =>
      SameLength(h, t.kids, u.kids);
      forall i | 0 <= i < |members| ensures members[i] == w.members[i] {
        ReadsOne(h, t.kids[i], u.kids[i], members[i].value, w.members[i].value);
        SpellsOne(h, h.nodes[t.kids[i].ptr].name, members[i].key, w.members[i].key);
      }
      assert members == w.members;
    case _ =>
  }
}
