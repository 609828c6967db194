/**
 * What the parser accepts, as functions from a NUL-free text and a position in it to a value and the position
 * after it. The terminator of the input is implicit: it stands at position |text|.
 */
module Grammar {
  import opened Bytes
  import opened JsonTree
  import opened StringCodec
  import opened NumberCodec

  const NESTING_LIMIT: nat := 1000

  /** A value (or items, or members) that was read, and the position after it. */
  datatype ReadTree = ReadTree(value: Json, next: nat)
  datatype ReadItems = ReadItems(items: seq<Json>, next: nat)
  datatype ReadPair = ReadPair(member: Member, next: nat)
  datatype ReadMembers = ReadMembers(members: seq<Member>, next: nat)

  /** The first position at or after `i` that holds no whitespace; every byte up to 32 counts as such. */
  function SkipBlanks(text: CString, i: nat): (j: nat)
    requires i <= |text|
    ensures i <= j <= |text|
    ensures forall k :: i <= k < j ==> text[k] <= 32
    ensures j < |text| ==> text[j] > 32
    decreases |text| - i
  {
    if i == |text| || text[i] > 32 then i else SkipBlanks(text, i + 1)
  }

  function ReadValue(text: CString, i: nat, depth: nat): (x: Option<ReadTree>)
    requires i <= |text|
    ensures x.Some? ==> i < x.value.next <= |text|
    decreases |text| - i, 1
  {
    if Has(text, i, NULL_TEXT) then Some(ReadTree(Null, i + 4))
    else if Has(text, i, FALSE_TEXT) then Some(ReadTree(Bool(false), i + 5))
    else if Has(text, i, TRUE_TEXT) then Some(ReadTree(Bool(true), i + 4))
    else if At(text, i, QUOTE) then
      match ReadString(text[i..])
      case None => None
      case Some(s) => Some(ReadTree(Str(CStr(s.bytes)), i + s.consumed))
    else if i < |text| && (text[i] == MINUS || IsDigit(text[i])) then
      match ReadNumber(text[i..])
      case None => None
      case Some(n) => Some(ReadTree(n.value, i + n.consumed))
    else if At(text, i, LBRACKET) then ReadArray(text, i, depth)
    else if At(text, i, LBRACE) then ReadObject(text, i, depth)
    else None
  }

  function ReadArray(text: CString, i: nat, depth: nat): (x: Option<ReadTree>)
    requires i < |text|
    ensures x.Some? ==> i < x.value.next <= |text|
    decreases |text| - i, 0
  {
    if depth >= NESTING_LIMIT then None
    else
      var start := SkipBlanks(text, i + 1);
      if At(text, start, RBRACKET) then Some(ReadTree(Arr([]), start + 1))
      else match ReadElements(text, start, depth + 1)
           case None => None
           case Some(e) => Some(ReadTree(Arr(e.items), e.next))
  }

  /** One element with the whitespace on both sides. */
  function ReadElement(text: CString, i: nat, depth: nat): (x: Option<ReadTree>)
    requires i <= |text|
    ensures x.Some? ==> i < x.value.next <= |text|
    decreases |text| - i, 2
  {
    match ReadValue(text, SkipBlanks(text, i), depth)
    case None => None
    case Some(v) => Some(ReadTree(v.value, SkipBlanks(text, v.next)))
  }

  /** One or more elements separated by commas, and the closing bracket. */
  function ReadElements(text: CString, i: nat, depth: nat): (x: Option<ReadItems>)
    requires i <= |text|
    ensures x.Some? ==> i < x.value.next <= |text|
    decreases |text| - i, 3
  {
    match ReadElement(text, i, depth)
    case None => None
    case Some(v) =>
      if At(text, v.next, COMMA) then
        match ReadElements(text, v.next + 1, depth)
        case None => None
        case Some(e) => Some(ReadItems([v.value] + e.items, e.next))
      else if At(text, v.next, RBRACKET) then Some(ReadItems([v.value], v.next + 1))
      else None
  }

  function ReadObject(text: CString, i: nat, depth: nat): (x: Option<ReadTree>)
    requires i < |text|
    ensures x.Some? ==> i < x.value.next <= |text|
    decreases |text| - i, 0
  {
    if depth >= NESTING_LIMIT then None
    else
      var start := SkipBlanks(text, i + 1);
      if At(text, start, RBRACE) then Some(ReadTree(Obj([]), start + 1))
      else match ReadEntries(text, start, depth + 1)
           case None => None
           case Some(e) => Some(ReadTree(Obj(e.members), e.next))
  }

  /** A key read from the input: the bytes of its block, and the position of the value. */
  datatype ReadName = ReadName(bytes: seq<Byte>, next: nat)

  /** A key and a colon with the whitespace around them. */
  function ReadKey(text: CString, i: nat): (x: Option<ReadName>)
    requires i <= |text|
    ensures x.Some? ==> i < x.value.next <= |text|
  {
    var start := SkipBlanks(text, i);
    match ReadString(text[start..])
    case None => None
    case Some(k) =>
      var colon := SkipBlanks(text, start + k.consumed);
      if At(text, colon, COLON) then Some(ReadName(k.bytes, SkipBlanks(text, colon + 1))) else None
  }

  /** One entry with the whitespace on both sides. */
  function ReadEntry(text: CString, i: nat, depth: nat): (x: Option<ReadPair>)
    requires i <= |text|
    ensures x.Some? ==> i < x.value.next <= |text|
    decreases |text| - i, 2
  {
    match ReadKey(text, i)
    case None => None
    case Some(k) =>
      match ReadValue(text, k.next, depth)
      case None => None
      case Some(v) => Some(ReadPair(Member(CStr(k.bytes), v.value), SkipBlanks(text, v.next)))
  }

  /** One or more entries separated by commas, and the closing brace. */
  function ReadEntries(text: CString, i: nat, depth: nat): (x: Option<ReadMembers>)
    requires i <= |text|
    ensures x.Some? ==> i < x.value.next <= |text|
    decreases |text| - i, 3
  {
    match ReadEntry(text, i, depth)
    case None => None
    case Some(p) =>
      if At(text, p.next, COMMA) then
        match ReadEntries(text, p.next + 1, depth)
        case None => None
        case Some(e) => Some(ReadMembers([p.member] + e.members, e.next))
      else if At(text, p.next, RBRACE) then Some(ReadMembers([p.member], p.next + 1))
      else None
  }

  /** The length of the byte order mark that is skipped; a text of nothing else keeps it. */
  function MarkLength(text: CString): (n: nat)
    ensures n <= |text|
  {
    if |text| >= 4 && text[0] == 0xEF && text[1] == 0xBB && text[2] == 0xBF then 3 else 0
  }

  /** cJSON_ParseWithOpts on a C string: the tree, and where reading stopped. */
  function ReadText(text: CString, requireEnd: bool): (x: Option<ReadTree>)
    ensures x.Some? ==> x.value.next <= |text|
  {
    match ReadValue(text, SkipBlanks(text, MarkLength(text)), 0)
    case None => None
    case Some(v) =>
      if !requireEnd then Some(v)
      else if SkipBlanks(text, v.next) == |text| then Some(ReadTree(v.value, |text|))
      else None
  }

  // ---- reading a list from its first element on ----

  function PrependItems(items: seq<Json>, x: Option<ReadItems>): Option<ReadItems> {
    match x
    case None => None
    case Some(e) => Some(ReadItems(items + e.items, e.next))
  }

  function PrependMembers(members: seq<Member>, x: Option<ReadMembers>): Option<ReadMembers> {
    match x
    case None => None
    case Some(e) => Some(ReadMembers(members + e.members, e.next))
  }

  lemma {:induction false} PrependNothing(x: Option<ReadItems>, y: Option<ReadMembers>)
    ensures PrependItems([], x) == x && PrependMembers([], y) == y
  {
    if x.Some? { assert [] + x.value.items == x.value.items; }
    if y.Some? { assert [] + y.value.members == y.value.members; }
  }

  lemma {:induction false} ElementMissing(text: CString, i: nat, depth: nat, items: seq<Json>)
    requires i <= |text|
    ensures ReadElement(text, i, depth) == None ==> PrependItems(items, ReadElements(text, i, depth)) == None
  {
    hide ReadElement;
  }

  lemma {:induction false} ElementRead(text: CString, i: nat, depth: nat, items: seq<Json>, v: Json, next: nat)
    requires i <= |text| && ReadElement(text, i, depth) == Some(ReadTree(v, next)) && next <= |text|
    ensures PrependItems(items, ReadElements(text, i, depth)) ==
            if At(text, next, COMMA) then PrependItems(items + [v], ReadElements(text, next + 1, depth))
            else if At(text, next, RBRACKET) then Some(ReadItems(items + [v], next + 1)) else None
  {
    hide ReadElement;
    if At(text, next, COMMA) && ReadElements(text, next + 1, depth).Some? {
      var e := ReadElements(text, next + 1, depth).value;
      assert items + ([v] + e.items) == (items + [v]) + e.items;
    }
  }

  lemma {:induction false} EntryMissing(text: CString, i: nat, depth: nat, members: seq<Member>)
    requires i <= |text|
    ensures ReadEntry(text, i, depth) == None ==> PrependMembers(members, ReadEntries(text, i, depth)) == None
  {
    hide ReadEntry;
  }

  lemma {:induction false} EntryRead(text: CString, i: nat, depth: nat, members: seq<Member>, m: Member, next: nat)
    requires i <= |text| && ReadEntry(text, i, depth) == Some(ReadPair(m, next)) && next <= |text|
    ensures PrependMembers(members, ReadEntries(text, i, depth)) ==
            if At(text, next, COMMA) then PrependMembers(members + [m], ReadEntries(text, next + 1, depth))
            else if At(text, next, RBRACE) then Some(ReadMembers(members + [m], next + 1)) else None
  {
    hide ReadEntry;
    if At(text, next, COMMA) && ReadEntries(text, next + 1, depth).Some? {
      var e := ReadEntries(text, next + 1, depth).value;
      assert members + ([m] + e.members) == (members + [m]) + e.members;
    }
  }

  // ---- accepted trees are never nested more than a thousand deep ----

  lemma {:induction false} AcceptedNesting(text: CString, i: nat, depth: nat)
    requires i <= |text| && depth <= 1000 && ReadValue(text, i, depth).Some?
    ensures depth + Nesting(ReadValue(text, i, depth).value.value) <= 1000
    decreases |text| - i, 1
  {
    hide ReadString, ReadNumber, ReadElements, ReadEntries;
    match ReadValue(text, i, depth).value.value
    case Arr(items) =>
      if items != [] { AcceptedNestingOfItems(text, SkipBlanks(text, i + 1), depth + 1); }
    case Obj(members) =>
      if members != [] { AcceptedNestingOfMembers(text, SkipBlanks(text, i + 1), depth + 1); }
    case _ =>
  }

  lemma {:induction false} AcceptedNestingOfItems(text: CString, i: nat, depth: nat)
    requires i <= |text| && depth <= NESTING_LIMIT && ReadElements(text, i, depth).Some?
    ensures depth + NestingOfItems(ReadElements(text, i, depth).value.items) <= NESTING_LIMIT
    decreases |text| - i, 2
  {
    hide ReadValue;
    AcceptedNesting(text, SkipBlanks(text, i), depth);
    var v := ReadElement(text, i, depth).value;
    if At(text, v.next, COMMA) {
      AcceptedNestingOfItems(text, v.next + 1, depth);
    }
  }

  lemma {:induction false} AcceptedNestingOfMembers(text: CString, i: nat, depth: nat)
    requires i <= |text| && depth <= NESTING_LIMIT && ReadEntries(text, i, depth).Some?
    ensures depth + NestingOfMembers(ReadEntries(text, i, depth).value.members) <= NESTING_LIMIT
    decreases |text| - i, 2
  {
    hide ReadValue, ReadKey;
    AcceptedNesting(text, ReadKey(text, i).value.next, depth);
    var p := ReadEntry(text, i, depth).value;
    if At(text, p.next, COMMA) {
      AcceptedNestingOfMembers(text, p.next + 1, depth);
    }
  }
}
