/** The abstract tree that a cJSON node denotes. */
module JsonTree {
  import opened Bytes

  const INT_LIMIT: int := 1_000_000_000_000_000

  /** Integers that "%1.15g" prints in plain decimal. */
  type SmallInt = n: int | -INT_LIMIT < n < INT_LIMIT

  datatype Json =
    | Null
    | Bool(b: bool)
    | Num(n: SmallInt)
    | Real(lexeme: CString)   // any other double, known only by the text it was read from
    | Str(s: CString)
    | Arr(items: seq<Json>)
    | Obj(members: seq<Member>)

  datatype Member = Member(key: CString, value: Json)

  /** How many containers are open at the deepest point of the tree. */
  function Nesting(t: Json): nat {
    match t
    case Arr(items) => 1 + NestingOfItems(items)
    case Obj(members) => 1 + NestingOfMembers(members)
    case _ => 0
  }

  function NestingOfItems(items: seq<Json>): nat {
    if items == [] then 0 else Max(Nesting(items[0]), NestingOfItems(items[1..]))
  }

  function NestingOfMembers(members: seq<Member>): nat {
    if members == [] then 0 else Max(Nesting(members[0].value), NestingOfMembers(members[1..]))
  }

  /** The values directly inside a container, in order. */
  function KidCount(t: Json): nat {
    if t.Arr? then |t.items| else if t.Obj? then |t.members| else 0
  }

  function KidValue(t: Json, k: nat): (v: Json)
    requires k < KidCount(t)
    ensures v < t
  {
    if t.Arr? then t.items[k] else t.members[k].value
  }

  function Max(a: nat, b: nat): nat {
    if a < b then b else a
  }

  /** Trees whose numbers are all integers the model can print. */
  predicate Printable(t: Json) {
    match t
    case Real(_) => false
    case Arr(items) => PrintableItems(items)
    case Obj(members) => PrintableMembers(members)
    case _ => true
  }

  predicate PrintableItems(items: seq<Json>) {
    items != [] ==> Printable(items[0]) && PrintableItems(items[1..])
  }

  predicate PrintableMembers(members: seq<Member>) {
    members != [] ==> Printable(members[0].value) && PrintableMembers(members[1..])
  }
}
