/** The element lists and node table the MNA builder consumes. */
module Circuit {

  /** A node's matrix index. The source subtracts 1 from an unsigned node
      identifier and treats the wrapped value of ground (identifier 0) as
      "no row"; here ground is an explicit case. */
  datatype Node = Ground | Idx(i: nat)

  /** Matrix index of node identifier `id` (`id - 1`, ground excluded). */
  function NodeOf(id: nat): (n: Node)
    ensures n == Ground <==> id == 0
    ensures n.Idx? ==> n.i + 1 == id
  {
    if id == 0 then Ground else Idx(id - 1)
  }

  /** True when node `n` is the real row/column `r`. */
  predicate Hit(n: Node, r: nat) {
    n == Idx(r)
  }

  /** Element type tags; any other tag value is `Unknown`. */
  datatype Kind = R | I | C | V | L | Unknown(tag: int)

  /** One circuit element of either list: type, name without its type
      letter, terminal identifiers, present value and operating-point value. */
  datatype Element = Element(kind: Kind, name: string, plus: nat, minus: nat, value: real, opPoint: real)

  /** Tags the group-1 switch handles: R, I and C. */
  predicate RecognisedInGroup1(k: Kind) {
    k == R || k == I || k == C
  }

  /** Tags the group-2 switch handles: V and L, and I, R, C as no-ops. */
  predicate RecognisedInGroup2(k: Kind) {
    k == V || k == L || k == I || k == R || k == C
  }

  /** Both terminals are identifiers of the node table. */
  predicate InTable(e: Element, totalIds: nat) {
    e.plus < totalIds && e.minus < totalIds
  }

  /** A resistor's conductance 1/value is a real number. */
  predicate Stampable(e: Element) {
    e.kind == R ==> e.value != 0.0
  }

  /** What the builders assume of their input: the node table holds at least
      ground, every terminal is in the table, and no group-1 resistor has
      value 0 (the source would stamp an infinite conductance). */
  predicate WellFormed(group1: seq<Element>, group2: seq<Element>, totalIds: nat) {
    && totalIds >= 1
    && (forall e | e in group1 :: InTable(e, totalIds) && Stampable(e))
    && (forall e | e in group2 :: InTable(e, totalIds))
  }

  /** The system dimension `team2_list.size + total_ids - 1`. */
  function Dim(group2: seq<Element>, totalIds: nat): (d: nat)
    requires totalIds >= 1
    ensures d + 1 == |group2| + totalIds
  {
    |group2| + totalIds - 1
  }

  /** C `toupper` on ASCII letters. */
  function Upper(c: char): (u: char)
    ensures 'a' <= c <= 'z' ==> u as int == c as int - 32
    ensures !('a' <= c <= 'z') ==> u == c
  {
    if 'a' <= c <= 'z' then (c as int - 32) as char else c
  }

  /** The element of a list with one value replaced, as the sweep does with
      `var->value = j`. */
  function WithValue(es: seq<Element>, k: nat, v: real): (r: seq<Element>)
    requires k < |es|
    ensures |r| == |es| && r[k].value == v
    ensures r[k] == es[k].(value := v)
    ensures forall j | 0 <= j < |es| && j != k :: r[j] == es[j]
  {
    es[k := es[k].(value := v)]
  }

  lemma AppendAssoc<T>(x: seq<T>, y: seq<T>, z: seq<T>)
    ensures (x + y) + z == x + (y + z)
  {
  }
}
