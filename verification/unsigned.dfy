/** How the C code encodes ground: node indices are `unsigned long`, ground's
    identifier 0 minus 1 wraps to the largest value, and `(idx + 1) != 0`
    tests for a real node. This module relates that encoding to `Node` and
    records the two places where an unguarded wrapped index is used. */
module Unsigned {
  import opened Circuit

  /** 2^64, the modulus of `unsigned long`. */
  const WORD: nat := 0x1_0000_0000_0000_0000

  /** Reduction into `unsigned long`. */
  function Wrap(x: int): (w: nat)
    ensures w < WORD
  {
    x % WORD
  }

  /** `node->id - 1` computed in `unsigned long`. */
  function RawIndex(id: nat): nat
    requires id < WORD
  {
    Wrap(id - 1)
  }

  /** The test `(idx + 1) != 0` holds exactly for real nodes, and then the
      raw index is the node's matrix index; ground's raw index is 2^64 - 1. */
  lemma GroundTest(id: nat)
    requires id < WORD
    ensures (Wrap(RawIndex(id) + 1) != 0) <==> NodeOf(id) != Ground
    ensures NodeOf(id) != Ground ==> RawIndex(id) == NodeOf(id).i
    ensures NodeOf(id) == Ground ==> RawIndex(id) == WORD - 1
  {
  }

  /** The offset mna.c:62 writes for a resistor whose plus node is ground:
      `node_minus_idx * D + node_minus_idx` in `unsigned long`. */
  function LegacyMinusDiagonalOffset(minusId: nat, d: nat): nat
    requires minusId < WORD
  {
    Wrap(RawIndex(minusId) * d + RawIndex(minusId))
  }

  /** `R 0 0 <value>` in a circuit with one other node (D = 1): mna.c:62
      writes at offset 2^64 - 2 of a one-cell matrix. */
  lemma LegacyGroundedResistorOutOfRange()
    ensures LegacyMinusDiagonalOffset(0, 1) == WORD - 2
    ensures LegacyMinusDiagonalOffset(0, 1) >= 1 * 1
  {
  }

  /** The right-hand-side offsets src/mna/mna.c:628-633 write for a group-1
      source in the sparse sweep, as written: each `if` guards only the next
      statement, so the `-= j` and `+= j` lines run for ground too. */
  function UnbracedSparseWrites(plusId: nat, minusId: nat): (w: seq<nat>)
    requires plusId < WORD && minusId < WORD
    ensures forall i | 0 <= i < |w| :: w[i] < WORD
    ensures RawIndex(plusId) in w && RawIndex(minusId) in w
    ensures plusId == 0 || minusId == 0 ==> WORD - 1 in w
    ensures |w| == 4 - (if plusId == 0 then 1 else 0) - (if minusId == 0 then 1 else 0)
  {
    GroundTest(plusId);
    GroundTest(minusId);
    (if Wrap(RawIndex(plusId) + 1) != 0 then [RawIndex(plusId)] else [])
    + [RawIndex(plusId)]
    + (if Wrap(RawIndex(minusId) + 1) != 0 then [RawIndex(minusId)] else [])
    + [RawIndex(minusId)]
  }

  /** A current source from ground into node 1 (`I1 0 1 <value>`), swept in
      sparse mode with D = 1: the vector of length 1 is written at offset
      2^64 - 1. */
  lemma UnbracedSparseWritesGround()
    ensures WORD - 1 in UnbracedSparseWrites(0, 1)
    ensures WORD - 1 >= 1
  {
    assert UnbracedSparseWrites(0, 1)[0] == WORD - 1;
  }
}
