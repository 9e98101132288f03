/** The stamp rules of Modified Nodal Analysis, as the amount each element
    adds to each matrix cell and each right-hand-side entry. The assembled
    system is the per-cell sum of these contributions; the dense builder, the
    older dense builder and the triplet builder are all proved against it. */
module Stamps {
  import opened Circuit

  /** `v` when `b` holds, else 0. */
  function Pick(b: bool, v: real): real {
    if b then v else 0.0
  }

  /** Matrix contribution at (r, c) of a resistor with conductance `g`
      between `p` and `m`, with the newer builder's three ground cases. */
  function ResistorCell(p: Node, m: Node, g: real, r: nat, c: nat): real {
    if p == Ground && m != Ground then
      Pick(Hit(m, r) && Hit(m, c), g)
    else if m == Ground && p != Ground then
      Pick(Hit(p, r) && Hit(p, c), g)
    else if p != Ground && m != Ground then
      Pick(Hit(p, r) && Hit(p, c), g) + Pick(Hit(m, r) && Hit(m, c), g)
      - Pick(Hit(p, r) && Hit(m, c), g) - Pick(Hit(m, r) && Hit(p, c), g)
    else
      0.0
  }

  /** Matrix contribution at (r, c) of the coupling of a voltage source or
      inductor whose auxiliary row and column is `k`. */
  function CouplingCell(p: Node, m: Node, k: nat, r: nat, c: nat): real {
    - Pick(r == k && Hit(m, c), 1.0) - Pick(Hit(m, r) && c == k, 1.0)
    + Pick(r == k && Hit(p, c), 1.0) + Pick(Hit(p, r) && c == k, 1.0)
  }

  /** Matrix contribution of a group-1 element: only resistors stamp. */
  function ContribA1(e: Element, r: nat, c: nat): real
    requires Stampable(e)
  {
    if e.kind == R then ResistorCell(NodeOf(e.plus), NodeOf(e.minus), 1.0 / e.value, r, c) else 0.0
  }

  /** Right-hand-side contribution of a group-1 element: a current source adds
      its value at its minus node and subtracts it at its plus node. */
  function ContribB1(e: Element, r: nat): real {
    if e.kind == I then Pick(Hit(NodeOf(e.minus), r), e.value) - Pick(Hit(NodeOf(e.plus), r), e.value) else 0.0
  }

  /** Matrix contribution of the group-2 element with auxiliary index `k`:
      voltage sources and inductors share the coupling stamp. */
  function ContribA2(e: Element, k: nat, r: nat, c: nat): real {
    if e.kind == V || e.kind == L then CouplingCell(NodeOf(e.plus), NodeOf(e.minus), k, r, c) else 0.0
  }

  /** Right-hand-side contribution of the group-2 element with auxiliary index
      `k`: only a voltage source, at its own row. */
  function ContribB2(e: Element, k: nat, r: nat): real {
    if e.kind == V then Pick(r == k, e.value) else 0.0
  }

  predicate AllStampable(es: seq<Element>) {
    forall e | e in es :: Stampable(e)
  }

  /** Cell (r, c) of the sum of the stamps of `es`, a prefix of group 1. */
  function MatA1(es: seq<Element>, r: nat, c: nat): real
    requires AllStampable(es)
    decreases |es|
  {
    if es == [] then 0.0 else MatA1(es[..|es| - 1], r, c) + ContribA1(es[|es| - 1], r, c)
  }

  /** Cell (r, c) of the sum of the stamps of `es`, a prefix of group 2 whose
      first element has auxiliary index `base`. */
  function MatA2(es: seq<Element>, base: nat, r: nat, c: nat): real
    decreases |es|
  {
    if es == [] then 0.0 else MatA2(es[..|es| - 1], base, r, c) + ContribA2(es[|es| - 1], base + |es| - 1, r, c)
  }

  function VecB1(es: seq<Element>, r: nat): real
    decreases |es|
  {
    if es == [] then 0.0 else VecB1(es[..|es| - 1], r) + ContribB1(es[|es| - 1], r)
  }

  function VecB2(es: seq<Element>, base: nat, r: nat): real
    decreases |es|
  {
    if es == [] then 0.0 else VecB2(es[..|es| - 1], base, r) + ContribB2(es[|es| - 1], base + |es| - 1, r)
  }

  /** One more group-1 element adds its contribution to every sum. */
  lemma Prefix1Step(es: seq<Element>, i: nat)
    requires i < |es| && AllStampable(es[..i + 1])
    ensures AllStampable(es[..i])
    ensures forall r, c :: MatA1(es[..i + 1], r, c) == MatA1(es[..i], r, c) + ContribA1(es[i], r, c)
    ensures forall r :: VecB1(es[..i + 1], r) == VecB1(es[..i], r) + ContribB1(es[i], r)
  {
    assert es[..i + 1][..i] == es[..i];
    assert es[..i + 1][i] == es[i];
  }

  /** One more group-2 element adds its contribution, at auxiliary index
      base + i, to every sum. */
  lemma Prefix2Step(es: seq<Element>, base: nat, i: nat)
    requires i < |es|
    ensures forall r, c :: MatA2(es[..i + 1], base, r, c) == MatA2(es[..i], base, r, c) + ContribA2(es[i], base + i, r, c)
    ensures forall r :: VecB2(es[..i + 1], base, r) == VecB2(es[..i], base, r) + ContribB2(es[i], base + i, r)
  {
    assert es[..i + 1][..i] == es[..i];
  }

  /** Cell (r, c) of the assembled MNA matrix. */
  function MatrixCell(group1: seq<Element>, group2: seq<Element>, totalIds: nat, r: nat, c: nat): real
    requires totalIds >= 1 && AllStampable(group1)
  {
    MatA1(group1, r, c) + MatA2(group2, totalIds - 1, r, c)
  }

  /** Entry r of the assembled right-hand side. */
  function RhsEntry(group1: seq<Element>, group2: seq<Element>, totalIds: nat, r: nat): real
    requires totalIds >= 1
  {
    VecB1(group1, r) + VecB2(group2, totalIds - 1, r)
  }

  /** The assembled right-hand side as a vector of length D. */
  function Rhs(group1: seq<Element>, group2: seq<Element>, totalIds: nat): (b: seq<real>)
    requires totalIds >= 1
    ensures |b| == Dim(group2, totalIds)
    ensures forall r | 0 <= r < |b| :: b[r] == RhsEntry(group1, group2, totalIds, r)
  {
    seq(Dim(group2, totalIds), r requires r >= 0 => RhsEntry(group1, group2, totalIds, r))
  }

  // ---------------------------------------------------------------------
  // The resistor stamp

  /** Sum of the first `cols` cells of row `r` of a resistor stamp. */
  function ResistorRowSum(p: Node, m: Node, g: real, r: nat, cols: nat): real
    decreases cols
  {
    if cols == 0 then 0.0 else ResistorRowSum(p, m, g, r, cols - 1) + ResistorCell(p, m, g, r, cols - 1)
  }

  lemma {:induction false} ResistorRowSumIs(p: Node, m: Node, g: real, r: nat, cols: nat)
    requires p != Ground && m != Ground
    ensures ResistorRowSum(p, m, g, r, cols)
         == Pick(Hit(p, r) && p.i < cols, g) + Pick(Hit(m, r) && m.i < cols, g)
          - Pick(Hit(p, r) && m.i < cols, g) - Pick(Hit(m, r) && p.i < cols, g)
    decreases cols
  {
    if cols > 0 {
      ResistorRowSumIs(p, m, g, r, cols - 1);
    }
  }

  lemma {:induction false} GroundedResistorRowSumIs(p: Node, m: Node, g: real, r: nat, cols: nat)
    requires (p == Ground) != (m == Ground)
    ensures ResistorRowSum(p, m, g, r, cols)
         == Pick((Hit(p, r) && p.i < cols) || (Hit(m, r) && m.i < cols), g)
    decreases cols
  {
    if cols > 0 {
      GroundedResistorRowSumIs(p, m, g, r, cols - 1);
    }
  }

  /** The resistor stamp: with both terminals real, +g on both diagonals and
      -g on both off-diagonals, every row summing to zero; with one terminal
      at ground, only the other's diagonal; with both at ground, nothing. It
      is symmetric and touches no cell outside the terminals' rows and
      columns. */
  lemma ResistorStamp(p: Node, m: Node, g: real, d: nat)
    requires (p.Idx? ==> p.i < d) && (m.Idx? ==> m.i < d)
    ensures forall r: nat, c: nat :: ResistorCell(p, m, g, r, c) == ResistorCell(p, m, g, c, r)
    ensures forall r: nat, c: nat :: ResistorCell(p, m, g, r, c) != 0.0 ==>
              (Hit(p, r) || Hit(m, r)) && (Hit(p, c) || Hit(m, c))
    ensures p != Ground && m != Ground && p != m ==>
              ResistorCell(p, m, g, p.i, p.i) == g && ResistorCell(p, m, g, m.i, m.i) == g &&
              ResistorCell(p, m, g, p.i, m.i) == -g && ResistorCell(p, m, g, m.i, p.i) == -g
    ensures p != Ground && m != Ground ==> forall r: nat :: ResistorRowSum(p, m, g, r, d) == 0.0
    ensures (p == Ground) != (m == Ground) ==> forall r: nat ::
              ResistorRowSum(p, m, g, r, d) == Pick(Hit(p, r) || Hit(m, r), g)
    ensures p == Ground && m == Ground ==> forall r: nat, c: nat :: ResistorCell(p, m, g, r, c) == 0.0
  {
    forall r: nat ensures p != Ground && m != Ground ==> ResistorRowSum(p, m, g, r, d) == 0.0 {
      if p != Ground && m != Ground { ResistorRowSumIs(p, m, g, r, d); }
    }
    forall r: nat ensures (p == Ground) != (m == Ground) ==>
        ResistorRowSum(p, m, g, r, d) == Pick(Hit(p, r) || Hit(m, r), g) {
      if (p == Ground) != (m == Ground) { GroundedResistorRowSumIs(p, m, g, r, d); }
    }
  }

  // ---------------------------------------------------------------------
  // Properties of the assembled system

  lemma {:induction false} MatA1Symmetric(es: seq<Element>, r: nat, c: nat)
    requires AllStampable(es)
    ensures MatA1(es, r, c) == MatA1(es, c, r)
    decreases |es|
  {
    if es != [] {
      MatA1Symmetric(es[..|es| - 1], r, c);
      var e := es[|es| - 1];
      assert e in es;
      if e.kind == R {
        ResistorStamp(NodeOf(e.plus), NodeOf(e.minus), 1.0 / e.value, e.plus + e.minus);
      }
    }
  }

  lemma {:induction false} MatA2Symmetric(es: seq<Element>, base: nat, r: nat, c: nat)
    ensures MatA2(es, base, r, c) == MatA2(es, base, c, r)
    decreases |es|
  {
    if es != [] {
      MatA2Symmetric(es[..|es| - 1], base, r, c);
    }
  }

  /** The assembled MNA matrix is symmetric: resistor stamps are, and each
      coupling entry at (k, node) is mirrored at (node, k). */
  lemma MatrixSymmetric(group1: seq<Element>, group2: seq<Element>, totalIds: nat, r: nat, c: nat)
    requires totalIds >= 1 && AllStampable(group1)
    ensures MatrixCell(group1, group2, totalIds, r, c) == MatrixCell(group1, group2, totalIds, c, r)
  {
    MatA1Symmetric(group1, r, c);
    MatA2Symmetric(group2, totalIds - 1, r, c);
  }

  /** Group-1 elements stamp nothing in an auxiliary row or column. */
  lemma {:induction false} MatA1NodeRowsOnly(es: seq<Element>, totalIds: nat, r: nat, c: nat)
    requires totalIds >= 1 && AllStampable(es)
    requires forall e | e in es :: InTable(e, totalIds)
    requires r >= totalIds - 1 || c >= totalIds - 1
    ensures MatA1(es, r, c) == 0.0
    decreases |es|
  {
    if es != [] {
      assert es[|es| - 1] in es;
      MatA1NodeRowsOnly(es[..|es| - 1], totalIds, r, c);
    }
  }

  /** Group-1 elements add nothing to an auxiliary right-hand-side entry. */
  lemma {:induction false} VecB1NodeRowsOnly(es: seq<Element>, totalIds: nat, r: nat)
    requires totalIds >= 1
    requires forall e | e in es :: InTable(e, totalIds)
    requires r >= totalIds - 1
    ensures VecB1(es, r) == 0.0
    decreases |es|
  {
    if es != [] {
      assert es[|es| - 1] in es;
      VecB1NodeRowsOnly(es[..|es| - 1], totalIds, r);
    }
  }

  /** Auxiliary row `base + k` of the group-2 right-hand side holds the value
      of element k when it is a voltage source and 0 otherwise; rows below
      `base` hold 0. */
  lemma {:induction false} VecB2Row(es: seq<Element>, base: nat, r: nat)
    ensures r < base || r >= base + |es| ==> VecB2(es, base, r) == 0.0
    ensures base <= r < base + |es| ==>
              VecB2(es, base, r) == (if es[r - base].kind == V then es[r - base].value else 0.0)
    decreases |es|
  {
    if es != [] {
      VecB2Row(es[..|es| - 1], base, r);
    }
  }

  /** The auxiliary right-hand-side entry of group-2 element k is its value
      when it is a voltage source. */
  lemma AuxRhsEntry(group1: seq<Element>, group2: seq<Element>, totalIds: nat, k: nat)
    requires WellFormed(group1, group2, totalIds) && k < |group2|
    ensures RhsEntry(group1, group2, totalIds, totalIds - 1 + k)
         == (if group2[k].kind == V then group2[k].value else 0.0)
  {
    VecB1NodeRowsOnly(group1, totalIds, totalIds - 1 + k);
    VecB2Row(group2, totalIds - 1, totalIds - 1 + k);
  }

  lemma {:induction false} VecB1WithValue(es: seq<Element>, k: nat, v: real, r: nat)
    requires k < |es|
    ensures VecB1(WithValue(es, k, v), r) == VecB1(es, r) - ContribB1(es[k], r) + ContribB1(es[k].(value := v), r)
    decreases |es|
  {
    var n := |es|;
    var es' := WithValue(es, k, v);
    if k < n - 1 {
      assert es'[..n - 1] == WithValue(es[..n - 1], k, v);
      VecB1WithValue(es[..n - 1], k, v, r);
    } else {
      assert es'[..n - 1] == es[..n - 1];
    }
  }

  lemma {:induction false} VecB2WithValue(es: seq<Element>, base: nat, k: nat, v: real, r: nat)
    requires k < |es|
    ensures VecB2(WithValue(es, k, v), base, r)
         == VecB2(es, base, r) - ContribB2(es[k], base + k, r) + ContribB2(es[k].(value := v), base + k, r)
    decreases |es|
  {
    var n := |es|;
    var es' := WithValue(es, k, v);
    if k < n - 1 {
      assert es'[..n - 1] == WithValue(es[..n - 1], k, v);
      VecB2WithValue(es[..n - 1], base, k, v, r);
    } else {
      assert es'[..n - 1] == es[..n - 1];
    }
  }

  /** Changing the value of group-1 current source k from u to v changes the
      right-hand side only at its terminals: +(v - u) at minus, -(v - u) at
      plus. */
  lemma RhsWithValue1(group1: seq<Element>, group2: seq<Element>, totalIds: nat, k: nat, v: real, r: nat)
    requires totalIds >= 1 && k < |group1| && group1[k].kind == I
    ensures RhsEntry(WithValue(group1, k, v), group2, totalIds, r)
         == RhsEntry(group1, group2, totalIds, r)
          + Pick(Hit(NodeOf(group1[k].minus), r), v - group1[k].value)
          - Pick(Hit(NodeOf(group1[k].plus), r), v - group1[k].value)
  {
    VecB1WithValue(group1, k, v, r);
  }

  /** Changing the value of group-2 voltage source k changes the right-hand
      side only at its own auxiliary row, which becomes the new value. */
  lemma RhsWithValue2(group1: seq<Element>, group2: seq<Element>, totalIds: nat, k: nat, v: real, r: nat)
    requires WellFormed(group1, group2, totalIds) && k < |group2| && group2[k].kind == V
    ensures r != totalIds - 1 + k ==>
              RhsEntry(group1, WithValue(group2, k, v), totalIds, r) == RhsEntry(group1, group2, totalIds, r)
    ensures RhsEntry(group1, WithValue(group2, k, v), totalIds, totalIds - 1 + k) == v
  {
    VecB2WithValue(group2, totalIds - 1, k, v, r);
    VecB2WithValue(group2, totalIds - 1, k, v, totalIds - 1 + k);
    var g2' := WithValue(group2, k, v);
    assert forall e | e in g2' :: InTable(e, totalIds) by {
      forall e | e in g2' ensures InTable(e, totalIds) {
        var j :| 0 <= j < |g2'| && g2'[j] == e;
        assert group2[j] in group2;
      }
    }
    AuxRhsEntry(group1, g2', totalIds, k);
  }
}
