/** The dense MNA builder of src/mna/mna.c: `init_MNA_system` allocates a
    zeroed D x D matrix and a zeroed vector of length D, `fill_MNA_system`
    walks both element lists and accumulates every stamp into them. */
module Dense {
  import opened Circuit
  import opened Stamps

  /** Outcome of a build: done, or the fatal "Unknown type" exit naming the
      list (1 or 2), the position and the tag that stopped it. */
  datatype BuildStatus = Built | UnknownType(list: nat, index: nat, kind: Kind)

  predicate AllRecognised1(es: seq<Element>) {
    forall j | 0 <= j < |es| :: RecognisedInGroup1(es[j].kind)
  }

  predicate AllRecognised2(es: seq<Element>) {
    forall j | 0 <= j < |es| :: RecognisedInGroup2(es[j].kind)
  }

  /** A recognised element extends a recognised prefix. */
  lemma Recognised1Step(es: seq<Element>, i: nat)
    requires i < |es| && AllRecognised1(es[..i]) && RecognisedInGroup1(es[i].kind)
    ensures AllRecognised1(es[..i + 1])
  {
    assert forall j | 0 <= j < i :: es[..i + 1][j] == es[..i][j];
  }

  /** A recognised element extends a recognised prefix. */
  lemma Recognised2Step(es: seq<Element>, i: nat)
    requires i < |es| && AllRecognised2(es[..i]) && RecognisedInGroup2(es[i].kind)
    ensures AllRecognised2(es[..i + 1])
  {
    assert forall j | 0 <= j < i :: es[..i + 1][j] == es[..i][j];
  }

  /** The status a build reports: the first unrecognised tag of group 1, else
      the first of group 2, else success. */
  ghost predicate StatusMatches(group1: seq<Element>, group2: seq<Element>, status: BuildStatus) {
    match status
    case Built => AllRecognised1(group1) && AllRecognised2(group2)
    case UnknownType(list, index, kind) =>
      || (list == 1 && index < |group1| && kind == group1[index].kind
          && !RecognisedInGroup1(kind) && AllRecognised1(group1[..index]))
      || (list == 2 && index < |group2| && kind == group2[index].kind && AllRecognised1(group1)
          && !RecognisedInGroup2(kind) && AllRecognised2(group2[..index]))
  }

  /** No group-1 resistor has both terminals at ground (`R 0 0 <value>`). */
  predicate NoGroundedResistor(group1: seq<Element>) {
    forall e | e in group1 :: e.kind == R ==> e.plus != 0 || e.minus != 0
  }

  /** The matrix `mna_array` (row-major in the source, two-dimensional
      here) and the vector `mna_vector` of one circuit. */
  class MnaSystem {
    var dim: nat
    var a: array2<real>
    var b: array<real>

    ghost predicate Valid()
      reads this
    {
      a.Length0 == dim && a.Length1 == dim && b.Length == dim
    }

    /** `init_MNA_system`: D = |group2| + totalIds - 1, matrix and vector
        all zeros. */
    constructor Init(group2: seq<Element>, totalIds: nat)
      requires totalIds >= 1
      ensures Valid() && fresh(a) && fresh(b)
      ensures dim == |group2| + totalIds - 1
      ensures forall r, c | 0 <= r < dim && 0 <= c < dim :: a[r, c] == 0.0
      ensures forall r | 0 <= r < dim :: b[r] == 0.0
    {
      dim := Dim(group2, totalIds);
      a := new real[Dim(group2, totalIds), Dim(group2, totalIds)]((_, _) => 0.0);
      b := new real[Dim(group2, totalIds)](_ => 0.0);
    }

    /** Resistor case of the group-1 switch, ground-aware. */
    method StampResistor(p: Node, m: Node, g: real)
      requires Valid() && (p.Idx? ==> p.i < dim) && (m.Idx? ==> m.i < dim)
      modifies a
      ensures forall r, c | 0 <= r < dim && 0 <= c < dim :: a[r, c] == old(a[r, c]) + ResistorCell(p, m, g, r, c)
    {
      if p == Ground && m != Ground {
        a[m.i, m.i] := a[m.i, m.i] + g;
      } else if m == Ground && p != Ground {
        a[p.i, p.i] := a[p.i, p.i] + g;
      } else if p != Ground && m != Ground {
        a[p.i, p.i] := a[p.i, p.i] + g;
        a[m.i, m.i] := a[m.i, m.i] + g;
        a[p.i, m.i] := a[p.i, m.i] - g;
        a[m.i, p.i] := a[m.i, p.i] - g;
      }
    }

    /** Current-source case: `b[m] += s`, `b[p] -= s`, ground skipped. */
    method StampCurrent(p: Node, m: Node, s: real)
      requires Valid() && (p.Idx? ==> p.i < dim) && (m.Idx? ==> m.i < dim)
      modifies b
      ensures forall r | 0 <= r < dim :: b[r] == old(b[r]) + Pick(Hit(m, r), s) - Pick(Hit(p, r), s)
    {
      if m != Ground {
        b[m.i] := b[m.i] + s;
      }
      if p != Ground {
        b[p.i] := b[p.i] - s;
      }
    }

    /** The shared voltage-source/inductor coupling at auxiliary index k. */
    method StampCoupling(p: Node, m: Node, k: nat)
      requires Valid() && (p.Idx? ==> p.i < dim) && (m.Idx? ==> m.i < dim) && k < dim
      modifies a
      ensures forall r, c | 0 <= r < dim && 0 <= c < dim :: a[r, c] == old(a[r, c]) + CouplingCell(p, m, k, r, c)
    {
      if m != Ground {
        a[k, m.i] := a[k, m.i] - 1.0;
        a[m.i, k] := a[m.i, k] - 1.0;
      }
      if p != Ground {
        a[k, p.i] := a[k, p.i] + 1.0;
        a[p.i, k] := a[p.i, k] + 1.0;
      }
    }

    /** One turn of the group-1 loop: the switch on the element's tag. */
    method StampGroup1(e: Element) returns (ok: bool)
      requires Valid() && e.plus <= dim && e.minus <= dim && Stampable(e)
      modifies a, b
      ensures ok == RecognisedInGroup1(e.kind)
      ensures ok ==> forall r, c | 0 <= r < dim && 0 <= c < dim :: a[r, c] == old(a[r, c]) + ContribA1(e, r, c)
      ensures ok ==> forall r | 0 <= r < dim :: b[r] == old(b[r]) + ContribB1(e, r)
    {
      var p, m := NodeOf(e.plus), NodeOf(e.minus);
      ok := true;
      match e.kind {
        case R =>
          StampResistor(p, m, 1.0 / e.value);
        case I =>
          StampCurrent(p, m, e.value);
        case C =>
          // ignored at DC analysis
        case _ =>
          ok := false;
      }
    }

    /** One turn of the group-2 loop for the element with auxiliary index k. */
    method StampGroup2(e: Element, k: nat) returns (ok: bool)
      requires Valid() && e.plus <= dim && e.minus <= dim && k < dim
      modifies a, b
      ensures ok == RecognisedInGroup2(e.kind)
      ensures ok ==> forall r, c | 0 <= r < dim && 0 <= c < dim :: a[r, c] == old(a[r, c]) + ContribA2(e, k, r, c)
      ensures ok ==> forall r | 0 <= r < dim :: b[r] == old(b[r]) + ContribB2(e, k, r)
    {
      var p, m := NodeOf(e.plus), NodeOf(e.minus);
      ok := true;
      match e.kind {
        case V =>
          // the voltage source adds its value, then shares the inductor stamp
          b[k] := b[k] + e.value;
          StampCoupling(p, m, k);
        case L =>
          StampCoupling(p, m, k);
        case I =>
        case R =>
        case C =>
          // kept for optional group-2 fields, stamping nothing
        case _ =>
          ok := false;
      }
    }

    /** `fill_MNA_system`: accumulates the stamps of both lists; an
        unrecognised tag stops the build. */
    method Fill(group1: seq<Element>, group2: seq<Element>, totalIds: nat) returns (status: BuildStatus)
      requires Valid() && WellFormed(group1, group2, totalIds) && dim == Dim(group2, totalIds)
      modifies a, b
      ensures StatusMatches(group1, group2, status)
      ensures status == Built ==>
        && (forall r, c | 0 <= r < dim && 0 <= c < dim ::
              a[r, c] == old(a[r, c]) + MatrixCell(group1, group2, totalIds, r, c))
        && (forall r | 0 <= r < dim :: b[r] == old(b[r]) + RhsEntry(group1, group2, totalIds, r))
    {
      var ok, bad := StampList1(group1, totalIds);
      if !ok {
        return UnknownType(1, bad, group1[bad].kind);
      }
      ok, bad := StampList2(group2, totalIds - 1);
      if !ok {
        return UnknownType(2, bad, group2[bad].kind);
      }
      status := Built;
    }

    /** The group-1 loop of `fill_MNA_system`. */
    method StampList1(group1: seq<Element>, totalIds: nat) returns (ok: bool, bad: nat)
      requires Valid() && totalIds >= 1 && totalIds - 1 <= dim
      requires forall e | e in group1 :: InTable(e, totalIds) && Stampable(e)
      modifies a, b
      ensures ok ==> AllRecognised1(group1)
      ensures !ok ==> bad < |group1| && !RecognisedInGroup1(group1[bad].kind) && AllRecognised1(group1[..bad])
      ensures ok ==> forall r, c | 0 <= r < dim && 0 <= c < dim :: a[r, c] == old(a[r, c]) + MatA1(group1, r, c)
      ensures ok ==> forall r | 0 <= r < dim :: b[r] == old(b[r]) + VecB1(group1, r)
    {
      var i := 0;
      bad := 0;
      while i < |group1|
        invariant 0 <= i <= |group1|
        invariant AllRecognised1(group1[..i]) && AllStampable(group1[..i])
        invariant forall r, c | 0 <= r < dim && 0 <= c < dim :: a[r, c] == old(a[r, c]) + MatA1(group1[..i], r, c)
        invariant forall r | 0 <= r < dim :: b[r] == old(b[r]) + VecB1(group1[..i], r)
      {
        assert group1[i] in group1;
        ok := StampGroup1(group1[i]);
        if !ok {
          return false, i;
        }
        assert group1[..i + 1] == group1[..i] + [group1[i]];
        Prefix1Step(group1, i);
        Recognised1Step(group1, i);
        i := i + 1;
      }
      assert group1[..i] == group1;
      ok := true;
    }

    /** The group-2 loop, shared by both builders; element i has auxiliary
        index `base + i`, where base = totalIds - 1. */
    method StampList2(group2: seq<Element>, base: nat) returns (ok: bool, bad: nat)
      requires Valid() && dim == |group2| + base
      requires forall e | e in group2 :: e.plus <= base && e.minus <= base
      modifies a, b
      ensures ok ==> AllRecognised2(group2)
      ensures !ok ==> bad < |group2| && !RecognisedInGroup2(group2[bad].kind) && AllRecognised2(group2[..bad])
      ensures ok ==> forall r, c | 0 <= r < dim && 0 <= c < dim :: a[r, c] == old(a[r, c]) + MatA2(group2, base, r, c)
      ensures ok ==> forall r | 0 <= r < dim :: b[r] == old(b[r]) + VecB2(group2, base, r)
    {
      var i := 0;
      bad := 0;
      while i < |group2|
        invariant 0 <= i <= |group2|
        invariant AllRecognised2(group2[..i])
        invariant forall r, c | 0 <= r < dim && 0 <= c < dim :: a[r, c] == old(a[r, c]) + MatA2(group2[..i], base, r, c)
        invariant forall r | 0 <= r < dim :: b[r] == old(b[r]) + VecB2(group2[..i], base, r)
      {
        assert group2[i] in group2;
        ok := StampGroup2(group2[i], base + i);
        if !ok {
          return false, i;
        }
        Prefix2Step(group2, base, i);
        Recognised2Step(group2, i);
        i := i + 1;
      }
      assert group2[..i] == group2;
      ok := true;
    }

    // -----------------------------------------------------------------
    // The older builder of mna.c: same loops and stamps, but its resistor
    // branch tests only "plus is ground" and "minus is ground".

    /** Resistor case of mna.c: plus at ground stamps the minus diagonal
        without checking that minus is real, so both terminals at ground
        would index outside the matrix; that input is excluded. */
    method StampResistorLegacy(p: Node, m: Node, g: real)
      requires Valid() && (p.Idx? ==> p.i < dim) && (m.Idx? ==> m.i < dim)
      requires p != Ground || m != Ground
      modifies a
      ensures forall r, c | 0 <= r < dim && 0 <= c < dim :: a[r, c] == old(a[r, c]) + ResistorCell(p, m, g, r, c)
    {
      if p == Ground {
        a[m.i, m.i] := a[m.i, m.i] + g;
      } else if m == Ground {
        a[p.i, p.i] := a[p.i, p.i] + g;
      } else {
        a[p.i, p.i] := a[p.i, p.i] + g;
        a[m.i, m.i] := a[m.i, m.i] + g;
        a[p.i, m.i] := a[p.i, m.i] - g;
        a[m.i, p.i] := a[m.i, p.i] - g;
      }
    }

    method StampGroup1Legacy(e: Element) returns (ok: bool)
      requires Valid() && e.plus <= dim && e.minus <= dim && Stampable(e)
      requires e.kind == R ==> e.plus != 0 || e.minus != 0
      modifies a, b
      ensures ok == RecognisedInGroup1(e.kind)
      ensures ok ==> forall r, c | 0 <= r < dim && 0 <= c < dim :: a[r, c] == old(a[r, c]) + ContribA1(e, r, c)
      ensures ok ==> forall r | 0 <= r < dim :: b[r] == old(b[r]) + ContribB1(e, r)
    {
      var p, m := NodeOf(e.plus), NodeOf(e.minus);
      ok := true;
      match e.kind {
        case R =>
          StampResistorLegacy(p, m, 1.0 / e.value);
        case I =>
          StampCurrent(p, m, e.value);
        case C =>
        case _ =>
          ok := false;
      }
    }

    /** `fill_MNA_system` of mna.c. Given no resistor with both terminals at
        ground, it builds exactly the system the newer builder builds. */
    method FillLegacy(group1: seq<Element>, group2: seq<Element>, totalIds: nat) returns (status: BuildStatus)
      requires Valid() && WellFormed(group1, group2, totalIds) && dim == Dim(group2, totalIds)
      requires NoGroundedResistor(group1)
      modifies a, b
      ensures StatusMatches(group1, group2, status)
      ensures status == Built ==>
        && (forall r, c | 0 <= r < dim && 0 <= c < dim ::
              a[r, c] == old(a[r, c]) + MatrixCell(group1, group2, totalIds, r, c))
        && (forall r | 0 <= r < dim :: b[r] == old(b[r]) + RhsEntry(group1, group2, totalIds, r))
    {
      var ok, bad := StampList1Legacy(group1, totalIds);
      if !ok {
        return UnknownType(1, bad, group1[bad].kind);
      }
      ok, bad := StampList2(group2, totalIds - 1);
      if !ok {
        return UnknownType(2, bad, group2[bad].kind);
      }
      status := Built;
    }

    /** The group-1 loop of mna.c. */
    method StampList1Legacy(group1: seq<Element>, totalIds: nat) returns (ok: bool, bad: nat)
      requires Valid() && totalIds >= 1 && totalIds - 1 <= dim
      requires forall e | e in group1 :: InTable(e, totalIds) && Stampable(e)
      requires NoGroundedResistor(group1)
      modifies a, b
      ensures ok ==> AllRecognised1(group1)
      ensures !ok ==> bad < |group1| && !RecognisedInGroup1(group1[bad].kind) && AllRecognised1(group1[..bad])
      ensures ok ==> forall r, c | 0 <= r < dim && 0 <= c < dim :: a[r, c] == old(a[r, c]) + MatA1(group1, r, c)
      ensures ok ==> forall r | 0 <= r < dim :: b[r] == old(b[r]) + VecB1(group1, r)
    {
      var i := 0;
      bad := 0;
      while i < |group1|
        invariant 0 <= i <= |group1|
        invariant AllRecognised1(group1[..i]) && AllStampable(group1[..i])
        invariant forall r, c | 0 <= r < dim && 0 <= c < dim :: a[r, c] == old(a[r, c]) + MatA1(group1[..i], r, c)
        invariant forall r | 0 <= r < dim :: b[r] == old(b[r]) + VecB1(group1[..i], r)
      {
        assert group1[i] in group1;
        ok := StampGroup1Legacy(group1[i]);
        if !ok {
          return false, i;
        }
        assert group1[..i + 1] == group1[..i] + [group1[i]];
        Prefix1Step(group1, i);
        Recognised1Step(group1, i);
        i := i + 1;
      }
      assert group1[..i] == group1;
      ok := true;
    }
  }
}
