/** The sparse MNA builder of src/mna/mna.c: `init_triplet` emits the dense
    stamps as (row, column, value) triplets into a store it grows by exactly
    the number of entries about to be written, and keeps `mna_vector` and
    `default_mna_vector_copy` in lock-step; `create_compressed_column` sums
    duplicate triplets into one value per cell. */
module Sparse {
  import opened Circuit
  import opened Stamps
  import opened Dense

  /** One triplet: row index `i`, column index `p`, value `x`. */
  datatype Triplet = Triplet(row: nat, col: nat, val: real)

  /** Sum of the values of the triplets of `ts` at cell (r, c). */
  function TripletSum(ts: seq<Triplet>, r: nat, c: nat): real
    decreases |ts|
  {
    if ts == [] then 0.0
    else TripletSum(ts[..|ts| - 1], r, c) + Pick(ts[|ts| - 1].row == r && ts[|ts| - 1].col == c, ts[|ts| - 1].val)
  }

  lemma {:induction false} TripletSumAppend(ts: seq<Triplet>, us: seq<Triplet>, r: nat, c: nat)
    ensures TripletSum(ts + us, r, c) == TripletSum(ts, r, c) + TripletSum(us, r, c)
    decreases |us|
  {
    if us != [] {
      var n := |us|;
      assert (ts + us)[..|ts + us| - 1] == ts + us[..n - 1];
      TripletSumAppend(ts, us[..n - 1], r, c);
    } else {
      assert ts + us == ts;
    }
  }

  /** The triplets of a resistor, in the order `init_triplet` writes them. */
  function ResistorTriplets(p: Node, m: Node, g: real): seq<Triplet> {
    if p == Ground && m != Ground then [Triplet(m.i, m.i, g)]
    else if m == Ground && p != Ground then [Triplet(p.i, p.i, g)]
    else if p != Ground && m != Ground then
      [Triplet(p.i, p.i, g), Triplet(m.i, m.i, g), Triplet(p.i, m.i, -g), Triplet(m.i, p.i, -g)]
    else []
  }

  /** The triplets of the voltage-source/inductor coupling at index k. */
  function CouplingTriplets(p: Node, m: Node, k: nat): seq<Triplet> {
    (if m != Ground then [Triplet(k, m.i, -1.0), Triplet(m.i, k, -1.0)] else [])
    + (if p != Ground then [Triplet(k, p.i, 1.0), Triplet(p.i, k, 1.0)] else [])
  }

  function Triplets1(e: Element): seq<Triplet>
    requires Stampable(e)
  {
    if e.kind == R then ResistorTriplets(NodeOf(e.plus), NodeOf(e.minus), 1.0 / e.value) else []
  }

  function Triplets2(e: Element, k: nat): seq<Triplet> {
    if e.kind == V || e.kind == L then CouplingTriplets(NodeOf(e.plus), NodeOf(e.minus), k) else []
  }

  /** All triplets of a group-1 prefix, in emission order. */
  function TripletsOf1(es: seq<Element>): seq<Triplet>
    requires AllStampable(es)
    decreases |es|
  {
    if es == [] then [] else TripletsOf1(es[..|es| - 1]) + Triplets1(es[|es| - 1])
  }

  /** All triplets of a group-2 prefix whose first auxiliary index is base. */
  function TripletsOf2(es: seq<Element>, base: nat): seq<Triplet>
    decreases |es|
  {
    if es == [] then [] else TripletsOf2(es[..|es| - 1], base) + Triplets2(es[|es| - 1], base + |es| - 1)
  }

  /** One more group-1 element extends the triplets and the vector sums. */
  lemma Emit1Step(es: seq<Element>, i: nat)
    requires i < |es| && AllStampable(es[..i + 1])
    ensures AllStampable(es[..i])
    ensures TripletsOf1(es[..i + 1]) == TripletsOf1(es[..i]) + Triplets1(es[i])
    ensures forall r :: VecB1(es[..i + 1], r) == VecB1(es[..i], r) + ContribB1(es[i], r)
  {
    assert es[..i + 1][..i] == es[..i];
    assert es[..i + 1][i] == es[i];
  }

  /** One more group-2 element extends the triplets and the vector sums. */
  lemma Emit2Step(es: seq<Element>, i: nat, base: nat)
    requires i < |es|
    ensures TripletsOf2(es[..i + 1], base) == TripletsOf2(es[..i], base) + Triplets2(es[i], base + i)
    ensures forall r :: VecB2(es[..i + 1], base, r) == VecB2(es[..i], base, r) + ContribB2(es[i], base + i, r)
  {
    assert es[..i + 1][..i] == es[..i];
  }

  /** Everything `init_triplet` emits for a circuit. */
  function AllTriplets(group1: seq<Element>, group2: seq<Element>, totalIds: nat): seq<Triplet>
    requires totalIds >= 1 && AllStampable(group1)
  {
    TripletsOf1(group1) + TripletsOf2(group2, totalIds - 1)
  }

  lemma TripletSumSingle(t: Triplet, r: nat, c: nat)
    ensures TripletSum([t], r, c) == Pick(t.row == r && t.col == c, t.val)
  {
    assert [t][..0] == [];
  }

  lemma TripletSumPair(t: Triplet, u: Triplet, r: nat, c: nat)
    ensures TripletSum([t, u], r, c) == Pick(t.row == r && t.col == c, t.val) + Pick(u.row == r && u.col == c, u.val)
  {
    assert [t, u] == [t] + [u];
    TripletSumAppend([t], [u], r, c);
    TripletSumSingle(t, r, c);
    TripletSumSingle(u, r, c);
  }

  lemma ResistorTripletsMeaning(p: Node, m: Node, g: real, r: nat, c: nat)
    ensures TripletSum(ResistorTriplets(p, m, g), r, c) == ResistorCell(p, m, g, r, c)
  {
    if p != Ground && m != Ground {
      var t0, t1 := Triplet(p.i, p.i, g), Triplet(m.i, m.i, g);
      var t2, t3 := Triplet(p.i, m.i, -g), Triplet(m.i, p.i, -g);
      assert ResistorTriplets(p, m, g) == [t0, t1] + [t2, t3];
      TripletSumAppend([t0, t1], [t2, t3], r, c);
      TripletSumPair(t0, t1, r, c);
      TripletSumPair(t2, t3, r, c);
    } else if p != Ground {
      TripletSumSingle(Triplet(p.i, p.i, g), r, c);
    } else if m != Ground {
      TripletSumSingle(Triplet(m.i, m.i, g), r, c);
    }
  }

  lemma CouplingTripletsMeaning(p: Node, m: Node, k: nat, r: nat, c: nat)
    ensures TripletSum(CouplingTriplets(p, m, k), r, c) == CouplingCell(p, m, k, r, c)
  {
    var ms := if m != Ground then [Triplet(k, m.i, -1.0), Triplet(m.i, k, -1.0)] else [];
    var ps := if p != Ground then [Triplet(k, p.i, 1.0), Triplet(p.i, k, 1.0)] else [];
    TripletSumAppend(ms, ps, r, c);
    if m != Ground { TripletSumPair(Triplet(k, m.i, -1.0), Triplet(m.i, k, -1.0), r, c); }
    if p != Ground { TripletSumPair(Triplet(k, p.i, 1.0), Triplet(p.i, k, 1.0), r, c); }
  }

  lemma {:induction false} TripletsOf1Meaning(es: seq<Element>, r: nat, c: nat)
    requires AllStampable(es)
    ensures TripletSum(TripletsOf1(es), r, c) == MatA1(es, r, c)
    decreases |es|
  {
    if es != [] {
      var e := es[|es| - 1];
      assert e in es;
      TripletsOf1Meaning(es[..|es| - 1], r, c);
      TripletSumAppend(TripletsOf1(es[..|es| - 1]), Triplets1(e), r, c);
      if e.kind == R {
        ResistorTripletsMeaning(NodeOf(e.plus), NodeOf(e.minus), 1.0 / e.value, r, c);
      }
    }
  }

  lemma {:induction false} TripletsOf2Meaning(es: seq<Element>, base: nat, r: nat, c: nat)
    ensures TripletSum(TripletsOf2(es, base), r, c) == MatA2(es, base, r, c)
    decreases |es|
  {
    if es != [] {
      var e := es[|es| - 1];
      TripletsOf2Meaning(es[..|es| - 1], base, r, c);
      TripletSumAppend(TripletsOf2(es[..|es| - 1], base), Triplets2(e, base + |es| - 1), r, c);
      if e.kind == V || e.kind == L {
        CouplingTripletsMeaning(NodeOf(e.plus), NodeOf(e.minus), base + |es| - 1, r, c);
      }
    }
  }

  /** The triplets `init_triplet` emits sum, cell by cell, to the matrix
      `fill_MNA_system` builds. */
  lemma TripletsMatchDense(group1: seq<Element>, group2: seq<Element>, totalIds: nat, r: nat, c: nat)
    requires totalIds >= 1 && AllStampable(group1)
    ensures TripletSum(AllTriplets(group1, group2, totalIds), r, c) == MatrixCell(group1, group2, totalIds, r, c)
  {
    TripletSumAppend(TripletsOf1(group1), TripletsOf2(group2, totalIds - 1), r, c);
    TripletsOf1Meaning(group1, r, c);
    TripletsOf2Meaning(group2, totalIds - 1, r, c);
  }

  // ---------------------------------------------------------------------
  // Compression: duplicates summed into one value per cell

  /** `cs_compress` followed by `cs_dupl`, by meaning only: walking the
      triplets in order and adding each value into its cell. */
  function Consolidate(ts: seq<Triplet>): map<(nat, nat), real>
    decreases |ts|
  {
    if ts == [] then map[]
    else
      var m := Consolidate(ts[..|ts| - 1]);
      var t := ts[|ts| - 1];
      m[(t.row, t.col) := (if (t.row, t.col) in m then m[(t.row, t.col)] else 0.0) + t.val]
  }

  /** Value of a cell of a compressed matrix; absent cells are 0. */
  function CellOf(m: map<(nat, nat), real>, r: nat, c: nat): real {
    if (r, c) in m then m[(r, c)] else 0.0
  }

  /** Compression keeps exactly the cells some triplet names and gives each
      the sum of its triplets. */
  lemma {:induction false} ConsolidateSums(ts: seq<Triplet>, r: nat, c: nat)
    ensures CellOf(Consolidate(ts), r, c) == TripletSum(ts, r, c)
    ensures (r, c) in Consolidate(ts) <==> exists t | t in ts :: t.row == r && t.col == c
    decreases |ts|
  {
    if ts != [] {
      var init := ts[..|ts| - 1];
      ConsolidateSums(init, r, c);
      var t := ts[|ts| - 1];
      assert t in ts;
      assert forall u | u in init :: u in ts;
      if (r, c) !in Consolidate(ts) {
        forall u | u in ts ensures !(u.row == r && u.col == c) {
          if u != t {
            var j :| 0 <= j < |ts| && ts[j] == u;
            assert init[j] == u;
          }
        }
      }
    }
  }

  /** The compressed matrix built from `init_triplet`'s output equals the
      dense matrix in every cell. */
  lemma CompressedMatchesDense(group1: seq<Element>, group2: seq<Element>, totalIds: nat, r: nat, c: nat)
    requires totalIds >= 1 && AllStampable(group1)
    ensures CellOf(Consolidate(AllTriplets(group1, group2, totalIds)), r, c)
         == MatrixCell(group1, group2, totalIds, r, c)
  {
    ConsolidateSums(AllTriplets(group1, group2, totalIds), r, c);
    TripletsMatchDense(group1, group2, totalIds, r, c);
  }

  // ---------------------------------------------------------------------
  // The builder itself

  /** `triplet_A` (its index and value arrays as one sequence of `nzmax`
      triplets), the running count `nz`, and the two right-hand-side
      vectors `mna_vector` and `default_mna_vector_copy`. */
  class TripletBuilder {
    var dim: nat
    var store: seq<Triplet>
    var nzmax: nat
    var nz: nat
    var b: array<real>
    var defaultB: array<real>

    /** The store holds `nzmax` slots, of which the first `nz` are written;
        after the first stamp the capacity equals the count exactly. */
    ghost predicate Valid()
      reads this
    {
      && |store| == nzmax && nzmax == (if nz == 0 then 1 else nz)
      && b.Length == dim && defaultB.Length == dim && b != defaultB
    }

    /** The allocations at the head of `init_triplet`: two zeroed vectors of
        length D and a triplet store created with room for one entry. */
    constructor Alloc(group2: seq<Element>, totalIds: nat)
      requires totalIds >= 1
      ensures Valid() && fresh(b) && fresh(defaultB)
      ensures dim == |group2| + totalIds - 1 && nz == 0 && nzmax == 1
      ensures forall r | 0 <= r < dim :: b[r] == 0.0 && defaultB[r] == 0.0
    {
      dim := Dim(group2, totalIds);
      b := new real[Dim(group2, totalIds)](_ => 0.0);
      defaultB := new real[Dim(group2, totalIds)](_ => 0.0);
      store := [Triplet(0, 0, 0.0)];
      nzmax, nz := 1, 0;
    }

    /** `cs_sprealloc(triplet_A, nz)` once `nz` has grown by `count`: the
        capacity becomes exactly the new count, the written prefix kept. */
    method Grow(count: nat)
      requires Valid() && count > 0
      modifies this`nz, this`nzmax, this`store
      ensures Valid() && nz == old(nz) + count && nzmax == nz
      ensures store[..old(nz)] == old(store[..nz])
    {
      nz := nz + count;
      store := store + seq(nz - |store|, _ => Triplet(0, 0, 0.0));
      nzmax := nz;
    }

    /** Resistor case of `init_triplet`: 1, 4 or 0 triplets. */
    method EmitResistor(p: Node, m: Node, g: real)
      requires Valid()
      modifies this`nz, this`nzmax, this`store
      ensures Valid() && nz == old(nz) + |ResistorTriplets(p, m, g)|
      ensures store[..nz] == old(store[..nz]) + ResistorTriplets(p, m, g)
    {
      if p == Ground && m != Ground {
        Grow(1);
        store := store[nz - 1 := Triplet(m.i, m.i, g)];
      } else if m == Ground && p != Ground {
        Grow(1);
        store := store[nz - 1 := Triplet(p.i, p.i, g)];
      } else if p != Ground && m != Ground {
        Grow(4);
        store := store[nz - 4 := Triplet(p.i, p.i, g)];
        store := store[nz - 3 := Triplet(m.i, m.i, g)];
        store := store[nz - 2 := Triplet(p.i, m.i, -g)];
        store := store[nz - 1 := Triplet(m.i, p.i, -g)];
      }
    }

    /** Voltage-source/inductor coupling of `init_triplet`: 2 triplets per
        real terminal. */
    method EmitCoupling(p: Node, m: Node, k: nat)
      requires Valid()
      modifies this`nz, this`nzmax, this`store
      ensures Valid() && nz == old(nz) + |CouplingTriplets(p, m, k)|
      ensures store[..nz] == old(store[..nz]) + CouplingTriplets(p, m, k)
    {
      ghost var start := store[..nz];
      if m != Ground {
        Grow(2);
        store := store[nz - 2 := Triplet(k, m.i, -1.0)];
        store := store[nz - 1 := Triplet(m.i, k, -1.0)];
      }
      assert store[..nz] == start + (if m != Ground then [Triplet(k, m.i, -1.0), Triplet(m.i, k, -1.0)] else []);
      if p != Ground {
        Grow(2);
        store := store[nz - 2 := Triplet(k, p.i, 1.0)];
        store := store[nz - 1 := Triplet(p.i, k, 1.0)];
      }
    }

    /** Current-source case: the same update on both vectors. */
    method StampCurrent(p: Node, m: Node, s: real)
      requires Valid() && (p.Idx? ==> p.i < dim) && (m.Idx? ==> m.i < dim)
      modifies b, defaultB
      ensures forall r | 0 <= r < dim :: b[r] == old(b[r]) + Pick(Hit(m, r), s) - Pick(Hit(p, r), s)
      ensures forall r | 0 <= r < dim :: defaultB[r] == old(defaultB[r]) + Pick(Hit(m, r), s) - Pick(Hit(p, r), s)
    {
      if m != Ground {
        defaultB[m.i] := defaultB[m.i] + s;
        b[m.i] := b[m.i] + s;
      }
      if p != Ground {
        defaultB[p.i] := defaultB[p.i] - s;
        b[p.i] := b[p.i] - s;
      }
    }

    method EmitGroup1(e: Element) returns (ok: bool)
      requires Valid() && e.plus <= dim && e.minus <= dim && Stampable(e)
      modifies this`nz, this`nzmax, this`store, b, defaultB
      ensures Valid() && ok == RecognisedInGroup1(e.kind)
      ensures ok ==> store[..nz] == old(store[..nz]) + Triplets1(e)
      ensures ok ==> forall r | 0 <= r < dim :: b[r] == old(b[r]) + ContribB1(e, r)
      ensures ok ==> forall r | 0 <= r < dim :: defaultB[r] == old(defaultB[r]) + ContribB1(e, r)
    {
      var p, m := NodeOf(e.plus), NodeOf(e.minus);
      ok := true;
      match e.kind {
        case R =>
          EmitResistor(p, m, 1.0 / e.value);
        case I =>
          StampCurrent(p, m, e.value);
        case C =>
        case _ =>
          ok := false;
      }
    }

    method EmitGroup2(e: Element, k: nat) returns (ok: bool)
      requires Valid() && e.plus <= dim && e.minus <= dim && k < dim
      modifies this`nz, this`nzmax, this`store, b, defaultB
      ensures Valid() && ok == RecognisedInGroup2(e.kind)
      ensures ok ==> store[..nz] == old(store[..nz]) + Triplets2(e, k)
      ensures ok ==> forall r | 0 <= r < dim :: b[r] == old(b[r]) + ContribB2(e, k, r)
      ensures ok ==> forall r | 0 <= r < dim :: defaultB[r] == old(defaultB[r]) + ContribB2(e, k, r)
    {
      var p, m := NodeOf(e.plus), NodeOf(e.minus);
      ok := true;
      match e.kind {
        case V =>
          // the voltage source adds its value, then shares the inductor stamp
          defaultB[k] := defaultB[k] + e.value;
          b[k] := b[k] + e.value;
          EmitCoupling(p, m, k);
        case L =>
          EmitCoupling(p, m, k);
        case I =>
        case R =>
        case C =>
        case _ =>
          ok := false;
      }
    }

    /** Element i of the group-1 loop, with the loop's running state. */
    method EmitNext1(group1: seq<Element>, i: nat, ghost start: seq<Triplet>,
                     ghost b0: seq<real>, ghost d0: seq<real>) returns (ok: bool)
      requires Valid() && i < |group1| && group1[i].plus <= dim && group1[i].minus <= dim
      requires AllStampable(group1[..i + 1])
      requires |b0| == dim && |d0| == dim
      requires AllRecognised1(group1[..i])
      requires store[..nz] == start + TripletsOf1(group1[..i])
      requires forall r | 0 <= r < dim :: b[r] == b0[r] + VecB1(group1[..i], r)
      requires forall r | 0 <= r < dim :: defaultB[r] == d0[r] + VecB1(group1[..i], r)
      modifies this`nz, this`nzmax, this`store, b, defaultB
      ensures Valid() && ok == RecognisedInGroup1(group1[i].kind)
      ensures ok ==> AllRecognised1(group1[..i + 1])
      ensures ok ==> store[..nz] == start + TripletsOf1(group1[..i + 1])
      ensures ok ==> forall r | 0 <= r < dim :: b[r] == b0[r] + VecB1(group1[..i + 1], r)
      ensures ok ==> forall r | 0 <= r < dim :: defaultB[r] == d0[r] + VecB1(group1[..i + 1], r)
    {
      assert group1[..i + 1][i] == group1[i];
      ok := EmitGroup1(group1[i]);
      if ok {
        Emit1Step(group1, i);
        Recognised1Step(group1, i);
        AppendAssoc(start, TripletsOf1(group1[..i]), Triplets1(group1[i]));
      }
    }

    /** The group-1 loop of `init_triplet`. */
    method EmitList1(group1: seq<Element>, totalIds: nat) returns (ok: bool, bad: nat)
      requires Valid() && totalIds >= 1 && totalIds - 1 <= dim
      requires forall e | e in group1 :: InTable(e, totalIds) && Stampable(e)
      modifies this`nz, this`nzmax, this`store, b, defaultB
      ensures Valid()
      ensures ok ==> AllRecognised1(group1)
      ensures !ok ==> bad < |group1| && !RecognisedInGroup1(group1[bad].kind) && AllRecognised1(group1[..bad])
      ensures ok ==> store[..nz] == old(store[..nz]) + TripletsOf1(group1)
      ensures ok ==> forall r | 0 <= r < dim :: b[r] == old(b[r]) + VecB1(group1, r)
      ensures ok ==> forall r | 0 <= r < dim :: defaultB[r] == old(defaultB[r]) + VecB1(group1, r)
    {
      ghost var start, b0, d0 := store[..nz], b[..], defaultB[..];
      var i := 0;
      bad := 0;
      while i < |group1|
        invariant 0 <= i <= |group1| && Valid()
        invariant AllRecognised1(group1[..i]) && AllStampable(group1[..i])
        invariant b == old(b) && defaultB == old(defaultB)
        invariant store[..nz] == start + TripletsOf1(group1[..i])
        invariant forall r | 0 <= r < dim :: b[r] == b0[r] + VecB1(group1[..i], r)
        invariant forall r | 0 <= r < dim :: defaultB[r] == d0[r] + VecB1(group1[..i], r)
      {
        assert group1[i] in group1;
        assert AllStampable(group1[..i + 1]);
        ok := EmitNext1(group1, i, start, b0, d0);
        if !ok {
          return false, i;
        }
        i := i + 1;
      }
      assert group1[..i] == group1;
      ok := true;
    }

    /** Element i of the group-2 loop, with the loop's running state: the
        emitted triplets and both vectors move from the sums over the first i
        elements to the sums over the first i + 1. */
    method EmitNext2(group2: seq<Element>, i: nat, base: nat, ghost start: seq<Triplet>,
                     ghost b0: seq<real>, ghost d0: seq<real>) returns (ok: bool)
      requires Valid() && dim == |group2| + base && i < |group2|
      requires group2[i].plus <= base && group2[i].minus <= base
      requires |b0| == dim && |d0| == dim
      requires AllRecognised2(group2[..i])
      requires store[..nz] == start + TripletsOf2(group2[..i], base)
      requires forall r | 0 <= r < dim :: b[r] == b0[r] + VecB2(group2[..i], base, r)
      requires forall r | 0 <= r < dim :: defaultB[r] == d0[r] + VecB2(group2[..i], base, r)
      modifies this`nz, this`nzmax, this`store, b, defaultB
      ensures Valid() && ok == RecognisedInGroup2(group2[i].kind)
      ensures ok ==> AllRecognised2(group2[..i + 1])
      ensures ok ==> store[..nz] == start + TripletsOf2(group2[..i + 1], base)
      ensures ok ==> forall r | 0 <= r < dim :: b[r] == b0[r] + VecB2(group2[..i + 1], base, r)
      ensures ok ==> forall r | 0 <= r < dim :: defaultB[r] == d0[r] + VecB2(group2[..i + 1], base, r)
    {
      ghost var before := store[..nz];
      assert group2[..i + 1][i] == group2[i];
      ok := EmitGroup2(group2[i], base + i);
      if ok {
        Emit2Step(group2, i, base);
        Recognised2Step(group2, i);
        ghost var step := Triplets2(group2[i], base + i);
        assert store[..nz] == before + step;
        AppendAssoc(start, TripletsOf2(group2[..i], base), step);
      }
    }

    /** The group-2 loop of `init_triplet`; element i has auxiliary index
        `base + i`, where base = totalIds - 1. */
    method EmitList2(group2: seq<Element>, base: nat) returns (ok: bool, bad: nat)
      requires Valid() && dim == |group2| + base
      requires forall e | e in group2 :: e.plus <= base && e.minus <= base
      modifies this`nz, this`nzmax, this`store, b, defaultB
      ensures Valid()
      ensures ok ==> AllRecognised2(group2)
      ensures !ok ==> bad < |group2| && !RecognisedInGroup2(group2[bad].kind) && AllRecognised2(group2[..bad])
      ensures ok ==> store[..nz] == old(store[..nz]) + TripletsOf2(group2, base)
      ensures ok ==> forall r | 0 <= r < dim :: b[r] == old(b[r]) + VecB2(group2, base, r)
      ensures ok ==> forall r | 0 <= r < dim :: defaultB[r] == old(defaultB[r]) + VecB2(group2, base, r)
    {
      ghost var start, b0, d0 := store[..nz], b[..], defaultB[..];
      var i := 0;
      bad := 0;
      while i < |group2|
        invariant 0 <= i <= |group2| && Valid()
        invariant AllRecognised2(group2[..i])
        invariant b == old(b) && defaultB == old(defaultB)
        invariant store[..nz] == start + TripletsOf2(group2[..i], base)
        invariant forall r | 0 <= r < dim :: b[r] == b0[r] + VecB2(group2[..i], base, r)
        invariant forall r | 0 <= r < dim :: defaultB[r] == d0[r] + VecB2(group2[..i], base, r)
      {
        assert group2[i] in group2;
        ok := EmitNext2(group2, i, base, start, b0, d0);
        if !ok {
          return false, i;
        }
        i := i + 1;
      }
      assert group2[..i] == group2;
      ok := true;
    }

    /** The two loops of `init_triplet`. The written triplets are exactly
        `AllTriplets`, the final count is their number, and both vectors are
        the assembled right-hand side. */
    method InitTriplet(group1: seq<Element>, group2: seq<Element>, totalIds: nat) returns (status: BuildStatus)
      requires Valid() && WellFormed(group1, group2, totalIds) && dim == Dim(group2, totalIds)
      requires nz == 0
      requires forall r | 0 <= r < dim :: b[r] == 0.0 && defaultB[r] == 0.0
      modifies this`nz, this`nzmax, this`store, b, defaultB
      ensures Valid() && StatusMatches(group1, group2, status)
      ensures status == Built ==>
        && store[..nz] == AllTriplets(group1, group2, totalIds)
        && nz == |AllTriplets(group1, group2, totalIds)|
        && (forall r | 0 <= r < dim :: b[r] == RhsEntry(group1, group2, totalIds, r))
        && (forall r | 0 <= r < dim :: defaultB[r] == b[r])
    {
      var ok, bad := EmitList1(group1, totalIds);
      if !ok {
        return UnknownType(1, bad, group1[bad].kind);
      }
      assert store[..nz] == TripletsOf1(group1);
      assert forall r | 0 <= r < dim :: b[r] == VecB1(group1, r) && defaultB[r] == b[r];
      ok, bad := EmitList2(group2, totalIds - 1);
      if !ok {
        return UnknownType(2, bad, group2[bad].kind);
      }
      status := Built;
    }
  }
}
