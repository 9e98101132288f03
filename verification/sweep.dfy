/** The `.DC` sweep of `execute_commands`: the sample sequence, and the
    patching and restoring of the right-hand side around each solve. The
    solver itself is not modelled; each call is recorded with the sample value
    and the right-hand side it was handed. */
module Sweep {
  import opened Circuit
  import opened Stamps

  /** One call of the selected solver during a sweep. */
  datatype Solve = Solve(at: real, rhs: seq<real>)

  /** Loop tolerance of the current-source sweep. */
  const CurrentTolerance: real := 0.000000001

  /** Loop tolerance of the voltage-source sweep. */
  const VoltageTolerance: real := 0.00000001

  lemma DivStep(a: real, jump: real)
    requires jump > 0.0
    ensures (a - jump) / jump == a / jump - 1.0
  {
    var q, q' := (a - jump) / jump, a / jump - 1.0;
    assert q * jump == a - jump;
    assert q' * jump == a - jump;
    assert (q - q') * jump == 0.0;
    assert (q - q') * jump / jump == q - q';
  }

  /** The values `j = start; j < stop; j += jump` takes: sample t is
      start + t * jump, every sample is below stop, and the next one is not.
      The loop ends when the step is positive, or when start is already at or
      past stop (no pass at all); otherwise it never ends. */
  function Samples(start: real, stop: real, jump: real): (s: seq<real>)
    requires jump > 0.0 || start >= stop
    ensures forall t | 0 <= t < |s| :: s[t] == start + t as real * jump
    ensures forall t | 0 <= t < |s| :: s[t] < stop
    ensures start + |s| as real * jump >= stop
    ensures |s| > 0 <==> start < stop
    decreases if start < stop then ((stop - start) / jump).Floor + 1 else 0
  {
    if start < stop then
      DivStep(stop - start, jump);
      [start] + Samples(start + jump, stop, jump)
    else []
  }

  /** Where a sweep loop stands: `done` are the samples taken, and the rest
      of `all` are the samples from j on. */
  ghost predicate Remaining(all: seq<real>, done: seq<real>, j: real, stop: real, jump: real) {
    (jump > 0.0 || j >= stop) && all == done + Samples(j, stop, jump)
  }

  /** One pass of a sweep loop moves sample j from the samples still to
      come to those done. */
  lemma SamplesStep(all: seq<real>, done: seq<real>, j: real, stop: real, jump: real)
    requires j < stop && Remaining(all, done, j, stop, jump)
    ensures Remaining(all, done + [j], j + jump, stop, jump)
    ensures |Samples(j + jump, stop, jump)| < |Samples(j, stop, jump)|
  {
    assert Samples(j, stop, jump) == [j] + Samples(j + jump, stop, jump);
    AppendAssoc(done, [j], Samples(j + jump, stop, jump));
  }

  /** A sweep from x to x takes exactly one sample, x, whenever the step is at
      least the loop tolerance. */
  lemma SinglePoint(x: real, jump: real, tol: real)
    requires 0.0 < tol <= jump
    ensures Samples(x, x + tol, jump) == [x]
  {
    assert Samples(x + jump, x + tol, jump) == [];
  }

  /** A sweep over n steps (end = start + n * jump) solves n + 1 times when
      the tolerance is below the step. */
  lemma {:induction false} InclusiveCount(start: real, jump: real, n: nat, tol: real)
    requires 0.0 < tol < jump
    ensures |Samples(start, start + n as real * jump + tol, jump)| == n + 1
    decreases n
  {
    var stop := start + n as real * jump + tol;
    if n == 0 {
      assert stop == start + tol;
      SinglePoint(start, jump, tol);
    } else {
      assert n as real * jump == (n - 1) as real * jump + jump;
      assert stop == (start + jump) + (n - 1) as real * jump + tol;
      InclusiveCount(start + jump, jump, n - 1, tol);
      assert |Samples(start + jump, stop, jump)| == n;
      assert start < stop;
      assert Samples(start, stop, jump) == [start] + Samples(start + jump, stop, jump);
    }
  }

  /** Group-1 source k is swept by writing its value; `WithValue` keeps
      every list well formed because a current source has no
      conductance. */
  lemma WellFormedWithValue(group1: seq<Element>, group2: seq<Element>, totalIds: nat, k: nat, v: real, list: nat)
    requires WellFormed(group1, group2, totalIds)
    requires list == 1 ==> k < |group1| && group1[k].kind == I
    requires list == 2 ==> k < |group2|
    ensures list == 1 ==> WellFormed(WithValue(group1, k, v), group2, totalIds)
    ensures list == 2 ==> WellFormed(group1, WithValue(group2, k, v), totalIds)
  {
    if list == 1 {
      var g := WithValue(group1, k, v);
      forall e | e in g ensures InTable(e, totalIds) && Stampable(e) {
        var t :| 0 <= t < |g| && g[t] == e;
        assert group1[t] in group1;
      }
    } else if list == 2 {
      var g := WithValue(group2, k, v);
      forall e | e in g ensures InTable(e, totalIds) {
        var t :| 0 <= t < |g| && g[t] == e;
        assert group2[t] in group2;
      }
    }
  }

  lemma WithValueTwice(es: seq<Element>, k: nat, v: real, w: real)
    requires k < |es|
    ensures WithValue(WithValue(es, k, v), k, w) == WithValue(es, k, w)
  {
  }

  lemma WithValueSame(es: seq<Element>, k: nat)
    requires k < |es|
    ensures WithValue(es, k, es[k].value) == es
  {
  }

  /** What the pointwise patches of the current-source sweep preserve: only
      the rows of the source's terminals change, and at a row that only one
      terminal hits b[plus] + value or b[minus] - value keeps its value; a
      source with both terminals on one node leaves that row alone. */
  lemma CurrentSweepBalance(group1: seq<Element>, group2: seq<Element>, totalIds: nat, k: nat, v: real, r: nat)
    requires totalIds >= 1 && k < |group1| && group1[k].kind == I
    ensures !Hit(NodeOf(group1[k].plus), r) && !Hit(NodeOf(group1[k].minus), r) ==>
              RhsEntry(WithValue(group1, k, v), group2, totalIds, r) == RhsEntry(group1, group2, totalIds, r)
    ensures Hit(NodeOf(group1[k].plus), r) && !Hit(NodeOf(group1[k].minus), r) ==>
              RhsEntry(WithValue(group1, k, v), group2, totalIds, r) + v == RhsEntry(group1, group2, totalIds, r) + group1[k].value
    ensures Hit(NodeOf(group1[k].minus), r) && !Hit(NodeOf(group1[k].plus), r) ==>
              RhsEntry(WithValue(group1, k, v), group2, totalIds, r) - v == RhsEntry(group1, group2, totalIds, r) - group1[k].value
    ensures Hit(NodeOf(group1[k].plus), r) && Hit(NodeOf(group1[k].minus), r) ==>
              RhsEntry(WithValue(group1, k, v), group2, totalIds, r) == RhsEntry(group1, group2, totalIds, r)
  {
    RhsWithValue1(group1, group2, totalIds, k, v, r);
  }

  /** The solves a current-source sweep over the samples `js` makes: at
      sample j the right-hand side is the one of the circuit with the source
      set to j. */
  function CurrentLog(group1: seq<Element>, group2: seq<Element>, totalIds: nat, k: nat, js: seq<real>): (log: seq<Solve>)
    requires totalIds >= 1 && k < |group1|
    ensures |log| == |js|
    ensures forall t | 0 <= t < |js| ::
              log[t] == Solve(js[t], Rhs(WithValue(group1, k, js[t]), group2, totalIds))
    decreases |js|
  {
    if js == [] then []
    else CurrentLog(group1, group2, totalIds, k, js[..|js| - 1])
         + [Solve(js[|js| - 1], Rhs(WithValue(group1, k, js[|js| - 1]), group2, totalIds))]
  }

  lemma CurrentLogSnoc(group1: seq<Element>, group2: seq<Element>, totalIds: nat, k: nat, js: seq<real>, j: real)
    requires totalIds >= 1 && k < |group1|
    ensures CurrentLog(group1, group2, totalIds, k, js + [j])
         == CurrentLog(group1, group2, totalIds, k, js) + [Solve(j, Rhs(WithValue(group1, k, j), group2, totalIds))]
  {
    assert (js + [j])[..|js|] == js;
  }

  /** The solves a voltage-source sweep over the samples `js` makes. */
  function VoltageLog(group1: seq<Element>, group2: seq<Element>, totalIds: nat, k: nat, js: seq<real>): (log: seq<Solve>)
    requires totalIds >= 1 && k < |group2|
    ensures |log| == |js|
    ensures forall t | 0 <= t < |js| ::
              log[t] == Solve(js[t], Rhs(group1, WithValue(group2, k, js[t]), totalIds))
    decreases |js|
  {
    if js == [] then []
    else VoltageLog(group1, group2, totalIds, k, js[..|js| - 1])
         + [Solve(js[|js| - 1], Rhs(group1, WithValue(group2, k, js[|js| - 1]), totalIds))]
  }

  lemma VoltageLogSnoc(group1: seq<Element>, group2: seq<Element>, totalIds: nat, k: nat, js: seq<real>, j: real)
    requires totalIds >= 1 && k < |group2|
    ensures VoltageLog(group1, group2, totalIds, k, js + [j])
         == VoltageLog(group1, group2, totalIds, k, js) + [Solve(j, Rhs(group1, WithValue(group2, k, j), totalIds))]
  {
    assert (js + [j])[..|js|] == js;
  }

  /** Every sweepable source sits at its operating-point value. */
  predicate AtOperatingPoint(group1: seq<Element>, group2: seq<Element>) {
    && (forall k | 0 <= k < |group1| && group1[k].kind == I :: group1[k].value == group1[k].opPoint)
    && (forall k | 0 <= k < |group2| && group2[k].kind == V :: group2[k].value == group2[k].opPoint)
  }

  /** The state the sweep reads and patches: both element lists (whose
      values it overwrites), the right-hand side `mna_vector`, in sparse mode
      its saved copy `default_mna_vector_copy`, and the record of solves.
      `overwrites` says that the selected solver is the sparse LU or
      Cholesky solve, which leaves its solution in `mna_vector`
      (src/mna/mna.c:137-140 and 177-180). */
  class Session {
    var group1: seq<Element>
    var group2: seq<Element>
    const totalIds: nat
    const sparse: bool
    const overwrites: bool
    const b: array<real>
    const defaultB: array<real>
    var solves: seq<Solve>

    /** Sizes and well-formedness, which no sweep step changes. */
    ghost predicate Shape()
      reads this
    {
      && WellFormed(group1, group2, totalIds)
      && b.Length == Dim(group2, totalIds) && defaultB.Length == b.Length && b != defaultB
      && (overwrites ==> sparse)
    }

    /** Between commands: sources at their operating point, the right-hand
        side assembled for them unless the last solve overwrote it, and in
        sparse mode the saved copy equal to it. */
    ghost predicate Valid()
      reads this, b, defaultB
    {
      && Shape()
      && AtOperatingPoint(group1, group2)
      && (!overwrites ==> b[..] == Rhs(group1, group2, totalIds))
      && (sparse ==> defaultB[..] == Rhs(group1, group2, totalIds))
    }

    /** The hand-over from a builder and the operating-point solve: the
        element lists, the right-hand side (holding the solution when the
        solver overwrites it) and, in sparse mode, the saved copy. */
    constructor Start(group1: seq<Element>, group2: seq<Element>, totalIds: nat, sparse: bool,
                      overwrites: bool, b: array<real>, defaultB: array<real>)
      requires WellFormed(group1, group2, totalIds) && AtOperatingPoint(group1, group2)
      requires b.Length == Dim(group2, totalIds) && defaultB.Length == b.Length && b != defaultB
      requires overwrites ==> sparse
      requires !overwrites ==> b[..] == Rhs(group1, group2, totalIds)
      requires sparse ==> defaultB[..] == Rhs(group1, group2, totalIds)
      ensures Valid() && solves == []
      ensures this.group1 == group1 && this.group2 == group2 && this.totalIds == totalIds
      ensures this.sparse == sparse && this.overwrites == overwrites
      ensures this.b == b && this.defaultB == defaultB
    {
      this.group1, this.group2, this.totalIds, this.sparse := group1, group2, totalIds, sparse;
      this.overwrites := overwrites;
      this.b, this.defaultB := b, defaultB;
      solves := [];
    }

    /** What a sparse LU or Cholesky solve does to `mna_vector`: it becomes
        the solution, which is not modelled, so every entry is left
        unknown. */
    method Overwrite()
      modifies b
    {
      var r := 0;
      while r < b.Length
        invariant 0 <= r <= b.Length
      {
        b[r] := *;
        r := r + 1;
      }
    }

    /** The `memcpy` of the saved copy over the right-hand side. */
    method RestoreDefault()
      requires Shape()
      modifies b
      ensures b[..] == defaultB[..]
    {
      forall r | 0 <= r < b.Length {
        b[r] := defaultB[r];
      }
    }

    /** One sample of the current-source sweep, up to the solve: in dense
        mode the source's present value is taken out of its terminals' rows
        and j put in; in sparse mode the saved copy is restored and the
        operating-point value replaced by j, each terminal only when it is
        not ground. Afterwards the source's value is j. */
    method SetCurrent(k: nat, j: real)
      requires Shape() && k < |group1| && group1[k].kind == I
      requires !sparse ==> b[..] == Rhs(group1, group2, totalIds)
      requires sparse ==> defaultB[..] == Rhs(WithValue(group1, k, group1[k].opPoint), group2, totalIds)
      modifies this`group1, b
      ensures Shape() && group1 == WithValue(old(group1), k, j)
      ensures b[..] == Rhs(group1, group2, totalIds)
    {
      var e := group1[k];
      var p, m := NodeOf(e.plus), NodeOf(e.minus);
      assert e in group1;
      ghost var g0 := group1;
      ghost var base := if sparse then WithValue(g0, k, e.opPoint) else g0;
      ghost var v := if sparse then e.opPoint else e.value;
      if sparse {
        RestoreDefault();
        if p != Ground {
          b[p.i] := b[p.i] + e.opPoint;
          b[p.i] := b[p.i] - j;
        }
        if m != Ground {
          b[m.i] := b[m.i] - e.opPoint;
          b[m.i] := b[m.i] + j;
        }
      } else {
        if p != Ground {
          b[p.i] := b[p.i] + e.value;
          b[p.i] := b[p.i] - j;
        }
        if m != Ground {
          b[m.i] := b[m.i] - e.value;
          b[m.i] := b[m.i] + j;
        }
      }
      WellFormedWithValue(g0, group2, totalIds, k, j, 1);
      group1 := WithValue(group1, k, j);
      WithValueTwice(g0, k, e.opPoint, j);
      assert base[k].value == v && base[k].kind == I;
      forall r | 0 <= r < b.Length
        ensures b[r] == RhsEntry(group1, group2, totalIds, r)
      {
        RhsWithValue1(base, group2, totalIds, k, j, r);
      }
    }

    /** After the current-source loop: dense mode takes the last sample out
        and puts the operating-point value back, sparse mode restores the
        saved copy; the source's value becomes its operating-point value. */
    method RestoreCurrent(k: nat)
      requires Shape() && k < |group1| && group1[k].kind == I
      requires !sparse ==> b[..] == Rhs(group1, group2, totalIds)
      requires sparse ==> defaultB[..] == Rhs(WithValue(group1, k, group1[k].opPoint), group2, totalIds)
      modifies this`group1, b
      ensures Shape() && group1 == WithValue(old(group1), k, old(group1)[k].opPoint)
      ensures b[..] == Rhs(group1, group2, totalIds)
    {
      var e := group1[k];
      var p, m := NodeOf(e.plus), NodeOf(e.minus);
      assert e in group1;
      ghost var g0 := group1;
      if sparse {
        RestoreDefault();
      } else {
        if p != Ground {
          b[p.i] := b[p.i] + e.value;
          b[p.i] := b[p.i] - e.opPoint;
        }
        if m != Ground {
          b[m.i] := b[m.i] - e.value;
          b[m.i] := b[m.i] + e.opPoint;
        }
        forall r | 0 <= r < b.Length
          ensures b[r] == RhsEntry(WithValue(g0, k, e.opPoint), group2, totalIds, r)
        {
          RhsWithValue1(g0, group2, totalIds, k, e.opPoint, r);
        }
      }
      WellFormedWithValue(g0, group2, totalIds, k, e.opPoint, 1);
      group1 := WithValue(group1, k, e.opPoint);
    }

    /** One pass of the current-source loop: set the source to j and solve
        (which may overwrite the right-hand side); `g0` is the circuit before
        the sweep. */
    method CurrentSample(k: nat, j: real, ghost g0: seq<Element>)
      requires Shape() && k < |g0| == |group1| && g0[k].kind == I && g0[k].value == g0[k].opPoint
      requires group1 == WithValue(g0, k, group1[k].value)
      requires !sparse ==> b[..] == Rhs(group1, group2, totalIds)
      requires sparse ==> defaultB[..] == Rhs(g0, group2, totalIds)
      modifies this`group1, this`solves, b
      ensures Shape() && group1 == WithValue(g0, k, j)
      ensures !overwrites ==> b[..] == Rhs(group1, group2, totalIds)
      ensures solves == old(solves) + [Solve(j, Rhs(group1, group2, totalIds))]
    {
      ghost var cur := group1[k].value;
      WithValueTwice(g0, k, cur, g0[k].opPoint);
      WithValueSame(g0, k);
      SetCurrent(k, j);
      WithValueTwice(g0, k, cur, j);
      solves := solves + [Solve(j, b[..])];
      if overwrites {
        Overwrite();
      }
    }

    /** One pass of the current-source loop with its bookkeeping: the
        sample j moves to the samples done, and the solves grow by its
        solve. */
    method CurrentPass(k: nat, j: real, stop: real, jump: real, ghost g0: seq<Element>,
                      ghost all: seq<real>, ghost done: seq<real>, ghost before: seq<Solve>)
      requires Shape() && |group1| == |g0| && k < |g0| && g0[k].kind == I && g0[k].value == g0[k].opPoint
      requires group1 == WithValue(g0, k, group1[k].value)
      requires !overwrites ==> b[..] == Rhs(group1, group2, totalIds)
      requires sparse ==> defaultB[..] == Rhs(g0, group2, totalIds)
      requires j < stop && Remaining(all, done, j, stop, jump)
      requires solves == before + CurrentLog(g0, group2, totalIds, k, done)
      modifies this`group1, this`solves, b
      ensures Shape() && |group1| == |g0| && group1 == WithValue(g0, k, group1[k].value)
      ensures !overwrites ==> b[..] == Rhs(group1, group2, totalIds)
      ensures Remaining(all, done + [j], j + jump, stop, jump)
      ensures |Samples(j + jump, stop, jump)| < |Samples(j, stop, jump)|
      ensures solves == before + CurrentLog(g0, group2, totalIds, k, done + [j])
    {
      SamplesStep(all, done, j, stop, jump);
      CurrentSample(k, j, g0);
      CurrentLogSnoc(g0, group2, totalIds, k, done, j);
    }

    /** The loop of the current-source sweep, `g0` being the circuit before
        it: one solve per sample, the source left at the last sample. */
    method CurrentLoop(k: nat, start: real, end: real, jump: real, ghost g0: seq<Element>)
      requires Shape() && group1 == g0 && k < |g0| && g0[k].kind == I && g0[k].value == g0[k].opPoint
      requires !overwrites ==> b[..] == Rhs(g0, group2, totalIds)
      requires sparse ==> defaultB[..] == Rhs(g0, group2, totalIds)
      requires jump > 0.0 || start >= end + CurrentTolerance
      modifies this`group1, this`solves, b
      ensures Shape() && |group1| == |g0| && group1 == WithValue(g0, k, group1[k].value)
      ensures !overwrites ==> b[..] == Rhs(group1, group2, totalIds)
      ensures solves == old(solves) + CurrentLog(g0, group2, totalIds, k, Samples(start, end + CurrentTolerance, jump))
    {
      ghost var all := Samples(start, end + CurrentTolerance, jump);
      ghost var done: seq<real> := [];
      WithValueSame(g0, k);
      var j := start;
      while j < end + CurrentTolerance
        invariant Shape() && |group1| == |g0| && group1 == WithValue(g0, k, group1[k].value)
        invariant !overwrites ==> b[..] == Rhs(group1, group2, totalIds)
        invariant Remaining(all, done, j, end + CurrentTolerance, jump)
        invariant solves == old(solves) + CurrentLog(g0, group2, totalIds, k, done)
        decreases |Samples(j, end + CurrentTolerance, jump)|
      {
        CurrentPass(k, j, end + CurrentTolerance, jump, g0, all, done, old(solves));
        done := done + [j];
        j := j + jump;
      }
      assert done == all;
    }

    /** The current-source sweep: one solve per sample of
        `j = start; j < end + 1e-9; j += jump`, each handed the right-hand
        side of the circuit with the source at j; afterwards the source value
        is back where it was and the right-hand side is the assembled one
        (also after a solver that overwrote it). The loop ends only with a
        positive step or a start at or past the bound. */
    method SweepCurrent(k: nat, start: real, end: real, jump: real)
      requires Valid() && k < |group1| && group1[k].kind == I
      requires jump > 0.0 || start >= end + CurrentTolerance
      modifies this`group1, this`solves, b
      ensures Valid() && group1 == old(group1) && b[..] == Rhs(group1, group2, totalIds)
      ensures solves == old(solves) + CurrentLog(group1, group2, totalIds, k, Samples(start, end + CurrentTolerance, jump))
    {
      ghost var g0 := group1;
      CurrentLoop(k, start, end, jump, g0);
      ghost var cur := group1[k].value;
      WithValueTwice(g0, k, cur, g0[k].opPoint);
      WithValueSame(g0, k);
      RestoreCurrent(k);
    }

    /** One sample of the voltage-source sweep, up to the solve: in sparse
        mode the saved copy is restored first; then the source's auxiliary
        row `k + totalIds - 1` is overwritten with j, and the source's value
        becomes j. */
    method SetVoltage(k: nat, j: real)
      requires Shape() && k < |group2| && group2[k].kind == V
      requires !sparse ==> b[..] == Rhs(group1, group2, totalIds)
      requires sparse ==> defaultB[..] == Rhs(group1, WithValue(group2, k, group2[k].opPoint), totalIds)
      modifies this`group2, b
      ensures Shape() && group2 == WithValue(old(group2), k, j)
      ensures b[..] == Rhs(group1, group2, totalIds)
    {
      ghost var g0 := group2;
      ghost var base := if sparse then WithValue(g0, k, g0[k].opPoint) else g0;
      WellFormedWithValue(group1, g0, totalIds, k, g0[k].opPoint, 2);
      if sparse {
        RestoreDefault();
      }
      b[k + totalIds - 1] := j;
      WellFormedWithValue(group1, g0, totalIds, k, j, 2);
      group2 := WithValue(group2, k, j);
      WithValueTwice(g0, k, g0[k].opPoint, j);
      forall r | 0 <= r < b.Length
        ensures b[r] == RhsEntry(group1, group2, totalIds, r)
      {
        RhsWithValue2(group1, base, totalIds, k, j, r);
      }
    }

    /** After the voltage-source loop: sparse mode restores the saved copy,
        dense mode writes the operating-point value into the auxiliary row;
        the source's value becomes its operating-point value. */
    method RestoreVoltage(k: nat)
      requires Shape() && k < |group2| && group2[k].kind == V
      requires !sparse ==> b[..] == Rhs(group1, group2, totalIds)
      requires sparse ==> defaultB[..] == Rhs(group1, WithValue(group2, k, group2[k].opPoint), totalIds)
      modifies this`group2, b
      ensures Shape() && group2 == WithValue(old(group2), k, old(group2)[k].opPoint)
      ensures b[..] == Rhs(group1, group2, totalIds)
    {
      ghost var g0 := group2;
      var op := group2[k].opPoint;
      if sparse {
        RestoreDefault();
      } else {
        b[k + totalIds - 1] := op;
        forall r | 0 <= r < b.Length
          ensures b[r] == RhsEntry(group1, WithValue(g0, k, op), totalIds, r)
        {
          RhsWithValue2(group1, g0, totalIds, k, op, r);
        }
      }
      WellFormedWithValue(group1, g0, totalIds, k, op, 2);
      group2 := WithValue(group2, k, op);
    }

    /** One pass of the voltage-source loop: set the source to j and solve
        (which may overwrite the right-hand side); `g0` is the second list
        before the sweep. */
    method VoltageSample(k: nat, j: real, ghost g0: seq<Element>)
      requires Shape() && k < |g0| == |group2| && g0[k].kind == V && g0[k].value == g0[k].opPoint
      requires group2 == WithValue(g0, k, group2[k].value)
      requires !sparse ==> b[..] == Rhs(group1, group2, totalIds)
      requires sparse ==> defaultB[..] == Rhs(group1, g0, totalIds)
      modifies this`group2, this`solves, b
      ensures Shape() && group2 == WithValue(g0, k, j)
      ensures !overwrites ==> b[..] == Rhs(group1, group2, totalIds)
      ensures solves == old(solves) + [Solve(j, Rhs(group1, group2, totalIds))]
    {
      ghost var cur := group2[k].value;
      WithValueTwice(g0, k, cur, g0[k].opPoint);
      WithValueSame(g0, k);
      SetVoltage(k, j);
      WithValueTwice(g0, k, cur, j);
      solves := solves + [Solve(j, b[..])];
      if overwrites {
        Overwrite();
      }
    }

    /** One pass of the voltage-source loop with its bookkeeping: the
        sample j moves to the samples done, and the solves grow by its
        solve. */
    method VoltagePass(k: nat, j: real, stop: real, jump: real, ghost g0: seq<Element>,
                      ghost all: seq<real>, ghost done: seq<real>, ghost before: seq<Solve>)
      requires Shape() && |group2| == |g0| && k < |g0| && g0[k].kind == V && g0[k].value == g0[k].opPoint
      requires group2 == WithValue(g0, k, group2[k].value)
      requires !overwrites ==> b[..] == Rhs(group1, group2, totalIds)
      requires sparse ==> defaultB[..] == Rhs(group1, g0, totalIds)
      requires j < stop && Remaining(all, done, j, stop, jump)
      requires solves == before + VoltageLog(group1, g0, totalIds, k, done)
      modifies this`group2, this`solves, b
      ensures Shape() && |group2| == |g0| && group2 == WithValue(g0, k, group2[k].value)
      ensures !overwrites ==> b[..] == Rhs(group1, group2, totalIds)
      ensures Remaining(all, done + [j], j + jump, stop, jump)
      ensures |Samples(j + jump, stop, jump)| < |Samples(j, stop, jump)|
      ensures solves == before + VoltageLog(group1, g0, totalIds, k, done + [j])
    {
      SamplesStep(all, done, j, stop, jump);
      VoltageSample(k, j, g0);
      VoltageLogSnoc(group1, g0, totalIds, k, done, j);
    }

    /** The loop of the voltage-source sweep, `g0` being the second list
        before it. */
    method VoltageLoop(k: nat, start: real, end: real, jump: real, ghost g0: seq<Element>)
      requires Shape() && group2 == g0 && k < |g0| && g0[k].kind == V && g0[k].value == g0[k].opPoint
      requires !overwrites ==> b[..] == Rhs(group1, g0, totalIds)
      requires sparse ==> defaultB[..] == Rhs(group1, g0, totalIds)
      requires jump > 0.0 || start >= end + VoltageTolerance
      modifies this`group2, this`solves, b
      ensures Shape() && |group2| == |g0| && group2 == WithValue(g0, k, group2[k].value)
      ensures !overwrites ==> b[..] == Rhs(group1, group2, totalIds)
      ensures solves == old(solves) + VoltageLog(group1, g0, totalIds, k, Samples(start, end + VoltageTolerance, jump))
    {
      ghost var all := Samples(start, end + VoltageTolerance, jump);
      ghost var done: seq<real> := [];
      WithValueSame(g0, k);
      var j := start;
      while j < end + VoltageTolerance
        invariant Shape() && |group2| == |g0| && group2 == WithValue(g0, k, group2[k].value)
        invariant !overwrites ==> b[..] == Rhs(group1, group2, totalIds)
        invariant Remaining(all, done, j, end + VoltageTolerance, jump)
        invariant solves == old(solves) + VoltageLog(group1, g0, totalIds, k, done)
        decreases |Samples(j, end + VoltageTolerance, jump)|
      {
        VoltagePass(k, j, end + VoltageTolerance, jump, g0, all, done, old(solves));
        done := done + [j];
        j := j + jump;
      }
      assert done == all;
    }

    /** The voltage-source sweep: one solve per sample of
        `j = start; j < end + 1e-8; j += jump`, each handed the right-hand
        side of the circuit with the source at j; afterwards the source value
        is back where it was and the right-hand side is the assembled one
        (also after a solver that overwrote it). The loop ends only with a
        positive step or a start at or past the bound. */
    method SweepVoltage(k: nat, start: real, end: real, jump: real)
      requires Valid() && k < |group2| && group2[k].kind == V
      requires jump > 0.0 || start >= end + VoltageTolerance
      modifies this`group2, this`solves, b
      ensures Valid() && group2 == old(group2) && b[..] == Rhs(group1, group2, totalIds)
      ensures solves == old(solves) + VoltageLog(group1, group2, totalIds, k, Samples(start, end + VoltageTolerance, jump))
    {
      ghost var g0 := group2;
      VoltageLoop(k, start, end, jump, g0);
      ghost var cur := group2[k].value;
      WithValueTwice(g0, k, cur, g0[k].opPoint);
      WithValueSame(g0, k);
      RestoreVoltage(k);
    }
  }
}
