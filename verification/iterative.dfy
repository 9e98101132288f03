/** The pieces of the solvers that do not depend on the linear-algebra
    library: the diagonal (Jacobi) preconditioner of the Krylov methods, its
    application, and the copy of a solution back into the node voltages. */
module Iterative {
  import opened Circuit

  /** Entry i of the preconditioner for diagonal cell `d`: the cell itself
      when it is non-zero, otherwise the initial value 1. */
  function JacobiEntry(d: real): (m: real)
    ensures m != 0.0
    ensures d != 0.0 ==> m == d
    ensures d == 0.0 ==> m == 1.0
  {
    if d != 0.0 then d else 1.0
  }

  /** The preconditioner setup of `initialise_iter_methods`: a vector of
      ones, then every non-zero diagonal cell copied over its entry. */
  method JacobiSetup(a: array2<real>) returns (m: array<real>)
    requires a.Length0 == a.Length1
    ensures fresh(m) && m.Length == a.Length0
    ensures forall i | 0 <= i < m.Length :: m[i] == JacobiEntry(a[i, i])
    ensures forall i | 0 <= i < m.Length :: m[i] != 0.0
  {
    m := new real[a.Length0](_ => 1.0);
    var i := 0;
    while i < a.Length0
      invariant 0 <= i <= a.Length0
      invariant forall r | 0 <= r < i :: m[r] == JacobiEntry(a[r, r])
      invariant forall r | i <= r < m.Length :: m[r] == 1.0
    {
      if a[i, i] != 0.0 {
        m[i] := a[i, i];
      }
      i := i + 1;
    }
  }

  /** `solve_precond`: z is r divided entry-wise by the preconditioner, that
      is, the solution of the diagonal system M z = r. */
  method SolvePrecond(r: array<real>, m: array<real>, z: array<real>)
    requires r.Length == m.Length == z.Length
    requires z != r && z != m
    requires forall i | 0 <= i < m.Length :: m[i] != 0.0
    modifies z
    ensures forall i | 0 <= i < z.Length :: z[i] == r[i] / m[i]
    ensures forall i | 0 <= i < z.Length :: m[i] * z[i] == r[i]
  {
    var i := 0;
    while i < z.Length
      invariant 0 <= i <= z.Length
      invariant forall k | 0 <= k < i :: z[k] == r[k] / m[k]
    {
      // the copy of r into z followed by the entry-wise division
      z[i] := r[i] / m[i];
      i := i + 1;
    }
  }

  /** The copy-back loop of every solver: the node with identifier id,
      1 <= id < totalIds, gets unknown id - 1; ground (identifier 0) keeps
      its voltage. */
  method CopyBack(x: array<real>, voltage: array<real>, totalIds: nat)
    requires voltage.Length == totalIds && totalIds <= x.Length + 1
    requires x != voltage
    modifies voltage
    ensures totalIds > 0 ==> voltage[0] == old(voltage[0])
    ensures forall id | 1 <= id < totalIds :: voltage[id] == x[id - 1]
    ensures forall id | 0 <= id < totalIds :: NodeOf(id).Idx? ==> voltage[id] == x[NodeOf(id).i]
  {
    var i := 1;
    while i < totalIds
      invariant 1 <= i <= totalIds || totalIds == 0
      invariant totalIds > 0 ==> voltage[0] == old(voltage[0])
      invariant forall id | 1 <= id < i && id < totalIds :: voltage[id] == x[id - 1]
    {
      voltage[i] := x[i - 1];
      i := i + 1;
    }
  }
}
