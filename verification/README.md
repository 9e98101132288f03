# MNA system builder and DC sweep of a SPICE-like circuit simulator

This project models the core of a small circuit simulator. The simulator builds
a Modified Nodal Analysis (MNA) system `A x = b` from two element lists:
- **Group 1:** resistors, current sources and capacitors, which enter only the
  node rows.
- **Group 2:** voltage sources and inductors, which each add one auxiliary
  row and column.

Node identifiers come from a table in which identifier 0 is ground. Node
`id > 0` owns matrix row and column `id - 1`. The dimension is
`D = |group 2| + total_ids - 1`.

The model covers:

- **The dense builder.** `init_MNA_system` and `fill_MNA_system` of
  `src/mna/mna.c`, as `Dense.MnaSystem`: an `array2<real>` matrix and an
  `array<real>` vector, stamped element by element.
- **The older dense builder of the top-level `mna.c`.** Its resistor branch
  differs (see Findings).
- **The sparse builder `init_triplet`.** Modelled as `Sparse.TripletBuilder`:
  a growing triplet store with a count `nz` and a capacity `nzmax`, plus the
  right-hand side and its saved copy. `create_compressed_column` is modelled
  by its meaning: duplicates are summed.
- **The specification both builders are proved against** (`Stamps`). Each
  cell of `A` and entry of `b` is the sum of the element contributions. On
  top of it, the model proves:
  - symmetry;
  - the resistor stamp's zero row sums;
  - group-1 contributions reach node rows only;
  - auxiliary row `k` carries voltage source `k`'s value;
  - how changing one source's value changes `b`.
- **The solver pieces that do not depend on the linear-algebra library**
  (`Iterative`): the Jacobi preconditioner of `initialise_iter_methods`,
  `solve_precond`, and the copy of the solution into the node voltages.
- **The `.DC` sweep** (`Sweep.Session`): the sample sequence of the
  `for (j = start; j < end + tol; j += jump)` loops, and the right-hand-side
  patching before each solve in dense and sparse mode. The model proves that
  each solve receives the right-hand side of the circuit with the swept
  source set to the sample, and that the source and the right-hand side are
  restored afterwards.
- **The command loop of `execute_commands`** (`Commands`): `strtok`
  tokenisation, the `.DC` lookup and argument validation, the
  `.PRINT`/`.PLOT` `V(name)` check, and a whole command list proved to
  produce exactly the solves of a specification function.

Values are Dafny `real`s. Node indices are `Node = Ground | Idx(i)`. The C
code's unsigned wrap-around of `id - 1` for ground is modelled separately in
`Unsigned`, with a proof that its `(idx + 1) != 0` test is exactly "not
ground".

## Model

| member | source | states |
|---|---|---|
| Circuit.NodeOf | src/mna/mna.c:1094-1095 | identifier 0, and only it, is ground; any other identifier maps to index id - 1 |
| Circuit.WithValue | src/mna/mna.c:646 | only element k changes, and only its value, which becomes v |
| Unsigned.GroundTest | src/mna/mna.c:1094-1101 | the unsigned test `(id - 1) + 1 != 0` holds exactly for non-ground nodes; the wrapped index is then the node's index, and 2^64 - 1 for ground |
| Stamps.ResistorStamp | src/mna/mna.c:1100-1124 | a resistor's stamp is symmetric and touches only cells whose row and column are its terminals; between two distinct nodes it is +g on both diagonals and -g off them; every row sums to zero when neither terminal is ground; with one terminal grounded, the other terminal's row sums to g and every other row to 0; with both grounded it stamps nothing |
| Stamps.MatrixSymmetric | src/mna/mna.c:1080-1196 | the assembled matrix is symmetric |
| Stamps.MatA1NodeRowsOnly | src/mna/mna.c:1087-1145 | group-1 elements contribute nothing to any cell in an auxiliary row or column |
| Stamps.VecB1NodeRowsOnly | src/mna/mna.c:1125-1137 | group-1 sources contribute nothing to an auxiliary right-hand-side entry |
| Stamps.VecB2Row | src/mna/mna.c:1156-1159 | row base + k of the group-2 right-hand side is element k's value when it is a voltage source and 0 otherwise; rows outside the auxiliary block are 0 |
| Stamps.AuxRhsEntry | src/mna/mna.c:1156-1159 | right-hand-side entry total_ids - 1 + k is the value of group-2 element k when it is a voltage source, and 0 otherwise |
| Stamps.RhsWithValue1 | src/mna/mna.c:636-646 | setting current source k to v changes b only at its terminals: +(v - value) at the minus row and -(v - value) at the plus row |
| Stamps.RhsWithValue2 | src/mna/mna.c:695-696 | setting voltage source k to v leaves every row but its auxiliary row unchanged and sets that row to v |
| Dense.MnaSystem.Init | src/mna/mna.c:1037-1056 | a fresh D x D matrix and length-D vector, all zero; the older builder allocates the same at mna.c:17-36 |
| Dense.MnaSystem.StampResistor | src/mna/mna.c:1100-1119 | each cell grows by the resistor's stamp, including no change when both terminals are ground |
| Dense.MnaSystem.StampCurrent | src/mna/mna.c:1125-1137 | b gains +s at the minus row and -s at the plus row, ground rows skipped |
| Dense.MnaSystem.StampCoupling | src/mna/mna.c:1162-1178 | the coupling of auxiliary row k with the terminals: +1 for plus, -1 for minus, in row k and column k |
| Dense.MnaSystem.StampGroup1 | src/mna/mna.c:1099-1144 | recognises exactly R, I and C, and adds that element's matrix and vector contributions |
| Dense.MnaSystem.StampGroup2 | src/mna/mna.c:1155-1193 | recognises exactly V, L, I, R and C; V adds its value to row k, and V and L add the coupling |
| Dense.MnaSystem.StampList1 | src/mna/mna.c:1087-1145 | either every tag is recognised and the whole group-1 sum is added, or it stops at the first unknown tag |
| Dense.MnaSystem.StampList2 | src/mna/mna.c:1149-1194 | the same for group 2 with auxiliary rows from total_ids - 1 |
| Dense.MnaSystem.Fill | src/mna/mna.c:1080-1196 | the status names the first unknown tag, group 1 first; on success every matrix cell and vector entry grew by exactly the specification's value |
| Dense.MnaSystem.StampResistorLegacy | mna.c:59-79 | the older resistor branch adds the same stamp, given that not both terminals are ground |
| Dense.MnaSystem.StampGroup1Legacy | mna.c:58-97 | the group-1 switch of the older builder, with the same contributions |
| Dense.MnaSystem.StampList1Legacy | mna.c:46-98 | the group-1 loop of the older builder adds the group-1 sum or stops at the first unknown tag |
| Dense.MnaSystem.FillLegacy | mna.c:39-149 | without a resistor between ground and ground, the older builder produces the same status and system as `Fill` |
| Unsigned.LegacyGroundedResistorOutOfRange | mna.c:60-62 | for `R 0 0` with D = 1, the older branch writes at offset 2^64 - 2 of a one-cell matrix |
| Unsigned.UnbracedSparseWrites | src/mna/mna.c:628-633 | the right-hand-side offsets the unbraced sparse patch writes: both terminals' wrapped indices always, so 2^64 - 1 whenever a terminal is ground, and the guarded line once more for each terminal that is not ground |
| Unsigned.UnbracedSparseWritesGround | src/mna/mna.c:628-633 | for `I1 0 1` with D = 1, one of those offsets is 2^64 - 1, outside the length-1 vector |
| Sparse.TripletsMatchDense | src/mna/mna.c:846-1031 | summing the triplets that `init_triplet` emits at a cell gives exactly the dense builder's cell |
| Sparse.ResistorTripletsMeaning | src/mna/mna.c:853-919 | the resistor's triplets (none, one or four) sum to the resistor stamp at every cell |
| Sparse.CouplingTripletsMeaning | src/mna/mna.c:966-1012 | the coupling triplets (none, two or four) sum to the coupling stamp |
| Sparse.TripletsOf1Meaning | src/mna/mna.c:846-947 | the group-1 triplets sum to the group-1 matrix contribution |
| Sparse.TripletsOf2Meaning | src/mna/mna.c:951-1028 | the group-2 triplets sum to the group-2 matrix contribution |
| Sparse.TripletSumAppend | src/mna/mna.c:855-866 | appending triplets adds their sums |
| Sparse.ConsolidateSums | src/mna/mna.c:806-807 | compressing and merging duplicates gives each cell the sum of its triplets, and stores a cell exactly when some triplet names it |
| Sparse.CompressedMatchesDense | src/mna/mna.c:804-810 | the compressed matrix equals the dense builder's matrix cell for cell |
| Sparse.TripletBuilder.Alloc | src/mna/mna.c:824-843 | zeroed vectors of length D, and an empty store of capacity 1 |
| Sparse.TripletBuilder.Grow | src/mna/mna.c:858-862 | the count grows by the requested amount, the capacity becomes the count, and the written prefix is kept |
| Sparse.TripletBuilder.EmitResistor | src/mna/mna.c:853-919 | appends exactly the resistor's triplets |
| Sparse.TripletBuilder.EmitCoupling | src/mna/mna.c:966-1012 | appends exactly the coupling triplets |
| Sparse.TripletBuilder.StampCurrent | src/mna/mna.c:925-939 | the right-hand side and its saved copy both gain the source's contribution |
| Sparse.TripletBuilder.EmitGroup1 | src/mna/mna.c:852-946 | recognises exactly R, I and C, and appends that element's triplets and vector contribution |
| Sparse.TripletBuilder.EmitGroup2 | src/mna/mna.c:957-1027 | recognises exactly V, L, I, R and C, and appends that element's triplets and vector contribution |
| Sparse.TripletBuilder.EmitList1 | src/mna/mna.c:846-947 | the store grows by the group-1 triplets in order, or the loop stops at the first unknown tag |
| Sparse.TripletBuilder.EmitList2 | src/mna/mna.c:951-1028 | the same for group 2 |
| Sparse.TripletBuilder.InitTriplet | src/mna/mna.c:815-1031 | the status names the first unknown tag; on success the store holds exactly all triplets, `nz` is their number, b is the assembled right-hand side, and the saved copy equals it |
| Iterative.JacobiEntry | src/mna/mna.c:94-101 | the preconditioner entry is never zero; it is the diagonal cell when that is non-zero, and 1 otherwise |
| Iterative.JacobiSetup | src/mna/mna.c:94-101 | a fresh vector of length D whose entry i is the preconditioner entry of diagonal cell i, hence non-zero |
| Iterative.SolvePrecond | src/mna/mna.c:339-342 | z solves the diagonal system: M[i] * z[i] == r[i] for every i |
| Iterative.CopyBack | src/mna/mna.c:144-146 | node identifier id, 1 <= id < total_ids, receives solution entry id - 1, and ground keeps its value; the same loop recurs after the dense LU solve (155-157) and the conjugate-gradient solve (252-254) |
| Sweep.Samples | src/mna/mna.c:623 | sample t is start + t * jump, every sample is below the bound, the next one is not, and there is a sample exactly when start is below the bound; defined for every range on which the loop ends (a positive step, or a start at or past the bound) |
| Sweep.SinglePoint | src/mna/mna.c:623 | a sweep from x to x with a step at least the tolerance takes the single sample x |
| Sweep.InclusiveCount | src/mna/mna.c:687 | a sweep over n steps takes n + 1 samples, the end included, when the tolerance is below the step |
| Sweep.CurrentSweepBalance | src/mna/mna.c:636-643 | during a current-source sweep only the terminal rows change; at a row hit by one terminal only, b[plus] + value or b[minus] - value stays fixed; a source with both terminals on one node leaves that row unchanged |
| Sweep.CurrentLog | src/mna/mna.c:623-666 | one solve per sample, each with the right-hand side of the circuit whose source has the sample's value |
| Sweep.VoltageLog | src/mna/mna.c:687-716 | the same for a voltage source |
| Sweep.WellFormedWithValue | src/mna/mna.c:646 | changing a source's value keeps the lists well formed |
| Sweep.Session.RestoreDefault | src/mna/mna.c:627 | the right-hand side becomes the saved copy |
| Sweep.Session.SetCurrent | src/mna/mna.c:625-646 | in either mode, the right-hand side becomes the one of the circuit with the source set to j, and the source's value becomes j |
| Sweep.Session.RestoreCurrent | src/mna/mna.c:668-683 | the source returns to its operating-point value, and b to that circuit's right-hand side |
| Sweep.Session.CurrentSample | src/mna/mna.c:625-665 | one loop pass records a solve at j with the right-hand side of the circuit with the source at j; afterwards b is still that right-hand side unless the solver is the sparse LU or Cholesky solve, which overwrites it |
| Sweep.Session.CurrentLoop | src/mna/mna.c:623-666 | the loop records exactly the solves of `CurrentLog` over the samples |
| Sweep.Session.SweepCurrent | src/mna/mna.c:620-685 | on every range where the loop ends: the session stays valid, the source list is as before, b is the assembled right-hand side again (even after a solver that overwrote it), and the solves appended are exactly `CurrentLog` over the samples up to end + 1e-9 |
| Sweep.Session.SetVoltage | src/mna/mna.c:690-696 | the right-hand side becomes the one of the circuit with the voltage source set to j, and its value becomes j |
| Sweep.Session.RestoreVoltage | src/mna/mna.c:718-725 | the source returns to its operating-point value, and b to that circuit's right-hand side |
| Sweep.Session.VoltageSample | src/mna/mna.c:690-715 | one loop pass records a solve at j with the right-hand side of the circuit with the source at j; afterwards b is still that right-hand side unless the solver overwrites it |
| Sweep.Session.VoltageLoop | src/mna/mna.c:687-716 | the loop records exactly the solves of `VoltageLog` over the samples |
| Sweep.Session.SweepVoltage | src/mna/mna.c:686-726 | on every range where the loop ends: the session stays valid, the lists are as before, b is the assembled right-hand side again, and the solves appended are exactly `VoltageLog` over the samples up to end + 1e-8 |
| Commands.WordLength | src/mna/mna.c:360 | the head token is a run of non-delimiters that stops at a delimiter or the end |
| Commands.Tokens | src/mna/mna.c:400 | every token is non-empty and free of delimiters |
| Commands.TokensOfSpaced | src/mna/mna.c:400-413 | words laid out with any non-empty runs of space, `\r`, `\t` or `\n` between them, and any runs before and after, split back into exactly those words |
| Commands.SpacedTokens | src/mna/mna.c:400-413 | every line is such a layout of its tokens; with `TokensOfSpaced`, the tokens are exactly the maximal delimiter-free runs of the line, in order |
| Commands.FirstMatch | src/mna/mna.c:419-429 | the first element with the name and type, or none when no element has both |
| Commands.FindSource | src/mna/mna.c:419-443 | the search loop returns that first match |
| Commands.Lookup | src/mna/mna.c:415-450 | `I<name>` names the first current source of group 1 with that name; failing that, `V<name>` names the first voltage source of group 2; otherwise nothing, in both directions |
| Commands.DcStep | src/mna/mna.c:387-516 | fewer than two tokens only clear the previous name; otherwise the target is the lookup result; the name is set iff there are exactly five tokens, a target and three numbers, and then the range holds the numbers |
| Commands.ExecuteDc | src/mna/mna.c:387-516 | the `.DC` branch, with its search loops, yields `DcStep`'s state |
| Commands.ProbeName | src/mna/mna.c:550-562 | the name is the argument without `V(` and `)` |
| Commands.ProbeRoundTrip | src/mna/mna.c:550-562 | `V(name)` passes the check and yields name |
| Commands.PrintCheck | src/mna/mna.c:528-600 | with no target the command is ignored; it reaches the sweep iff there are exactly two tokens, a valid `V(name)` and a known node; it runs with a name set and observes that node; a skip clears the name but keeps the target |
| Commands.PrintStep | src/mna/mna.c:528-600 | the guarded check never reaches the sweep without a name, and otherwise agrees with `PrintCheck` |
| Commands.StaleTargetReachesNullName | src/mna/mna.c:595 | the state `DcStep` leaves after `.DC I1 0 5` (source found, step missing) keeps the target with no name set, and `.PRINT V(1)` from that state reaches the sweep |
| Commands.NoSweepWithoutDc | src/mna/mna.c:528-530 | a command list with no `.DC` finishes and produces no solves |
| Commands.NoSweepWithoutPrint | src/mna/mna.c:387-522 | a command list with no `.PRINT` or `.PLOT` finishes and produces no solves, whatever ranges its `.DC` commands give |
| Commands.PrintCommand | src/mna/mna.c:524-742 | a skipped print changes nothing but the state; a run appends the target's sweep and restores the session |
| Commands.ExecuteCommands | src/mna/mna.c:358-757 | on every command list that finishes (`ScriptLog` is not `None`), running it keeps the session valid and restored, and appends exactly the solves `ScriptLog` assigns to the list |

## Left out

- The LU, Cholesky, conjugate-gradient and biconjugate-gradient solvers, and the library calls they make, are not modelled. A solve is recorded as the pair (sample, right-hand side it was handed). The sparse LU and Cholesky solves leave their solution in `mna_vector`; the model leaves every entry unknown there (`Sweep.Session.Overwrite`).
- Printing, the output files, `draw.sh` and the `system` call are not modelled.
- Allocation failures and the `exit` paths are not modelled. `calloc`, `malloc`, `realloc` and `cs_sprealloc` always succeed here.
- An unknown element tag is reported as a `BuildStatus` value, not by exiting.
- Floating point is not modelled: values are exact reals. In particular, the accumulated rounding of `j += jump` is absent, so `Sweep.Samples` is exact.
- `parse_double` is a parameter, `parse`. When a number is rejected, `DcStep` keeps the previous value. The C code may have overwritten it, but the value is unused either way, because the name is cleared.
- `ht_get` (the node table) is a parameter, `nodes`, a map from node name to identifier.
- The parser that fills the element lists and sets the operating-point values is not modelled. `Sweep.Session` starts from lists at their operating point and a right-hand side built for them.
- Sweep.Session.SweepCurrent: requires a positive step or a start at or past end + 1e-9. On every other range the C loop never ends.
- Sweep.Session.SweepVoltage: requires a positive step or a start at or past end + 1e-8, for the same reason.
- Commands.ExecuteCommands: requires a command list that finishes, that is, no `.PRINT`/`.PLOT` reaches a sweep whose loop never ends; `ScriptLog` gives `None` for the others. It uses the guarded `PrintStep` rather than the unguarded check (see Findings).
- Iterative.SolvePrecond: requires a preconditioner without zero entries, which `JacobiSetup` guarantees.
- Iterative.CopyBack: models the voltage table as an array indexed by identifier, not the `id_to_node` pointer table.
- Dense.MnaSystem.StampResistorLegacy: requires that not both terminals are ground, because for that input mna.c:60-62 writes outside the matrix (see Findings).
- Dense.MnaSystem.FillLegacy: requires that no resistor has both terminals at ground, for the same reason. Like `Fill`, it also requires no group-1 resistor of value 0.
- Dense.MnaSystem.Fill: requires no group-1 resistor of value 0 (`Circuit.WellFormed`). The C adds 1/0, an infinite conductance, which exact reals cannot hold.
- Dense.MnaSystem.StampGroup1: requires a resistor of non-zero value, for the same reason.
- Dense.MnaSystem.StampList1: requires no resistor of value 0, for the same reason.
- Dense.MnaSystem.StampGroup1Legacy: requires a resistor of non-zero value, for the same reason, and a resistor that does not have both terminals at ground, because mna.c:60-62 then writes outside the matrix (see Findings).
- Dense.MnaSystem.StampList1Legacy: requires no resistor of value 0, for the same reason, and no resistor with both terminals at ground, because mna.c:60-62 then writes outside the matrix (see Findings).
- Sparse.TripletBuilder.EmitGroup1: requires a resistor of non-zero value, for the same reason.
- Sparse.TripletBuilder.EmitList1: requires no resistor of value 0, for the same reason.
- Sweep.Session.Start: requires no group-1 resistor of value 0, for the same reason.
- Dense.MnaSystem.Init: the size `D * D` is an unbounded integer here, not an `unsigned long` that can overflow.
- Sparse.TripletBuilder.InitTriplet: the store is a sequence reassigned by each write, not the three parallel arrays `i`, `p` and `x` of the triplet structure. It requires no group-1 resistor of value 0, as `Fill` does. The counter `nz` is an `int` in the C and the dimension product `D * D` an `unsigned long`; here both are unbounded, so their overflow on huge circuits is not modelled.
- `create_compressed_column` is modelled by what it computes (`Sparse.Consolidate`), not by the compressed-column layout.
- `print_sparse_matrix`, `dump_MNA_nodes`, the print helpers and the `free_*` functions are not modelled, because they only do I/O and deallocation.

## Findings

| source | as written | input that shows it | evidently intended | confidence | as-written member | corrected member |
|---|---|---|---|---|---|---|
| mna.c:60-66 | the resistor branch tests only "plus is ground" and then stamps the minus diagonal, even when minus is ground too | `R1 0 0 1` in a circuit with one other node (D = 1): it writes at offset 2^64 - 2 of a one-cell matrix | a resistor with both terminals at ground stamps nothing, as src/mna/mna.c:1101-1120 does | not executed | Unsigned.LegacyGroundedResistorOutOfRange | Dense.MnaSystem.StampResistor |
| src/mna/mna.c:628-633 | in the sparse current sweep, each `if` guards only its next statement, so `mna_vector[idx] -= j` and `+= j` also run for a ground terminal | `I1 0 1 1` with `.DC I1 0 1 1` in sparse mode (D = 1): it writes at offset 2^64 - 1 of a length-1 vector | both statements guarded, as in the dense branch at lines 636-643 | not executed | Unsigned.UnbracedSparseWritesGround | Sweep.Session.SetCurrent |
| src/mna/mna.c:595 | a `.DC` whose source is found but whose later arguments are rejected keeps `var_found`, so a following `.PRINT` passes its checks and calls `strlen(var_name)` with `var_name == NULL` | `.DC I1 0 5` (step missing) followed by `.PRINT V(1)` | a print after a rejected `.DC` is skipped | not executed | Commands.StaleTargetReachesNullName | Commands.PrintStep |
