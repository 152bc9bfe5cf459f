// The possible worlds of a probabilistic argumentation framework in attack
// normal form (argumentation_framework/frameworks.py, `ProbabilisiticWrapper`):
// each cell of the normal-form matrix strictly between 0 and 1 is an
// uncertain attack (or an uncertain argument, in row 0), and the worklist of
// `__yield_all_frameworks` resolves the first such cell, in row-major order,
// to 1 with its probability and to 0 with the rest.

module Worlds {
  import opened Wrappers
  import opened Framework

  /** A matrix of probabilities, row by row. */
  type Matrix = seq<seq<real>>

  /** A world of the worklist: its probability and its matrix. */
  type World = (real, Matrix)

  /** A cell neither certainly present (1) nor certainly absent (0). */
  predicate Uncertain(x: real) {
    0.0 < x < 1.0
  }

  /** Both matrices have the same rows and row lengths. */
  predicate SameShape(a: Matrix, b: Matrix) {
    |a| == |b| && forall i :: 0 <= i < |a| ==> |a[i]| == |b[i]|
  }

  /** Every cell is a probability. */
  ghost predicate UnitMatrix(m: Matrix) {
    forall i, j :: 0 <= i < |m| && 0 <= j < |m[i]| ==> 0.0 <= m[i][j] <= 1.0
  }

  /** Every cell is 0 or 1: a framework without uncertainty. */
  ghost predicate ZeroOne(m: Matrix) {
    forall i, j :: 0 <= i < |m| && 0 <= j < |m[i]| ==> m[i][j] == 0.0 || m[i][j] == 1.0
  }

  /** No cell is uncertain. */
  ghost predicate Resolved(m: Matrix) {
    forall i, j :: 0 <= i < |m| && 0 <= j < |m[i]| ==> !Uncertain(m[i][j])
  }

  /** `curr` comes from `nf` by resolving some uncertain cells to 0 or 1. */
  ghost predicate Refines(curr: Matrix, nf: Matrix) {
    && SameShape(curr, nf)
    && forall i, j :: 0 <= i < |curr| && 0 <= j < |curr[i]| ==>
         curr[i][j] == nf[i][j] || (Uncertain(nf[i][j]) && (curr[i][j] == 0.0 || curr[i][j] == 1.0))
  }

  /** `m` with cell `(i, j)` replaced by `v`. */
  function Set(m: Matrix, i: nat, j: nat, v: real): (r: Matrix)
    requires i < |m| && j < |m[i]|
    ensures SameShape(r, m) && r[i][j] == v
    ensures forall a, b :: 0 <= a < |m| && 0 <= b < |m[a]| && (a, b) != (i, j) ==> r[a][b] == m[a][b]
  {
    m[i := m[i][j := v]]
  }

  /** The first uncertain cell of `row` at column `j` or later. */
  function RowFirst(row: seq<real>, j: nat): (r: Option<nat>)
    requires j <= |row|
    ensures r.Some? ==> j <= r.value < |row| && Uncertain(row[r.value])
    ensures r.Some? ==> forall c :: j <= c < r.value ==> !Uncertain(row[c])
    ensures r.None? ==> forall c :: j <= c < |row| ==> !Uncertain(row[c])
    decreases |row| - j
  {
    if j == |row| then None
    else if Uncertain(row[j]) then Some(j)
    else RowFirst(row, j + 1)
  }

  /** The first uncertain cell in row-major order from row `i` on. */
  function FirstFrom(m: Matrix, i: nat): (r: Option<(nat, nat)>)
    requires i <= |m|
    ensures r.Some? ==> i <= r.value.0 < |m| && r.value.1 < |m[r.value.0]| && Uncertain(m[r.value.0][r.value.1])
    ensures r.Some? ==> forall a, b :: i <= a < |m| && 0 <= b < |m[a]| && (a < r.value.0 || (a == r.value.0 && b < r.value.1)) ==>
                          !Uncertain(m[a][b])
    ensures r.None? ==> forall a, b :: i <= a < |m| && 0 <= b < |m[a]| ==> !Uncertain(m[a][b])
    decreases |m| - i
  {
    if i == |m| then None
    else match RowFirst(m[i], 0)
      case Some(b) => Some((i, b))
      case None => FirstFrom(m, i + 1)
  }

  /** `np.argwhere((curr > 0) * (curr < 1))[0]`: the first uncertain cell in
      row-major order, `None` when the matrix is resolved. */
  function FirstUncertain(m: Matrix): (r: Option<(nat, nat)>)
    ensures r.Some? ==> r.value.0 < |m| && r.value.1 < |m[r.value.0]| && Uncertain(m[r.value.0][r.value.1])
    ensures r.Some? ==> forall a, b :: 0 <= a < |m| && 0 <= b < |m[a]| && (a < r.value.0 || (a == r.value.0 && b < r.value.1)) ==>
                          !Uncertain(m[a][b])
    ensures r.None? <==> Resolved(m)
  {
    FirstFrom(m, 0)
  }

  /** The number of uncertain cells of a row. */
  function RowCount(row: seq<real>): nat {
    if row == [] then 0
    else RowCount(row[..|row| - 1]) + (if Uncertain(row[|row| - 1]) then 1 else 0)
  }

  /** The number of uncertain cells of a matrix. */
  function UncertainCount(m: Matrix): nat {
    if m == [] then 0
    else UncertainCount(m[..|m| - 1]) + RowCount(m[|m| - 1])
  }

  lemma {:induction false} RowCountUpdate(row: seq<real>, j: nat, v: real)
    requires j < |row|
    ensures RowCount(row[j := v]) + (if Uncertain(row[j]) then 1 else 0) ==
            RowCount(row) + (if Uncertain(v) then 1 else 0)
  {
    var n := |row| - 1;
    if j == n {
      assert row[j := v][..n] == row[..n];
    } else {
      assert row[j := v][..n] == row[..n][j := v];
      RowCountUpdate(row[..n], j, v);
    }
  }

  lemma {:induction false} CountUpdate(m: Matrix, i: nat, j: nat, v: real)
    requires i < |m| && j < |m[i]|
    ensures UncertainCount(Set(m, i, j, v)) + (if Uncertain(m[i][j]) then 1 else 0) ==
            UncertainCount(m) + (if Uncertain(v) then 1 else 0)
  {
    var n := |m| - 1;
    var r := Set(m, i, j, v);
    if i == n {
      assert r[..n] == m[..n];
      RowCountUpdate(m[i], j, v);
    } else {
      assert r[..n] == Set(m[..n], i, j, v);
      CountUpdate(m[..n], i, j, v);
    }
  }

  /** Resolving an uncertain cell leaves one uncertain cell fewer. */
  lemma Resolve(m: Matrix, i: nat, j: nat, v: real)
    requires i < |m| && j < |m[i]| && Uncertain(m[i][j]) && !Uncertain(v)
    ensures UncertainCount(m) >= 1
    ensures UncertainCount(Set(m, i, j, v)) == UncertainCount(m) - 1
  {
    CountUpdate(m, i, j, v);
  }

  /** A matrix without uncertain cells is resolved. */
  lemma NoneUncertain(m: Matrix)
    requires UncertainCount(m) == 0
    ensures Resolved(m)
  {
    var first := FirstUncertain(m);
    if first.Some? {
      Resolve(m, first.value.0, first.value.1, 0.0);
    }
  }

  /** Every world of the queue has the shape of `nf`. */
  ghost predicate Shaped(q: seq<World>, nf: Matrix) {
    forall k :: 0 <= k < |q| ==> SameShape(q[k].1, nf)
  }

  /** A bound on the work left for one queued world: it becomes at most
      `2 ** u` worlds through `2 ** u - 1` branchings, `u` its uncertain
      cells. */
  function Cost(w: World): nat {
    2 * Pow2(UncertainCount(w.1)) - 1
  }

  /** The work left for the queue. */
  function Weight(q: seq<World>): nat {
    if q == [] then 0 else Cost(q[0]) + Weight(q[1..])
  }

  lemma {:induction false} WeightAppend(a: seq<World>, b: seq<World>)
    ensures Weight(a + b) == Weight(a) + Weight(b)
  {
    if a != [] {
      assert (a + b)[1..] == a[1..] + b;
      WeightAppend(a[1..], b);
    } else {
      assert a + b == b;
    }
  }

  /** The total probability of the queue. */
  function Mass(q: seq<World>): real {
    if q == [] then 0.0 else q[0].0 + Mass(q[1..])
  }

  lemma {:induction false} MassAppend(a: seq<World>, b: seq<World>)
    ensures Mass(a + b) == Mass(a) + Mass(b)
  {
    if a != [] {
      assert (a + b)[1..] == a[1..] + b;
      MassAppend(a[1..], b);
    } else {
      assert a + b == b;
    }
  }

  /** The two worlds the worklist queues for the first uncertain cell
      `(i, j)` of `curr`: the attack present with the normal-form
      probability of the cell, and absent with the rest. */
  function Branches(nf: Matrix, w: World, i: nat, j: nat): (r: seq<World>)
    requires i < |w.1| && j < |w.1[i]| && i < |nf| && j < |nf[i]|
    ensures |r| == 2 && r[0].0 + r[1].0 == w.0
    ensures r[0].1 == Set(w.1, i, j, 1.0) && r[1].1 == Set(w.1, i, j, 0.0)
  {
    var (p, curr) := w;
    var proba := nf[i][j];
    [(p * proba, Set(curr, i, j, 1.0)), (p * (1.0 - proba), Set(curr, i, j, 0.0))]
  }

  /** Branching replaces a world by two with one uncertain cell fewer,
      which lowers the work left. */
  lemma BranchesCost(nf: Matrix, w: World, i: nat, j: nat)
    requires i < |w.1| && j < |w.1[i]| && i < |nf| && j < |nf[i]| && Uncertain(w.1[i][j])
    ensures Weight(Branches(nf, w, i, j)) < Cost(w)
  {
    var b := Branches(nf, w, i, j);
    Resolve(w.1, i, j, 1.0);
    Resolve(w.1, i, j, 0.0);
    var u := UncertainCount(w.1);
    assert Pow2(u) == 2 * Pow2(u - 1);
    assert Cost(b[0]) == Cost(b[1]) == 2 * Pow2(u - 1) - 1;
    assert b[1..][1..] == [];
    assert Weight(b[1..]) == Cost(b[1]) + Weight(b[1..][1..]);
    assert Weight(b) == Cost(b[0]) + Weight(b[1..]);
  }

  /** The two branches yield as many worlds as the world they replace. */
  lemma BranchesYield(nf: Matrix, w: World, i: nat, j: nat)
    requires i < |w.1| && j < |w.1[i]| && i < |nf| && j < |nf[i]| && Uncertain(w.1[i][j])
    ensures Yield(Branches(nf, w, i, j)) == Pow2(UncertainCount(w.1))
  {
    var b := Branches(nf, w, i, j);
    Resolve(w.1, i, j, 1.0);
    Resolve(w.1, i, j, 0.0);
    var u := UncertainCount(w.1);
    assert Pow2(u) == 2 * Pow2(u - 1);
    assert b[1..][1..] == [];
    assert Yield(b[1..]) == Pow2(u - 1) + Yield(b[1..][1..]);
    assert Yield(b) == Pow2(u - 1) + Yield(b[1..]);
  }

  /** The queue after one step of the worklist: the first world is yielded
      (resolved) or replaced by its two branches at the back. */
  function Rest(nf: Matrix, q: seq<World>): (r: seq<World>)
    requires q != [] && Shaped(q, nf)
    ensures Shaped(r, nf)
  {
    match FirstUncertain(q[0].1)
    case None => q[1..]
    case Some((i, j)) => q[1..] + Branches(nf, q[0], i, j)
  }

  /** One step lowers the work left. */
  lemma RestWeight(nf: Matrix, q: seq<World>)
    requires q != [] && Shaped(q, nf)
    ensures Weight(Rest(nf, q)) < Weight(q)
  {
    match FirstUncertain(q[0].1)
    case None =>
    case Some((i, j)) =>
      BranchesCost(nf, q[0], i, j);
      WeightAppend(q[1..], Branches(nf, q[0], i, j));
  }

  /** What `__yield_all_frameworks` yields from the queue `q`, in order. */
  function Expand(nf: Matrix, q: seq<World>): seq<World>
    requires Shaped(q, nf)
    decreases Weight(q)
  {
    if q == [] then []
    else
      RestWeight(nf, q);
      (if FirstUncertain(q[0].1).None? then [q[0]] else []) + Expand(nf, Rest(nf, q))
  }

  /** The worlds of a normal form: the worklist started from the normal
      form itself with probability 1. */
  function AllWorlds(nf: Matrix): seq<World> {
    Expand(nf, [(1.0, nf)])
  }

  /** Branching keeps the probability mass of the queue. */
  lemma {:induction false} ExpandMass(nf: Matrix, q: seq<World>)
    requires Shaped(q, nf)
    ensures Mass(Expand(nf, q)) == Mass(q)
    decreases Weight(q)
  {
    if q != [] {
      RestWeight(nf, q);
      var rest := Rest(nf, q);
      ExpandMass(nf, rest);
      var head := if FirstUncertain(q[0].1).None? then [q[0]] else [];
      MassAppend(head, Expand(nf, rest));
      match FirstUncertain(q[0].1)
      case None =>
      case Some((i, j)) =>
        var b := Branches(nf, q[0], i, j);
        MassAppend(q[1..], b);
        assert Mass(b) == b[0].0 + b[1].0 by {
          assert b[1..][1..] == [];
        }
    }
  }

  /** Every world yielded is resolved and keeps the shape of the normal form. */
  lemma {:induction false} ExpandResolved(nf: Matrix, q: seq<World>)
    requires Shaped(q, nf)
    ensures forall k :: 0 <= k < |Expand(nf, q)| ==> Resolved(Expand(nf, q)[k].1) && SameShape(Expand(nf, q)[k].1, nf)
    decreases Weight(q)
  {
    if q != [] {
      RestWeight(nf, q);
      ExpandResolved(nf, Rest(nf, q));
    }
  }

  /** Queued worlds keep a probability at least 0 and only resolve
      uncertain cells of the normal form. */
  ghost predicate Sound(q: seq<World>, nf: Matrix) {
    forall k :: 0 <= k < |q| ==> q[k].0 >= 0.0 && Refines(q[k].1, nf)
  }

  /** A branch of a sound world is sound. */
  lemma BranchesSound(nf: Matrix, w: World, i: nat, j: nat)
    requires UnitMatrix(nf) && w.0 >= 0.0 && Refines(w.1, nf)
    requires i < |w.1| && j < |w.1[i]| && Uncertain(w.1[i][j])
    ensures Sound(Branches(nf, w, i, j), nf)
  {
    var proba := nf[i][j];
    assert w.1[i][j] == proba;
    assert w.0 * proba >= 0.0 && w.0 * (1.0 - proba) >= 0.0;
  }

  lemma {:induction false} ExpandSound(nf: Matrix, q: seq<World>)
    requires UnitMatrix(nf) && Shaped(q, nf) && Sound(q, nf)
    ensures Sound(Expand(nf, q), nf)
    decreases Weight(q)
  {
    if q != [] {
      RestWeight(nf, q);
      match FirstUncertain(q[0].1)
      case None =>
      case Some((i, j)) =>
        BranchesSound(nf, q[0], i, j);
    }
    if q != [] {
      ExpandSound(nf, Rest(nf, q));
    }
  }

  /** A resolved refinement of a matrix of probabilities is a 0/1 matrix. */
  lemma ResolvedZeroOne(w: Matrix, nf: Matrix)
    requires UnitMatrix(nf) && Refines(w, nf) && Resolved(w)
    ensures ZeroOne(w)
  {
  }

  /** The worlds of a normal form: at least zero probability each, total
      probability 1, every cell resolved to 0 or 1 from an uncertain cell
      of the normal form. */
  lemma AllWorldsSound(nf: Matrix)
    requires UnitMatrix(nf)
    ensures Mass(AllWorlds(nf)) == 1.0
    ensures forall k :: 0 <= k < |AllWorlds(nf)| ==>
              AllWorlds(nf)[k].0 >= 0.0 && Refines(AllWorlds(nf)[k].1, nf) && ZeroOne(AllWorlds(nf)[k].1)
  {
    var q := [(1.0, nf)];
    ExpandMass(nf, q);
    ExpandSound(nf, q);
    ExpandResolved(nf, q);
    var ws := AllWorlds(nf);
    forall k | 0 <= k < |ws|
      ensures ZeroOne(ws[k].1)
    {
      ResolvedZeroOne(ws[k].1, nf);
    }
  }

  /** Without uncertain cells there is one world, the normal form itself,
      with probability 1. */
  lemma CertainWorld(nf: Matrix)
    requires UncertainCount(nf) == 0
    ensures AllWorlds(nf) == [(1.0, nf)]
  {
    NoneUncertain(nf);
    var q := [(1.0, nf)];
    assert Rest(nf, q) == [];
    assert Expand(nf, []) == [];
    assert Expand(nf, q) == [q[0]] + Expand(nf, []);
  }

  /** The number of worlds the queue yields: `2 ** u` for a world with `u`
      uncertain cells. */
  function Yield(q: seq<World>): nat {
    if q == [] then 0 else Pow2(UncertainCount(q[0].1)) + Yield(q[1..])
  }

  lemma {:induction false} YieldAppend(a: seq<World>, b: seq<World>)
    ensures Yield(a + b) == Yield(a) + Yield(b)
  {
    if a != [] {
      assert (a + b)[1..] == a[1..] + b;
      YieldAppend(a[1..], b);
    } else {
      assert a + b == b;
    }
  }

  /** One step of the worklist yields one world or moves the count to the
      two branches. */
  lemma RestYield(nf: Matrix, q: seq<World>)
    requires q != [] && Shaped(q, nf)
    ensures Yield(q) == Yield(Rest(nf, q)) + (if FirstUncertain(q[0].1).None? then 1 else 0)
  {
    match FirstUncertain(q[0].1)
    case None =>
      NoneCount(q[0].1);
    case Some((i, j)) =>
      YieldAppend(q[1..], Branches(nf, q[0], i, j));
      BranchesYield(nf, q[0], i, j);
  }

  lemma {:induction false} ExpandCount(nf: Matrix, q: seq<World>)
    requires Shaped(q, nf)
    ensures |Expand(nf, q)| == Yield(q)
    decreases Weight(q)
  {
    if q != [] {
      RestWeight(nf, q);
      ExpandCount(nf, Rest(nf, q));
      RestYield(nf, q);
    }
  }

  /** A resolved matrix has no uncertain cell to count. */
  lemma {:induction false} NoneCount(m: Matrix)
    requires Resolved(m)
    ensures UncertainCount(m) == 0
  {
    if m != [] {
      var n := |m| - 1;
      NoneCount(m[..n]);
      RowNoneCount(m[n]);
    }
  }

  lemma {:induction false} RowNoneCount(row: seq<real>)
    requires forall j :: 0 <= j < |row| ==> !Uncertain(row[j])
    ensures RowCount(row) == 0
  {
    if row != [] {
      RowNoneCount(row[..|row| - 1]);
    }
  }

  /** A normal form with `u` uncertain cells has `2 ** u` worlds. */
  lemma WorldCount(nf: Matrix)
    ensures |AllWorlds(nf)| == Pow2(UncertainCount(nf))
  {
    ExpandCount(nf, [(1.0, nf)]);
    assert [(1.0, nf)][1..] == [];
  }
}
