// `ProbabilisiticWrapper` (argumentation_framework/frameworks.py): a
// probabilistic argumentation framework kept in attack normal form. Argument
// 0 is the ground truth; argument `a` of the wrapped framework is `a + 1`
// here, the ground truth attacks it with the probability that it is absent,
// and every attack carries its own probability. The wrapper enumerates the
// possible worlds with their probabilities and folds the answers of the
// solver on each world into probabilities.

module Probabilistic {
  import opened Wrappers
  import opened Worlds
  import opened Aggregation
  import Frameworks

  /** Why an operation of the wrapper raises: an `IndexError` while the
      worlds are built, a failure of the solver on one world, a world
      extension without the ground truth (the `AssertionError` of
      `get_p_extension`), or one of the two assertions `equivalent_to`
      makes on a pair of worlds: equal `num_arguments`, and a criteria
      code that starts with SE, EE, DC or DS. */
  datatype Raised = IndexError | Solver(failure: Frameworks.Failure) | NoGroundTruth | SizeMismatch | UnknownCriteria

  /** The criteria codes `equivalent_to` dispatches on. */
  predicate KnownCriteria(criteria: string) {
    Frameworks.StartsWith(criteria, "SE") || Frameworks.StartsWith(criteria, "EE") ||
    Frameworks.StartsWith(criteria, "DC") || Frameworks.StartsWith(criteria, "DS")
  }

  /** The attack matrix, `c` by `c`, of the framework `enumerate_frameworks`
      builds for the world `m`: 1 where the world has an attack. */
  function Adjacency(m: Matrix, c: nat): (r: seq<seq<int>>)
    ensures |r| == c && forall i :: 0 <= i < c ==> |r[i]| == c
    ensures forall i, j :: 0 <= i < c && 0 <= j < c ==>
              (r[i][j] == 1 <==> i < |m| && j < |m[i]| && m[i][j] != 0.0) && (r[i][j] == 0 || r[i][j] == 1)
  {
    seq(c, i requires 0 <= i < c => seq(c, j requires 0 <= j < c =>
      if i < |m| && j < |m[i]| && m[i][j] != 0.0 then 1 else 0))
  }

  /** Every attack of the world lies inside a framework of capacity `c`;
      `set_attacks` raises `IndexError` on one that does not. */
  predicate Fits(m: Matrix, c: nat) {
    forall i, j :: 0 <= i < |m| && 0 <= j < |m[i]| && m[i][j] != 0.0 ==> i < c && j < c
  }

  /** Every world fits. */
  predicate AllFit(ws: seq<World>, c: nat) {
    forall k :: 0 <= k < |ws| ==> Fits(ws[k].1, c)
  }

  /** What the solver sees of each world: its probability and the attack
      matrix of the framework built for it. */
  function Graphs(ws: seq<World>, c: nat): (r: seq<(real, seq<seq<int>>)>)
    ensures |r| == |ws| && forall k :: 0 <= k < |ws| ==> r[k] == (ws[k].0, Adjacency(ws[k].1, c))
  {
    seq(|ws|, k requires 0 <= k < |ws| => (ws[k].0, Adjacency(ws[k].1, c)))
  }

  /** `get_p_extension` over the worlds `gs`, with `solve` giving what
      `solve_extensions` returns on the framework of a world: the first
      world that raises decides the error. */
  function ExtensionOutcome(acc: Masses, gs: seq<(real, seq<seq<int>>)>,
                            solve: seq<seq<int>> -> Result<seq<seq<int>>, Frameworks.Failure>): Result<Masses, Raised>
    decreases |gs|
  {
    if gs == [] then Ok(acc)
    else match solve(gs[0].1)
      case Err(e) => Err(Solver(e))
      case Ok(exts) =>
        match WorldMass(acc, gs[0].0, exts)
        case None => Err(NoGroundTruth)
        case Some(next) => ExtensionOutcome(next, gs[1..], solve)
  }

  /** The worlds with the extensions the solver finds in each. */
  function Solved(gs: seq<(real, seq<seq<int>>)>,
                  solve: seq<seq<int>> -> Result<seq<seq<int>>, Frameworks.Failure>): (r: seq<(real, seq<seq<int>>)>)
    requires forall k :: 0 <= k < |gs| ==> solve(gs[k].1).Ok?
    ensures |r| == |gs| && forall k :: 0 <= k < |gs| ==> r[k] == (gs[k].0, solve(gs[k].1).value)
  {
    seq(|gs|, k requires 0 <= k < |gs| => (gs[k].0, solve(gs[k].1).value))
  }

  /** Where the solver answers on every world, `get_p_extension` is the
      fold of `Aggregation`, failing exactly when an extension lacks the
      ground truth. */
  lemma {:induction false} OutcomeIsMass(acc: Masses, gs: seq<(real, seq<seq<int>>)>,
                                         solve: seq<seq<int>> -> Result<seq<seq<int>>, Frameworks.Failure>)
    requires forall k :: 0 <= k < |gs| ==> solve(gs[k].1).Ok?
    ensures ExtensionOutcome(acc, gs, solve).Ok? <==> MassFrom(acc, Solved(gs, solve)).Some?
    ensures ExtensionOutcome(acc, gs, solve).Ok? ==> ExtensionOutcome(acc, gs, solve).value == MassFrom(acc, Solved(gs, solve)).value
    ensures ExtensionOutcome(acc, gs, solve).Err? ==> ExtensionOutcome(acc, gs, solve).error == NoGroundTruth
    decreases |gs|
  {
    if gs != [] {
      var items := Solved(gs, solve);
      assert items[1..] == Solved(gs[1..], solve);
      assert items[0] == (gs[0].0, solve(gs[0].1).value);
      match WorldMass(acc, gs[0].0, solve(gs[0].1).value)
      case None =>
      case Some(next) =>
        OutcomeIsMass(next, gs[1..], solve);
    }
  }

  /** The decisions of `solve_decision` on each world, or the first
      failure. */
  function Decisions(gs: seq<(real, seq<seq<int>>)>, decide: seq<seq<int>> -> Result<bool, Frameworks.Failure>): (r: Result<seq<(real, bool)>, Frameworks.Failure>)
    ensures r.Ok? <==> forall k :: 0 <= k < |gs| ==> decide(gs[k].1).Ok?
    ensures r.Ok? ==> |r.value| == |gs| && forall k :: 0 <= k < |gs| ==> r.value[k] == (gs[k].0, decide(gs[k].1).value)
  {
    if gs == [] then Ok([])
    else match (decide(gs[0].1), Decisions(gs[1..], decide))
      case (Ok(b), Ok(rest)) => Ok([(gs[0].0, b)] + rest)
      case (Err(e), _) => Err(e)
      case (_, Err(e)) => Err(e)
  }

  /** The sum of `p0 * p1` over the agreeing pairs of `pairs`, in order. */
  function FlatPairMass(pairs: seq<((real, seq<seq<int>>), (real, seq<seq<int>>))>,
                        equiv: (seq<seq<int>>, seq<seq<int>>) -> bool): real
  {
    if pairs == [] then 0.0
    else (if equiv(pairs[0].0.1, pairs[0].1.1) then pairs[0].0.0 * pairs[0].1.0 else 0.0) + FlatPairMass(pairs[1..], equiv)
  }

  /** `itertools.product(xs, ys)`. */
  function Product<X, Y>(xs: seq<X>, ys: seq<Y>): (r: seq<(X, Y)>)
    ensures |r| == |xs| * |ys|
  {
    if xs == [] then [] else seq(|ys|, j requires 0 <= j < |ys| => (xs[0], ys[j])) + Product(xs[1..], ys)
  }

  lemma {:induction false} FlatAppend(a: seq<((real, seq<seq<int>>), (real, seq<seq<int>>))>,
                                      b: seq<((real, seq<seq<int>>), (real, seq<seq<int>>))>,
                                      equiv: (seq<seq<int>>, seq<seq<int>>) -> bool)
    ensures FlatPairMass(a + b, equiv) == FlatPairMass(a, equiv) + FlatPairMass(b, equiv)
  {
    if a == [] {
      assert a + b == b;
    } else {
      assert (a + b)[1..] == a[1..] + b;
      FlatAppend(a[1..], b, equiv);
    }
  }

  lemma {:induction false} FlatRow(x: (real, seq<seq<int>>), ys: seq<(real, seq<seq<int>>)>,
                                   equiv: (seq<seq<int>>, seq<seq<int>>) -> bool)
    ensures FlatPairMass(seq(|ys|, j requires 0 <= j < |ys| => (x, ys[j])), equiv) == RowPairMass(x, ys, equiv)
  {
    var row := seq(|ys|, j requires 0 <= j < |ys| => (x, ys[j]));
    if ys != [] {
      assert row[1..] == seq(|ys[1..]|, j requires 0 <= j < |ys[1..]| => (x, ys[1..][j]));
      FlatRow(x, ys[1..], equiv);
    }
  }

  /** Summing over the flat product, as `get_p_equivalent_to` does, is
      summing row by row. */
  lemma {:induction false} ProductMass(xs: seq<(real, seq<seq<int>>)>, ys: seq<(real, seq<seq<int>>)>,
                                       equiv: (seq<seq<int>>, seq<seq<int>>) -> bool)
    ensures FlatPairMass(Product(xs, ys), equiv) == PairMass(xs, ys, equiv)
  {
    if xs != [] {
      var row := seq(|ys|, j requires 0 <= j < |ys| => (xs[0], ys[j]));
      FlatAppend(row, Product(xs[1..], ys), equiv);
      FlatRow(xs[0], ys, equiv);
      ProductMass(xs[1..], ys, equiv);
    }
  }

  /** One extension filed after the other: the recursion of `WorldMass`
      unfolded one extension at a time. */
  lemma WorldMassStep(acc: Masses, p: real, exts: seq<seq<int>>)
    requires exts != []
    ensures WorldMass(acc, p, exts) ==
              match Key(exts[0])
              case None => None
              case Some(key) => WorldMass(AddMass(acc, key, p), p, exts[1..])
  {
  }

  /** The body of `__solve_for_p_af` in `get_p_extension` for one world:
      the extensions it finds filed one by one. */
  method FileWorld(acc: Masses, p: real, exts: seq<seq<int>>) returns (r: Option<Masses>)
    ensures r == WorldMass(acc, p, exts)
  {
    var inner := acc;
    for j := 0 to |exts|
      invariant WorldMass(inner, p, exts[j..]) == WorldMass(acc, p, exts)
    {
      WorldMassStep(inner, p, exts[j..]);
      assert exts[j..][0] == exts[j] && exts[j..][1..] == exts[j + 1..];
      var key := Key(exts[j]);
      if key.None? {
        return None;
      }
      inner := AddMass(inner, key.value, p);
    }
    assert exts[|exts|..] == [];
    return Some(inner);
  }

  /** `get_p_extension` once the worlds are built: `parallelize_iterations`
      with one worker runs the worlds in order and re-raises the first
      failure. */
  method FoldExtensions(gs: seq<(real, seq<seq<int>>)>,
                        solve: seq<seq<int>> -> Result<seq<seq<int>>, Frameworks.Failure>) returns (r: Result<Masses, Raised>)
    ensures r == ExtensionOutcome([], gs, solve)
  {
    var acc: Masses := [];
    for k := 0 to |gs|
      invariant ExtensionOutcome(acc, gs[k..], solve) == ExtensionOutcome([], gs, solve)
    {
      assert gs[k..][0] == gs[k] && gs[k..][1..] == gs[k + 1..];
      var (p, g) := gs[k];
      var found := solve(g);
      if found.Err? {
        return Err(Solver(found.error));
      }
      var filed := FileWorld(acc, p, found.value);
      if filed.None? {
        return Err(NoGroundTruth);
      }
      acc := filed.value;
    }
    assert gs[|gs|..] == [];
    return Ok(acc);
  }

  /** `decide` answers on every world before `k` and fails on world `k`:
      that failure is the one re-raised. */
  lemma {:induction false} FirstFailure(gs: seq<(real, seq<seq<int>>)>, decide: seq<seq<int>> -> Result<bool, Frameworks.Failure>, k: nat)
    requires k < |gs| && decide(gs[k].1).Err?
    requires forall i :: 0 <= i < k ==> decide(gs[i].1).Ok?
    ensures Decisions(gs, decide) == Err(decide(gs[k].1).error)
  {
    if k > 0 {
      assert forall i :: 0 <= i < k - 1 ==> gs[1..][i] == gs[i + 1];
      FirstFailure(gs[1..], decide, k - 1);
      assert decide(gs[0].1).Ok?;
    }
  }

  lemma {:induction false} TrueMassSnoc(ds: seq<(real, bool)>, x: (real, bool))
    ensures TrueMass(ds + [x]) == TrueMass(ds) + (if x.1 then x.0 else 0.0)
  {
    if ds == [] {
      assert ds + [x] == [x];
    } else {
      assert (ds + [x])[1..] == ds[1..] + [x];
      TrueMassSnoc(ds[1..], x);
    }
  }

  /** Deciding one world more appends its decision. */
  lemma DecisionsSnoc(gs: seq<(real, seq<seq<int>>)>, decide: seq<seq<int>> -> Result<bool, Frameworks.Failure>, k: nat)
    requires k < |gs| && forall i :: 0 <= i <= k ==> decide(gs[i].1).Ok?
    ensures Decisions(gs[..k], decide).Ok? && Decisions(gs[..k + 1], decide).Ok?
    ensures Decisions(gs[..k + 1], decide).value == Decisions(gs[..k], decide).value + [(gs[k].0, decide(gs[k].1).value)]
  {
    assert forall i :: 0 <= i < k ==> gs[..k][i] == gs[i];
    assert forall i :: 0 <= i <= k ==> gs[..k + 1][i] == gs[i];
  }

  /** `get_p_decision` once the worlds are built: `v[int(decision)] += p`
      on each world in order, then `v[1]`. */
  method FoldDecisions(gs: seq<(real, seq<seq<int>>)>, decide: seq<seq<int>> -> Result<bool, Frameworks.Failure>) returns (r: Result<real, Raised>)
    ensures r == match Decisions(gs, decide)
                 case Err(e) => Err(Solver(e))
                 case Ok(ds) => Ok(TrueMass(ds))
  {
    var v := new real[2](_ => 0.0);
    for k := 0 to |gs|
      invariant forall i :: 0 <= i < k ==> decide(gs[i].1).Ok?
      invariant Decisions(gs[..k], decide).Ok? && v[1] == TrueMass(Decisions(gs[..k], decide).value)
    {
      var (p, g) := gs[k];
      var decision := decide(g);
      if decision.Err? {
        FirstFailure(gs, decide, k);
        return Err(Solver(decision.error));
      }
      DecisionsSnoc(gs, decide, k);
      TrueMassSnoc(Decisions(gs[..k], decide).value, (p, decision.value));
      var index := if decision.value then 1 else 0;
      v[index] := v[index] + p;
    }
    assert gs[..|gs|] == gs;
    return Ok(v[1]);
  }

  /** `get_p_equivalent_to` once the worlds of both frameworks are built:
      `p += eq * p_0 * p_1` over `itertools.product` of the two lists. */
  method FoldEquivalence(xs: seq<(real, seq<seq<int>>)>, ys: seq<(real, seq<seq<int>>)>,
                         equiv: (seq<seq<int>>, seq<seq<int>>) -> bool) returns (p: real)
    ensures p == PairMass(xs, ys, equiv)
  {
    var combinations := Product(xs, ys);
    p := 0.0;
    for n := 0 to |combinations|
      invariant p + FlatPairMass(combinations[n..], equiv) == FlatPairMass(combinations, equiv)
    {
      assert combinations[n..][1..] == combinations[n + 1..];
      var (x, y) := combinations[n];
      var eq := equiv(x.1, y.1);
      p := p + (if eq then x.0 * y.0 else 0.0);
    }
    assert combinations[|combinations|..] == [];
    ProductMass(xs, ys, equiv);
  }

  /** The shapes for which `_p_attks[1:, 1:] = af.attacks_matrix` goes
      through: the attack matrix of capacity `c` fills the `n` by `n`
      block, or a 1 by 1 matrix broadcasts into an empty block. Any other
      shape raises `ValueError`. */
  predicate Broadcasts(n: int, c: int) {
    n == c || (n == 0 && c == 1)
  }

  /** Where every world has probability at least 0 and the probabilities
      add up to 1, so do those of its graphs. */
  lemma {:induction false} GraphsMass(ws: seq<World>, c: nat)
    ensures WorldsMass(Graphs(ws, c)) == Mass(ws)
  {
    if ws != [] {
      assert Graphs(ws, c)[1..] == Graphs(ws[1..], c);
      GraphsMass(ws[1..], c);
    }
  }

  /** The extensions `get_p_extension` yields for a normal form `nf`: each
      extension once, with a probability at least 0; and where the task
      asks for a single extension per world, the probabilities add up to
      1. Where the solver answers on every world, the only failure left is
      an extension without the ground truth. */
  lemma ExtensionProbabilities(nf: Matrix, c: nat, solve: seq<seq<int>> -> Result<seq<seq<int>>, Frameworks.Failure>)
    requires UnitMatrix(nf)
    ensures ExtensionOutcome([], Graphs(AllWorlds(nf), c), solve).Ok? ==>
              DistinctKeys(ExtensionOutcome([], Graphs(AllWorlds(nf), c), solve).value) &&
              NonNegative(ExtensionOutcome([], Graphs(AllWorlds(nf), c), solve).value)
    ensures (forall k :: 0 <= k < |Graphs(AllWorlds(nf), c)| ==> solve(Graphs(AllWorlds(nf), c)[k].1).Ok?) ==>
              (ExtensionOutcome([], Graphs(AllWorlds(nf), c), solve).Ok? ||
               ExtensionOutcome([], Graphs(AllWorlds(nf), c), solve).error == NoGroundTruth)
    ensures OneExtensionPerWorld(Graphs(AllWorlds(nf), c), solve) &&
            ExtensionOutcome([], Graphs(AllWorlds(nf), c), solve).Ok? ==>
              Total(ExtensionOutcome([], Graphs(AllWorlds(nf), c), solve).value) == 1.0
  {
    var ws := AllWorlds(nf);
    var gs := Graphs(ws, c);
    var outcome := ExtensionOutcome([], gs, solve);
    AllWorldsSound(nf);
    if outcome.Ok? {
      OkMeansSolved([], gs, solve);
      OutcomeIsMass([], gs, solve);
      var items := Solved(gs, solve);
      ExtensionMassSound(items);
      assert Probable(items);
      if OneExtensionPerWorld(gs, solve) {
        OneExtensionEach(items);
        SolvedProbability(gs, solve);
        GraphsMass(ws, c);
      }
    }
    if forall k :: 0 <= k < |gs| ==> solve(gs[k].1).Ok? {
      OutcomeIsMass([], gs, solve);
    }
  }

  /** The solver finds exactly one extension on every world, as the
      single-extension tasks (`SE-...`) do. */
  predicate OneExtensionPerWorld(gs: seq<(real, seq<seq<int>>)>, solve: seq<seq<int>> -> Result<seq<seq<int>>, Frameworks.Failure>) {
    forall k :: 0 <= k < |gs| ==> solve(gs[k].1).Ok? && |solve(gs[k].1).value| == 1
  }

  /** A successful fold had the solver answer on every world. */
  lemma {:induction false} OkMeansSolved(acc: Masses, gs: seq<(real, seq<seq<int>>)>,
                                         solve: seq<seq<int>> -> Result<seq<seq<int>>, Frameworks.Failure>)
    requires ExtensionOutcome(acc, gs, solve).Ok?
    ensures forall k :: 0 <= k < |gs| ==> solve(gs[k].1).Ok?
    decreases |gs|
  {
    if gs != [] {
      var next := WorldMass(acc, gs[0].0, solve(gs[0].1).value).value;
      OkMeansSolved(next, gs[1..], solve);
      assert forall k :: 1 <= k < |gs| ==> gs[k] == gs[1..][k - 1];
    }
  }

  lemma {:induction false} SolvedProbability(gs: seq<(real, seq<seq<int>>)>,
                                             solve: seq<seq<int>> -> Result<seq<seq<int>>, Frameworks.Failure>)
    requires forall k :: 0 <= k < |gs| ==> solve(gs[k].1).Ok?
    ensures Probability(Solved(gs, solve)) == WorldsMass(gs)
  {
    if gs != [] {
      assert Solved(gs, solve)[1..] == Solved(gs[1..], solve);
      SolvedProbability(gs[1..], solve);
    }
  }

  lemma {:induction false} DecidedMassOf(gs: seq<(real, seq<seq<int>>)>, decide: seq<seq<int>> -> Result<bool, Frameworks.Failure>)
    requires Decisions(gs, decide).Ok?
    ensures DecidedMass(Decisions(gs, decide).value) == WorldsMass(gs)
    ensures AllProbable(gs) ==> forall k :: 0 <= k < |gs| ==> Decisions(gs, decide).value[k].0 >= 0.0
  {
    if gs != [] {
      assert Decisions(gs, decide).value[1..] == Decisions(gs[1..], decide).value;
      DecidedMassOf(gs[1..], decide);
    }
  }

  /** What `get_p_decision` returns for a normal form is a probability. */
  lemma DecisionProbability(nf: Matrix, c: nat, decide: seq<seq<int>> -> Result<bool, Frameworks.Failure>)
    requires UnitMatrix(nf)
    ensures Decisions(Graphs(AllWorlds(nf), c), decide).Ok? ==>
              0.0 <= TrueMass(Decisions(Graphs(AllWorlds(nf), c), decide).value) <= 1.0
  {
    var gs := Graphs(AllWorlds(nf), c);
    AllWorldsSound(nf);
    GraphsMass(AllWorlds(nf), c);
    if Decisions(gs, decide).Ok? {
      DecidedMassOf(gs, decide);
      DecisionSplit(Decisions(gs, decide).value);
    }
  }

  /** The graphs of all worlds of a normal form: probabilities at least 0
      that add up to 1. */
  lemma GraphsSound(nf: Matrix, c: nat)
    requires UnitMatrix(nf)
    ensures WorldsMass(Graphs(AllWorlds(nf), c)) == 1.0
    ensures AllProbable(Graphs(AllWorlds(nf), c))
  {
    AllWorldsSound(nf);
    GraphsMass(AllWorlds(nf), c);
  }

  /** What `get_p_equivalent_to` returns for two normal forms is a
      probability. */
  lemma EquivalenceProbability(nf: Matrix, c: nat, otherNf: Matrix, otherC: nat,
                               equiv: (seq<seq<int>>, seq<seq<int>>) -> bool)
    requires UnitMatrix(nf) && UnitMatrix(otherNf)
    ensures 0.0 <= PairMass(Graphs(AllWorlds(nf), c), Graphs(AllWorlds(otherNf), otherC), equiv) <= 1.0
  {
    var xs, ys := Graphs(AllWorlds(nf), c), Graphs(AllWorlds(otherNf), otherC);
    GraphsSound(nf, c);
    GraphsSound(otherNf, otherC);
    PairBounds(xs, ys, equiv);
  }

  /** ... and it is 1 where every pair of worlds is equivalent. */
  lemma CertainEquivalence(nf: Matrix, c: nat, otherNf: Matrix, otherC: nat,
                           equiv: (seq<seq<int>>, seq<seq<int>>) -> bool)
    requires UnitMatrix(nf) && UnitMatrix(otherNf)
    requires AllAgree(Graphs(AllWorlds(nf), c), Graphs(AllWorlds(otherNf), otherC), equiv)
    ensures PairMass(Graphs(AllWorlds(nf), c), Graphs(AllWorlds(otherNf), otherC), equiv) == 1.0
  {
    GraphsSound(nf, c);
    GraphsSound(otherNf, otherC);
    CertainPair(Graphs(AllWorlds(nf), c), Graphs(AllWorlds(otherNf), otherC), equiv);
  }

  lemma CertainPair<W>(xs: seq<(real, W)>, ys: seq<(real, W)>, equiv: (W, W) -> bool)
    requires WorldsMass(xs) == 1.0 && WorldsMass(ys) == 1.0
    requires AllAgree(xs, ys, equiv)
    ensures PairMass(xs, ys, equiv) == 1.0
  {
    PairAgree(xs, ys, equiv);
  }
}
