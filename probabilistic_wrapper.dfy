/*
 * The probabilistic argumentation framework: a framework whose attacks
 * carry probabilities, kept in attack normal form, with argument 0 the
 * ground truth that attacks every argument that may be absent. Its
 * operations enumerate every certain framework the probabilities allow and
 * combine what the solver says about each.
 */

module ProbabilisticWrapping {
  import opened Wrappers
  import opened Worlds
  import opened Aggregation
  import opened Probabilistic
  import Frameworks

  /** The framework `enumerate_frameworks` builds for a world, as the
      solver sees it: capacity `c`, the attacks of the world, and every
      argument present. */
  ghost predicate Instance(f: Frameworks.ArgumentationFramework, m: Matrix, c: nat)
    reads f, f.attacks, f.mask
  {
    && f.Valid()
    && f.Capacity() == c
    && f.AttacksMatrix() == Adjacency(m, c)
    && f.Arguments() == Some(Frameworks.Range(c))
  }

  /** `ProbabilisiticWrapper`. */
  class ProbabilisticWrapper {
    /** `_p_attks`: cell `(a + 1, b + 1)` holds the probability of the
        attack from `a` to `b`, cell `(0, a + 1)` the probability that the
        ground truth attacks `a`, that is, that `a` is absent. */
    var pAttacks: array2<real>
    /** `_wrapped`: the certain framework the probabilities qualify. */
    const wrapped: Frameworks.ArgumentationFramework

    /** The number of arguments the wrapper was made for. */
    function Size(): int
      reads this
    {
      pAttacks.Length0 - 1
    }

    ghost predicate Valid()
      reads this, pAttacks, wrapped, wrapped.attacks, wrapped.mask
    {
      && wrapped.Valid()
      && wrapped.NumArguments() >= 0
      && pAttacks.Length0 == pAttacks.Length1 >= 1
      && Broadcasts(Size(), wrapped.Capacity())
      && forall i, j :: 0 <= i < pAttacks.Length0 && 0 <= j < pAttacks.Length1 ==> 0.0 <= pAttacks[i, j] <= 1.0
    }

    /** Cell `(i, j)` of `p_attacks_normal_form`: off row and column 0, the
        probability of the attack times whether the wrapped framework
        still has it. */
    function Cell(i: nat, j: nat): (r: real)
      reads this, pAttacks, wrapped, wrapped.attacks, wrapped.mask
      requires Valid() && i <= Size() && j <= Size()
      ensures 0.0 <= r <= 1.0
      ensures 0 < i && 0 < j && wrapped.attacks[i - 1, j - 1] == 0 ==> r == 0.0
      ensures !(0 < i && 0 < j && wrapped.attacks[i - 1, j - 1] == 0) ==> r == pAttacks[i, j]
    {
      if 0 < i && 0 < j then pAttacks[i, j] * wrapped.attacks[i - 1, j - 1] as real else pAttacks[i, j]
    }

    function NormalRow(i: nat): (r: seq<real>)
      reads this, pAttacks, wrapped, wrapped.attacks, wrapped.mask
      requires Valid() && i <= Size()
      ensures |r| == Size() + 1 && forall j :: 0 <= j < |r| ==> r[j] == Cell(i, j)
    {
      seq(Size() + 1, j requires Valid() && i <= Size() && 0 <= j <= Size() reads this, pAttacks, wrapped, wrapped.attacks, wrapped.mask => Cell(i, j))
    }

    /** `p_attacks_normal_form`: a matrix of probabilities, one row and
        column more than there are arguments. */
    function NormalForm(): (r: Matrix)
      reads this, pAttacks, wrapped, wrapped.attacks, wrapped.mask
      requires Valid()
      ensures |r| == Size() + 1
    {
      seq(Size() + 1, i requires Valid() && 0 <= i <= Size() reads this, pAttacks, wrapped, wrapped.attacks, wrapped.mask => NormalRow(i))
    }

    /** The cells of the normal form, each a probability. */
    lemma NormalFormCells()
      requires Valid()
      ensures forall i :: 0 <= i < |NormalForm()| ==> |NormalForm()[i]| == Size() + 1
      ensures forall i, j :: 0 <= i < |NormalForm()| && 0 <= j < |NormalForm()[i]| ==> NormalForm()[i][j] == Cell(i, j)
      ensures UnitMatrix(NormalForm())
    {
    }

    /** `__init__`: the attacks of `af` as probabilities 0 or 1, and no
        argument that may be absent; so a freshly wrapped framework has a
        single world, itself, with probability 1. */
    constructor (af: Frameworks.ArgumentationFramework)
      requires af.Valid() && Broadcasts(af.NumArguments(), af.Capacity())
      ensures Valid() && wrapped == af && fresh(pAttacks)
      ensures Size() == af.NumArguments()
      ensures forall i, j :: 0 <= i <= Size() && 0 <= j <= Size() ==>
                pAttacks[i, j] == if 0 < i && 0 < j then af.attacks[i - 1, j - 1] as real else 0.0
      ensures Certain()
    {
      var n := af.NumArguments();
      var a := af.attacks;
      pAttacks := new real[n + 1, n + 1]((i, j) requires n <= a.Length0 && n <= a.Length1 && 0 <= i <= n && 0 <= j <= n reads a =>
                                           if 0 < i && 0 < j then a[i - 1, j - 1] as real else 0.0);
      wrapped := af;
    }

    /** Every probability is 0 or 1. */
    ghost predicate Certain()
      reads this, pAttacks
    {
      forall i, j :: 0 <= i < pAttacks.Length0 && 0 <= j < pAttacks.Length1 ==> pAttacks[i, j] == 0.0 || pAttacks[i, j] == 1.0
    }

    /** Where every probability is 0 or 1, as right after wrapping, the
        only world is the normal form itself, with probability 1. */
    lemma CertainHasOneWorld()
      requires Valid() && Certain()
      ensures AllWorlds(NormalForm()) == [(1.0, NormalForm())]
    {
      var nf := NormalForm();
      NormalFormCells();
      forall i, j | 0 <= i < |nf| && 0 <= j < |nf[i]| ensures !Uncertain(nf[i][j]) {
        assert nf[i][j] == Cell(i, j);
      }
      NoneCount(nf);
      CertainWorld(nf);
    }

    /** `get_p_attacks`: the normal form without the ground truth. */
    function GetPAttacks(): (r: Matrix)
      reads this, pAttacks, wrapped, wrapped.attacks, wrapped.mask
      requires Valid()
      ensures |r| == Size() && forall i :: 0 <= i < |r| ==> |r[i]| == Size()
      ensures forall i, j :: 0 <= i < Size() && 0 <= j < Size() ==> r[i][j] == Cell(i + 1, j + 1)
    {
      NormalFormCells();
      var nf := NormalForm();
      var n := Size();
      seq(n, i requires 0 <= i < n => nf[i + 1][1..])
    }

    /** `set_p_attacks`: the attack from `frm` to `to` gets probability
        `p`, and the wrapped framework has the attack exactly when `p` is
        not 0. */
    method SetPAttacks(frm: int, to: int, p: real)
      requires Valid() && 0 <= frm < Size() && 0 <= to < Size()
      requires 0.0 <= p <= 1.0
      modifies pAttacks, wrapped.attacks
      ensures Valid()
      ensures Cell(frm + 1, to + 1) == p
      ensures wrapped.GetAttacks(frm, to) == if p > 0.0 then 1 else 0
      ensures forall i, j :: 0 <= i < pAttacks.Length0 && 0 <= j < pAttacks.Length1 && (i, j) != (frm + 1, to + 1) ==>
                pAttacks[i, j] == old(pAttacks[i, j])
      ensures forall i, j :: 0 <= i < wrapped.attacks.Length0 && 0 <= j < wrapped.attacks.Length1 && (i, j) != (frm, to) ==>
                wrapped.attacks[i, j] == old(wrapped.attacks[i, j])
    {
      pAttacks[frm + 1, to + 1] := p;
      var raised := wrapped.SetAttacks(frm, to, if p > 0.0 then 1 else 0);
      assert wrapped.NumArguments() == old(wrapped.NumArguments());
    }

    /** `set_p_arg`: argument `argn` is present with probability `p`. */
    method SetPArg(argn: int, p: real)
      requires Valid() && Frameworks.InBounds(argn + 1, Size() + 1)
      requires 0.0 <= p <= 1.0
      modifies pAttacks
      ensures Valid()
      ensures GetPArg(argn) == p
      ensures forall i, j ::
                (0 <= i < pAttacks.Length0 && 0 <= j < pAttacks.Length1 &&
                 (i, j) != (0, Frameworks.PyIndex(argn + 1, Size() + 1))) ==>
                pAttacks[i, j] == old(pAttacks[i, j])
    {
      pAttacks[0, Frameworks.PyIndex(argn + 1, pAttacks.Length0)] := 1.0 - p;
    }

    /** `get_p_arg`: the probability that `argn` is present, which is the
        probability that the ground truth does not attack it. Column
        `argn + 1` is a NumPy index, so `argn` may be as low as `-(n + 2)`:
        `-1` reads cell `(0, 0)` and `-(n + 2)` column 0 from the end. */
    function GetPArg(argn: int): (r: real)
      reads this, pAttacks, wrapped, wrapped.attacks, wrapped.mask
      requires Valid() && Frameworks.InBounds(argn + 1, Size() + 1)
      ensures 0.0 <= r <= 1.0
      ensures r == 1.0 - NormalForm()[0][Frameworks.PyIndex(argn + 1, Size() + 1)]
      ensures 0 <= argn < Size() ==> r == 1.0 - NormalForm()[0][argn + 1]
      ensures argn == -1 ==> r == 1.0 - pAttacks[0, 0]
    {
      NormalFormCells();
      1.0 - pAttacks[0, Frameworks.PyIndex(argn + 1, pAttacks.Length0)]
    }

    /** `__yield_all_frameworks`: the worklist over the normal form, which
        yields exactly the worlds `AllWorlds` describes. */
    method YieldAllFrameworks() returns (worlds: seq<World>)
      requires Valid()
      ensures worlds == AllWorlds(NormalForm())
    {
      worlds := Worklist(NormalForm());
    }

    /** Whether `enumerate_frameworks` builds every world: the arguments of
        the wrapped framework can be listed and every attack of every world
        lies inside the built framework. */
    function Enumerable(): bool
      reads this, pAttacks, wrapped, wrapped.attacks, wrapped.mask
      requires Valid()
    {
      wrapped.Arguments().Some? && AllFit(AllWorlds(NormalForm()), wrapped.NumArguments() + 1)
    }

    /** The probability and attack matrix of each framework
        `enumerate_frameworks` builds, in order. */
    function WorldGraphs(): seq<(real, seq<seq<int>>)>
      reads this, pAttacks, wrapped, wrapped.attacks, wrapped.mask
      requires Valid()
    {
      Graphs(AllWorlds(NormalForm()), wrapped.NumArguments() + 1)
    }

    /** `enumerate_frameworks`: one framework per world, with the
        probability of the world, one argument more than the wrapped
        framework (the ground truth, argument 0), every argument present
        and the attacks of the world; `IndexError` (`None`) where the
        arguments cannot be listed or an attack falls outside. */
    method EnumerateFrameworks() returns (r: Option<seq<(real, Frameworks.ArgumentationFramework)>>)
      requires Valid()
      ensures r.None? <==> !old(Enumerable())
      ensures r.Some? ==> Enumerated(r.value, AllWorlds(old(NormalForm())), old(wrapped.NumArguments()) + 1)
      {
      PreparedForSolver();
      r := EnumerateWorlds(NormalForm(), wrapped.Arguments(), wrapped.NumArguments());
    }

    /** `get_p_extension`: the probability of each extension, that is, the
        summed probability of the worlds in which the solver finds it; each
        extension is listed once with a probability at least 0, and where
        the solver finds one extension per world the probabilities add up
        to 1. */
    method GetPExtension(solve: seq<seq<int>> -> Result<seq<seq<int>>, Frameworks.Failure>) returns (r: Result<Masses, Raised>)
      requires Valid()
      ensures r == if old(Enumerable()) then ExtensionOutcome([], old(WorldGraphs()), solve) else Err(IndexError)
      ensures r.Ok? ==> DistinctKeys(r.value) && NonNegative(r.value)
      ensures r.Ok? && OneExtensionPerWorld(old(WorldGraphs()), solve) ==> Total(r.value) == 1.0
    {
      PreparedForSolver();
      r := PExtension(NormalForm(), wrapped.Arguments(), wrapped.NumArguments(), solve);
    }

    /** `get_p_decision`: the summed probability of the worlds in which the
        solver accepts `argument`, asked as `argument + 1` since argument 0
        of each world is the ground truth; a probability. */
    method GetPDecision(argument: int, decide: (int, seq<seq<int>>) -> Result<bool, Frameworks.Failure>) returns (r: Result<real, Raised>)
      requires Valid()
      ensures r == if !old(Enumerable()) then Err(IndexError)
                   else match Decisions(old(WorldGraphs()), Shifted(decide, argument + 1))
                        case Err(e) => Err(Solver(e))
                        case Ok(ds) => Ok(TrueMass(ds))
      ensures r.Ok? ==> 0.0 <= r.value <= 1.0
    {
      PreparedForSolver();
      r := PDecision(NormalForm(), wrapped.Arguments(), wrapped.NumArguments(), argument, decide);
    }

    /** `get_p_equivalent_to`: the summed probability of the pairs of
        worlds, one of each framework, that `equiv` finds equivalent under
        `criteria`; a probability, and 1 where every pair is equivalent.
        Both enumerations come first; then the first pair fails
        `equivalent_to`'s assertions, and so every pair does, when the
        two wrappers differ in size or the code is unknown. */
    method GetPEquivalentTo(other: ProbabilisticWrapper, criteria: string,
                            equiv: (seq<seq<int>>, seq<seq<int>>) -> bool) returns (r: Result<real, Raised>)
      requires Valid() && other.Valid()
      ensures r == if !old(Enumerable()) || !old(other.Enumerable()) then Err(IndexError)
                   else if old(wrapped.NumArguments()) != old(other.wrapped.NumArguments()) then Err(SizeMismatch)
                   else if !KnownCriteria(criteria) then Err(UnknownCriteria)
                   else Ok(PairMass(old(WorldGraphs()), old(other.WorldGraphs()), equiv))
      ensures r.Ok? ==> 0.0 <= r.value <= 1.0
      ensures r.Ok? && AllAgree(old(WorldGraphs()), old(other.WorldGraphs()), equiv) ==> r.value == 1.0
    {
      PreparedForSolver();
      other.PreparedForSolver();
      r := PEquivalence(NormalForm(), wrapped.Arguments(), wrapped.NumArguments(),
                        other.NormalForm(), other.wrapped.Arguments(), other.wrapped.NumArguments(), criteria, equiv);
    }

    /** What the solver-facing operations need of a valid wrapper: the
        normal form holds probabilities, and the arguments of the wrapped
        framework, where they can be listed, are `0..n`. */
    lemma PreparedForSolver()
      requires Valid()
      ensures UnitMatrix(NormalForm())
      ensures wrapped.Arguments().Some? ==> wrapped.Arguments().value == Frameworks.Range(wrapped.NumArguments())
    {
      NormalFormCells();
      if wrapped.Arguments().Some? {
        wrapped.ArgumentsArePrefix();
      }
    }
  }

  /** Wrapping `af`: `ValueError` where its attack matrix does not fit the
      matrix of probabilities. */
  method Wrap(af: Frameworks.ArgumentationFramework) returns (r: Option<ProbabilisticWrapper>)
    requires af.Valid()
    ensures r.None? <==> !Broadcasts(af.NumArguments(), af.Capacity())
    ensures r.Some? ==> fresh(r.value) && r.value.Valid() && r.value.wrapped == af
    ensures r.Some? ==> r.value.Size() == af.NumArguments()
  {
    if !Broadcasts(af.NumArguments(), af.Capacity()) {
      return None;
    }
    var w := new ProbabilisticWrapper(af);
    return Some(w);
  }

  /** The worklist of `__yield_all_frameworks` over the normal form `nf`:
      first in, first out; a world with an uncertain cell is replaced by
      its two branches, a world without one is yielded. */
  method Worklist(nf: Matrix) returns (worlds: seq<World>)
    ensures worlds == AllWorlds(nf)
  {
    var queue: seq<World> := [(1.0, nf)];
    worlds := [];
    while queue != []
      invariant Pending(nf, worlds, queue)
      decreases Weight(queue)
    {
      var w := queue[0];
      var first := FirstUncertain(w.1);
      if first.None? {
        YieldStep(nf, worlds, queue);
        worlds := worlds + [w];
        queue := queue[1..];
      } else {
        var (i, j) := first.value;
        BranchStep(nf, worlds, queue, i, j);
        queue := queue[1..] + Branches(nf, w, i, j);
      }
    }
  }

  /** The worklist invariant: what was yielded, followed by what the queue
      still yields, is every world. */
  ghost predicate Pending(nf: Matrix, worlds: seq<World>, queue: seq<World>) {
    Shaped(queue, nf) && worlds + Expand(nf, queue) == AllWorlds(nf)
  }

  /** A round of the worklist on a world without an uncertain cell
      yields it. */
  lemma YieldStep(nf: Matrix, worlds: seq<World>, q: seq<World>)
    requires q != [] && Pending(nf, worlds, q) && FirstUncertain(q[0].1).None?
    ensures Pending(nf, worlds + [q[0]], q[1..]) && Weight(q[1..]) < Weight(q)
  {
    ExpandYield(nf, q);
    var rest := Expand(nf, q[1..]);
    assert worlds + Expand(nf, q) == (worlds + [q[0]]) + rest;
  }

  lemma ExpandYield(nf: Matrix, q: seq<World>)
    requires q != [] && Shaped(q, nf) && FirstUncertain(q[0].1).None?
    ensures Shaped(q[1..], nf) && Weight(q[1..]) < Weight(q)
    ensures Expand(nf, q) == [q[0]] + Expand(nf, q[1..])
  {
    assert Rest(nf, q) == q[1..];
    RestWeight(nf, q);
  }

  /** A round of the worklist on a world whose first uncertain cell is
      `(i, j)` queues its two branches. */
  lemma BranchStep(nf: Matrix, worlds: seq<World>, q: seq<World>, i: nat, j: nat)
    requires q != [] && Pending(nf, worlds, q) && FirstUncertain(q[0].1) == Some((i, j))
    ensures i < |nf| && j < |nf[i]|
    ensures Pending(nf, worlds, q[1..] + Branches(nf, q[0], i, j))
    ensures Weight(q[1..] + Branches(nf, q[0], i, j)) < Weight(q)
  {
    ExpandBranches(nf, q, i, j);
  }

  lemma ExpandBranches(nf: Matrix, q: seq<World>, i: nat, j: nat)
    requires q != [] && Shaped(q, nf) && FirstUncertain(q[0].1) == Some((i, j))
    ensures i < |nf| && j < |nf[i]|
    ensures Shaped(q[1..] + Branches(nf, q[0], i, j), nf)
    ensures Weight(q[1..] + Branches(nf, q[0], i, j)) < Weight(q)
    ensures Expand(nf, q) == Expand(nf, q[1..] + Branches(nf, q[0], i, j))
  {
    assert Rest(nf, q) == q[1..] + Branches(nf, q[0], i, j);
    RestWeight(nf, q);
  }

  /** `solve_decision(argument, ...)` on a world, seen through its attack
      matrix. */
  function Shifted(decide: (int, seq<seq<int>>) -> Result<bool, Frameworks.Failure>, argument: int): seq<seq<int>> -> Result<bool, Frameworks.Failure> {
    g => decide(argument, g)
  }

  /** The frameworks `fs` are those built for the worlds `ws`, in order. */
  ghost predicate Enumerated(fs: seq<(real, Frameworks.ArgumentationFramework)>, ws: seq<World>, c: nat)
    reads set k | 0 <= k < |fs| :: fs[k].1
    reads set k | 0 <= k < |fs| :: fs[k].1.attacks
    reads set k | 0 <= k < |fs| :: fs[k].1.mask
  {
    |fs| == |ws| && forall k :: 0 <= k < |fs| ==> fs[k].0 == ws[k].0 && Instance(fs[k].1, ws[k].1, c)
  }

  /** `enumerate_frameworks` over the normal form `nf`, for a wrapped
      framework with the arguments `arguments` and `n` arguments. */
  method EnumerateWorlds(nf: Matrix, arguments: Option<seq<int>>, n: nat) returns (r: Option<seq<(real, Frameworks.ArgumentationFramework)>>)
    requires arguments.Some? ==> arguments.value == Frameworks.Range(n)
    ensures r.None? <==> arguments.None? || !AllFit(AllWorlds(nf), n + 1)
    ensures r.Some? ==> Enumerated(r.value, AllWorlds(nf), n + 1)
  {
    var worlds := Worklist(nf);
    if arguments.None? {
      return None;
    }
    r := BuildAll(worlds, arguments.value, n);
  }

  /** The probability and attack matrix of each framework
      `enumerate_frameworks` builds: what the solver is asked about. */
  method SolverGraphs(nf: Matrix, arguments: Option<seq<int>>, n: nat) returns (r: Option<seq<(real, seq<seq<int>>)>>)
    requires arguments.Some? ==> arguments.value == Frameworks.Range(n)
    ensures r == if arguments.Some? && AllFit(AllWorlds(nf), n + 1) then Some(Graphs(AllWorlds(nf), n + 1)) else None
  {
    var frameworks := EnumerateWorlds(nf, arguments, n);
    if frameworks.None? {
      return None;
    }
    var graphs := AttackGraphs(frameworks.value);
    GraphsOf(frameworks.value, AllWorlds(nf), n + 1, graphs);
    return Some(graphs);
  }

  /** `get_p_extension` over the normal form `nf`. */
  method PExtension(nf: Matrix, arguments: Option<seq<int>>, n: nat,
                    solve: seq<seq<int>> -> Result<seq<seq<int>>, Frameworks.Failure>) returns (r: Result<Masses, Raised>)
    requires UnitMatrix(nf) && (arguments.Some? ==> arguments.value == Frameworks.Range(n))
    ensures r == if arguments.Some? && AllFit(AllWorlds(nf), n + 1) then ExtensionOutcome([], Graphs(AllWorlds(nf), n + 1), solve) else Err(IndexError)
    ensures r.Ok? ==> DistinctKeys(r.value) && NonNegative(r.value)
    ensures r.Ok? && OneExtensionPerWorld(Graphs(AllWorlds(nf), n + 1), solve) ==> Total(r.value) == 1.0
  {
    ExtensionProbabilities(nf, n + 1, solve);
    var graphs := SolverGraphs(nf, arguments, n);
    if graphs.None? {
      return Err(IndexError);
    }
    r := FoldExtensions(graphs.value, solve);
  }

  /** `get_p_decision` over the normal form `nf`: `argument += 1`, then
      the decision on each world. */
  method PDecision(nf: Matrix, arguments: Option<seq<int>>, n: nat,
                   argument: int, decide: (int, seq<seq<int>>) -> Result<bool, Frameworks.Failure>) returns (r: Result<real, Raised>)
    requires UnitMatrix(nf) && (arguments.Some? ==> arguments.value == Frameworks.Range(n))
    ensures r == if !(arguments.Some? && AllFit(AllWorlds(nf), n + 1)) then Err(IndexError)
                 else match Decisions(Graphs(AllWorlds(nf), n + 1), Shifted(decide, argument + 1))
                      case Err(e) => Err(Solver(e))
                      case Ok(ds) => Ok(TrueMass(ds))
    ensures r.Ok? ==> 0.0 <= r.value <= 1.0
  {
    var shifted := argument + 1;
    DecisionProbability(nf, n + 1, Shifted(decide, shifted));
    var graphs := SolverGraphs(nf, arguments, n);
    if graphs.None? {
      return Err(IndexError);
    }
    r := FoldDecisions(graphs.value, Shifted(decide, shifted));
  }

  /** `get_p_equivalent_to` over the normal forms `nf` and `otherNf`:
      every pair of worlds, one of each. A world of `nf` is a framework
      of `n + 1` arguments, all present, so `equivalent_to` fails its
      size assertion on the first pair exactly when `n != otherN`. */
  method PEquivalence(nf: Matrix, arguments: Option<seq<int>>, n: nat,
                      otherNf: Matrix, otherArguments: Option<seq<int>>, otherN: nat,
                      criteria: string,
                      equiv: (seq<seq<int>>, seq<seq<int>>) -> bool) returns (r: Result<real, Raised>)
    requires UnitMatrix(nf) && (arguments.Some? ==> arguments.value == Frameworks.Range(n))
    requires UnitMatrix(otherNf) && (otherArguments.Some? ==> otherArguments.value == Frameworks.Range(otherN))
    ensures r == if !(arguments.Some? && AllFit(AllWorlds(nf), n + 1)) || !(otherArguments.Some? && AllFit(AllWorlds(otherNf), otherN + 1))
                 then Err(IndexError)
                 else if n != otherN then Err(SizeMismatch)
                 else if !KnownCriteria(criteria) then Err(UnknownCriteria)
                 else Ok(PairMass(Graphs(AllWorlds(nf), n + 1), Graphs(AllWorlds(otherNf), otherN + 1), equiv))
    ensures r.Ok? ==> 0.0 <= r.value <= 1.0
    ensures r.Ok? && AllAgree(Graphs(AllWorlds(nf), n + 1), Graphs(AllWorlds(otherNf), otherN + 1), equiv) ==>
              r.value == 1.0
  {
    var graphs := SolverGraphs(nf, arguments, n);
    if graphs.None? {
      return Err(IndexError);
    }
    var otherGraphs := SolverGraphs(otherNf, otherArguments, otherN);
    if otherGraphs.None? {
      return Err(IndexError);
    }
    if n != otherN {
      return Err(SizeMismatch);
    }
    if !KnownCriteria(criteria) {
      return Err(UnknownCriteria);
    }
    EquivalenceProbability(nf, n + 1, otherNf, otherN + 1, equiv);
    if AllAgree(graphs.value, otherGraphs.value, equiv) {
      CertainEquivalence(nf, n + 1, otherNf, otherN + 1, equiv);
    }
    var p := FoldEquivalence(graphs.value, otherGraphs.value, equiv);
    return Ok(p);
  }

  /** The loop of `enumerate_frameworks`: a framework built for each
      world in turn, `None` at the first world with an attack outside. */
  method BuildAll(worlds: seq<World>, arguments: seq<int>, n: nat) returns (r: Option<seq<(real, Frameworks.ArgumentationFramework)>>)
    requires arguments == Frameworks.Range(n)
    ensures r.None? <==> !AllFit(worlds, n + 1)
    ensures r.Some? ==> Enumerated(r.value, worlds, n + 1)
  {
    var built: seq<(real, Frameworks.ArgumentationFramework)> := [];
    for k := 0 to |worlds|
      invariant |built| == k
      invariant AllFit(worlds[..k], n + 1)
      invariant Enumerated(built, worlds[..k], n + 1)
    {
      var next := BuildNext(built, worlds, k, arguments, n);
      if next.None? {
        return None;
      }
      built := next.value;
    }
    assert worlds[..|worlds|] == worlds;
    return Some(built);
  }

  /** One round of `enumerate_frameworks`: the framework of world `k`
      joins those built from the worlds before it. */
  method BuildNext(built: seq<(real, Frameworks.ArgumentationFramework)>, worlds: seq<World>, k: nat,
                   arguments: seq<int>, n: nat) returns (r: Option<seq<(real, Frameworks.ArgumentationFramework)>>)
    requires arguments == Frameworks.Range(n) && k < |worlds|
    requires AllFit(worlds[..k], n + 1) && Enumerated(built, worlds[..k], n + 1)
    ensures r.None? ==> !AllFit(worlds, n + 1)
    ensures r.Some? ==> AllFit(worlds[..k + 1], n + 1) && Enumerated(r.value, worlds[..k + 1], n + 1)
  {
    var af := BuildWorld(worlds[k].1, arguments, n);
    if af.None? {
      SomeDoesNotFit(worlds, k, n + 1);
      return None;
    }
    EnumeratedSnoc(built, worlds[..k], worlds[k], af.value, n + 1);
    AllFitSnoc(worlds, k, n + 1);
    return Some(built + [(worlds[k].0, af.value)]);
  }

  lemma SomeDoesNotFit(ws: seq<World>, k: nat, c: nat)
    requires k < |ws| && !Fits(ws[k].1, c)
    ensures !AllFit(ws, c)
  {
  }

  lemma AllFitSnoc(ws: seq<World>, k: nat, c: nat)
    requires k < |ws| && AllFit(ws[..k], c) && Fits(ws[k].1, c)
    ensures AllFit(ws[..k + 1], c) && ws[..k + 1] == ws[..k] + [ws[k]]
  {
    assert ws[..k + 1] == ws[..k] + [ws[k]];
  }

  /** One more world built keeps the frameworks and the worlds in step. */
  lemma EnumeratedSnoc(fs: seq<(real, Frameworks.ArgumentationFramework)>, ws: seq<World>, w: World,
                       f: Frameworks.ArgumentationFramework, c: nat)
    requires Enumerated(fs, ws, c) && Instance(f, w.1, c)
    ensures Enumerated(fs + [(w.0, f)], ws + [w], c)
  {
    var gs := fs + [(w.0, f)];
    var vs := ws + [w];
    forall k | 0 <= k < |gs| ensures gs[k].0 == vs[k].0 && Instance(gs[k].1, vs[k].1, c) {
      if k < |fs| {
        assert gs[k] == fs[k] && vs[k] == ws[k];
      }
    }
  }

  /** The probability and the attack matrix of each framework. */
  method AttackGraphs(fs: seq<(real, Frameworks.ArgumentationFramework)>) returns (gs: seq<(real, seq<seq<int>>)>)
    ensures |gs| == |fs| && forall k :: 0 <= k < |fs| ==> gs[k] == (fs[k].0, fs[k].1.AttacksMatrix())
  {
    gs := [];
    for k := 0 to |fs|
      invariant |gs| == k && forall i :: 0 <= i < k ==> gs[i] == (fs[i].0, fs[i].1.AttacksMatrix())
    {
      gs := gs + [(fs[k].0, fs[k].1.AttacksMatrix())];
    }
  }

  /** What the solver sees of the enumerated frameworks is the graphs of
      the worlds. */
  lemma GraphsOf(fs: seq<(real, Frameworks.ArgumentationFramework)>, ws: seq<World>, c: nat, gs: seq<(real, seq<seq<int>>)>)
    requires Enumerated(fs, ws, c)
    requires |gs| == |fs| && forall k :: 0 <= k < |fs| ==> gs[k] == (fs[k].0, fs[k].1.AttacksMatrix())
    ensures gs == Graphs(ws, c)
  {
    forall k | 0 <= k < |gs| ensures gs[k] == Graphs(ws, c)[k] {
      assert Instance(fs[k].1, ws[k].1, c);
    }
  }

  /** The framework `enumerate_frameworks` builds for the world `m`:
      `n + 1` arguments, all present, and an attack for every nonzero cell
      of the world; `IndexError` (`None`) on a cell outside. */
  method BuildWorld(m: Matrix, arguments: seq<int>, n: nat) returns (r: Option<Frameworks.ArgumentationFramework>)
    requires arguments == Frameworks.Range(n)
    ensures r.None? <==> !Fits(m, n + 1)
    ensures r.Some? ==> fresh(r.value) && Instance(r.value, m, n + 1)
  {
    var af := AllPresent(n, arguments);
    var ok := MarkAttacks(af, m, n + 1);
    if !ok {
      return None;
    }
    AttacksAre(af, m, n + 1);
    return Some(af);
  }

  /** A framework of `n + 1` arguments without attacks: its mask first
      cleared, then set for argument `a + 1` of each `a` in `arguments`,
      then for the ground truth, argument 0. */
  method AllPresent(n: nat, arguments: seq<int>) returns (af: Frameworks.ArgumentationFramework)
    requires arguments == Frameworks.Range(n)
    ensures fresh(af) && fresh(af.attacks)
    ensures af.Valid() && af.Capacity() == n + 1
    ensures forall a, b :: 0 <= a < n + 1 && 0 <= b < n + 1 ==> af.attacks[a, b] == 0
    ensures af.Arguments() == Some(Frameworks.Range(n + 1))
  {
    var c := n + 1;
    af := new Frameworks.ArgumentationFramework(c);
    var raised := af.SetArgumentMask(seq(c, _ => 0.0));
    assert af.mask[..] == Present(c, 0);
    for k := 0 to |arguments|
      invariant fresh(af) && fresh(af.attacks) && fresh(af.mask)
      invariant af.Valid() && af.Capacity() == c && af.boolMask
      invariant forall a, b :: 0 <= a < c && 0 <= b < c ==> af.attacks[a, b] == 0
      invariant af.mask[..] == Present(c, k)
    {
      raised := af.MaskArgument(arguments[k] + 1, 1.0);
      PresentStep(c, k);
    }
    raised := af.MaskArgument(0, 1.0);
    PresentAll(c, af.mask[..]);
    Frameworks.AllNonzero(af.mask[..], c);
    Frameworks.SumBelowCount(af.mask[..], c);
  }

  /** The mask of a framework of `c` arguments once arguments `1..k` are
      set. */
  function Present(c: nat, k: int): (r: seq<real>)
    ensures |r| == c && forall x :: 0 <= x < c ==> r[x] == if 1 <= x <= k then 1.0 else 0.0
  {
    seq(c, x => if 1 <= x <= k then 1.0 else 0.0)
  }

  lemma PresentStep(c: nat, k: nat)
    requires k + 1 < c
    ensures Present(c, k)[k + 1 := 1.0] == Present(c, k + 1)
  {
  }

  lemma PresentAll(c: nat, m: seq<real>)
    requires c >= 1 && m == Present(c, c - 1)[0 := 1.0]
    ensures forall x :: 0 <= x < |m| ==> m[x] == 1.0
  {
  }

  /** Cell `(a, b)` once the attack loop has reached cell `(i, j)`: 1 for
      the nonzero cells of the world before it, in row-major order. */
  function Marked(m: Matrix, a: int, b: int, i: int, j: int): int {
    if (a < i || (a == i && b < j)) && 0 <= a < |m| && 0 <= b < |m[a]| && m[a][b] != 0.0 then 1 else 0
  }

  /** `for i, j in np.argwhere(af_attacks): af.set_attacks(i, j, 1)`: an
      attack for each nonzero cell of the world, row by row; `false` at
      the first cell outside the framework. */
  method MarkAttacks(af: Frameworks.ArgumentationFramework, m: Matrix, c: nat) returns (ok: bool)
    requires af.Valid() && af.Capacity() == c
    requires forall a, b :: 0 <= a < c && 0 <= b < c ==> af.attacks[a, b] == 0
    modifies af.attacks
    ensures af.Valid()
    ensures ok <==> Fits(m, c)
    ensures ok ==> forall a, b :: 0 <= a < c && 0 <= b < c ==> af.attacks[a, b] == Adjacency(m, c)[a][b]
  {
    for i := 0 to |m|
      invariant af.Valid()
      invariant forall a, b :: 0 <= a < i && 0 <= b < |m[a]| && m[a][b] != 0.0 ==> a < c && b < c
      invariant forall a, b :: 0 <= a < c && 0 <= b < c ==> af.attacks[a, b] == Marked(m, a, b, i, 0)
    {
      for j := 0 to |m[i]|
        invariant af.Valid()
        invariant forall b :: 0 <= b < j && m[i][b] != 0.0 ==> i < c && b < c
        invariant forall a, b :: 0 <= a < c && 0 <= b < c ==> af.attacks[a, b] == Marked(m, a, b, i, j)
      {
        if m[i][j] != 0.0 {
          if !(i < c && j < c) {
            return false;
          }
          var raised := af.SetAttacks(i, j, 1);
        }
      }
    }
    return true;
  }

  /** A framework whose cells are those of `Adjacency(m, c)` has that
      attack matrix. */
  lemma AttacksAre(af: Frameworks.ArgumentationFramework, m: Matrix, c: nat)
    requires af.Valid() && af.Capacity() == c
    requires forall a, b :: 0 <= a < c && 0 <= b < c ==> af.attacks[a, b] == Adjacency(m, c)[a][b]
    ensures af.AttacksMatrix() == Adjacency(m, c)
  {
    var rows := af.AttacksMatrix();
    var adjacency := Adjacency(m, c);
    forall a | 0 <= a < c ensures rows[a] == adjacency[a] {
      assert |rows[a]| == c;
    }
  }
}
