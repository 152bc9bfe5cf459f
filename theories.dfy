/** solved_af/theories.py: the reduction of complete and stable labellings
    to SAT, and the DIMACS text handed to the solver. */
module Theories {
  import opened Wrappers
  import opened Utils
  import opened Text
  import opened Collections
  import opened Framework

  /** `Label`: the labels an argument can carry, numbered 1, 2 and 3. */
  datatype Label = In | Out | Und {
    function Value(): int {
      match this
      case In => 1
      case Out => 2
      case Und => 3
    }
  }

  /** `len(Label)`. */
  const LabelCount := 3

  /** Python's `//`: the quotient rounded down. */
  function FloorDiv(a: int, b: int): int
    requires b != 0
  {
    if b > 0 then a / b else (-a) / (-b)
  }

  /** `//` rounds down: the quotient times the divisor is at most the
      dividend, and one more step of the divisor passes it. */
  lemma FloorDivBounds(a: int, b: int)
    requires b != 0
    ensures b > 0 ==> b * FloorDiv(a, b) <= a < b * FloorDiv(a, b) + b
    ensures b < 0 ==> b * FloorDiv(a, b) >= a > b * FloorDiv(a, b) + b
  {
    if b < 0 {
      var q := (-a) / (-b);
      assert (-b) * q <= -a < (-b) * q + (-b);
    }
  }

  /** `_calculateLabelVar`. */
  function CalculateLabelVar(argValue: int, numOfLabels: int, lab: Label): int {
    numOfLabels * (argValue - 1) + lab.Value()
  }

  /** `labelVarToArg`. */
  function LabelVarToArg(labelVar: int, numOfLabels: int): int
    requires numOfLabels != 0
  {
    FloorDiv(labelVar, numOfLabels) + 1
  }

  /** `inLab`; the cache in front of it is `Utils.Memoized`. */
  function InLab(a: int): (r: int)
    ensures r == 3 * a - 2
  {
    CalculateLabelVar(a, LabelCount, In)
  }

  /** `outLab`. */
  function OutLab(a: int): (r: int)
    ensures r == 3 * a - 1
  {
    CalculateLabelVar(a, LabelCount, Out)
  }

  /** `undLab`. */
  function UndLab(a: int): (r: int)
    ensures r == 3 * a
  {
    CalculateLabelVar(a, LabelCount, Und)
  }

  /** Different arguments or labels get different variables. */
  lemma LabelVarInjective(a: int, b: int, l: Label, m: Label)
    ensures CalculateLabelVar(a, LabelCount, l) == CalculateLabelVar(b, LabelCount, m) <==> a == b && l == m
  {
    if CalculateLabelVar(a, LabelCount, l) == CalculateLabelVar(b, LabelCount, m) {
      assert 3 * (a - b) == m.Value() - l.Value();
      assert -3 < m.Value() - l.Value() < 3;
      assert a == b;
    }
  }

  /** The variables of arguments `1..n` are `1..3n`. */
  lemma LabelVarRange(a: int, n: int, l: Label)
    requires 1 <= a <= n
    ensures 1 <= CalculateLabelVar(a, LabelCount, l) <= 3 * n
  {
  }

  /** `labelVarToArg` recovers the argument from its in- and out-variables,
      but maps the undecided variable of `a` to `a + 1`. */
  lemma LabelVarToArgInverse(a: int, l: Label)
    ensures LabelVarToArg(CalculateLabelVar(a, LabelCount, l), LabelCount) == if l == Und then a + 1 else a
  {
    var v := CalculateLabelVar(a, LabelCount, l);
    FloorDivBounds(v, 3);
    var q := FloorDiv(v, 3);
    if l == Und {
      assert v == 3 * a;
      assert 3 * q <= 3 * a < 3 * q + 3;
    } else {
      assert 3 * a - 2 <= v <= 3 * a - 1;
      assert 3 * q <= v < 3 * q + 3;
    }
  }

  // Clauses and their truth under an assignment.

  type Clause = seq<int>
  type Theory = seq<Clause>

  /** A literal holds when `t` is the set of true variables. */
  predicate LitHolds(t: set<int>, lit: int) {
    if lit > 0 then lit in t else lit < 0 && -lit !in t
  }

  predicate ClauseHolds(t: set<int>, c: Clause) {
    exists i :: 0 <= i < |c| && LitHolds(t, c[i])
  }

  predicate TheoryHolds(t: set<int>, th: Theory) {
    forall i :: 0 <= i < |th| ==> ClauseHolds(t, th[i])
  }

  /** The clause templates (`*_theory`). `CompleteIn2` is
      `complete_in_theory_2` as written; `CompleteIn2Attackers` is the
      clause family the complete encoding needs in its place. */
  datatype Template =
    | Uniqueness
    | CompleteIn1
    | CompleteIn2
    | CompleteIn2Attackers
    | CompleteOut1
    | CompleteOut2
    | StableIn
    | StableOut

  /** The framework's attack lists are set up and its arguments are values. */
  ghost predicate Ready<N(!new)>(f: ListGraphFramework<N>) {
    f.NodesValid() && ArgsIn(f.args, f.Length())
  }

  /** Every one of `args` lies between 1 and `n`. */
  ghost predicate ArgsIn(args: seq<int>, n: int) {
    forall i :: 0 <= i < |args| ==> 1 <= args[i] <= n
  }

  lemma ValidIsReady<N(!new)>(f: ListGraphFramework<N>)
    requires f.Valid()
    ensures Ready(f)
  {
    f.ArgsInRange();
  }

  /** Attackers and targets of an argument are arguments. */
  lemma AttacksInRange<N(!new)>(f: ListGraphFramework<N>)
    requires f.NodesValid()
    ensures forall b, a :: f.Attacks(b, a) ==> 1 <= b <= f.Length() && 1 <= a <= f.Length()
  {
    forall b, a | f.Attacks(b, a) ensures 1 <= b <= f.Length() && 1 <= a <= f.Length() {
      assert (b, a) in f.atts;
    }
  }

  /** The negated out-variables of the arguments `xs`, in order. */
  function NegatedOuts(xs: seq<int>): (r: Clause)
    ensures |r| == |xs| && forall i :: 0 <= i < |xs| ==> r[i] == -OutLab(xs[i])
  {
    seq(|xs|, i requires 0 <= i < |xs| => -OutLab(xs[i]))
  }

  /** The in-variables of the arguments `xs`, in order. */
  function Ins(xs: seq<int>): (r: Clause)
    ensures |r| == |xs| && forall i :: 0 <= i < |xs| ==> r[i] == InLab(xs[i])
  {
    seq(|xs|, i requires 0 <= i < |xs| => InLab(xs[i]))
  }

  /** `uniqueness_theory`: exactly one label variable of `a` is true. */
  function UniquenessClauses(a: int): (r: Theory)
    ensures |r| == 4
  {
    [[InLab(a), OutLab(a), UndLab(a)],
     [-InLab(a), -OutLab(a)],
     [-InLab(a), -UndLab(a)],
     [-OutLab(a), -UndLab(a)]]
  }

  /** One clause `-in(a) out(x)` for each `x` of `xs`. */
  function InForcesOuts(a: int, xs: seq<int>): (r: Theory)
    ensures |r| == |xs| && forall i :: 0 <= i < |xs| ==> r[i] == [-InLab(a), OutLab(xs[i])]
  {
    seq(|xs|, i requires 0 <= i < |xs| => [-InLab(a), OutLab(xs[i])])
  }

  /** One clause `-in(x) out(a)` for each `x` of `xs`. */
  function InsForceOut(xs: seq<int>, a: int): (r: Theory)
    ensures |r| == |xs| && forall i :: 0 <= i < |xs| ==> r[i] == [-InLab(xs[i]), OutLab(a)]
  {
    seq(|xs|, i requires 0 <= i < |xs| => [-InLab(xs[i]), OutLab(a)])
  }

  /** One clause `-x -a` for each `x` of `xs`. */
  function NotBoth(xs: seq<int>, a: int): (r: Theory)
    ensures |r| == |xs| && forall i :: 0 <= i < |xs| ==> r[i] == [-xs[i], -a]
  {
    seq(|xs|, i requires 0 <= i < |xs| => [-xs[i], -a])
  }

  /** `CNFTheory.generate`: the clauses of a template for argument `a`. The
      program iterates over sets of attackers and targets in hash order;
      the model takes them in ascending order, which changes only the order
      of the clauses, never which clauses there are. */
  function Generate<N(==,!new)>(t: Template, a: int, f: ListGraphFramework<N>): (r: Theory)
    requires f.NodesValid() && 1 <= a <= f.Length()
    ensures t == Uniqueness ==> |r| == 4
    ensures t == CompleteIn1 || t == CompleteOut2 || t == StableIn ==> |r| == 1
    ensures t == CompleteIn2 ==> |r| == |f.AttackedBy(a)|
    ensures t == CompleteIn2Attackers || t == CompleteOut1 || t == StableOut ==> |r| == |f.AttackersOf(a)|
  {
    var attackers := Sorted(f.AttackersOf(a));
    var attacked := Sorted(f.AttackedBy(a));
    match t
    case Uniqueness => UniquenessClauses(a)
    case CompleteIn1 => [NegatedOuts(attackers) + [InLab(a)]]
    case CompleteIn2 => InForcesOuts(a, attacked)
    case CompleteIn2Attackers => InForcesOuts(a, attackers)
    case CompleteOut1 => InsForceOut(attackers, a)
    case CompleteOut2 => [Ins(attackers) + [-OutLab(a)]]
    case StableIn => [attackers + [a]]
    case StableOut => NotBoth(attackers, a)
  }

  /** Exactly one of the three label variables of `a` is true. */
  ghost predicate ExactlyOneLabel(a: int, tv: set<int>) {
    && (InLab(a) in tv || OutLab(a) in tv || UndLab(a) in tv)
    && !(InLab(a) in tv && OutLab(a) in tv)
    && !(InLab(a) in tv && UndLab(a) in tv)
    && !(OutLab(a) in tv && UndLab(a) in tv)
  }

  /** What the clauses of a template say about argument `a`, with `t` the set
      of true variables. */
  ghost predicate Meaning<N(!new)>(t: Template, f: ListGraphFramework<N>, a: int, tv: set<int>) {
    match t
    case Uniqueness =>
      ExactlyOneLabel(a, tv)
    case CompleteIn1 =>
      (forall b :: f.Attacks(b, a) ==> OutLab(b) in tv) ==> InLab(a) in tv
    case CompleteIn2 =>
      InLab(a) in tv ==> forall b :: f.Attacks(a, b) ==> OutLab(b) in tv
    case CompleteIn2Attackers =>
      InLab(a) in tv ==> forall b :: f.Attacks(b, a) ==> OutLab(b) in tv
    case CompleteOut1 =>
      (exists b :: f.Attacks(b, a) && InLab(b) in tv) ==> OutLab(a) in tv
    case CompleteOut2 =>
      OutLab(a) in tv ==> exists b :: f.Attacks(b, a) && InLab(b) in tv
    case StableIn =>
      a in tv || exists b :: f.Attacks(b, a) && b in tv
    case StableOut =>
      a in tv ==> forall b :: f.Attacks(b, a) ==> b !in tv
  }

  lemma PairHolds(tv: set<int>, x: int, y: int)
    ensures ClauseHolds(tv, [x, y]) <==> LitHolds(tv, x) || LitHolds(tv, y)
  {
    if LitHolds(tv, x) {
      assert [x, y][0] == x;
    }
    if LitHolds(tv, y) {
      assert [x, y][1] == y;
    }
  }

  lemma UniquenessMeaning<N(!new)>(f: ListGraphFramework<N>, a: int, tv: set<int>)
    requires f.NodesValid() && 1 <= a <= f.Length()
    ensures TheoryHolds(tv, Generate(Uniqueness, a, f)) <==> Meaning(Uniqueness, f, a, tv)
  {
    var th := Generate(Uniqueness, a, f);
    var i, o, u := InLab(a), OutLab(a), UndLab(a);
    assert th == [[i, o, u], [-i, -o], [-i, -u], [-o, -u]];
    assert TheoryHolds(tv, th) <==>
      ClauseHolds(tv, th[0]) && ClauseHolds(tv, th[1]) && ClauseHolds(tv, th[2]) && ClauseHolds(tv, th[3]);
    assert ClauseHolds(tv, th[0]) <==> i in tv || o in tv || u in tv by {
      if i in tv || o in tv || u in tv {
        assert LitHolds(tv, th[0][0]) || LitHolds(tv, th[0][1]) || LitHolds(tv, th[0][2]);
      }
    }
    PairHolds(tv, -i, -o);
    PairHolds(tv, -i, -u);
    PairHolds(tv, -o, -u);
  }

  lemma ClauseAppend(tv: set<int>, lits: Clause, last: int)
    ensures ClauseHolds(tv, lits + [last]) <==> ClauseHolds(tv, lits) || LitHolds(tv, last)
  {
    var c := lits + [last];
    if ClauseHolds(tv, c) && !LitHolds(tv, last) {
      var i :| 0 <= i < |c| && LitHolds(tv, c[i]);
      assert c[i] == lits[i];
    }
    if ClauseHolds(tv, lits) {
      var i :| 0 <= i < |lits| && LitHolds(tv, lits[i]);
      assert c[i] == lits[i];
    }
    if LitHolds(tv, last) {
      assert c[|lits|] == last;
    }
  }

  lemma SingleClause(tv: set<int>, c: Clause)
    ensures TheoryHolds(tv, [c]) <==> ClauseHolds(tv, c)
  {
    assert [c][0] == c;
  }

  ghost predicate AllPositive(xs: seq<int>) {
    forall x :: x in xs ==> x >= 1
  }

  /** The clause of negated out-variables holds when one of `xs` is not out. */
  lemma NegatedOutsHold(tv: set<int>, xs: seq<int>)
    requires AllPositive(xs)
    ensures ClauseHolds(tv, NegatedOuts(xs)) <==> exists x :: x in xs && OutLab(x) !in tv
  {
    var lits := NegatedOuts(xs);
    if ClauseHolds(tv, lits) {
      var i :| 0 <= i < |lits| && LitHolds(tv, lits[i]);
      assert xs[i] in xs && OutLab(xs[i]) > 0;
    }
    if exists x :: x in xs && OutLab(x) !in tv {
      var x :| x in xs && OutLab(x) !in tv;
      var i := IndexOfMember(xs, x);
      assert LitHolds(tv, lits[i]);
    }
  }

  /** The clause of in-variables holds when one of `xs` is in. */
  lemma InsHold(tv: set<int>, xs: seq<int>)
    requires AllPositive(xs)
    ensures ClauseHolds(tv, Ins(xs)) <==> exists x :: x in xs && InLab(x) in tv
  {
    var lits := Ins(xs);
    if ClauseHolds(tv, lits) {
      var i :| 0 <= i < |lits| && LitHolds(tv, lits[i]);
      assert xs[i] in xs && InLab(xs[i]) > 0;
    }
    if exists x :: x in xs && InLab(x) in tv {
      var x :| x in xs && InLab(x) in tv;
      var i := IndexOfMember(xs, x);
      assert LitHolds(tv, lits[i]);
    }
  }

  /** A clause of positive literals holds when one of them is true. */
  lemma PositivesHold(tv: set<int>, xs: seq<int>)
    requires AllPositive(xs)
    ensures ClauseHolds(tv, xs) <==> exists x :: x in xs && x in tv
  {
    if ClauseHolds(tv, xs) {
      var i :| 0 <= i < |xs| && LitHolds(tv, xs[i]);
      assert xs[i] in xs;
    }
    if exists x :: x in xs && x in tv {
      var x :| x in xs && x in tv;
      var i := IndexOfMember(xs, x);
      assert LitHolds(tv, xs[i]);
    }
  }

  lemma InForcesOutsHold(tv: set<int>, a: int, xs: seq<int>)
    requires a >= 1 && AllPositive(xs)
    ensures TheoryHolds(tv, InForcesOuts(a, xs)) <==> (InLab(a) in tv ==> forall x :: x in xs ==> OutLab(x) in tv)
  {
    var th := InForcesOuts(a, xs);
    forall i | 0 <= i < |th| ensures ClauseHolds(tv, th[i]) <==> (InLab(a) in tv ==> OutLab(xs[i]) in tv) {
      assert xs[i] in xs;
      PairHolds(tv, -InLab(a), OutLab(xs[i]));
    }
    if TheoryHolds(tv, th) && InLab(a) in tv {
      forall x | x in xs ensures OutLab(x) in tv {
        var i := IndexOfMember(xs, x);
      }
    }
  }

  lemma InsForceOutHold(tv: set<int>, xs: seq<int>, a: int)
    requires a >= 1 && AllPositive(xs)
    ensures TheoryHolds(tv, InsForceOut(xs, a)) <==> ((exists x :: x in xs && InLab(x) in tv) ==> OutLab(a) in tv)
  {
    var th := InsForceOut(xs, a);
    forall i | 0 <= i < |th| ensures ClauseHolds(tv, th[i]) <==> (InLab(xs[i]) in tv ==> OutLab(a) in tv) {
      assert xs[i] in xs;
      PairHolds(tv, -InLab(xs[i]), OutLab(a));
    }
    if TheoryHolds(tv, th) && OutLab(a) !in tv {
      forall x | x in xs ensures InLab(x) !in tv {
        var i := IndexOfMember(xs, x);
      }
    }
  }

  lemma NotBothHold(tv: set<int>, xs: seq<int>, a: int)
    requires a >= 1 && AllPositive(xs)
    ensures TheoryHolds(tv, NotBoth(xs, a)) <==> (a in tv ==> forall x :: x in xs ==> x !in tv)
  {
    var th := NotBoth(xs, a);
    forall i | 0 <= i < |th| ensures ClauseHolds(tv, th[i]) <==> !(xs[i] in tv && a in tv) {
      assert xs[i] in xs;
      PairHolds(tv, -xs[i], -a);
    }
    if TheoryHolds(tv, th) && a in tv {
      forall x | x in xs ensures x !in tv {
        var i := IndexOfMember(xs, x);
      }
    }
  }

  /** The sorted attackers and targets of `a` are exactly its attackers and
      targets, all of them arguments. */
  lemma AttackLists<N(!new)>(f: ListGraphFramework<N>, a: int)
    requires f.NodesValid() && 1 <= a <= f.Length()
    ensures forall b :: b in Sorted(f.AttackersOf(a)) <==> f.Attacks(b, a)
    ensures forall b :: b in Sorted(f.AttackedBy(a)) <==> f.Attacks(a, b)
    ensures AllPositive(Sorted(f.AttackersOf(a))) && AllPositive(Sorted(f.AttackedBy(a)))
  {
    AttacksInRange(f);
  }

  lemma CompleteIn1Meaning<N(!new)>(f: ListGraphFramework<N>, a: int, tv: set<int>)
    requires f.NodesValid() && 1 <= a <= f.Length()
    ensures TheoryHolds(tv, Generate(CompleteIn1, a, f)) <==> Meaning(CompleteIn1, f, a, tv)
  {
    var xs := Sorted(f.AttackersOf(a));
    AttackLists(f, a);
    var lits := NegatedOuts(xs);
    assert Generate(CompleteIn1, a, f) == [lits + [InLab(a)]];
    SingleClause(tv, lits + [InLab(a)]);
    ClauseAppend(tv, lits, InLab(a));
    NegatedOutsHold(tv, xs);
    assert LitHolds(tv, InLab(a)) <==> InLab(a) in tv;
  }

  lemma CompleteOut2Meaning<N(!new)>(f: ListGraphFramework<N>, a: int, tv: set<int>)
    requires f.NodesValid() && 1 <= a <= f.Length()
    ensures TheoryHolds(tv, Generate(CompleteOut2, a, f)) <==> Meaning(CompleteOut2, f, a, tv)
  {
    var lits := Ins(Sorted(f.AttackersOf(a)));
    var o := OutLab(a);
    var g := Generate(CompleteOut2, a, f);
    assert g == [lits + [-o]];
    ghost var inAttacker := exists b :: f.Attacks(b, a) && InLab(b) in tv;
    assert Meaning(CompleteOut2, f, a, tv) == (o in tv ==> inAttacker);
    ClauseUnless(tv, lits, o);
    assert ClauseHolds(tv, lits) == inAttacker by {
      AttackerIn(f, a, tv);
    }
  }

  /** A one-clause theory `lits ∨ ¬o` holds when a literal of `lits` does
      or when `o` is false. */
  lemma ClauseUnless(tv: set<int>, lits: Clause, o: int)
    requires o > 0
    ensures TheoryHolds(tv, [lits + [-o]]) <==> ClauseHolds(tv, lits) || o !in tv
  {
    SingleClause(tv, lits + [-o]);
    ClauseAppend(tv, lits, -o);
  }

  /** Some attacker of `a` is labelled in, read off the sorted attackers. */
  lemma AttackerIn<N(!new)>(f: ListGraphFramework<N>, a: int, tv: set<int>)
    requires f.NodesValid() && 1 <= a <= f.Length()
    ensures ClauseHolds(tv, Ins(Sorted(f.AttackersOf(a)))) <==> exists b :: f.Attacks(b, a) && InLab(b) in tv
  {
    var xs := Sorted(f.AttackersOf(a));
    AttackLists(f, a);
    InsHold(tv, xs);
    if exists b :: f.Attacks(b, a) && InLab(b) in tv {
      var b :| f.Attacks(b, a) && InLab(b) in tv;
      assert b in xs;
    }
  }

  lemma StableInMeaning<N(!new)>(f: ListGraphFramework<N>, a: int, tv: set<int>)
    requires f.NodesValid() && 1 <= a <= f.Length()
    ensures TheoryHolds(tv, Generate(StableIn, a, f)) <==> Meaning(StableIn, f, a, tv)
  {
    var xs := Sorted(f.AttackersOf(a));
    AttackLists(f, a);
    assert Generate(StableIn, a, f) == [xs + [a]];
    SingleClause(tv, xs + [a]);
    ClauseAppend(tv, xs, a);
    PositivesHold(tv, xs);
    assert LitHolds(tv, a) <==> a in tv;
  }

  lemma CompleteIn2Meaning<N(!new)>(f: ListGraphFramework<N>, a: int, tv: set<int>)
    requires f.NodesValid() && 1 <= a <= f.Length()
    ensures TheoryHolds(tv, Generate(CompleteIn2, a, f)) <==> Meaning(CompleteIn2, f, a, tv)
  {
    var xs := Sorted(f.AttackedBy(a));
    AttackLists(f, a);
    assert Generate(CompleteIn2, a, f) == InForcesOuts(a, xs);
    InForcesOutsHold(tv, a, xs);
  }

  lemma CompleteIn2AttackersMeaning<N(!new)>(f: ListGraphFramework<N>, a: int, tv: set<int>)
    requires f.NodesValid() && 1 <= a <= f.Length()
    ensures TheoryHolds(tv, Generate(CompleteIn2Attackers, a, f)) <==> Meaning(CompleteIn2Attackers, f, a, tv)
  {
    var xs := Sorted(f.AttackersOf(a));
    AttackLists(f, a);
    assert Generate(CompleteIn2Attackers, a, f) == InForcesOuts(a, xs);
    InForcesOutsHold(tv, a, xs);
  }

  lemma CompleteOut1Meaning<N(!new)>(f: ListGraphFramework<N>, a: int, tv: set<int>)
    requires f.NodesValid() && 1 <= a <= f.Length()
    ensures TheoryHolds(tv, Generate(CompleteOut1, a, f)) <==> Meaning(CompleteOut1, f, a, tv)
  {
    var xs := Sorted(f.AttackersOf(a));
    AttackLists(f, a);
    assert Generate(CompleteOut1, a, f) == InsForceOut(xs, a);
    InsForceOutHold(tv, xs, a);
  }

  lemma StableOutMeaning<N(!new)>(f: ListGraphFramework<N>, a: int, tv: set<int>)
    requires f.NodesValid() && 1 <= a <= f.Length()
    ensures TheoryHolds(tv, Generate(StableOut, a, f)) <==> Meaning(StableOut, f, a, tv)
  {
    var xs := Sorted(f.AttackersOf(a));
    AttackLists(f, a);
    assert Generate(StableOut, a, f) == NotBoth(xs, a);
    NotBothHold(tv, xs, a);
  }

  /** The clauses of every template hold exactly when what the template
      says about the argument holds. */
  lemma GenerateMeaning<N(!new)>(t: Template, f: ListGraphFramework<N>, a: int, tv: set<int>)
    requires f.NodesValid() && 1 <= a <= f.Length()
    ensures TheoryHolds(tv, Generate(t, a, f)) <==> Meaning(t, f, a, tv)
  {
    match t
    case Uniqueness => UniquenessMeaning(f, a, tv);
    case CompleteIn1 => CompleteIn1Meaning(f, a, tv);
    case CompleteIn2 => CompleteIn2Meaning(f, a, tv);
    case CompleteIn2Attackers => CompleteIn2AttackersMeaning(f, a, tv);
    case CompleteOut1 => CompleteOut1Meaning(f, a, tv);
    case CompleteOut2 => CompleteOut2Meaning(f, a, tv);
    case StableIn => StableInMeaning(f, a, tv);
    case StableOut => StableOutMeaning(f, a, tv);
  }

  // Whole theories (`generateAll`, `DIMACSParser.parse`).

  /** The clauses of template `t` for each argument of `args`, argument by argument. */
  function Generated<N(==,!new)>(t: Template, args: seq<int>, f: ListGraphFramework<N>): (r: seq<Theory>)
    requires f.NodesValid() && ArgsIn(args, f.Length())
    ensures |r| == |args| && forall i :: 0 <= i < |args| ==> r[i] == Generate(t, args[i], f)
  {
    seq(|args|, i requires 0 <= i < |args| => Generate(t, args[i], f))
  }

  /** `CNFTheory.generateAll`: the clauses for all the arguments, in order. */
  method GenerateAll<N(==,!new)>(t: Template, argumentValues: seq<int>, f: ListGraphFramework<N>)
    returns (retCnf: Theory)
    requires f.NodesValid() && ArgsIn(argumentValues, f.Length())
    ensures retCnf == Flatten(Generated(t, argumentValues, f))
  {
    retCnf := [];
    ghost var parts := Generated(t, argumentValues, f);
    var i := 0;
    while i < |argumentValues|
      invariant 0 <= i <= |argumentValues|
      invariant retCnf == Flatten(parts[..i])
    {
      var clauses := Generate(t, argumentValues[i], f);
      FlattenPrefixStep(parts, i);
      retCnf := retCnf + clauses;
      i := i + 1;
    }
    assert parts[..i] == parts;
  }

  lemma AppendHolds(tv: set<int>, a: Theory, b: Theory)
    ensures TheoryHolds(tv, a + b) <==> TheoryHolds(tv, a) && TheoryHolds(tv, b)
  {
    if TheoryHolds(tv, a) && TheoryHolds(tv, b) {
      forall i | 0 <= i < |a + b| ensures ClauseHolds(tv, (a + b)[i]) {
        if i >= |a| {
          assert (a + b)[i] == b[i - |a|];
        }
      }
    }
    if TheoryHolds(tv, a + b) {
      forall i | 0 <= i < |a| ensures ClauseHolds(tv, a[i]) {
        assert (a + b)[i] == a[i];
      }
      forall i | 0 <= i < |b| ensures ClauseHolds(tv, b[i]) {
        assert (a + b)[|a| + i] == b[i];
      }
    }
  }

  /** A flattened theory holds when every part does. */
  lemma {:induction false} FlattenHolds(tv: set<int>, ths: seq<Theory>)
    ensures TheoryHolds(tv, Flatten(ths)) <==> forall i :: 0 <= i < |ths| ==> TheoryHolds(tv, ths[i])
  {
    if ths != [] {
      AppendHolds(tv, ths[0], Flatten(ths[1..]));
      FlattenHolds(tv, ths[1..]);
      if forall i :: 0 <= i < |ths[1..]| ==> TheoryHolds(tv, ths[1..][i]) {
        forall i | 1 <= i < |ths| ensures TheoryHolds(tv, ths[i]) {
          assert ths[i] == ths[1..][i - 1];
        }
      }
    }
  }

  /** The clauses of a template for a list of arguments hold exactly when
      the template's statement holds for each of them. */
  lemma GenerateAllMeaning<N(!new)>(t: Template, args: seq<int>, f: ListGraphFramework<N>, tv: set<int>)
    requires f.NodesValid() && ArgsIn(args, f.Length())
    ensures TheoryHolds(tv, Flatten(Generated(t, args, f))) <==>
      forall i :: 0 <= i < |args| ==> Meaning(t, f, args[i], tv)
  {
    FlattenHolds(tv, Generated(t, args, f));
    forall i | 0 <= i < |args| ensures TheoryHolds(tv, Generated(t, args, f)[i]) <==> Meaning(t, f, args[i], tv) {
      GenerateMeaning(t, f, args[i], tv);
    }
  }

  /** `DIMACSParser`: the templates it generates and the number of
      variables it counts per argument. */
  datatype DimacsParser = DimacsParser(theories: seq<Template>, varsPerArgument: int)

  /** `completeLabelingParser`, with `CompleteIn2Attackers` in place of
      `CompleteIn2`. */
  const CompleteLabelingParser := DimacsParser(
    [Uniqueness, CompleteIn1, CompleteIn2Attackers, CompleteOut1, CompleteOut2], LabelCount)

  /** `completeLabelingParser` as written. */
  const AsWrittenCompleteLabelingParser := DimacsParser(
    [Uniqueness, CompleteIn1, CompleteIn2, CompleteOut1, CompleteOut2], LabelCount)

  /** `stableLabellingParser`: one variable per argument, true when it is in. */
  const StableLabellingParser := DimacsParser([StableIn, StableOut], 1)

  /** All the clauses `parse` generates: template by template, and within a
      template argument by argument. */
  function RawClauses<N(==,!new)>(p: DimacsParser, f: ListGraphFramework<N>): Theory
    requires Ready(f)
  {
    Flatten(TheoryParts(p, f))
  }

  function TheoryParts<N(==,!new)>(p: DimacsParser, f: ListGraphFramework<N>): (r: seq<Theory>)
    requires Ready(f)
    ensures |r| == |p.theories|
    ensures forall j :: 0 <= j < |r| ==> r[j] == Flatten(Generated(p.theories[j], f.args, f))
  {
    seq(|p.theories|, j requires 0 <= j < |p.theories| => Flatten(Generated(p.theories[j], f.args, f)))
  }

  /** The reduction holds exactly when every template's statement holds
      for every argument. */
  lemma ReductionMeaning<N(!new)>(p: DimacsParser, f: ListGraphFramework<N>, tv: set<int>)
    requires Ready(f)
    ensures TheoryHolds(tv, RawClauses(p, f)) <==>
      forall j, i :: 0 <= j < |p.theories| && 0 <= i < |f.args| ==> Meaning(p.theories[j], f, f.args[i], tv)
  {
    var parts := TheoryParts(p, f);
    FlattenHolds(tv, parts);
    forall j | 0 <= j < |p.theories|
      ensures TheoryHolds(tv, parts[j]) <==> forall i :: 0 <= i < |f.args| ==> Meaning(p.theories[j], f, f.args[i], tv)
    {
      GenerateAllMeaning(p.theories[j], f.args, f, tv);
    }
  }

  /** A complete labelling (in the sense of Caminada) of the framework's
      arguments, read off the true label variables. */
  ghost predicate IsCompleteLabelling<N(!new)>(f: ListGraphFramework<N>, tv: set<int>) {
    forall i :: 0 <= i < |f.args| ==> LabelledCompletely(f, f.args[i], tv)
  }

  ghost predicate LabelledCompletely<N(!new)>(f: ListGraphFramework<N>, a: int, tv: set<int>) {
    && ExactlyOneLabel(a, tv)
    && (InLab(a) in tv <==> forall b :: f.Attacks(b, a) ==> OutLab(b) in tv)
    && (OutLab(a) in tv <==> exists b :: f.Attacks(b, a) && InLab(b) in tv)
  }

  lemma CompleteAt<N(!new)>(f: ListGraphFramework<N>, a: int, tv: set<int>)
    ensures (forall j :: 0 <= j < |CompleteLabelingParser.theories| ==>
               Meaning(CompleteLabelingParser.theories[j], f, a, tv))
      <==> LabelledCompletely(f, a, tv)
  {
    var ts := CompleteLabelingParser.theories;
    assert ts[0] == Uniqueness && ts[1] == CompleteIn1 && ts[2] == CompleteIn2Attackers;
    assert ts[3] == CompleteOut1 && ts[4] == CompleteOut2 && |ts| == 5;
    if LabelledCompletely(f, a, tv) {
      forall j | 0 <= j < |ts| ensures Meaning(ts[j], f, a, tv) {
      }
    }
  }

  /** The models of the complete reduction are exactly the complete labellings. */
  lemma CompleteReductionMeaning<N(!new)>(f: ListGraphFramework<N>, tv: set<int>)
    requires Ready(f)
    ensures TheoryHolds(tv, RawClauses(CompleteLabelingParser, f)) <==> IsCompleteLabelling(f, tv)
  {
    ReductionMeaning(CompleteLabelingParser, f, tv);
    forall i | 0 <= i < |f.args| {
      CompleteAt(f, f.args[i], tv);
    }
  }

  /** A stable extension: no argument in it is attacked from inside it, and
      every argument outside it is. */
  ghost predicate IsStableExtension<N(!new)>(f: ListGraphFramework<N>, s: set<int>) {
    forall i :: 0 <= i < |f.args| ==> StableAt(f, f.args[i], s)
  }

  ghost predicate StableAt<N(!new)>(f: ListGraphFramework<N>, a: int, s: set<int>) {
    && (a in s ==> forall b :: f.Attacks(b, a) ==> b !in s)
    && (a !in s ==> exists b :: b in s && f.Attacks(b, a))
  }

  lemma StableAtMeaning<N(!new)>(f: ListGraphFramework<N>, a: int, s: set<int>)
    ensures (forall j :: 0 <= j < |StableLabellingParser.theories| ==>
               Meaning(StableLabellingParser.theories[j], f, a, s))
      <==> StableAt(f, a, s)
  {
    var ts := StableLabellingParser.theories;
    assert ts[0] == StableIn && ts[1] == StableOut && |ts| == 2;
    if StableAt(f, a, s) {
      forall j | 0 <= j < |ts| ensures Meaning(ts[j], f, a, s) {
      }
    }
  }

  /** The models of the stable reduction are exactly the stable extensions. */
  lemma StableReductionMeaning<N(!new)>(f: ListGraphFramework<N>, s: set<int>)
    requires Ready(f)
    ensures TheoryHolds(s, RawClauses(StableLabellingParser, f)) <==> IsStableExtension(f, s)
  {
    ReductionMeaning(StableLabellingParser, f, s);
    forall i | 0 <= i < |f.args| {
      StableAtMeaning(f, f.args[i], s);
    }
  }

  /** Two arguments: 1 attacks itself and 2. */
  const SelfAttackerExample: ListGraphFramework<int> :=
    ListGraphFramework([1, 2], map[1 := 1, 2 := 2], [1, 2], [(1, 1), (1, 2)], [({1, 2}, {1}), ({}, {1})])

  /** The example is ready for the reductions, and 1 is the only attacker. */
  lemma SelfAttackerShape()
    ensures Ready(SelfAttackerExample) && SelfAttackerExample.args == [1, 2]
    ensures forall b, a :: SelfAttackerExample.Attacks(b, a) <==> b == 1 && (a == 1 || a == 2)
  {
    var f := SelfAttackerExample;
    forall i, y | 0 <= i < |f.nodeList|
      ensures (y in f.nodeList[i].0 <==> (i + 1, y) in f.atts)
      ensures (y in f.nodeList[i].1 <==> (y, i + 1) in f.atts)
    {
      assert i == 0 || i == 1;
    }
  }

  /** In any framework of two arguments `x` and `y` where `x` attacks itself
      and `y` and nothing else is attacked, labelling `y` in and `x`
      undecided satisfies every clause of the reduction with
      `complete_in_theory_2` as written. */
  lemma AsWrittenHoldsOnSelfAttacker<N(!new)>(f: ListGraphFramework<N>, x: int, y: int)
    requires Ready(f) && f.args == [x, y] && x != y
    requires forall b, a :: f.Attacks(b, a) <==> b == x && (a == x || a == y)
    ensures TheoryHolds({InLab(y), UndLab(x)}, RawClauses(AsWrittenCompleteLabelingParser, f))
  {
    var tv := {InLab(y), UndLab(x)};
    SelfAttackerMeanings(f, x, y, tv);
    ReductionMeaning(AsWrittenCompleteLabelingParser, f, tv);
  }

  lemma SelfAttackerMeanings<N(!new)>(f: ListGraphFramework<N>, x: int, y: int, tv: set<int>)
    requires forall b, a :: f.Attacks(b, a) <==> b == x && (a == x || a == y)
    requires tv == {InLab(y), UndLab(x)} && x != y
    ensures forall j :: 0 <= j < |AsWrittenCompleteLabelingParser.theories| ==>
      Meaning(AsWrittenCompleteLabelingParser.theories[j], f, x, tv) &&
      Meaning(AsWrittenCompleteLabelingParser.theories[j], f, y, tv)
  {
    assert !f.Attacks(y, x) && !f.Attacks(y, y) && f.Attacks(x, x) && f.Attacks(x, y);
    assert InLab(x) !in tv && OutLab(x) !in tv && OutLab(y) !in tv && UndLab(y) !in tv;
    var ts := AsWrittenCompleteLabelingParser.theories;
    assert ts == [Uniqueness, CompleteIn1, CompleteIn2, CompleteOut1, CompleteOut2];
  }

  /** With `complete_in_theory_2` as written, in a framework where `x`
      attacks itself and `y` (such as `SelfAttackerExample`, with `x` = 1
      and `y` = 2), labelling `y` in and `x` undecided satisfies every
      clause, although `y`'s attacker `x` is not out: the reduction then
      reports {`y`} as a complete extension, which it is not, and the
      corrected reduction rejects the labelling. */
  lemma AsWrittenCompleteAcceptsUndefended<N(!new)>(f: ListGraphFramework<N>, x: int, y: int)
    requires Ready(f) && f.args == [x, y] && x != y
    requires forall b, a :: f.Attacks(b, a) <==> b == x && (a == x || a == y)
    ensures TheoryHolds({InLab(y), UndLab(x)}, RawClauses(AsWrittenCompleteLabelingParser, f))
    ensures !IsCompleteLabelling(f, {InLab(y), UndLab(x)})
    ensures !TheoryHolds({InLab(y), UndLab(x)}, RawClauses(CompleteLabelingParser, f))
  {
    AsWrittenHoldsOnSelfAttacker(f, x, y);
    SelfAttackerNotComplete(f, x, y);
  }

  /** Labelling `y` in and `x` undecided is not complete when `x` attacks
      `y`, so the corrected reduction rejects it. */
  lemma SelfAttackerNotComplete<N(!new)>(f: ListGraphFramework<N>, x: int, y: int)
    requires Ready(f) && f.args == [x, y] && x != y
    requires forall b, a :: f.Attacks(b, a) <==> b == x && (a == x || a == y)
    ensures !IsCompleteLabelling(f, {InLab(y), UndLab(x)})
    ensures !TheoryHolds({InLab(y), UndLab(x)}, RawClauses(CompleteLabelingParser, f))
  {
    var tv := {InLab(y), UndLab(x)};
    assert !LabelledCompletely(f, f.args[1], tv) by {
      assert f.args[1] == y && f.Attacks(x, y) && OutLab(x) !in tv;
    }
    CompleteReductionMeaning(f, tv);
  }

  // DIMACS text.

  /** `str` of each literal. */
  function LiteralTexts(c: Clause): (r: seq<string>)
    ensures |r| == |c| && forall i :: 0 <= i < |c| ==> r[i] == IntToString(c[i])
  {
    seq(|c|, i requires 0 <= i < |c| => IntToString(c[i]))
  }

  /** `DIMACSParser.parseClause`: the literals separated by single spaces,
      then ` 0`; the line holds no newline. */
  function ParseClause(clause: Clause): (r: string)
    ensures '\n' !in r
  {
    var texts := LiteralTexts(clause);
    forall i | 0 <= i < |texts| ensures '\n' !in texts[i] {
      assert forall k :: 0 <= k < |texts[i]| ==> !IsSpace(texts[i][k]);
    }
    JoinAvoids(texts, " ", '\n');
    Join(texts, " ") + " 0"
  }

  /** `int` of each token, or `None` if one of them is not an integer. */
  function ParseInts(ws: seq<string>): (r: Option<seq<int>>)
    ensures r.Some? ==> |r.value| == |ws|
  {
    if ws == [] then Some([])
    else match (ParseInt(ws[0]), ParseInts(ws[1..]))
      case (Some(x), Some(xs)) => Some([x] + xs)
      case _ => None
  }

  lemma {:induction false} ParseLiteralTexts(c: Clause)
    ensures ParseInts(LiteralTexts(c)) == Some(c)
  {
    if c != [] {
      ParseIntToString(c[0]);
      assert LiteralTexts(c)[1..] == LiteralTexts(c[1..]);
      ParseLiteralTexts(c[1..]);
      assert [c[0]] + c[1..] == c;
    }
  }

  /** Reads a clause line back: integers terminated by `0`. */
  function DecodeClause(line: string): Option<Clause> {
    var w := Words(line);
    if |w| >= 1 && w[|w| - 1] == "0" then ParseInts(w[..|w| - 1]) else None
  }

  /** The white-space separated words of a clause line are the literals and the final `0`. */
  lemma ClauseWords(c: Clause)
    ensures Words(ParseClause(c)) == LiteralTexts(c) + ["0"]
  {
    var texts := LiteralTexts(c);
    if c == [] {
      assert ParseClause(c) == " 0";
      assert Words(" 0") == Words("0");
      assert WordLen("0") == 1;
      assert "0"[..1] == "0" && "0"[1..] == "";
      assert Words("0") == ["0"] + Words("");
      assert Words(" 0") == ["0"];
    } else {
      JoinAppend(texts, "0", " ");
      assert ParseClause(c) == Join(texts + ["0"], " ");
      assert "0"[0] == '0';
      WordsJoin(texts + ["0"]);
    }
  }

  /** A clause line reads back as the clause. */
  lemma ClauseRoundTrip(c: Clause)
    ensures DecodeClause(ParseClause(c)) == Some(c)
  {
    ClauseWords(c);
    assert (LiteralTexts(c) + ["0"])[..|c|] == LiteralTexts(c);
    ParseLiteralTexts(c);
  }

  function ClauseLines(th: Theory): (r: seq<string>)
    ensures |r| == |th| && forall i :: 0 <= i < |th| ==> r[i] == ParseClause(th[i])
  {
    seq(|th|, i requires 0 <= i < |th| => ParseClause(th[i]))
  }

  /** `DIMACSParser.parseCNFTheory`: one clause per line, each line ended by a newline. */
  function ParseCNFTheory(th: Theory): string {
    Join(ClauseLines(th), "\n") + "\n"
  }

  function DecodeClauses(lines: seq<string>): (r: Option<Theory>)
    ensures r.Some? ==> |r.value| == |lines|
  {
    if lines == [] then Some([])
    else match (DecodeClause(lines[0]), DecodeClauses(lines[1..]))
      case (Some(c), Some(cs)) => Some([c] + cs)
      case _ => None
  }

  lemma {:induction false} DecodeClauseLines(th: Theory)
    ensures DecodeClauses(ClauseLines(th)) == Some(th)
  {
    if th != [] {
      ClauseRoundTrip(th[0]);
      assert ClauseLines(th)[1..] == ClauseLines(th[1..]);
      DecodeClauseLines(th[1..]);
      assert [th[0]] + th[1..] == th;
    }
  }

  /** `DIMACSHeader.__str__`. */
  function HeaderText(vars: int, clauses: int): string {
    "p cnf " + IntToString(vars) + " " + IntToString(clauses) + "\n"
  }

  /** Reads a `p cnf V C` line back. */
  function DecodeHeader(line: string): Option<(int, int)> {
    var w := Words(line);
    if |w| == 4 && w[0] == "p" && w[1] == "cnf" then
      match (ParseInt(w[2]), ParseInt(w[3]))
      case (Some(v), Some(c)) => Some((v, c))
      case _ => None
    else None
  }

  /** Reads a whole DIMACS text back: the header line, then one line per
      clause, then the empty remainder after the last newline. */
  function ReadDimacs(text: string): Option<(int, int, Theory)> {
    var lines := Split(text, '\n');
    if |lines| >= 2 && lines[|lines| - 1] == "" then
      match (DecodeHeader(lines[0]), DecodeClauses(lines[1..|lines| - 1]))
      case (Some(h), Some(th)) => Some((h.0, h.1, th))
      case _ => None
    else None
  }

  /** The header text is one line that reads back as its two numbers. */
  lemma HeaderRoundTrip(vars: int, clauses: int) returns (first: string)
    ensures HeaderText(vars, clauses) == first + "\n"
    ensures '\n' !in first
    ensures DecodeHeader(first) == Some((vars, clauses))
  {
    var sv, sc := IntToString(vars), IntToString(clauses);
    var words := ["p", "cnf", sv, sc];
    first := Join(words, " ");
    assert words[1..] == ["cnf", sv, sc] && words[1..][1..] == [sv, sc] && [sv, sc][1..] == [sc];
    assert Join([sv, sc], " ") == sv + " " + sc;
    assert Join(["cnf", sv, sc], " ") == "cnf" + " " + (sv + " " + sc);
    assert first == "p cnf " + sv + " " + sc;
    assert forall k :: 0 <= k < |sv| ==> !IsSpace(sv[k]);
    assert forall k :: 0 <= k < |sc| ==> !IsSpace(sc[k]);
    JoinAvoids(words, " ", '\n');
    assert "p"[0] == 'p';
    assert forall k :: 0 <= k < |"cnf"| ==> !IsSpace("cnf"[k]);
    WordsJoin(words);
    ParseIntToString(vars);
    ParseIntToString(clauses);
  }

  /** The theory text is its clause lines and an empty last piece, joined by newlines. */
  lemma TheoryLines(th: Theory)
    requires |th| >= 1
    ensures ParseCNFTheory(th) == Join(ClauseLines(th) + [""], "\n")
    ensures forall i :: 0 <= i < |th| ==> '\n' !in ClauseLines(th)[i]
  {
    JoinAppend(ClauseLines(th), "", "\n");
  }

  /** The lines of a header followed by a non-empty theory: the header
      line, the clause lines and an empty last piece. */
  lemma DimacsLines(vars: int, clauses: int, th: Theory) returns (first: string)
    requires |th| >= 1
    ensures DecodeHeader(first) == Some((vars, clauses))
    ensures Split(HeaderText(vars, clauses) + ParseCNFTheory(th), '\n') == [first] + ClauseLines(th) + [""]
  {
    first := HeaderRoundTrip(vars, clauses);
    TheoryLines(th);
    var rest := ClauseLines(th) + [""];
    var lines := [first] + rest;
    assert HeaderText(vars, clauses) + ParseCNFTheory(th) == Join(lines, "\n") by {
      assert lines[1..] == rest;
    }
    forall i | 0 <= i < |lines| ensures '\n' !in lines[i] {
      if 1 <= i < |lines| - 1 {
        assert lines[i] == ClauseLines(th)[i - 1];
      }
    }
    SplitJoin(lines, '\n');
  }

  /** A header followed by a non-empty theory reads back as the numbers and
      the clauses that were written. */
  lemma DimacsRoundTrip(vars: int, clauses: int, th: Theory)
    requires |th| >= 1
    ensures ReadDimacs(HeaderText(vars, clauses) + ParseCNFTheory(th)) == Some((vars, clauses, th))
  {
    var first := DimacsLines(vars, clauses, th);
    var lines := [first] + ClauseLines(th) + [""];
    assert lines[0] == first && lines[|lines| - 1] == "";
    assert lines[1..|lines| - 1] == ClauseLines(th);
    DecodeClauseLines(th);
  }

  /** Appending the text of one more clause gives the text of the longer theory. */
  lemma CNFTheoryAppend(th: Theory, c: Clause)
    requires |th| >= 1
    ensures ParseCNFTheory(th) + ParseCNFTheory([c]) == ParseCNFTheory(th + [c])
  {
    assert ClauseLines(th + [c]) == ClauseLines(th) + [ParseClause(c)];
    JoinAppend(ClauseLines(th), ParseClause(c), "\n");
    assert ClauseLines([c]) == [ParseClause(c)];
  }

  /** `DIMACSHeader`: the counts on the `p cnf` line. */
  class DimacsHeader {
    var vars: int
    var clauses: int

    constructor (numOfVars: int, numOfClauses: int)
      ensures vars == numOfVars && clauses == numOfClauses
    {
      vars := numOfVars;
      clauses := numOfClauses;
    }

    function ToString(): string
      reads this
    {
      HeaderText(vars, clauses)
    }

    /** `incrementClauses`. */
    method IncrementClauses()
      modifies this
      ensures vars == old(vars) && clauses == old(clauses) + 1
    {
      clauses := clauses + 1;
    }

    /** `setClauses`. */
    method SetClauses(numOfClauses: int)
      modifies this
      ensures vars == old(vars) && clauses == numOfClauses
    {
      clauses := numOfClauses;
    }
  }

  /** `DIMACSInput`: a header and the clause text after it. */
  class DimacsInput {
    const header: DimacsHeader
    var content: string

    constructor (numOfVars: int, numOfClauses: int, content: string)
      ensures fresh(header)
      ensures header.vars == numOfVars && header.clauses == numOfClauses
      ensures this.content == content
    {
      header := new DimacsHeader(numOfVars, numOfClauses);
      this.content := content;
    }

    /** `__str__` and `encode`. */
    function ToString(): string
      reads this, header
    {
      header.ToString() + content
    }

    /** `addSingleClause`: appends the text and counts one more clause. */
    method AddSingleClause(dimacsClause: string)
      modifies this, header
      ensures content == old(content) + dimacsClause
      ensures header.vars == old(header.vars) && header.clauses == old(header.clauses) + 1
    {
      content := content + dimacsClause;
      header.IncrementClauses();
    }
  }

  /** The loop of `DIMACSParser.parse` that gathers the clauses of all templates. */
  method GenerateTheories<N(==,!new)>(p: DimacsParser, f: ListGraphFramework<N>) returns (rawClauses: Theory)
    requires Ready(f)
    ensures rawClauses == RawClauses(p, f)
  {
    rawClauses := [];
    var argumentValues := f.args;
    ghost var parts := TheoryParts(p, f);
    var j := 0;
    while j < |p.theories|
      invariant 0 <= j <= |p.theories|
      invariant rawClauses == Flatten(parts[..j])
    {
      var generated := GenerateAll(p.theories[j], argumentValues, f);
      FlattenPrefixStep(parts, j);
      rawClauses := rawClauses + generated;
      j := j + 1;
    }
    assert parts[..j] == parts;
  }

  /** `DIMACSParser.parse`: generates every template for every argument and
      writes the DIMACS text with `len(framework) * vars_per_argument`
      variables and the number of generated clauses. */
  method Parse<N(==,!new)>(p: DimacsParser, f: ListGraphFramework<N>) returns (input: DimacsInput)
    requires Ready(f)
    ensures fresh(input) && fresh(input.header)
    ensures input.header.vars == f.Length() * p.varsPerArgument
    ensures input.header.clauses == |RawClauses(p, f)|
    ensures input.content == ParseCNFTheory(RawClauses(p, f))
    ensures |RawClauses(p, f)| >= 1 ==>
      ReadDimacs(input.ToString()) == Some((f.Length() * p.varsPerArgument, |RawClauses(p, f)|, RawClauses(p, f)))
  {
    var numOfVars := f.Length() * p.varsPerArgument;
    var rawClauses := GenerateTheories(p, f);
    input := new DimacsInput(numOfVars, |rawClauses|, ParseCNFTheory(rawClauses));
    if |rawClauses| >= 1 {
      assert input.ToString() == HeaderText(numOfVars, |rawClauses|) + ParseCNFTheory(rawClauses);
      DimacsRoundTrip(numOfVars, |rawClauses|, rawClauses);
    }
  }

  // Reading an extension off a model (`extractExtention`).

  /** `l` is in `range(1, n, step)`. */
  predicate InLabelVariable(l: int, n: int, step: int)
    requires step > 0
  {
    1 <= l < n && (l - 1) % step == 0
  }

  /** Argument `a` is read off a positive in-label variable of `assignment`. */
  ghost predicate Extracted(assignment: seq<int>, step: int, a: int)
    requires step > 0
  {
    exists l :: l in assignment && l > 0 && InLabelVariable(l, |assignment|, step) && a == LabelVarToArg(l, LabelCount)
  }

  /** `extractPositiveLiterals`: the positive literals, in order. */
  function ExtractPositiveLiterals(assignment: seq<int>): (r: seq<int>)
    ensures |r| <= |assignment|
    ensures forall x :: x in r <==> x in assignment && x > 0
  {
    if assignment == [] then []
    else
      var rest := ExtractPositiveLiterals(assignment[1..]);
      assert forall x :: x in assignment <==> x == assignment[0] || x in assignment[1..];
      if assignment[0] > 0 then [assignment[0]] + rest else rest
  }

  /** `extractExtention`. With more than one variable per argument it reads
      the arguments off the positive variables among `1, 1 + step, ...`
      below the length of the assignment, dividing by `len(Label)`; with one
      variable per argument the positive literals are the arguments. */
  method ExtractExtension(p: DimacsParser, assignment: seq<int>) returns (extension: set<int>)
    ensures p.varsPerArgument > 1 ==>
      forall a :: a in extension <==> Extracted(assignment, p.varsPerArgument, a)
    ensures p.varsPerArgument <= 1 ==>
      forall a :: a in extension <==> a in assignment && a > 0
  {
    if p.varsPerArgument > 1 {
      extension := {};
      var k := 0;
      while k < |assignment|
        invariant 0 <= k <= |assignment|
        invariant forall a :: a in extension <==>
          exists l :: l in assignment[..k] && l > 0 && InLabelVariable(l, |assignment|, p.varsPerArgument)
                      && a == LabelVarToArg(l, LabelCount)
      {
        var labVar := assignment[k];
        assert assignment[..k + 1] == assignment[..k] + [labVar];
        if labVar > 0 && InLabelVariable(labVar, |assignment|, p.varsPerArgument) {
          extension := extension + {LabelVarToArg(labVar, LabelCount)};
        }
        k := k + 1;
      }
      assert assignment[..k] == assignment;
    } else {
      extension := set x | x in ExtractPositiveLiterals(assignment);
    }
  }

  /** With three variables per argument, argument `a` is extracted exactly
      when its in-variable is a positive literal of the assignment below its
      length. */
  lemma ExtractedInLabel(assignment: seq<int>, a: int)
    ensures Extracted(assignment, LabelCount, a) <==>
      a >= 1 && InLab(a) in assignment && InLab(a) < |assignment|
  {
    if Extracted(assignment, LabelCount, a) {
      var l :| l in assignment && l > 0 && InLabelVariable(l, |assignment|, LabelCount) && a == LabelVarToArg(l, LabelCount);
      var k := (l - 1) / 3;
      assert l == 3 * k + 1;
      assert l == CalculateLabelVar(k + 1, LabelCount, In);
      LabelVarToArgInverse(k + 1, In);
    }
    if a >= 1 && InLab(a) in assignment && InLab(a) < |assignment| {
      var l := InLab(a);
      assert (l - 1) % 3 == 0 by {
        assert l - 1 == 3 * (a - 1);
      }
      LabelVarToArgInverse(a, In);
      assert InLabelVariable(l, |assignment|, LabelCount);
    }
  }
}
