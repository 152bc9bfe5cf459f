/** Logical arguments: a premise (a knowledge base the argument rests on)
    and an inference rule. One argument attacks another by rebutting its
    claim or by undercutting its premise, and a list of arguments becomes
    an argumentation framework whose attack matrix records those attacks. */
module LogicalArguments {
  import opened Wrappers
  import opened InferenceRules
  import Frameworks

  datatype LogicArgument = LogicArgument(premise: KB, rule: InferenceRule)

  /** `claim`: the rule's conclusion when the rule is satisfied by the
      argument's own premise, `None` otherwise. */
  function Claim(a: LogicArgument): (r: Option<Dict>)
    ensures r.Some? <==> Holds(a.rule.premise, a.premise)
    ensures r.Some? ==> r.value == a.rule.conclusion
  {
    if Holds(a.rule.premise, a.premise) then Some(a.rule.conclusion) else None
  }

  /** Some atom both dictionaries give, with different truth values. */
  predicate Conflict(m: KB, n: KB) {
    exists k :: k in m && k in n && m[k] != n[k]
  }

  /** `attacks_undercut`: the claim contradicts a premise of `b`. */
  predicate AttacksUndercut(a: LogicArgument, b: LogicArgument) {
    match Claim(a)
    case None => false
    case Some(claim) => Conflict(Facts(claim), b.premise)
  }

  /** `attacks_rebut`: both claims exist and contradict each other. */
  predicate AttacksRebut(a: LogicArgument, b: LogicArgument) {
    match (Claim(a), Claim(b))
    case (Some(claim), Some(other)) => Conflict(Facts(claim), Facts(other))
    case _ => false
  }

  /** `attacks`: a rebut or an undercut; only an argument with a claim
      attacks. */
  predicate Attacks(a: LogicArgument, b: LogicArgument)
    ensures Attacks(a, b) ==> Claim(a).Some?
  {
    AttacksRebut(a, b) || AttacksUndercut(a, b)
  }

  /** Two knowledge bases conflict exactly when merging them depends on
      which one is merged last. */
  lemma ConflictIsOrderDependence(m: KB, n: KB)
    ensures Conflict(m, n) <==> m + n != n + m
  {
    if Conflict(m, n) {
      var k :| k in m && k in n && m[k] != n[k];
      assert (m + n)[k] == n[k] && (n + m)[k] == m[k];
    } else {
      assert forall k :: k in m + n ==> (m + n)[k] == (n + m)[k];
      assert (m + n).Keys == (n + m).Keys;
    }
  }

  /** Rebuttal is mutual. */
  lemma RebutSymmetric(a: LogicArgument, b: LogicArgument)
    ensures AttacksRebut(a, b) <==> AttacksRebut(b, a)
  {
    if Claim(a).Some? && Claim(b).Some? {
      var m, n := Facts(Claim(a).value), Facts(Claim(b).value);
      ConflictIsOrderDependence(m, n);
      ConflictIsOrderDependence(n, m);
    }
  }

  /** An undercut is a claim that, written over the other argument's
      premise with `update`, changes what that premise says. */
  lemma UndercutOverwrites(a: LogicArgument, b: LogicArgument)
    ensures AttacksUndercut(a, b) <==>
              Claim(a).Some? && exists k :: k in b.premise && (b.premise + Facts(Claim(a).value))[k] != b.premise[k]
  {
    if Claim(a).Some? {
      var facts := Facts(Claim(a).value);
      if AttacksUndercut(a, b) {
        var k :| k in facts && k in b.premise && facts[k] != b.premise[k];
        assert (b.premise + facts)[k] != b.premise[k];
      }
    }
  }

  /** The attack matrix `make_argumentation_framework` fills in. */
  function AttackMatrix(args: seq<LogicArgument>): (r: seq<seq<int>>)
    ensures |r| == |args| && forall i :: 0 <= i < |args| ==> |r[i]| == |args|
    ensures forall i, j :: 0 <= i < |args| && 0 <= j < |args| ==>
              (r[i][j] == 1 <==> Attacks(args[i], args[j])) && (r[i][j] == 0 || r[i][j] == 1)
  {
    seq(|args|, i requires 0 <= i < |args| => seq(|args|, j requires 0 <= j < |args| =>
      if Attacks(args[i], args[j]) then 1 else 0))
  }

  /** `make_argumentation_framework`: a framework with one argument per
      logical argument, every one present, and an attack from `i` to `j`
      exactly when `args[i]` attacks `args[j]`. */
  method MakeArgumentationFramework(args: seq<LogicArgument>) returns (af: Frameworks.ArgumentationFramework)
    ensures fresh(af) && af.Valid() && af.Capacity() == |args|
    ensures af.Arguments() == Some(Frameworks.Range(|args|))
    ensures af.AttacksMatrix() == AttackMatrix(args)
  {
    af := new Frameworks.ArgumentationFramework(|args|);
    MarkAttacks(af, AttackMatrix(args));
    MatrixIs(af, args);
  }

  /** The `itertools.product` loop: `set_attacks(i, j, a0.attacks(a1))`
      for every pair in row-major order, with `m[i][j]` the attack as 0
      or 1. */
  method MarkAttacks(af: Frameworks.ArgumentationFramework, m: seq<seq<int>>)
    requires af.Valid() && af.Capacity() == |m|
    requires forall a :: 0 <= a < |m| ==> |m[a]| == |m|
    requires forall a, b :: 0 <= a < |m| && 0 <= b < |m| ==> m[a][b] == 0 || m[a][b] == 1
    modifies af.attacks
    ensures af.Valid()
    ensures forall a, b :: 0 <= a < |m| && 0 <= b < |m| ==> af.attacks[a, b] == m[a][b]
  {
    var n := |m|;
    for i := 0 to n
      invariant af.Valid()
      invariant forall a, b :: 0 <= a < i && 0 <= b < n ==> af.attacks[a, b] == m[a][b]
    {
      for j := 0 to n
        invariant af.Valid()
        invariant forall a, b :: 0 <= a < i && 0 <= b < n ==> af.attacks[a, b] == m[a][b]
        invariant forall b :: 0 <= b < j ==> af.attacks[i, b] == m[i][b]
      {
        var raised := af.SetAttacks(i, j, m[i][j]);
      }
    }
  }

  lemma MatrixIs(af: Frameworks.ArgumentationFramework, args: seq<LogicArgument>)
    requires af.Valid() && af.Capacity() == |args|
    requires forall a, b :: 0 <= a < |args| && 0 <= b < |args| ==> af.attacks[a, b] == AttackMatrix(args)[a][b]
    ensures af.AttacksMatrix() == AttackMatrix(args)
  {
    var rows := af.AttacksMatrix();
    var matrix := AttackMatrix(args);
    forall a | 0 <= a < |args| ensures rows[a] == matrix[a] {
      assert |rows[a]| == |args|;
    }
  }

  /** The attack relation of the framework built from `args` holds the
      pair `(i, j)` exactly when `args[i]` attacks `args[j]`. */
  lemma RelationIsAttacks(af: Frameworks.ArgumentationFramework, args: seq<LogicArgument>)
    requires af.Valid() && af.Capacity() == |args|
    requires af.Arguments() == Some(Frameworks.Range(|args|))
    requires af.AttacksMatrix() == AttackMatrix(args)
    ensures af.AttackPairs().Some?
    ensures forall p :: p in af.AttackPairs().value <==>
              0 <= p.0 < |args| && 0 <= p.1 < |args| && Attacks(args[p.0], args[p.1])
  {
    af.PairsDefined();
    af.ArgumentsArePrefix();
    af.RelationMembers();
    var n := |args|;
    assert af.NumArguments() == n;
    var m := AttackMatrix(args);
    forall p: (int, int) | 0 <= p.0 < n && 0 <= p.1 < n
      ensures af.attacks[p.0, p.1] != 0 <==> Attacks(args[p.0], args[p.1])
    {
      assert af.attacks[p.0, p.1] == af.AttacksMatrix()[p.0][p.1] == m[p.0][p.1];
    }
  }
}
