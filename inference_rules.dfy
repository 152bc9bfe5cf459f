/** Inference rules that add conclusions to a knowledge base of truth
    values: `InferenceRule` and its one concrete kind, `ModusPonens`. The
    premise, a sympy formula in the program, is a propositional formula
    here, and a conclusion dictionary is the list of its entries in
    insertion order. */
module InferenceRules {
  import opened Text
  import Collections

  /** A knowledge base `{atom: truth value}`. */
  type KB = map<string, bool>

  datatype Formula =
    | Const(value: bool)
    | Atom(name: string)
    | Not(arg: Formula)
    | And(left: Formula, right: Formula)
    | Or(left: Formula, right: Formula)
    | Implies(left: Formula, right: Formula)

  /** One entry `atom: value` of a conclusion dictionary. */
  datatype Literal = Literal(atom: string, value: bool)

  /** A dictionary holds each key once. */
  predicate Keyed(c: seq<Literal>) {
    forall i, j :: 0 <= i < j < |c| ==> c[i].atom != c[j].atom
  }

  /** The entries of a `{string: bool}` dictionary, in insertion order. */
  type Dict = c: seq<Literal> | Keyed(c) witness []

  /** `InferenceRule(premise, conclusion)`; only the modus ponens rule has
      an `is_satisfied_by`, so it is the one kind of rule. */
  datatype InferenceRule = ModusPonens(premise: Formula, conclusion: Dict)

  /** The free symbols of a formula. */
  function Atoms(f: Formula): set<string> {
    match f
    case Const(_) => {}
    case Atom(x) => {x}
    case Not(g) => Atoms(g)
    case And(g, h) => Atoms(g) + Atoms(h)
    case Or(g, h) => Atoms(g) + Atoms(h)
    case Implies(g, h) => Atoms(g) + Atoms(h)
  }

  /** What a formula means in a knowledge base that is silent on some
      atoms: an atom the base does not mention is false. */
  predicate Holds(f: Formula, kb: KB) {
    match f
    case Const(b) => b
    case Atom(x) => x in kb && kb[x]
    case Not(g) => !Holds(g, kb)
    case And(g, h) => Holds(g, kb) && Holds(h, kb)
    case Or(g, h) => Holds(g, kb) || Holds(h, kb)
    case Implies(g, h) => !Holds(g, kb) || Holds(h, kb)
  }

  /** `bool(premise.subs(env))` for an `env` that gives every free symbol a
      value: the substituted formula is a closed one and evaluates. */
  function Value(f: Formula, env: KB): bool
    requires Atoms(f) <= env.Keys
  {
    match f
    case Const(b) => b
    case Atom(x) => env[x]
    case Not(g) => !Value(g, env)
    case And(g, h) => Value(g, env) && Value(h, env)
    case Or(g, h) => Value(g, env) || Value(h, env)
    case Implies(g, h) => !Value(g, env) || Value(h, env)
  }

  /** Substituting the knowledge base, with `false` for the free symbols it
      does not mention, evaluates the formula as `Holds` reads it. */
  lemma {:induction false} ValueDefaults(f: Formula, kb: KB, env: KB)
    requires Atoms(f) <= env.Keys
    requires forall x :: x in Atoms(f) ==> env[x] == (x in kb && kb[x])
    ensures Value(f, env) == Holds(f, kb)
  {
    match f
    case Const(_) =>
    case Atom(x) =>
    case Not(g) => ValueDefaults(g, kb, env);
    case And(g, h) => ValueDefaults(g, kb, env); ValueDefaults(h, kb, env);
    case Or(g, h) => ValueDefaults(g, kb, env); ValueDefaults(h, kb, env);
    case Implies(g, h) => ValueDefaults(g, kb, env); ValueDefaults(h, kb, env);
  }

  /** `ModusPonens.is_satisfied_by`: `kb0` maps every free symbol of the
      premise to `False`, `kb` is merged over it, and the premise is
      evaluated under `kb0`. */
  method IsSatisfiedBy(rule: InferenceRule, kb: KB) returns (r: bool)
    ensures r == Holds(rule.premise, kb)
  {
    var kb0: KB := map[];
    var pending := Atoms(rule.premise);
    while pending != {}
      invariant pending <= Atoms(rule.premise)
      invariant kb0.Keys == Atoms(rule.premise) - pending
      invariant forall x :: x in kb0 ==> !kb0[x]
      decreases |pending|
    {
      var sym := Collections.Choose(pending);
      kb0 := kb0[sym := false];
      pending := pending - {sym};
    }
    kb0 := kb0 + kb;
    ValueDefaults(rule.premise, kb, kb0);
    r := Value(rule.premise, kb0);
  }

  /** The dictionary a conclusion list stands for. */
  function Facts(c: Dict): (r: KB)
    ensures forall i :: 0 <= i < |c| ==> c[i].atom in r && r[c[i].atom] == c[i].value
    ensures forall x :: x in r ==> exists i :: 0 <= i < |c| && c[i].atom == x
  {
    map i | 0 <= i < |c| :: c[i].atom := c[i].value
  }

  /** The knowledge base `apply_to` receives: a dictionary the caller owns
      and the rule updates in place. */
  class KnowledgeBase {
    var facts: KB

    constructor (facts: KB)
      ensures this.facts == facts
    {
      this.facts := facts;
    }
  }

  /** The knowledge base after the rule is applied to `kb`. */
  function Applied(rule: InferenceRule, kb: KB): KB {
    if Holds(rule.premise, kb) then kb + Facts(rule.conclusion) else kb
  }

  /** `apply_to`: `kb.update(conclusion)` when the premise is satisfied. */
  method ApplyTo(rule: InferenceRule, kb: KnowledgeBase)
    modifies kb
    ensures kb.facts == Applied(rule, old(kb.facts))
  {
    var satisfied := IsSatisfiedBy(rule, kb.facts);
    if satisfied {
      kb.facts := kb.facts + Facts(rule.conclusion);
    }
  }

  /** A rule whose premise holds adds every conclusion entry, overriding
      what the base said about that atom; one whose premise fails leaves
      the base as it was. */
  lemma ApplyConcludes(rule: InferenceRule, kb: KB)
    ensures Holds(rule.premise, kb) ==>
              forall i :: 0 <= i < |rule.conclusion| ==>
                var l := rule.conclusion[i];
                l.atom in Applied(rule, kb) && Applied(rule, kb)[l.atom] == l.value
    ensures !Holds(rule.premise, kb) ==> Applied(rule, kb) == kb
  {
  }

  /** Atoms the conclusion does not mention keep their presence and value. */
  lemma ApplyFrame(rule: InferenceRule, kb: KB, x: string)
    requires forall i :: 0 <= i < |rule.conclusion| ==> rule.conclusion[i].atom != x
    ensures x in Applied(rule, kb) <==> x in kb
    ensures x in kb ==> Applied(rule, kb)[x] == kb[x]
  {
  }

  /** A formula's meaning depends only on its own atoms. */
  lemma {:induction false} HoldsAgree(f: Formula, kb: KB, kb': KB)
    requires forall x :: x in Atoms(f) ==> (x in kb && kb[x]) == (x in kb' && kb'[x])
    ensures Holds(f, kb) == Holds(f, kb')
  {
    match f
    case Const(_) =>
    case Atom(x) =>
    case Not(g) => HoldsAgree(g, kb, kb');
    case And(g, h) => HoldsAgree(g, kb, kb'); HoldsAgree(h, kb, kb');
    case Or(g, h) => HoldsAgree(g, kb, kb'); HoldsAgree(h, kb, kb');
    case Implies(g, h) => HoldsAgree(g, kb, kb'); HoldsAgree(h, kb, kb');
  }

  /** A rule that concludes nothing about its own premise atoms changes
      nothing when applied a second time. */
  lemma ApplyTwice(rule: InferenceRule, kb: KB)
    requires forall i :: 0 <= i < |rule.conclusion| ==> rule.conclusion[i].atom !in Atoms(rule.premise)
    ensures Applied(rule, Applied(rule, kb)) == Applied(rule, kb)
  {
    var once := Applied(rule, kb);
    var facts := Facts(rule.conclusion);
    if Holds(rule.premise, kb) {
      assert forall x :: x in Atoms(rule.premise) ==> x !in facts;
      HoldsAgree(rule.premise, kb, once);
      assert once + facts == once;
    }
  }

  /** A one-entry conclusion is a one-entry dictionary. */
  lemma FactsSingle(l: Literal)
    ensures Facts([l]) == map[l.atom := l.value]
  {
    var c: Dict := [l];
    var facts := Facts(c);
    assert c[0] == l;
    assert l.atom in facts && facts[l.atom] == l.value;
    assert forall x :: x in facts ==> x == l.atom;
    assert facts.Keys == {l.atom};
  }

  /** The rule `a & b -> {c: True}` of the module's own example. */
  function ExampleRule(): InferenceRule {
    ModusPonens(And(Atom("a"), Atom("b")), [Literal("c", true)])
  }

  /** The example rule fires on `{a: True, b: True}` and adds `c`. */
  lemma ExampleFires()
    ensures Applied(ExampleRule(), map["a" := true, "b" := true]) == map["a" := true, "b" := true, "c" := true]
  {
    FactsSingle(Literal("c", true));
  }

  /** The example rule leaves `{a: True, b: False}` alone. */
  lemma ExampleStays()
    ensures Applied(ExampleRule(), map["a" := true, "b" := false]) == map["a" := true, "b" := false]
  {
  }

  /** One conclusion entry as `__str__` prints it: `name` or `~name`. */
  function LiteralText(l: Literal): string {
    (if l.value then "" else "~") + l.atom
  }

  function Texts(c: Dict): seq<string> {
    seq(|c|, i requires 0 <= i < |c| => LiteralText(c[i]))
  }

  /** The conclusion part of `__str__`: the entries joined by `", "`. */
  function ConclusionText(c: Dict): string {
    Join(Texts(c), ", ")
  }

  /** `__str__`: the premise as sympy prints it, an arrow, the conclusion. */
  function RuleText(premiseText: string, rule: InferenceRule): (r: string)
    ensures |r| >= |premiseText|
    ensures r[..|premiseText|] == premiseText
    ensures r[|premiseText|..] == " \U{2192} " + ConclusionText(rule.conclusion)
  {
    premiseText + " \U{2192} " + ConclusionText(rule.conclusion)
  }

  /** Reading one printed entry back: a leading `~` marks a false atom. */
  function ReadLiteral(p: string): Literal {
    if |p| > 0 && p[0] == '~' then Literal(p[1..], false) else Literal(p, true)
  }

  function DropSpace(p: string): string {
    if |p| > 0 && p[0] == ' ' then p[1..] else p
  }

  /** Reading a printed conclusion back into its entries. */
  function ReadConclusion(s: string): seq<Literal> {
    if s == "" then []
    else
      var ps := Split(s, ',');
      seq(|ps|, i requires 0 <= i < |ps| => ReadLiteral(if i == 0 then ps[i] else DropSpace(ps[i])))
  }

  /** An atom name `__str__` prints unambiguously. */
  predicate Printable(x: string) {
    x != "" && x[0] != '~' && x[0] != ' ' && ',' !in x
  }

  /** The pieces after the first with a space in front. */
  function Spaced(xs: seq<string>): (r: seq<string>)
    requires |xs| >= 1
    ensures |r| == |xs| && r[0] == xs[0]
    ensures forall i :: 1 <= i < |xs| ==> r[i] == " " + xs[i]
  {
    [xs[0]] + seq(|xs| - 1, i requires 0 <= i < |xs| - 1 => " " + xs[i + 1])
  }

  /** `sep.join` with `", "` is `","` joining the spaced pieces. */
  lemma {:induction false} JoinCommaSpace(xs: seq<string>)
    requires |xs| >= 1
    ensures Join(xs, ", ") == Join(Spaced(xs), ",")
  {
    if |xs| > 1 {
      var tail := xs[1..];
      JoinCommaSpace(tail);
      var zs := Spaced(tail);
      var spaced := [" " + zs[0]] + zs[1..];
      assert Spaced(xs) == [xs[0]] + spaced;
      assert Join(spaced, ",") == " " + Join(zs, ",") by {
        if |zs| > 1 {
          assert spaced[1..] == zs[1..];
        }
      }
    }
  }

  /** The printed conclusion reads back as the conclusion itself, when no
      atom name starts with `~` or a space or holds a comma. */
  lemma ConclusionReadsBack(c: Dict)
    requires forall i :: 0 <= i < |c| ==> Printable(c[i].atom)
    ensures ReadConclusion(ConclusionText(c)) == c
  {
    if c != [] {
      var ys := Spaced(Texts(c));
      JoinCommaSpace(Texts(c));
      SpacedPieces(c);
      SplitJoin(ys, ',');
      assert ConclusionText(c) != "" by {
        JoinLength(ys);
      }
      var r := ReadConclusion(ConclusionText(c));
      forall i | 0 <= i < |c| ensures r[i] == c[i] {
        ReadPiece(c, i);
      }
    }
  }

  lemma SpacedPieces(c: Dict)
    requires c != [] && forall i :: 0 <= i < |c| ==> Printable(c[i].atom)
    ensures forall i :: 0 <= i < |c| ==> ',' !in Spaced(Texts(c))[i]
    ensures Spaced(Texts(c))[0] != ""
  {
    var ys := Spaced(Texts(c));
    forall i | 0 <= i < |c| ensures ',' !in ys[i] {
      assert ys[i] == (if i == 0 then "" else " ") + LiteralText(c[i]);
    }
  }

  lemma ReadPiece(c: Dict, i: nat)
    requires i < |c| && Printable(c[i].atom)
    ensures var p := Spaced(Texts(c))[i];
            ReadLiteral(if i == 0 then p else DropSpace(p)) == c[i]
  {
    var p := Spaced(Texts(c))[i];
    var q := if i == 0 then p else DropSpace(p);
    assert q == LiteralText(c[i]);
    if c[i].value {
      assert q == c[i].atom;
    } else {
      assert q[1..] == c[i].atom;
    }
  }

  /** A join is at least as long as its first piece. */
  lemma JoinLength(xs: seq<string>)
    requires |xs| >= 1
    ensures |Join(xs, ",")| >= |xs[0]|
  {
  }
}
