/** solved_af/tasks.py: the algorithms behind the solver's tasks. The SAT
    solver itself is not modelled: what it enumerates for a framework is
    handed to the tasks as an `Oracle`. */
module Tasks {
  import opened Wrappers
  import opened Collections
  import opened Text
  import opened Framework
  import opened Theories

  // Blocking clauses.

  /** `negateClause`: every literal negated. */
  function NegateClause(clause: Clause): (r: Clause)
    ensures |r| == |clause|
  {
    seq(|clause|, i requires 0 <= i < |clause| => -clause[i])
  }

  /** Negating twice gives the clause back. */
  lemma NegateClauseInvolution(clause: Clause)
    ensures NegateClause(NegateClause(clause)) == clause
  {
  }

  /** The clause `excludeAssignment` adds for a solution: the negated
      positive literals. */
  function BlockingClause(solution: seq<int>): Clause {
    NegateClause(ExtractPositiveLiterals(solution))
  }

  /** The blocking clause holds exactly for the assignments that make some
      variable false that the solution makes true; in particular the
      solution's own model violates it. */
  lemma BlockingClauseMeaning(solution: seq<int>, tv: set<int>)
    ensures ClauseHolds(tv, BlockingClause(solution)) <==>
            exists x :: x in solution && x > 0 && x !in tv
  {
    var pos := ExtractPositiveLiterals(solution);
    var c := BlockingClause(solution);
    if ClauseHolds(tv, c) {
      var i :| 0 <= i < |c| && LitHolds(tv, c[i]);
      assert pos[i] in pos;
    }
    if exists x :: x in solution && x > 0 && x !in tv {
      var x :| x in solution && x > 0 && x !in tv;
      var i := IndexOfMember(pos, x);
      assert LitHolds(tv, c[i]);
    }
  }

  /** `excludeAssignment` as written: the text of the blocking clause is
      appended without a line break and one more clause is counted. */
  method ExcludeAssignment(solution: seq<int>, satInput: DimacsInput)
    modifies satInput, satInput.header
    ensures satInput.content == old(satInput.content) + ParseClause(BlockingClause(solution))
    ensures satInput.header.vars == old(satInput.header.vars)
    ensures satInput.header.clauses == old(satInput.header.clauses) + 1
  {
    var positiveLiterals := ExtractPositiveLiterals(solution);
    var negationClause := NegateClause(positiveLiterals);
    var negationDimacs := ParseClause(negationClause);
    satInput.AddSingleClause(negationDimacs);
  }

  /** Splitting at the first separator. */
  lemma SplitFirst(x: string, t: string, sep: char)
    requires sep !in x
    ensures Split(x + [sep] + t, sep) == [x] + Split(t, sep)
  {
    var s := x + [sep] + t;
    assert s == x + ([sep] + t);
    IndexOfAfter(x, [sep] + t, sep);
    assert s[..|x|] == x;
    assert s[|x| + 1..] == t;
  }

  /** The last line of a text that ends in a line break followed by `y` is `y`. */
  lemma {:induction false} SplitLast(s: string, y: string)
    requires |s| >= 1 && s[|s| - 1] == '\n' && '\n' !in y
    ensures var lines := Split(s + y, '\n'); lines[|lines| - 1] == y
    decreases |s|
  {
    var k := IndexOf(s, '\n');
    var rest := s[k + 1..];
    assert s + y == s[..k] + ['\n'] + (rest + y) by {
      assert s == s[..k] + ['\n'] + rest;
    }
    SplitFirst(s[..k], rest + y, '\n');
    if rest == [] {
      assert rest + y == y;
      IndexOfAfter(y, [], '\n');
      assert y + [] == y;
    } else {
      SplitLast(rest, y);
    }
  }

  /** The texts of the blocking clauses for the solutions `[1]` and `[2]`. */
  lemma BlockingClauseTexts()
    ensures ParseClause(BlockingClause([1])) == "-1 0"
    ensures ParseClause(BlockingClause([2])) == "-2 0"
    ensures ParseClause(BlockingClause([1])) + ParseClause(BlockingClause([2])) == "-1 0-2 0"
  {
    MergedText();
    assert ExtractPositiveLiterals([1]) == [1] && ExtractPositiveLiterals([2]) == [2];
    assert BlockingClause([1]) == [-1] && BlockingClause([2]) == [-2];
    assert IntToString(-1) == "-1" && IntToString(-2) == "-2";
    assert LiteralTexts([-1]) == ["-1"] && LiteralTexts([-2]) == ["-2"];
  }

  /** The line `-1 0-2 0` has the words `-1`, `0-2` and `0`. */
  lemma MergedLineWords()
    ensures Words("-1 0-2 0") == ["-1", "0-2", "0"]
  {
    var ws := ["-1", "0-2", "0"];
    assert ws[1..] == ["0-2", "0"] && ws[1..][1..] == ["0"];
    assert Join(["0-2", "0"], " ") == "0-2 0";
    assert Join(ws, " ") == "-1 0-2 0";
    assert NoSpace("-1") && NoSpace("0-2") && NoSpace("0");
    WordsJoin(ws);
  }

  /** `0-2` is not an integer, so a reader that takes one clause per line
      rejects the line `-1 0-2 0`. */
  lemma MergedLineRejected()
    ensures DecodeClause("-1 0-2 0") == None
  {
    MergedLineWords();
    var ws := ["-1", "0-2", "0"];
    assert ws[..2] == ["-1", "0-2"] && ["-1", "0-2"][1..] == ["0-2"];
    assert ParseInt("0-2") == None by {
      assert !IsDigit("0-2"[1]);
    }
  }

  /** Two blocking clauses written one after the other as `excludeAssignment`
      writes them end up on one line, `-1 0-2 0`: the text no longer has one
      clause per line, and a line-based reader rejects that line. */
  lemma AsWrittenExclusionsShareLine(th: Theory)
    ensures var text := ParseCNFTheory(th) + ParseClause(BlockingClause([1])) + ParseClause(BlockingClause([2]));
            var lines := Split(text, '\n');
            lines[|lines| - 1] == "-1 0-2 0" && DecodeClause(lines[|lines| - 1]) == None
  {
    ExclusionsShareLine(th, BlockingClause([1]), BlockingClause([2]));
    BlockingClauseTexts();
    MergedLineRejected();
  }

  lemma MergedText()
    ensures "-1 0" + "-2 0" == "-1 0-2 0"
  {
  }

  /** Clause texts appended one after the other to a theory's DIMACS text
      form its last line together. */
  lemma ExclusionsShareLine(th: Theory, c: Clause, d: Clause)
    ensures var lines := Split(ParseCNFTheory(th) + ParseClause(c) + ParseClause(d), '\n');
            lines[|lines| - 1] == ParseClause(c) + ParseClause(d)
  {
    var s := ParseCNFTheory(th);
    assert |s| >= 1 && s[|s| - 1] == '\n';
    var a, b := ParseClause(c), ParseClause(d);
    assert '\n' !in a + b;
    assert s + a + b == s + (a + b);
    SplitLast(s, a + b);
  }

  /** `excludeAssignment` with each blocking clause on a line of its own. */
  method ExcludeAssignmentOnLine(solution: seq<int>, satInput: DimacsInput)
    modifies satInput, satInput.header
    ensures satInput.content == old(satInput.content) + ParseCNFTheory([BlockingClause(solution)])
    ensures satInput.header.vars == old(satInput.header.vars)
    ensures satInput.header.clauses == old(satInput.header.clauses) + 1
  {
    var negationClause := BlockingClause(solution);
    satInput.AddSingleClause(ParseCNFTheory([negationClause]));
  }

  /** With each blocking clause on its own line, the DIMACS text of a theory
      after an exclusion reads back as the theory with the blocking clause
      at its end, and the header counts it. */
  lemma ExclusionReadsBack(vars: int, th: Theory, solution: seq<int>)
    requires |th| >= 1
    ensures ReadDimacs(HeaderText(vars, |th| + 1) + ParseCNFTheory(th) + ParseCNFTheory([BlockingClause(solution)]))
         == Some((vars, |th| + 1, th + [BlockingClause(solution)]))
  {
    var c := BlockingClause(solution);
    CNFTheoryAppend(th, c);
    assert HeaderText(vars, |th| + 1) + ParseCNFTheory(th) + ParseCNFTheory([c])
        == HeaderText(vars, |th| + 1) + ParseCNFTheory(th + [c]);
    DimacsRoundTrip(vars, |th| + 1, th + [c]);
  }

  // Reading the solver's answer.

  /** `extractAssignment`: the second-to-last line of the solver's output
      without its first and its last word, read as integers. `None` where
      Python raises: fewer than two lines (`IndexError`) or a word that is
      not an integer (`ValueError`). */
  function ExtractAssignment(rawDimacsOutput: string): (r: Option<seq<int>>)
    ensures r.Some? ==> |Split(rawDimacsOutput, '\n')| >= 2
  {
    var lines := Split(rawDimacsOutput, '\n');
    if |lines| < 2 then None
    else
      var words := Words(lines[|lines| - 2]);
      if |words| < 2 then Some([]) else ParseInts(words[1..|words| - 1])
  }

  /** The model line the solver prints: `v`, the literals, then `0`. */
  function ModelLine(assignment: seq<int>): string {
    "v " + ParseClause(assignment)
  }

  lemma ModelLineHasNoBreak(assignment: seq<int>)
    ensures '\n' !in ModelLine(assignment)
  {
    var line := ModelLine(assignment);
    assert forall k :: 0 <= k < |line| ==> k < 2 || line[k] == ParseClause(assignment)[k - 2];
  }

  /** The words of the model line: `v`, the literals, then `0`. */
  lemma ModelLineWords(assignment: seq<int>)
    ensures Words(ModelLine(assignment)) == ["v"] + LiteralTexts(assignment) + ["0"]
  {
    var rest := " " + ParseClause(assignment);
    assert ModelLine(assignment) == "v" + rest;
    WordThenSpace("v", rest);
    assert rest[1..] == ParseClause(assignment);
    ClauseWords(assignment);
  }

  /** Two lines, each followed by a line break, split into the two lines and
      an empty last piece. */
  lemma TwoLines(first: string, second: string)
    requires '\n' !in first && '\n' !in second
    ensures Split(first + "\n" + second + "\n", '\n') == [first, second, ""]
  {
    var lines := [first, second, ""];
    assert Join(lines, "\n") == first + "\n" + second + "\n" by {
      assert lines[1..] == [second, ""] && [second, ""][1..] == [""];
      assert Join([""], "\n") == "";
      assert Join([second, ""], "\n") == second + "\n" + "";
      assert Join(lines, "\n") == first + "\n" + (second + "\n" + "");
    }
    SplitJoin(lines, '\n');
  }

  /** Reading the solver's output undoes printing a status line, the model
      line and the final line break. */
  lemma ExtractAssignmentRoundTrip(status: string, assignment: seq<int>)
    requires '\n' !in status
    ensures ExtractAssignment(status + "\n" + ModelLine(assignment) + "\n") == Some(assignment)
  {
    ModelLineHasNoBreak(assignment);
    TwoLines(status, ModelLine(assignment));
    ModelLineWords(assignment);
    var texts := LiteralTexts(assignment);
    assert (["v"] + texts + ["0"])[1..|texts| + 1] == texts;
    ParseLiteralTexts(assignment);
  }

  // Decisions over an enumeration of extensions.

  /** `credulousDecision`: some enumerated extension holds the argument. */
  function CredulousDecision(extensions: seq<set<int>>, argumentValue: int): (r: bool)
    ensures r <==> exists i :: 0 <= i < |extensions| && argumentValue in extensions[i]
  {
    if extensions == [] then false
    else
      var rest := CredulousDecision(extensions[1..], argumentValue);
      assert rest <==> exists i :: 1 <= i < |extensions| && argumentValue in extensions[i] by {
        if rest {
          var i :| 0 <= i < |extensions[1..]| && argumentValue in extensions[1..][i];
          assert argumentValue in extensions[i + 1];
        }
        if exists i :: 1 <= i < |extensions| && argumentValue in extensions[i] {
          var i :| 1 <= i < |extensions| && argumentValue in extensions[i];
          assert argumentValue in extensions[1..][i - 1];
        }
      }
      argumentValue in extensions[0] || rest
  }

  /** `skepticalDecision`: every enumerated extension holds the argument. */
  function SkepticalDecision(extensions: seq<set<int>>, argumentValue: int): (r: bool)
    ensures r <==> forall i :: 0 <= i < |extensions| ==> argumentValue in extensions[i]
  {
    if extensions == [] then true
    else
      var rest := SkepticalDecision(extensions[1..], argumentValue);
      assert rest <==> forall i :: 1 <= i < |extensions| ==> argumentValue in extensions[i] by {
        if rest {
          forall i | 1 <= i < |extensions| ensures argumentValue in extensions[i] {
            assert extensions[i] == extensions[1..][i - 1];
          }
        }
        if forall i :: 1 <= i < |extensions| ==> argumentValue in extensions[i] {
          forall i | 0 <= i < |extensions[1..]| ensures argumentValue in extensions[1..][i] {
            assert extensions[1..][i] == extensions[i + 1];
          }
        }
      }
      argumentValue in extensions[0] && rest
  }

  /** With nothing enumerated the credulous answer is no and the skeptical
      answer is yes. */
  lemma EmptyEnumerationDecisions(argumentValue: int)
    ensures !CredulousDecision([], argumentValue)
    ensures SkepticalDecision([], argumentValue)
  {
  }

  /** The skeptical answer is the negation of the credulous answer to the
      question whether some extension leaves the argument out; on a
      non-empty enumeration, skeptical acceptance implies credulous. */
  lemma SkepticalCredulousDuality(extensions: seq<set<int>>, argumentValue: int)
    ensures SkepticalDecision(extensions, argumentValue) <==>
            !exists i :: 0 <= i < |extensions| && argumentValue !in extensions[i]
    ensures |extensions| > 0 && SkepticalDecision(extensions, argumentValue) ==>
            CredulousDecision(extensions, argumentValue)
  {
    if |extensions| > 0 && SkepticalDecision(extensions, argumentValue) {
      assert argumentValue in extensions[0];
    }
  }

  /** Both decisions depend only on which extensions are enumerated, not on
      their order or repetition. */
  lemma DecisionsOnElements(xs: seq<set<int>>, ys: seq<set<int>>, argumentValue: int)
    requires Elements(xs) == Elements(ys)
    ensures CredulousDecision(xs, argumentValue) == CredulousDecision(ys, argumentValue)
    ensures SkepticalDecision(xs, argumentValue) == SkepticalDecision(ys, argumentValue)
  {
    forall xs: seq<set<int>>, ys: seq<set<int>> | Elements(xs) == Elements(ys)
      ensures CredulousDecision(xs, argumentValue) ==> CredulousDecision(ys, argumentValue)
      ensures SkepticalDecision(xs, argumentValue) ==> SkepticalDecision(ys, argumentValue)
    {
      if CredulousDecision(xs, argumentValue) {
        var i :| 0 <= i < |xs| && argumentValue in xs[i];
        assert xs[i] in Elements(ys);
        var j := IndexOfMember(ys, xs[i]);
      }
      if SkepticalDecision(xs, argumentValue) {
        forall j | 0 <= j < |ys| ensures argumentValue in ys[j] {
          assert ys[j] in Elements(xs);
          var i := IndexOfMember(xs, ys[j]);
        }
      }
    }
  }

  // Grounded semantics.

  /** `F` maps the subsets of `u` into `u` and preserves inclusion between them. */
  ghost predicate MonotoneOn(F: set<int> -> set<int>, u: set<int>) {
    && (forall a :: a <= u ==> F(a) <= u)
    && (forall a, b :: a <= b <= u ==> F(a) <= F(b))
  }

  /** `F^i({})`. */
  ghost function Iter(F: set<int> -> set<int>, i: nat): set<int> {
    if i == 0 then {} else F(Iter(F, i - 1))
  }

  lemma {:induction false} IterInside(F: set<int> -> set<int>, u: set<int>, i: nat)
    requires MonotoneOn(F, u)
    ensures Iter(F, i) <= u
  {
    if i > 0 {
      IterInside(F, u, i - 1);
    }
  }

  /** The iterates of a monotone function from the empty set grow. */
  lemma {:induction false} IterChain(F: set<int> -> set<int>, u: set<int>, i: nat)
    requires MonotoneOn(F, u)
    ensures Iter(F, i) <= Iter(F, i + 1)
  {
    if i > 0 {
      IterChain(F, u, i - 1);
      IterInside(F, u, i);
    }
  }

  lemma {:induction false} IterAscending(F: set<int> -> set<int>, u: set<int>, i: nat, j: nat)
    requires MonotoneOn(F, u) && i <= j
    ensures Iter(F, i) <= Iter(F, j)
    decreases j - i
  {
    if i < j {
      IterChain(F, u, i);
      IterAscending(F, u, i + 1, j);
    }
  }

  /** Every iterate lies below every set that `F` does not enlarge. */
  lemma {:induction false} IterBelow(F: set<int> -> set<int>, u: set<int>, s: set<int>, i: nat)
    requires MonotoneOn(F, u) && s <= u && F(s) <= s
    ensures Iter(F, i) <= s
  {
    if i > 0 {
      IterBelow(F, u, s, i - 1);
      IterInside(F, u, i - 1);
    }
  }

  /** Once an iterate is a fixed point, every later iterate is the same. */
  lemma {:induction false} IterStable(F: set<int> -> set<int>, i: nat, j: nat)
    requires i <= j && F(Iter(F, i)) == Iter(F, i)
    ensures Iter(F, j) == Iter(F, i)
    decreases j - i
  {
    if i < j {
      IterStable(F, i, j - 1);
    }
  }

  /** An iterate that is a fixed point holds every iterate and lies below
      every set that `F` does not enlarge: it is the least fixed point and
      the union of all the iterates. */
  lemma LeastFixpoint(F: set<int> -> set<int>, u: set<int>, i: nat)
    requires MonotoneOn(F, u) && F(Iter(F, i)) == Iter(F, i)
    ensures forall j: nat :: Iter(F, j) <= Iter(F, i)
    ensures forall s :: s <= u && F(s) <= s ==> Iter(F, i) <= s
  {
    forall j: nat ensures Iter(F, j) <= Iter(F, i) {
      if j <= i {
        IterAscending(F, u, j, i);
      } else {
        IterStable(F, i, j);
      }
    }
    forall s | s <= u && F(s) <= s ensures Iter(F, i) <= s {
      IterBelow(F, u, s, i);
    }
  }

  /** Two functions that agree on the iterates of one of them have the same
      iterates. */
  lemma {:induction false} IterAgree(F: set<int> -> set<int>, G: set<int> -> set<int>, i: nat)
    requires forall k: nat :: k < i ==> F(Iter(G, k)) == G(Iter(G, k))
    ensures Iter(F, i) == Iter(G, i)
  {
    if i > 0 {
      IterAgree(F, G, i - 1);
    }
  }

  /** The loop of `groundedSingleEnumeration`: applies `F` from the empty set,
      accumulating its values, until a value repeats. For `F` monotone on the
      subsets of the finite set `u` this ends at a fixed point `F^i({})`. */
  method KleeneIterate(F: set<int> -> set<int>, ghost u: set<int>) returns (groundedExtension: set<int>, ghost i: nat)
    requires MonotoneOn(F, u)
    ensures groundedExtension == Iter(F, i) == Iter(F, i + 1)
  {
    groundedExtension := {};
    var currCharacteristic: set<int> := {};
    i := 0;
    while true
      invariant currCharacteristic == Iter(F, i) && groundedExtension == currCharacteristic
      invariant currCharacteristic <= u
      decreases u - currCharacteristic
    {
      var nextCharacteristic := F(currCharacteristic);
      IterChain(F, u, i);
      IterInside(F, u, i + 1);
      groundedExtension := groundedExtension + nextCharacteristic;
      if nextCharacteristic == currCharacteristic {
        break;
      }
      currCharacteristic := nextCharacteristic;
      i := i + 1;
    }
  }

  /** Every member of `s` is an argument value of `f`. */
  ghost predicate InRange<N(!new)>(f: ListGraphFramework<N>, s: set<int>) {
    forall a :: a in s ==> 1 <= a <= f.Length()
  }

  /** Some member of `s` attacks `b` according to the first `k` entries of
      the attack list, by a scan from the back. */
  ghost predicate CounteredIn(s: set<int>, b: int, attacks: seq<(int, int)>, k: nat)
    requires k <= |attacks|
  {
    k > 0 && ((attacks[k - 1].1 == b && attacks[k - 1].0 in s) || CounteredIn(s, b, attacks, k - 1))
  }

  lemma {:induction false} CounteredInMeaning(s: set<int>, b: int, attacks: seq<(int, int)>, k: nat)
    requires k <= |attacks|
    ensures CounteredIn(s, b, attacks, k) <==> exists c :: c in s && (c, b) in attacks[..k]
  {
    if k > 0 {
      CounteredInMeaning(s, b, attacks, k - 1);
      assert attacks[..k] == attacks[..k - 1] + [attacks[k - 1]];
      if exists c :: c in s && (c, b) in attacks[..k] {
        var c :| c in s && (c, b) in attacks[..k];
        assert (c, b) == attacks[k - 1] || (c, b) in attacks[..k - 1];
      }
    }
  }

  /** Every attacker of `a` among the first `k` entries of the attack list is
      attacked by a member of `s`, by a scan from the back. */
  ghost predicate DefendedIn(s: set<int>, a: int, attacks: seq<(int, int)>, k: nat)
    requires k <= |attacks|
  {
    k == 0 ||
    ((attacks[k - 1].1 == a ==> CounteredIn(s, attacks[k - 1].0, attacks, |attacks|)) && DefendedIn(s, a, attacks, k - 1))
  }

  lemma {:induction false} DefendedInMeaning(s: set<int>, a: int, attacks: seq<(int, int)>, k: nat)
    requires k <= |attacks|
    ensures DefendedIn(s, a, attacks, k) <==>
            forall b :: (b, a) in attacks[..k] ==> exists c :: c in s && (c, b) in attacks
  {
    if k > 0 {
      DefendedInMeaning(s, a, attacks, k - 1);
      CounteredInMeaning(s, attacks[k - 1].0, attacks, |attacks|);
      assert attacks[..|attacks|] == attacks;
      assert attacks[..k] == attacks[..k - 1] + [attacks[k - 1]];
      if DefendedIn(s, a, attacks, k) {
        forall b | (b, a) in attacks[..k] ensures exists c :: c in s && (c, b) in attacks {
          if (b, a) != attacks[k - 1] {
            assert (b, a) in attacks[..k - 1];
          }
        }
      }
    }
  }

  /** `f.Defends(s, a)`, decided from the attack list. */
  lemma DefendedInDefends<N(!new)>(f: ListGraphFramework<N>, s: set<int>, a: int)
    ensures DefendedIn(s, a, f.atts, |f.atts|) <==> f.Defends(s, a)
  {
    DefendedInMeaning(s, a, f.atts, |f.atts|);
    assert f.atts[..|f.atts|] == f.atts;
    forall b ensures f.Attacks(b, a) <==> (b, a) in f.atts {
    }
  }

  /** The arguments of `f` that `s` defends, decided from the attack list: a
      reference definition of the characteristic function, independent of the
      attack tables that `Characteristic` reads. */
  ghost function Defended<N(!new)>(f: ListGraphFramework<N>, s: set<int>): set<int> {
    set a | a in f.args && DefendedIn(s, a, f.atts, |f.atts|)
  }

  lemma DefendedMembers<N(!new)>(f: ListGraphFramework<N>, s: set<int>, a: int)
    ensures a in Defended(f, s) <==> a in f.ArgSet() && f.Defends(s, a)
  {
    DefendedInDefends(f, s, a);
  }

  /** The characteristic function of `f` on sets of argument values. */
  ghost function CharacteristicOf<N(!new)>(f: ListGraphFramework<N>): set<int> -> set<int>
  {
    s => Defended(f, s)
  }

  /** On sets of argument values, the reference definition agrees with the
      framework's `characteristic`. */
  lemma CharacteristicAgrees<N(!new)>(f: ListGraphFramework<N>, s: set<int>)
    requires f.Valid() && InRange(f, s)
    ensures f.Characteristic(s) == CharacteristicOf(f)(s)
  {
    forall a ensures a in f.Characteristic(s) <==> a in CharacteristicOf(f)(s) {
      DefendedMembers(f, s, a);
    }
  }

  lemma CharacteristicOfMonotone<N(!new)>(f: ListGraphFramework<N>)
    ensures MonotoneOn(CharacteristicOf(f), f.ArgSet())
  {
    var F := CharacteristicOf(f);
    forall a | a <= f.ArgSet() ensures F(a) <= f.ArgSet() {
      forall x | x in F(a) ensures x in f.ArgSet() {
        DefendedMembers(f, a, x);
      }
    }
    forall a, b | a <= b <= f.ArgSet() ensures F(a) <= F(b) {
      forall x | x in F(a) ensures x in F(b) {
        DefendedMembers(f, a, x);
        DefendedMembers(f, b, x);
      }
    }
  }

  /** `F^i({})` for the characteristic function `F` of `f`. */
  ghost function Iterate<N(!new)>(f: ListGraphFramework<N>, i: nat): set<int>
  {
    Iter(CharacteristicOf(f), i)
  }

  /** `s` is a fixed point of the characteristic function. */
  ghost predicate IsFixpoint<N(!new)>(f: ListGraphFramework<N>, s: set<int>)
    requires f.Valid()
  {
    InRange(f, s) && f.Characteristic(s) == s
  }


  /** An iterate that is a fixed point is the grounded extension: it holds
      every iterate and is included in every fixed point. */
  lemma GroundedIterate<N(!new)>(f: ListGraphFramework<N>, i: nat)
    requires f.Valid() && Iterate(f, i + 1) == Iterate(f, i)
    ensures Iterate(f, i) <= f.ArgSet()
    ensures IsFixpoint(f, Iterate(f, i))
    ensures forall s :: IsFixpoint(f, s) ==> Iterate(f, i) <= s
    ensures forall j: nat :: Iterate(f, j) <= Iterate(f, i)
  {
    IterateStep(f, i);
    var F := CharacteristicOf(f);
    CharacteristicOfMonotone(f);
    f.ArgsInRange();
    var g := Iter(F, i);
    IterInside(F, f.ArgSet(), i);
    LeastFixpoint(F, f.ArgSet(), i);
    assert InRange(f, g);
    forall j: nat ensures Iterate(f, j) <= g {
      assert Iterate(f, j) == Iter(F, j);
    }
    forall s | IsFixpoint(f, s) ensures g <= s {
      CharacteristicAgrees(f, s);
      assert s <= f.ArgSet();
    }
  }

  /** One step of the iteration: the characteristic function applied to an
      iterate is the next iterate, which includes it. */
  lemma IterateStep<N(!new)>(f: ListGraphFramework<N>, i: nat)
    requires f.Valid()
    ensures Iterate(f, i) <= f.ArgSet() && InRange(f, Iterate(f, i))
    ensures f.Characteristic(Iterate(f, i)) == Iterate(f, i + 1)
    ensures Iterate(f, i) <= Iterate(f, i + 1) <= f.ArgSet()
  {
    var F := CharacteristicOf(f);
    CharacteristicOfMonotone(f);
    f.ArgsInRange();
    IterInside(F, f.ArgSet(), i);
    IterInside(F, f.ArgSet(), i + 1);
    IterChain(F, f.ArgSet(), i);
    CharacteristicAgrees(f, Iter(F, i));
  }

  /** The framework's `characteristic`, as the function the loop applies;
      sets holding something other than an argument value are mapped to the
      empty set. */
  function CharacteristicStep<N(==,!new)>(f: ListGraphFramework<N>): set<int> -> set<int>
    requires f.Valid()
  {
    s => if forall a | a in s :: 1 <= a <= f.Length() then f.Characteristic(s) else {}
  }

  /** Iterating `CharacteristicStep` gives the iterates `F^i({})`. */
  lemma CharacteristicStepIterates<N(!new)>(f: ListGraphFramework<N>)
    requires f.Valid()
    ensures MonotoneOn(CharacteristicStep(f), f.ArgSet())
    ensures forall i: nat :: Iter(CharacteristicStep(f), i) == Iterate(f, i)
  {
    var F := CharacteristicStep(f);
    var G := CharacteristicOf(f);
    CharacteristicOfMonotone(f);
    f.ArgsInRange();
    forall s | s <= f.ArgSet() ensures F(s) == G(s) {
      assert InRange(f, s);
      CharacteristicAgrees(f, s);
    }
    forall a | a <= f.ArgSet() ensures F(a) <= f.ArgSet() {
      assert F(a) == G(a);
    }
    forall a, b | a <= b <= f.ArgSet() ensures F(a) <= F(b) {
      assert F(a) == G(a) && F(b) == G(b);
    }
    forall i: nat ensures Iter(F, i) == Iterate(f, i) {
      forall k: nat | k < i ensures F(Iter(G, k)) == G(Iter(G, k)) {
        IterInside(G, f.ArgSet(), k);
      }
      IterAgree(F, G, i);
    }
  }

  /** `groundedSingleEnumeration`: the union of all the iterates `F^i({})`,
      which is a fixed point of the characteristic function included in
      every fixed point: the grounded extension. */
  method GroundedSingleEnumeration<N(==,!new)>(f: ListGraphFramework<N>) returns (groundedExtension: set<int>)
    requires f.Valid()
    ensures groundedExtension <= f.ArgSet()
    ensures IsFixpoint(f, groundedExtension)
    ensures forall s :: IsFixpoint(f, s) ==> groundedExtension <= s
    ensures forall i: nat :: Iterate(f, i) <= groundedExtension
    ensures exists i: nat :: groundedExtension == Iterate(f, i)
  {
    CharacteristicStepIterates(f);
    ghost var i;
    groundedExtension, i := KleeneIterate(CharacteristicStep(f), f.ArgSet());
    GroundedIterate(f, i);
  }

  /** `groundedCredulousDecision`: membership in the grounded extension,
      that is, in some iterate `F^i({})`, and in every fixed point. */
  method GroundedCredulousDecision<N(==,!new)>(f: ListGraphFramework<N>, argumentValue: int) returns (r: bool)
    requires f.Valid()
    ensures r <==> exists i: nat :: argumentValue in Iterate(f, i)
    ensures r <==> forall s :: IsFixpoint(f, s) ==> argumentValue in s
  {
    var grounded := GroundedSingleEnumeration(f);
    r := argumentValue in grounded;
    if exists i: nat :: argumentValue in Iterate(f, i) {
      var i: nat :| argumentValue in Iterate(f, i);
      assert Iterate(f, i) <= grounded;
    }
  }

  // Preferred semantics.

  /** `preferredSingleEnumeration`: some maximal complete extension, or
      `None` when `pop` finds the set of maximal extensions empty, which
      happens only when no complete extension was enumerated. */
  method PreferredSingleEnumeration(completeExtensions: seq<set<int>>) returns (r: Option<set<int>>)
    requires forall i :: 0 <= i < |completeExtensions| ==> Positive(completeExtensions[i])
    ensures r.None? <==> |completeExtensions| == 0
    ensures r.Some? ==> r.value in MaximalOf(Elements(completeExtensions))
  {
    var maximal := GetAllMaximal(completeExtensions);
    assert |completeExtensions| > 0 ==> maximal != {} by {
      if |completeExtensions| > 0 {
        assert completeExtensions[0] in completeExtensions;
      }
    }
    if maximal == {} {
      r := None;
    } else {
      var ext := Choose(maximal);
      r := Some(ext);
    }
  }

  /** The members of a set in some order, as a `for` loop over a Python set
      visits them. */
  method SetToSeq(s: set<set<int>>) returns (xs: seq<set<int>>)
    ensures Elements(xs) == s
  {
    xs := [];
    var rest := s;
    while rest != {}
      invariant rest <= s && Elements(xs) == s - rest
      decreases |rest|
    {
      var x := Choose(rest);
      assert Elements(xs + [x]) == Elements(xs) + {x};
      rest := rest - {x};
      xs := xs + [x];
    }
  }

  // Task codes.

  datatype Problem = SE | EE | DC | DS
  datatype Semantics = CO | GR | PR | ST

  /** A solver task: a problem under a semantics, written `EE-CO` and so on. */
  function ProblemCode(p: Problem): string {
    match p
    case SE => "SE"
    case EE => "EE"
    case DC => "DC"
    case DS => "DS"
  }

  function SemanticsCode(s: Semantics): string {
    match s
    case CO => "CO"
    case GR => "GR"
    case PR => "PR"
    case ST => "ST"
  }

  /** A solver task: a problem under a semantics, written `EE-CO` and so on. */
  datatype Task = Task(problem: Problem, semantics: Semantics) {
    predicate IsEnumeration() {
      problem == SE || problem == EE
    }

    function Code(): string {
      ProblemCode(problem) + "-" + SemanticsCode(semantics)
    }
  }

  /** Different tasks have different codes. */
  lemma CodeInjective(t: Task, u: Task)
    requires t.Code() == u.Code()
    ensures t == u
  {
    var pt, pu := ProblemCode(t.problem), ProblemCode(u.problem);
    var st, su := SemanticsCode(t.semantics), SemanticsCode(u.semantics);
    assert |pt| == |pu| == 2 && |st| == |su| == 2;
    assert t.Code()[..2] == pt && u.Code()[..2] == pu;
    assert t.Code()[3..] == st && u.Code()[3..] == su;
    assert pt[0] == pu[0] && pt[1] == pu[1];
    assert st[0] == su[0] && st[1] == su[1];
  }

  /** `_enumerationTasksFunctions`, in the order of its keys. */
  const EnumerationTasks: seq<Task> :=
    [Task(EE, CO), Task(SE, CO), Task(SE, GR), Task(EE, PR), Task(SE, PR), Task(EE, ST), Task(SE, ST)]

  /** `_decisionTaskFunctions`, in the order of its keys. */
  const DecisionTasks: seq<Task> :=
    [Task(DC, CO), Task(DS, CO), Task(DC, GR), Task(DC, PR), Task(DS, PR), Task(DC, ST), Task(DS, ST)]

  /** The enumeration table holds the `SE` and `EE` tasks, the decision
      table the `DC` and `DS` ones. */
  lemma TableKinds()
    ensures forall t :: t in EnumerationTasks ==> t.IsEnumeration()
    ensures forall t :: t in DecisionTasks ==> !t.IsEnumeration()
  {
  }

  function Codes(ts: seq<Task>): (r: seq<string>)
    ensures |r| == |ts| && forall i :: 0 <= i < |ts| ==> r[i] == ts[i].Code()
  {
    seq(|ts|, i requires 0 <= i < |ts| => ts[i].Code())
  }

  /** The task of `table` with the given code, if there is one. */
  function Lookup(table: seq<Task>, code: string): (r: Option<Task>)
    ensures r.Some? <==> exists i :: 0 <= i < |table| && table[i].Code() == code
    ensures r.Some? ==> r.value in table && r.value.Code() == code
  {
    if table == [] then None
    else if table[0].Code() == code then Some(table[0])
    else
      var rest := Lookup(table[1..], code);
      assert (exists i :: 1 <= i < |table| && table[i].Code() == code) ==> rest.Some? by {
        if exists i :: 1 <= i < |table| && table[i].Code() == code {
          var i :| 1 <= i < |table| && table[i].Code() == code;
          assert table[1..][i - 1] == table[i];
        }
      }
      rest
  }

  /** `getTasks`: the enumeration codes, then the decision codes. */
  function GetTasks(): (r: seq<string>)
    ensures |r| == 14
    ensures forall i :: 0 <= i < 7 ==> r[i] == EnumerationTasks[i].Code() && r[i + 7] == DecisionTasks[i].Code()
  {
    Codes(EnumerationTasks) + Codes(DecisionTasks)
  }

  /** What the solver prints and the status it exits with when a task code
      does not fit the presence or absence of a query argument. */
  datatype TaskError = TaskError(exitCode: int, message: string)

  function TaskErrorMessage(taskName: string, isEnumeration: bool): string {
    var (kind, verb, other, first, second) :=
      if !isEnumeration then ("an enumeration", "forbids", "a decision", "'DC'", "'DS'")
      else ("a decision", "requires", "an enumeration", "'SE'", "'EE'");
    taskName + " is " + kind + " task and " + verb + " either the '-a' or '--argument' option!\n"
    + "You may have meant to use " + other + " task instead with a " + first + " or " + second + " prefix."
    + "\n\n" + "Use '--problems' to see the list of supportted tasks."
  }

  /** `getTaskMethod`: the task of the enumeration or the decision table
      with the given code; any other code exits with status 1. */
  function GetTaskMethod(taskName: string, isEnumeration: bool): (r: Result<Task, TaskError>)
    ensures r.Ok? ==> r.value.Code() == taskName && r.value.IsEnumeration() == isEnumeration
    ensures r.Err? ==> r.error == TaskError(1, TaskErrorMessage(taskName, isEnumeration))
  {
    match Lookup(if isEnumeration then EnumerationTasks else DecisionTasks, taskName)
    case Some(t) => TableKinds(); Ok(t)
    case None => Err(TaskError(1, TaskErrorMessage(taskName, isEnumeration)))
  }

  /** Exactly the fourteen listed codes name a task, each for one value of
      the enumeration flag: the first seven as enumerations, the last
      seven as decisions. */
  lemma TasksResolve(taskName: string, isEnumeration: bool)
    ensures GetTaskMethod(taskName, isEnumeration).Ok? <==>
            exists i :: 0 <= i < 14 && GetTasks()[i] == taskName && (i < 7 <==> isEnumeration)
  {
    var tasks := GetTasks();
    if isEnumeration {
      assert GetTaskMethod(taskName, isEnumeration).Ok? <==>
             exists i :: 0 <= i < 7 && EnumerationTasks[i].Code() == taskName;
    } else {
      assert GetTaskMethod(taskName, isEnumeration).Ok? <==>
             exists i :: 0 <= i < 7 && DecisionTasks[i].Code() == taskName;
      if exists i :: 0 <= i < 7 && DecisionTasks[i].Code() == taskName {
        var i :| 0 <= i < 7 && DecisionTasks[i].Code() == taskName;
        assert tasks[i + 7] == taskName;
      }
    }
  }

  // Running a task.

  /** What the SAT solver enumerates for the framework: the extensions of
      its models under the complete and under the stable encoding, in the
      order the solver finds them. */
  datatype Oracle = Oracle(complete: seq<set<int>>, stable: seq<set<int>>)

  predicate OraclePositive(oracle: Oracle) {
    && (forall i :: 0 <= i < |oracle.complete| ==> Positive(oracle.complete[i]))
    && (forall i :: 0 <= i < |oracle.stable| ==> Positive(oracle.stable[i]))
  }

  /** The decision tasks (`completeCredulousDecision` and the others):
      credulous or skeptical acceptance over the complete, preferred or
      stable extensions, and grounded membership. */
  method SolveDecision<N(==,!new)>(task: Task, f: ListGraphFramework<N>, oracle: Oracle, argumentValue: int)
    returns (r: bool)
    requires f.Valid() && OraclePositive(oracle)
    requires task in DecisionTasks
    ensures task.semantics == GR ==> (r <==> forall s :: IsFixpoint(f, s) ==> argumentValue in s)
    ensures task.semantics == CO && task.problem == DC ==>
      (r <==> exists e :: e in oracle.complete && argumentValue in e)
    ensures task.semantics == CO && task.problem == DS ==>
      (r <==> forall e :: e in oracle.complete ==> argumentValue in e)
    ensures task.semantics == PR && task.problem == DC ==>
      (r <==> exists e :: e in MaximalOf(Elements(oracle.complete)) && argumentValue in e)
    ensures task.semantics == PR && task.problem == DS ==>
      (r <==> forall e :: e in MaximalOf(Elements(oracle.complete)) ==> argumentValue in e)
    ensures task.semantics == ST && task.problem == DC ==>
      (r <==> exists e :: e in oracle.stable && argumentValue in e)
    ensures task.semantics == ST && task.problem == DS ==>
      (r <==> forall e :: e in oracle.stable ==> argumentValue in e)
  {
    match task.semantics
    case GR =>
      r := GroundedCredulousDecision(f, argumentValue);
    case CO =>
      r := if task.problem == DC then CredulousDecision(oracle.complete, argumentValue)
           else SkepticalDecision(oracle.complete, argumentValue);
    case PR =>
      var maximal := GetAllMaximal(oracle.complete);
      var extensions := SetToSeq(maximal);
      r := if task.problem == DC then CredulousDecision(extensions, argumentValue)
           else SkepticalDecision(extensions, argumentValue);
      assert forall e :: e in maximal <==> e in extensions;
    case ST =>
      r := if task.problem == DC then CredulousDecision(oracle.stable, argumentValue)
           else SkepticalDecision(oracle.stable, argumentValue);
  }

  /** The answer to an enumeration task: one extension or none (`SE`), or
      all of them (`EE`). */
  datatype Answer = Single(extension: Option<set<int>>) | Full(extensions: seq<set<int>>)

  /** The first extension of an enumeration, as one solver run finds it. */
  function First(extensions: seq<set<int>>): (r: Option<set<int>>)
    ensures r.None? <==> extensions == []
    ensures r.Some? ==> r.value == extensions[0]
  {
    if extensions == [] then None else Some(extensions[0])
  }

  /** The enumeration tasks (`completeFullEnumeration` and the others). */
  method SolveEnumeration<N(==,!new)>(task: Task, f: ListGraphFramework<N>, oracle: Oracle) returns (r: Answer)
    requires f.Valid() && OraclePositive(oracle)
    requires task in EnumerationTasks
    ensures task.problem == SE <==> r.Single?
    ensures task == Task(EE, CO) ==> r.extensions == oracle.complete
    ensures task == Task(EE, ST) ==> r.extensions == oracle.stable
    ensures task == Task(EE, PR) ==> Elements(r.extensions) == MaximalOf(Elements(oracle.complete))
    ensures task == Task(SE, CO) ==> r.extension == First(oracle.complete)
    ensures task == Task(SE, ST) ==> r.extension == First(oracle.stable)
    ensures task == Task(SE, GR) ==>
      r.extension.Some? && IsFixpoint(f, r.extension.value) &&
      (forall s :: IsFixpoint(f, s) ==> r.extension.value <= s)
    ensures task == Task(SE, PR) ==>
      (r.extension.None? <==> oracle.complete == []) &&
      (r.extension.Some? ==> r.extension.value in MaximalOf(Elements(oracle.complete)))
  {
    match task.semantics
    case GR =>
      var grounded := GroundedSingleEnumeration(f);
      r := Single(Some(grounded));
    case CO =>
      r := if task.problem == SE then Single(First(oracle.complete)) else Full(oracle.complete);
    case PR =>
      if task.problem == SE {
        var preferred := PreferredSingleEnumeration(oracle.complete);
        r := Single(preferred);
      } else {
        var maximal := GetAllMaximal(oracle.complete);
        var extensions := SetToSeq(maximal);
        r := Full(extensions);
      }
    case ST =>
      r := if task.problem == SE then Single(First(oracle.stable)) else Full(oracle.stable);
  }
}
