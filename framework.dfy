/** solved_af/framework.py: the list-graph representation of an abstract
    argumentation framework, its characteristic function, and the
    comparison of extensions by their binary encodings. */
module Framework {
  import opened Wrappers
  import opened Collections
  import opened Utils

  /** `_arguments_to_values`: argument names numbered from 1 in list order;
      when a name occurs twice, its later position wins. */
  function ValueMap<N(==,!new)>(names: seq<N>): (m: map<N, int>)
    ensures forall x :: x in m <==> x in names
    ensures forall x :: x in m ==> 1 <= m[x] <= |names| && names[m[x] - 1] == x
    ensures forall x, j :: x in m && m[x] <= j < |names| ==> names[j] != x
    decreases |names|
  {
    if names == [] then map[]
    else
      var init, last := names[..|names| - 1], names[|names| - 1];
      var m := ValueMap(init);
      ValueMapStep(init, last, m);
      assert init + [last] == names;
      m[last := |names|]
  }

  /** Numbering one more name after the others keeps the numbering's three
      properties. */
  lemma ValueMapStep<N(!new)>(init: seq<N>, last: N, m: map<N, int>)
    requires forall x :: x in m <==> x in init
    requires forall x :: x in m ==> 1 <= m[x] <= |init| && init[m[x] - 1] == x
    requires forall x, j :: x in m && m[x] <= j < |init| ==> init[j] != x
    ensures var names, r := init + [last], m[last := |init| + 1];
      && (forall x :: x in r <==> x in names)
      && (forall x :: x in r ==> 1 <= r[x] <= |names| && names[r[x] - 1] == x)
      && (forall x, j :: x in r && r[x] <= j < |names| ==> names[j] != x)
  {
    var names, r := init + [last], m[last := |init| + 1];
    forall x | x in r ensures 1 <= r[x] <= |names| && names[r[x] - 1] == x {
      if x != last {
        assert names[m[x] - 1] == init[m[x] - 1];
      }
    }
    forall x, j | x in r && r[x] <= j < |names| ensures names[j] != x {
      if x != last && j < |names| - 1 {
        assert names[j] == init[j];
      }
    }
  }

  /** A framework over argument names of type `N`. Arguments are handled by
      their values `1..|names|`; `nodeList[v - 1]` holds the arguments that
      `v` attacks and the arguments that attack `v`. */
  datatype ListGraphFramework<N(==,!new)> = ListGraphFramework(
    names: seq<N>,
    values: map<N, int>,
    args: seq<int>,
    atts: seq<(int, int)>,
    nodeList: seq<(set<int>, set<int>)>)
  {
    ghost predicate Valid() {
      && values == ValueMap(names)
      && |args| == |names|
      && (forall i :: 0 <= i < |names| ==> args[i] == values[names[i]])
      && NodesValid()
    }

    /** `nodeList` records exactly the attacks of `atts`. */
    ghost predicate NodesValid() {
      && |nodeList| == |names|
      && (forall p :: p in atts ==> 1 <= p.0 <= |names| && 1 <= p.1 <= |names|)
      && NodesRecord(nodeList, atts)
    }

    /** `__len__` (the `LENGTH` attribute). */
    function Length(): nat {
      |nodeList|
    }

    /** `x` attacks `y`. */
    predicate Attacks(x: int, y: int) {
      (x, y) in atts
    }

    /** The values the framework iterates over (`__iter__`). */
    function ArgSet(): set<int> {
      set a | a in args
    }

    /** `argumentToValue`: `None` where the dictionary lookup raises `KeyError`. */
    function ArgumentToValue(x: N): (r: Option<int>)
      requires Valid()
      ensures r.Some? <==> x in names
    {
      if x in values then Some(values[x]) else None
    }

    /** `valueToArgument`: list indexing at `v - 1`; as in Python, an index
        below zero counts from the end of the list. */
    function ValueToArgument(v: int): N
      requires -|names| < v <= |names|
    {
      if v >= 1 then names[v - 1] else names[|names| + v - 1]
    }

    /** `valuesToArguments`. */
    function ValuesToArguments(vs: seq<int>): (r: seq<N>)
      requires forall i :: 0 <= i < |vs| ==> 1 <= vs[i] <= |names|
      ensures |r| == |vs| && forall i :: 0 <= i < |vs| ==> r[i] == names[vs[i] - 1]
    {
      seq(|vs|, i requires 0 <= i < |vs| => ValueToArgument(vs[i]))
    }

    /** `getAttackedBy`: the arguments that `x` attacks. */
    function AttackedBy(x: int): (r: set<int>)
      requires NodesValid() && 1 <= x <= Length()
      ensures forall y :: y in r <==> Attacks(x, y)
    {
      nodeList[x - 1].0
    }

    /** `getAttackersOf`: the arguments that attack `x`. */
    function AttackersOf(x: int): (r: set<int>)
      requires NodesValid() && 1 <= x <= Length()
      ensures forall y :: y in r <==> Attacks(y, x)
    {
      nodeList[x - 1].1
    }

    /** The sets `f(a)` for the members `a` of `s`, in ascending order of `a`. */
    function Images(s: set<int>, outgoing: bool): (parts: seq<set<int>>)
      requires forall a :: a in s ==> 1 <= a <= Length()
      ensures |parts| == |Sorted(s)|
      ensures forall i :: 0 <= i < |parts| ==> parts[i] == Node(Sorted(s)[i], outgoing)
    {
      var order := Sorted(s);
      seq(|order|, i requires 0 <= i < |order| => Node(order[i], outgoing))
    }

    function Node(a: int, outgoing: bool): set<int>
      requires 1 <= a <= Length()
    {
      if outgoing then nodeList[a - 1].0 else nodeList[a - 1].1
    }

    lemma NodeMembers(a: int, outgoing: bool, y: int)
      requires NodesValid() && 1 <= a <= Length()
      ensures y in Node(a, outgoing) <==> if outgoing then Attacks(a, y) else Attacks(y, a)
    {
    }

    lemma ImagesUnion(s: set<int>, outgoing: bool, y: int)
      requires NodesValid()
      requires forall a :: a in s ==> 1 <= a <= Length()
      ensures y in FlattenSet(Images(s, outgoing)) <==>
              exists a :: a in s && (if outgoing then Attacks(a, y) else Attacks(y, a))
    {
      var order := Sorted(s);
      var parts := Images(s, outgoing);
      if y in FlattenSet(parts) {
        var i :| 0 <= i < |parts| && y in parts[i];
        var a := order[i];
        NodeMembers(a, outgoing, y);
      }
      if exists a :: a in s && (if outgoing then Attacks(a, y) else Attacks(y, a)) {
        var a :| a in s && (if outgoing then Attacks(a, y) else Attacks(y, a));
        var i := IndexOfMember(order, a);
        NodeMembers(a, outgoing, y);
        assert y in parts[i];
      }
    }

    /** `getAttackedBySet`: everything some member of `s` attacks. */
    function AttackedBySet(s: set<int>): (r: set<int>)
      requires Valid()
      requires forall a :: a in s ==> 1 <= a <= Length()
      ensures forall y :: y in r <==> exists a :: a in s && Attacks(a, y)
    {
      assert forall y :: y in FlattenSet(Images(s, true)) <==> exists a :: a in s && Attacks(a, y) by {
        forall y ensures y in FlattenSet(Images(s, true)) <==> exists a :: a in s && Attacks(a, y) {
          ImagesUnion(s, true, y);
        }
      }
      FlattenSet(Images(s, true))
    }

    /** `getAttackersOfSet`: everything that attacks some member of `s`. */
    function AttackersOfSet(s: set<int>): (r: set<int>)
      requires Valid()
      requires forall a :: a in s ==> 1 <= a <= Length()
      ensures forall y :: y in r <==> exists a :: a in s && Attacks(y, a)
    {
      assert forall y :: y in FlattenSet(Images(s, false)) <==> exists a :: a in s && Attacks(y, a) by {
        forall y ensures y in FlattenSet(Images(s, false)) <==> exists a :: a in s && Attacks(y, a) {
          ImagesUnion(s, false, y);
        }
      }
      FlattenSet(Images(s, false))
    }

    /** `characteristic`: the arguments all of whose attackers are attacked
        by `s`, i.e. the arguments `s` defends. */
    function Characteristic(s: set<int>): (r: set<int>)
      requires Valid()
      requires forall a :: a in s ==> 1 <= a <= Length()
      ensures forall a :: a in r <==> a in ArgSet() && Defends(s, a)
    {
      ArgsInRange();
      var attacked := AttackedBySet(s);
      var r := set a | a in args && AttackersOf(a) <= attacked;
      assert forall a :: a in r <==> a in ArgSet() && Defends(s, a) by {
        forall a ensures a in r <==> a in ArgSet() && Defends(s, a) {
          if a in args {
            if AttackersOf(a) <= attacked {
              forall b | Attacks(b, a) ensures exists c :: c in s && Attacks(c, b) {
                assert b in AttackersOf(a);
              }
            }
            if Defends(s, a) {
              forall b | b in AttackersOf(a) ensures b in attacked {
                assert Attacks(b, a);
              }
            }
          }
        }
      }
      r
    }

    /** Every attacker of `a` is attacked by a member of `s`. */
    ghost predicate Defends(s: set<int>, a: int) {
      forall b :: Attacks(b, a) ==> exists c :: c in s && Attacks(c, b)
    }

    lemma ArgsInRange()
      requires Valid()
      ensures forall a :: a in args ==> 1 <= a <= Length()
    {
      forall a | a in args ensures 1 <= a <= Length() {
        var i :| 0 <= i < |args| && args[i] == a;
      }
    }

    /** The characteristic function is monotone. */
    lemma CharacteristicMonotone(s: set<int>, t: set<int>)
      requires Valid()
      requires forall a :: a in t ==> 1 <= a <= Length()
      requires s <= t
      ensures Characteristic(s) <= Characteristic(t)
    {
      forall a | a in Characteristic(s) ensures a in Characteristic(t) {
        forall b | Attacks(b, a) ensures exists c :: c in t && Attacks(c, b) {
          var c :| c in s && Attacks(c, b);
        }
      }
    }

    /** An argument nobody attacks is defended by every set. */
    lemma UnattackedDefended(s: set<int>, a: int)
      requires Valid()
      requires forall a :: a in s ==> 1 <= a <= Length()
      requires a in ArgSet() && forall b :: !Attacks(b, a)
      ensures a in Characteristic(s)
    {
    }

    /** Without attacks the characteristic function returns every argument. */
    lemma NoAttacksAllDefended(s: set<int>)
      requires Valid() && atts == []
      requires forall a :: a in s ==> 1 <= a <= Length()
      ensures Characteristic(s) == ArgSet()
    {
    }

    /** Each name is mapped to a position where it occurs, and mapping the
        value back gives the name. */
    lemma ArgumentValueRoundTrip(x: N)
      requires Valid() && x in names
      ensures ArgumentToValue(x).Some?
      ensures 1 <= ArgumentToValue(x).value <= |names|
      ensures ValueToArgument(ArgumentToValue(x).value) == x
    {
    }

    /** With distinct names the i-th name has value i + 1, and mapping a value
        to its name and back gives the value again. */
    lemma {:induction false} DistinctNamesNumbered(i: int)
      requires Valid() && Distinct(names) && 0 <= i < |names|
      ensures ArgumentToValue(names[i]) == Some(i + 1)
      ensures args[i] == i + 1
      ensures ArgumentToValue(ValueToArgument(i + 1)) == Some(i + 1)
    {
      ValueMapDistinct(names, i);
    }
  }

  /** With distinct names, the name at position `i` gets value `i + 1`. */
  lemma {:induction false} ValueMapDistinct<N(!new)>(names: seq<N>, i: int)
    requires Distinct(names) && 0 <= i < |names|
    ensures names[i] in ValueMap(names) && ValueMap(names)[names[i]] == i + 1
  {
    var init := names[..|names| - 1];
    if i < |names| - 1 {
      assert Distinct(init);
      assert init[i] == names[i];
      ValueMapDistinct(init, i);
    }
  }

  /** `nodes[i]` holds exactly the targets and the attackers of argument `i + 1`. */
  ghost predicate NodesRecord(nodes: seq<(set<int>, set<int>)>, atts: seq<(int, int)>) {
    && (forall i, y :: 0 <= i < |nodes| ==> (y in nodes[i].0 <==> (i + 1, y) in atts))
    && (forall i, y :: 0 <= i < |nodes| ==> (y in nodes[i].1 <==> (y, i + 1) in atts))
  }

  /** Adding `b` to the targets of `a` and `a` to the attackers of `b` records one more attack. */
  lemma RecordAttack(nodes: seq<(set<int>, set<int>)>, atts: seq<(int, int)>, a: int, b: int,
                     after: seq<(set<int>, set<int>)>)
    requires NodesRecord(nodes, atts)
    requires 1 <= a <= |nodes| && 1 <= b <= |nodes|
    requires after == nodes[a - 1 := (nodes[a - 1].0 + {b}, nodes[a - 1].1)]
                           [b - 1 := (nodes[a - 1 := (nodes[a - 1].0 + {b}, nodes[a - 1].1)][b - 1].0,
                                      nodes[a - 1 := (nodes[a - 1].0 + {b}, nodes[a - 1].1)][b - 1].1 + {a})]
    ensures NodesRecord(after, atts + [(a, b)])
  {
    var atts' := atts + [(a, b)];
    forall i, y | 0 <= i < |after| ensures y in after[i].0 <==> (i + 1, y) in atts' {
      assert (i + 1, y) in atts' <==> (i + 1, y) in atts || (i + 1 == a && y == b);
    }
    forall i, y | 0 <= i < |after| ensures y in after[i].1 <==> (y, i + 1) in atts' {
      assert (y, i + 1) in atts' <==> (y, i + 1) in atts || (y == a && i + 1 == b);
    }
  }

  predicate Distinct<T(==)>(s: seq<T>) {
    forall i, j :: 0 <= i < j < |s| ==> s[i] != s[j]
  }

  /** The attacks converted to values, as the constructor's list comprehension
      does; `Err(x)` names the first endpoint that is not an argument, where
      Python raises `KeyError`. */
  function AttackValues<N(==,!new)>(values: map<N, int>, attacks: seq<(N, N)>): (r: Result<seq<(int, int)>, N>)
    ensures r.Ok? <==> forall k :: 0 <= k < |attacks| ==> attacks[k].0 in values && attacks[k].1 in values
    ensures r.Ok? ==> |r.value| == |attacks|
    ensures r.Ok? ==> forall k :: 0 <= k < |attacks| ==> r.value[k] == (values[attacks[k].0], values[attacks[k].1])
    ensures r.Err? ==> r.error !in values
  {
    if attacks == [] then Ok([])
    else
      var (x, y) := attacks[0];
      if x !in values then Err(x)
      else if y !in values then Err(y)
      else match AttackValues(values, attacks[1..])
        case Err(e) => Err(e)
        case Ok(rest) => Ok([(values[x], values[y])] + rest)
  }

  /** The loop of `ListGraphFramework.__init__` that fills the node list. */
  method BuildNodeList(n: nat, atts: seq<(int, int)>) returns (nodeList: seq<(set<int>, set<int>)>)
    requires forall p :: p in atts ==> 1 <= p.0 <= n && 1 <= p.1 <= n
    ensures |nodeList| == n && NodesRecord(nodeList, atts)
  {
    nodeList := seq(n, _ => ({}, {}));
    var k := 0;
    while k < |atts|
      invariant 0 <= k <= |atts| && |nodeList| == n
      invariant NodesRecord(nodeList, atts[..k])
    {
      var (attacker, attacked) := atts[k];
      assert atts[k] in atts;
      ghost var before := nodeList;
      nodeList := nodeList[attacker - 1 := (nodeList[attacker - 1].0 + {attacked}, nodeList[attacker - 1].1)];
      nodeList := nodeList[attacked - 1 := (nodeList[attacked - 1].0, nodeList[attacked - 1].1 + {attacker})];
      RecordAttack(before, atts[..k], attacker, attacked, nodeList);
      assert atts[..k + 1] == atts[..k] + [(attacker, attacked)];
      k := k + 1;
    }
    assert atts[..k] == atts;
  }

  /** `ListGraphFramework.__init__`: numbers the arguments, converts the
      attacks and records, for every argument, whom it attacks and who
      attacks it. */
  method NewListGraphFramework<N(==,!new)>(arguments: seq<N>, attacks: seq<(N, N)>)
    returns (r: Result<ListGraphFramework<N>, N>)
    ensures r.Ok? <==> forall k :: 0 <= k < |attacks| ==> attacks[k].0 in arguments && attacks[k].1 in arguments
    ensures r.Err? ==> r.error !in arguments
    ensures r.Ok? ==> r.value.Valid() && r.value.names == arguments && r.value.Length() == |arguments|
    ensures r.Ok? ==> |r.value.atts| == |attacks|
    ensures r.Ok? ==> forall k :: 0 <= k < |attacks| ==>
      r.value.atts[k] == (r.value.values[attacks[k].0], r.value.values[attacks[k].1])
  {
    var values := ValueMap(arguments);
    var args := seq(|arguments|, i requires 0 <= i < |arguments| => values[arguments[i]]);
    var converted := AttackValues(values, attacks);
    if converted.Err? {
      return Err(converted.error);
    }
    var atts := converted.value;
    AttackValuesInRange(arguments, attacks);
    var nodeList := BuildNodeList(|arguments|, atts);
    var f := ListGraphFramework(arguments, values, args, atts, nodeList);
    BuiltValid(f);
    r := Ok(f);
  }

  /** The fields the constructor sets up make a valid framework. */
  lemma BuiltValid<N(!new)>(f: ListGraphFramework<N>)
    requires f.values == ValueMap(f.names)
    requires |f.args| == |f.names| && forall i :: 0 <= i < |f.names| ==> f.args[i] == f.values[f.names[i]]
    requires forall p :: p in f.atts ==> 1 <= p.0 <= |f.names| && 1 <= p.1 <= |f.names|
    requires |f.nodeList| == |f.names| && NodesRecord(f.nodeList, f.atts)
    ensures f.Valid()
  {
  }

  /** Converted attacks join argument values `1..|names|`. */
  lemma AttackValuesInRange<N(!new)>(names: seq<N>, attacks: seq<(N, N)>)
    requires AttackValues(ValueMap(names), attacks).Ok?
    ensures forall p :: p in AttackValues(ValueMap(names), attacks).value ==>
      1 <= p.0 <= |names| && 1 <= p.1 <= |names|
  {
    var values := ValueMap(names);
    var atts := AttackValues(values, attacks).value;
    forall p | p in atts ensures 1 <= p.0 <= |names| && 1 <= p.1 <= |names| {
      var k :| 0 <= k < |atts| && atts[k] == p;
      assert attacks[k].0 in values && attacks[k].1 in values;
    }
  }

  // Binary encoding of extensions (`extensionToInt`, `isIncluded`).

  /** `2 ** k`. */
  function Pow2(k: nat): (r: nat)
    ensures r >= 1
  {
    if k == 0 then 1 else 2 * Pow2(k - 1)
  }

  /** Argument values are at least 1, so `2 ** (arg - 1)` is an integer. */
  predicate Positive(s: set<int>) {
    forall a :: a in s ==> a >= 1
  }

  ghost predicate Below(s: set<int>, k: nat) {
    forall a :: a in s ==> 1 <= a <= k
  }

  /** Every member lowered by one, dropping 1. */
  ghost function Shift(s: set<int>): set<int> {
    set a | a in s && a > 1 :: a - 1
  }

  lemma ShiftMember(s: set<int>, a: int)
    requires a > 1
    ensures a - 1 in Shift(s) <==> a in s
  {
    if a - 1 in Shift(s) {
      var b :| b in s && b > 1 && b - 1 == a - 1;
    }
  }

  lemma ShiftBelow(s: set<int>, k: nat)
    requires Below(s, k) && k > 0
    ensures Below(Shift(s), k - 1)
  {
    forall b | b in Shift(s) ensures 1 <= b <= k - 1 {
      var a :| a in s && a > 1 && a - 1 == b;
    }
  }

  /** The number whose bit `a - 1` is set exactly for the members `a` of `s`,
      all of which lie in `1..k`. */
  ghost function Enc(s: set<int>, k: nat): nat
    requires Below(s, k)
    decreases k
  {
    if k == 0 then 0
    else
      ShiftBelow(s, k);
      (if 1 in s then 1 else 0) + 2 * Enc(Shift(s), k - 1)
  }

  lemma {:induction false} EncEmpty(k: nat)
    ensures Enc({}, k) == 0
  {
    if k > 0 {
      assert Shift({}) == {};
      EncEmpty(k - 1);
    }
  }

  /** Adding argument `x` adds `2 ** (x - 1)` to the encoding. */
  lemma {:induction false} EncAdd(s: set<int>, x: int, k: nat)
    requires Below(s + {x}, k) && x !in s
    ensures Below(s, k)
    ensures Enc(s + {x}, k) == Enc(s, k) + Pow2(x - 1)
    decreases k
  {
    var t := s + {x};
    ShiftBelow(s, k);
    ShiftBelow(t, k);
    if x == 1 {
      assert Shift(t) == Shift(s) by {
        forall b ensures b in Shift(t) <==> b in Shift(s) {
          if b >= 1 {
            ShiftMember(t, b + 1);
            ShiftMember(s, b + 1);
          } else {
            assert b !in Shift(t) && b !in Shift(s);
          }
        }
      }
    } else {
      assert Shift(t) == Shift(s) + {x - 1} by {
        forall b ensures b in Shift(t) <==> b in Shift(s) + {x - 1} {
          if b >= 1 {
            ShiftMember(t, b + 1);
            ShiftMember(s, b + 1);
          } else {
            assert b !in Shift(t) && b !in Shift(s);
          }
        }
      }
      ShiftMember(s, x);
      EncAdd(Shift(s), x - 1, k - 1);
    }
  }

  /** The encoding does not depend on the bound used to compute it. */
  lemma {:induction false} EncWiden(s: set<int>, k: nat, k': nat)
    requires Below(s, k) && k <= k'
    ensures Below(s, k') && Enc(s, k) == Enc(s, k')
    decreases k
  {
    if k == 0 {
      if s != {} {
        var a := Pick(s);
        assert false;
      }
      EncEmpty(k');
    } else {
      ShiftBelow(s, k);
      EncWiden(Shift(s), k - 1, k' - 1);
    }
  }

  lemma {:induction false} EncInjective(a: set<int>, b: set<int>, k: nat)
    requires Below(a, k) && Below(b, k)
    requires Enc(a, k) == Enc(b, k)
    ensures a == b
    decreases k
  {
    if k == 0 {
      if a != {} {
        var x := Pick(a);
        assert false;
      }
      if b != {} {
        var x := Pick(b);
        assert false;
      }
    } else {
      ShiftBelow(a, k);
      ShiftBelow(b, k);
      assert (1 in a) == (1 in b);
      EncInjective(Shift(a), Shift(b), k - 1);
      forall x ensures x in a <==> x in b {
        if x > 1 {
          ShiftMember(a, x);
          ShiftMember(b, x);
        }
      }
    }
  }

  lemma {:induction false} EncMonotone(a: set<int>, b: set<int>, k: nat)
    requires Below(b, k) && a <= b
    ensures Below(a, k) && Enc(a, k) <= Enc(b, k)
    decreases k
  {
    if k > 0 {
      ShiftBelow(a, k);
      ShiftBelow(b, k);
      forall y | y in Shift(a) ensures y in Shift(b) {
        ShiftMember(a, y + 1);
        ShiftMember(b, y + 1);
      }
      EncMonotone(Shift(a), Shift(b), k - 1);
    }
  }

  /** Python's `&` on non-negative integers. */
  function BitAnd(x: nat, y: nat): nat
    decreases x
  {
    if x == 0 || y == 0 then 0
    else 2 * BitAnd(x / 2, y / 2) + (if x % 2 == 1 && y % 2 == 1 then 1 else 0)
  }

  /** The bitwise and of two encodings encodes the intersection. */
  lemma {:induction false} EncAnd(a: set<int>, b: set<int>, k: nat)
    requires Below(a, k) && Below(b, k)
    ensures Below(a * b, k)
    ensures BitAnd(Enc(a, k), Enc(b, k)) == Enc(a * b, k)
    decreases k
  {
    EncEmpty(k);
    if Enc(a, k) == 0 || Enc(b, k) == 0 {
      if Enc(a, k) == 0 {
        EncInjective(a, {}, k);
      } else {
        EncInjective(b, {}, k);
      }
      assert a * b == {};
    } else {
      ShiftBelow(a, k);
      ShiftBelow(b, k);
      ShiftBelow(a * b, k);
      assert Shift(a * b) == Shift(a) * Shift(b) by {
        forall y ensures y in Shift(a * b) <==> y in Shift(a) * Shift(b) {
          if y >= 1 {
            ShiftMember(a * b, y + 1);
            ShiftMember(a, y + 1);
            ShiftMember(b, y + 1);
          } else {
            assert y !in Shift(a * b) && y !in Shift(a);
          }
        }
      }
      EncAnd(Shift(a), Shift(b), k - 1);
    }
  }

  /** Every finite set of argument values has a bound. */
  lemma {:induction false} BoundOf(s: set<int>) returns (k: nat)
    requires Positive(s)
    ensures Below(s, k)
    decreases |s|
  {
    if s == {} {
      k := 0;
    } else {
      var x := Pick(s);
      var k' := BoundOf(s - {x});
      k := if x < k' then k' else x;
      forall a | a in s ensures 1 <= a <= k {
        if a != x {
          assert a in s - {x};
        }
      }
    }
  }

  /** `extensionToInt`: the sum of `2 ** (arg - 1)` over the extension. The
      cache in front of it (`utils.memoize`, see `Utils.Memoized`) only
      returns results computed before, so it is not repeated here. */
  method ExtensionToInt(extension: set<int>) returns (rep: nat)
    requires Positive(extension)
    ensures forall k: nat :: Below(extension, k) ==> rep == Enc(extension, k)
  {
    rep := 0;
    var rest := extension;
    ghost var done: set<int> := {};
    forall k: nat | Below(extension, k) ensures Enc(done, k) == 0 {
      EncEmpty(k);
    }
    while rest != {}
      invariant rest <= extension && done == extension - rest
      invariant forall k: nat :: Below(extension, k) ==> rep == Enc(done, k)
      decreases |rest|
    {
      var arg := Choose(rest);
      forall k: nat | Below(extension, k) ensures rep + Pow2(arg - 1) == Enc(done + {arg}, k) {
        EncAdd(done, arg, k);
      }
      rep := rep + Pow2(arg - 1);
      rest := rest - {arg};
      done := done + {arg};
    }
    assert done == extension;
  }

  /** `isIncluded`: compares the encodings of the two extensions. */
  method IsIncluded(extension: set<int>, other: set<int>) returns (r: bool)
    requires Positive(extension) && Positive(other)
    ensures r <==> extension <= other
  {
    var extRep := ExtensionToInt(extension);
    var otherRep := ExtensionToInt(other);
    ghost var k1 := BoundOf(extension);
    ghost var k2 := BoundOf(other);
    ghost var k := if k1 < k2 then k2 else k1;
    assert Below(extension, k) && Below(other, k);
    if extRep > otherRep {
      if extension <= other {
        EncMonotone(extension, other, k);
      }
      return false;
    }
    EncAnd(other, extension, k);
    assert extension <= other ==> other * extension == extension;
    r := BitAnd(otherRep, extRep) == extRep;
    if r {
      EncInjective(other * extension, extension, k);
    }
  }

  // Maximal extensions (`getAllMaximal`).

  ghost function Elements(s: seq<set<int>>): set<set<int>> {
    set e | e in s
  }

  ghost predicate Antichain(m: set<set<int>>) {
    forall x, y :: x in m && y in m && x <= y ==> x == y
  }

  /** The members of `xs` that no other member of `xs` strictly includes. */
  function MaximalOf(xs: set<set<int>>): set<set<int>> {
    set x | x in xs && forall y :: y in xs && x <= y ==> x == y
  }

  /** An antichain drawn from `xs` that includes something above every
      member of `xs` is exactly the set of maximal members. */
  lemma AntichainCoverIsMaximal(m: set<set<int>>, xs: set<set<int>>)
    requires m <= xs && Antichain(m)
    requires forall e :: e in xs ==> exists c :: c in m && e <= c
    ensures m == MaximalOf(xs)
  {
    forall x | x in m ensures x in MaximalOf(xs) {
      forall y | y in xs && x <= y ensures x == y {
        var c :| c in m && y <= c;
        assert x == c;
      }
    }
    forall x | x in MaximalOf(xs) ensures x in m {
      var c :| c in m && x <= c;
    }
  }

  /** The inner loop of `getAllMaximal`: compares `ext` with the current
      maximal extensions, stopping at the first that includes it and
      collecting those it includes. */
  method CompareWithMaximal(ext: set<int>, current: set<set<int>>)
    returns (isMaximal: bool, nonMaximal: set<set<int>>, ghost dominator: set<int>)
    requires Positive(ext) && forall c :: c in current ==> Positive(c)
    ensures nonMaximal <= current
    ensures forall o :: o in nonMaximal ==> o <= ext
    ensures isMaximal ==> forall o :: o in current ==> !(ext <= o) && (o <= ext ==> o in nonMaximal)
    ensures !isMaximal ==> dominator in current - nonMaximal && ext <= dominator
  {
    isMaximal := true;
    nonMaximal := {};
    dominator := {};
    var rest := current;
    while rest != {}
      invariant rest <= current && nonMaximal <= current - rest
      invariant forall o :: o in nonMaximal ==> o <= ext
      invariant isMaximal
      invariant forall o :: o in current - rest ==> !(ext <= o) && (o <= ext ==> o in nonMaximal)
      decreases |rest|
    {
      var other := Choose(rest);
      rest := rest - {other};
      var included := IsIncluded(ext, other);
      if included {
        isMaximal := false;
        dominator := other;
        break;
      }
      var includes := IsIncluded(other, ext);
      if includes {
        nonMaximal := nonMaximal + {other};
      }
    }
  }

  ghost predicate Covers(m: set<set<int>>, xs: set<set<int>>) {
    forall e :: e in xs ==> exists c :: c in m && e <= c
  }

  /** One pass of the outer loop of `getAllMaximal` keeps the current
      maximal extensions an antichain that covers what has been seen. */
  lemma MaximalStep(before: set<set<int>>, seen: set<set<int>>, ext: set<int>, isMaximal: bool,
                    nonMaximal: set<set<int>>, dominator: set<int>)
    requires Antichain(before) && before <= seen && Covers(before, seen)
    requires nonMaximal <= before
    requires forall o :: o in nonMaximal ==> o <= ext
    requires isMaximal ==> forall o :: o in before ==> !(ext <= o) && (o <= ext ==> o in nonMaximal)
    requires !isMaximal ==> dominator in before - nonMaximal && ext <= dominator
    ensures var after := (before - nonMaximal) + (if isMaximal then {ext} else {});
      Antichain(after) && after <= seen + {ext} && Covers(after, seen + {ext})
  {
    var after := (before - nonMaximal) + (if isMaximal then {ext} else {});
    forall e | e in seen + {ext} ensures exists c :: c in after && e <= c {
      if e == ext {
        if isMaximal {
          assert ext in after;
        } else {
          assert dominator in after;
        }
      } else {
        var c :| c in before && e <= c;
        if c in nonMaximal {
          if isMaximal {
            assert ext in after && e <= ext;
          } else {
            assert dominator in after && e <= dominator;
          }
        } else {
          assert c in after;
        }
      }
    }
  }

  /** `getAllMaximal`: the extensions that no other listed extension strictly
      includes, whatever the order of the list. */
  method GetAllMaximal(extensions: seq<set<int>>) returns (maximal: set<set<int>>)
    requires forall i :: 0 <= i < |extensions| ==> Positive(extensions[i])
    ensures maximal == MaximalOf(Elements(extensions))
    ensures maximal <= Elements(extensions)
    ensures forall e :: e in extensions ==> exists m :: m in maximal && e <= m
  {
    maximal := {};
    ghost var seen: set<set<int>> := {};
    var i := 0;
    while i < |extensions|
      invariant 0 <= i <= |extensions|
      invariant seen == Elements(extensions[..i])
      invariant maximal <= seen && Antichain(maximal) && Covers(maximal, seen)
    {
      var ext := extensions[i];
      assert forall c :: c in maximal ==> Positive(c) by {
        forall c | c in maximal ensures Positive(c) {
          assert c in extensions[..i];
          var j :| 0 <= j < i && extensions[j] == c;
        }
      }
      var isMaximal, nonMaximal, dominator := CompareWithMaximal(ext, maximal);
      MaximalStep(maximal, seen, ext, isMaximal, nonMaximal, dominator);
      maximal := maximal - nonMaximal;
      if isMaximal {
        maximal := maximal + {ext};
      }
      assert extensions[..i + 1] == extensions[..i] + [ext];
      seen := seen + {ext};
      i := i + 1;
    }
    assert extensions[..i] == extensions;
    AntichainCoverIsMaximal(maximal, seen);
    forall e | e in extensions ensures exists m :: m in maximal && e <= m {
      assert e in seen;
    }
  }
}
