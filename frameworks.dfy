/** The attack-graph store of the argumentation package: a fixed capacity
    of arguments `0..capacity`, a 0/1 attack matrix, a mask that switches
    arguments off, and data attached to each argument. */
module Frameworks {
  import opened Wrappers
  import opened Collections
  import opened Framework
  import Tasks
  import SolvedAF

  /** A value stored with an argument by `set_data`. */
  type Datum(==)

  /** The list `0, 1, ..., n - 1` (`np.arange(n)`). */
  function Range(n: nat): (r: seq<int>)
    ensures |r| == n && forall i :: 0 <= i < n ==> r[i] == i
  {
    seq(n, i requires 0 <= i < n => i)
  }

  /** An index NumPy accepts on an axis of length `n`. */
  predicate InBounds(i: int, n: int) {
    -n <= i < n
  }

  /** NumPy indexing: an index below zero counts from the end. */
  function PyIndex(i: int, n: int): (r: nat)
    requires InBounds(i, n)
    ensures r < n && (0 <= i ==> r == i)
  {
    if i < 0 then i + n else i
  }

  /** `max(0, min(v, 1))` on integers. */
  function Clamp(v: int): (r: int)
    ensures 0 <= r <= 1
    ensures v <= 0 ==> r == 0
    ensures v >= 1 ==> r == 1
  {
    if v < 0 then 0 else if v > 1 then 1 else v
  }

  /** `min(max(v, 0), 1)` on reals. */
  function ClampReal(v: real): (r: real)
    ensures 0.0 <= r <= 1.0
    ensures 0.0 <= v <= 1.0 ==> r == v
    ensures r == 0.0 <==> v <= 0.0
  {
    if v < 0.0 then 0.0 else if v > 1.0 then 1.0 else v
  }

  /** The sum of the first `k` entries. */
  function SumBelow(m: seq<real>, k: nat): real
    requires k <= |m|
  {
    if k == 0 then 0.0 else SumBelow(m, k - 1) + m[k - 1]
  }

  /** The positions of the nonzero entries below `k`, ascending
      (`np.nonzero`). */
  function NonzeroBelow(m: seq<real>, k: nat): (r: seq<int>)
    requires k <= |m|
    ensures forall x :: x in r <==> 0 <= x < k && m[x] != 0.0
    ensures forall i :: 0 <= i < |r| ==> 0 <= r[i] < k
    ensures StrictlyAscending(r)
  {
    if k == 0 then []
    else
      var r := NonzeroBelow(m, k - 1);
      if m[k - 1] != 0.0 then r + [k - 1] else r
  }

  ghost predicate UnitEntries(m: seq<real>) {
    forall i :: 0 <= i < |m| ==> 0.0 <= m[i] <= 1.0
  }

  ghost predicate ZeroOneEntries(m: seq<real>) {
    forall i :: 0 <= i < |m| ==> m[i] == 0.0 || m[i] == 1.0
  }

  /** Entries in `[0, 1]` sum to at most the number of nonzero ones. */
  lemma {:induction false} SumBelowBound(m: seq<real>, k: nat)
    requires k <= |m| && UnitEntries(m)
    ensures 0.0 <= SumBelow(m, k) <= |NonzeroBelow(m, k)| as real
  {
    if k > 0 {
      SumBelowBound(m, k - 1);
    }
  }

  /** Entries 0 or 1 sum to the number of ones. */
  lemma {:induction false} SumBelowCount(m: seq<real>, k: nat)
    requires k <= |m| && ZeroOneEntries(m)
    ensures SumBelow(m, k) == |NonzeroBelow(m, k)| as real
  {
    if k > 0 {
      SumBelowCount(m, k - 1);
    }
  }

  /** In a strictly ascending list of naturals each entry is at least its
      position. */
  lemma {:induction false} AtLeastPosition(u: seq<int>, i: nat)
    requires StrictlyAscending(u) && i < |u|
    requires forall k :: 0 <= k < |u| ==> 0 <= u[k]
    ensures u[i] >= i
  {
    if i > 0 {
      AtLeastPosition(u, i - 1);
    }
  }

  /** `c` distinct ascending naturals below `c` are exactly `0..c`. */
  lemma {:induction false} AscendingBelowIsRange(u: seq<int>)
    requires StrictlyAscending(u)
    requires forall k :: 0 <= k < |u| ==> 0 <= u[k] < |u|
    ensures u == Range(|u|)
  {
    if u != [] {
      var c := |u| - 1;
      AtLeastPosition(u, c);
      var v := u[..c];
      assert forall k :: 0 <= k < |v| ==> 0 <= v[k] < |v| by {
        forall k | 0 <= k < |v| ensures v[k] < |v| {
          assert u[k] < u[c];
        }
      }
      AscendingBelowIsRange(v);
      assert u == v + [c];
    }
  }

  /** If every entry below `k` is nonzero, the nonzero positions are `0..k`. */
  lemma {:induction false} AllNonzero(m: seq<real>, k: nat)
    requires k <= |m|
    requires forall y :: 0 <= y < k ==> m[y] != 0.0
    ensures NonzeroBelow(m, k) == Range(k)
  {
    if k > 0 {
      AllNonzero(m, k - 1);
      assert Range(k) == Range(k - 1) + [k - 1];
    }
  }

  /** The nonzero entries of a mask come first. */
  ghost predicate PrefixMask(m: seq<real>) {
    forall i, j :: 0 <= i < j < |m| && m[j] != 0.0 ==> m[i] != 0.0
  }

  /** In a prefix mask the nonzero positions below `k` are `0..t`. */
  lemma {:induction false} PrefixNonzero(m: seq<real>, k: nat) returns (t: nat)
    requires k <= |m| && PrefixMask(m)
    ensures t <= k && NonzeroBelow(m, k) == Range(t)
  {
    if k == 0 {
      t := 0;
    } else if m[k - 1] != 0.0 {
      forall y | 0 <= y < k - 1
        ensures m[y] != 0.0
      {
        assert y < k - 1 && m[k - 1] != 0.0;
      }
      AllNonzero(m, k);
      t := k;
    } else {
      t := PrefixNonzero(m, k - 1);
    }
  }

  /** The nonzero cells `(i, j)` of row `i` with `j < k`. */
  function RowCells(row: seq<int>, i: int, k: nat): seq<(int, int)>
    requires k <= |row|
  {
    if k == 0 then []
    else RowCells(row, i, k - 1) + (if row[k - 1] != 0 then [(i, k - 1)] else [])
  }

  lemma {:induction false} RowCellsMembers(row: seq<int>, i: int, k: nat)
    requires k <= |row|
    ensures forall p :: p in RowCells(row, i, k) <==> p.0 == i && 0 <= p.1 < k && row[p.1] != 0
  {
    if k > 0 {
      RowCellsMembers(row, i, k - 1);
    }
  }

  /** `np.argwhere`: the nonzero cells of the first `k` rows, row by row. */
  function MatrixCells(m: seq<seq<int>>, k: nat): seq<(int, int)>
    requires k <= |m|
  {
    if k == 0 then []
    else MatrixCells(m, k - 1) + RowCells(m[k - 1], k - 1, |m[k - 1]|)
  }

  lemma {:induction false} MatrixCellsMembers(m: seq<seq<int>>, k: nat)
    requires k <= |m|
    ensures forall p :: p in MatrixCells(m, k) <==> 0 <= p.0 < k && 0 <= p.1 < |m[p.0]| && m[p.0][p.1] != 0
  {
    if k > 0 {
      MatrixCellsMembers(m, k - 1);
      RowCellsMembers(m[k - 1], k - 1, |m[k - 1]|);
    }
  }

  /** A row with a nonzero cell makes the whole list nonempty. */
  lemma NoAttacksFirst(m: seq<seq<int>>, i: nat)
    requires i < |m| && RowCells(m[i], i, |m[i]|) != []
    ensures MatrixCells(m, |m|) != []
  {
    var p := RowCells(m[i], i, |m[i]|)[0];
    RowCellsMembers(m[i], i, |m[i]|);
    MatrixCellsMembers(m, |m|);
    assert p in MatrixCells(m, |m|);
  }

  /** Both endpoints of `p` are listed. */
  predicate Joins(p: (int, int), args: seq<int>) {
    p.0 in args && p.1 in args
  }

  /** The cells whose two endpoints are both listed, in order. */
  function Between(cells: seq<(int, int)>, args: seq<int>): seq<(int, int)>
  {
    if cells == [] then []
    else
      var last := cells[|cells| - 1];
      Between(cells[..|cells| - 1], args) + (if Joins(last, args) then [last] else [])
  }

  lemma {:induction false} BetweenMembers(cells: seq<(int, int)>, args: seq<int>)
    ensures forall p :: p in Between(cells, args) <==> p in cells && Joins(p, args)
  {
    if cells != [] {
      var last := cells[|cells| - 1];
      assert cells == cells[..|cells| - 1] + [last];
      BetweenMembers(cells[..|cells| - 1], args);
    }
  }

  lemma {:induction false} BetweenAppend(a: seq<(int, int)>, b: seq<(int, int)>, args: seq<int>)
    ensures Between(a + b, args) == Between(a, args) + Between(b, args)
    decreases |b|
  {
    if b != [] {
      var c := b[..|b| - 1];
      var p := b[|b| - 1];
      assert b == c + [p];
      assert a + b == (a + c) + [p];
      BetweenSnoc(a + c, p, args);
      BetweenSnoc(c, p, args);
      BetweenAppend(a, c, args);
    } else {
      assert a + b == a;
    }
  }

  lemma BetweenSnoc(cells: seq<(int, int)>, p: (int, int), args: seq<int>)
    ensures Between(cells + [p], args) == Between(cells, args) + (if Joins(p, args) then [p] else [])
  {
    assert (cells + [p])[..|cells|] == cells;
  }

  /** `attacks_relation` on an attack matrix and the value of `arguments`:
      the first nonzero cell evaluates `arguments`, so a matrix without
      attacks gives the empty list even where `arguments` raises. */
  function Relation(m: seq<seq<int>>, args: Option<seq<int>>): Option<seq<(int, int)>> {
    var cells := MatrixCells(m, |m|);
    if cells == [] then Some([])
    else if args.None? then None
    else Some(Between(cells, args.value))
  }

  /** A full scan that never met an attack without `arguments` yields the relation. */
  lemma RelationOfScan(m: seq<seq<int>>, args: Option<seq<int>>, atks: seq<(int, int)>)
    requires args.None? ==> MatrixCells(m, |m|) == []
    requires atks == Between(MatrixCells(m, |m|), Listed(args))
    ensures Relation(m, args) == Some(atks)
  {
  }

  /** Every pair of the relation joins two listed arguments. */
  lemma RelationEndpoints(m: seq<seq<int>>, args: seq<int>)
    ensures var v := Relation(m, Some(args)).value;
            forall k :: 0 <= k < |v| ==> v[k].0 in args && v[k].1 in args
  {
    var cells := MatrixCells(m, |m|);
    BetweenMembers(cells, args);
    var v := Relation(m, Some(args)).value;
    forall k | 0 <= k < |v|
      ensures v[k].0 in args && v[k].1 in args
    {
      assert v[k] in Between(cells, args);
    }
  }

  /** `0..n` holds exactly the integers from 0 to `n - 1`. */
  lemma RangeMembers(n: nat)
    ensures forall x :: x in Range(n) <==> 0 <= x < n
  {
    forall x | 0 <= x < n
      ensures x in Range(n)
    {
      assert Range(n)[x] == x;
    }
  }

  /** `0..n` has no repetition. */
  lemma RangeDistinct(n: nat)
    ensures Distinct(Range(n))
  {
  }

  /** The listed arguments, none where `arguments` raises. */
  function Listed(args: Option<seq<int>>): seq<int> {
    if args.Some? then args.value else []
  }

  /** `str(sorted(x))` of every extension: two extensions get the same key
      exactly when they hold the same arguments. */
  function ExtensionKeys(exts: seq<seq<int>>): set<seq<int>> {
    set x | x in exts :: SortSeq(x)
  }

  /** Equal keys, equal arguments (with repetitions). */
  lemma SameKey(x: seq<int>, y: seq<int>)
    ensures SortSeq(x) == SortSeq(y) <==> multiset(x) == multiset(y)
  {
    if multiset(x) == multiset(y) {
      SortSeqCanonical(x, y);
    }
  }

  /** Every extension of `a` holds the same arguments as one of `b`. */
  ghost predicate Matched(a: seq<seq<int>>, b: seq<seq<int>>) {
    forall x :: x in a ==> exists y :: y in b && multiset(x) == multiset(y)
  }

  /** Comparing the keys compares the extensions as sets of argument
      lists, up to order within each extension. */
  lemma ExtensionKeysMatch(a: seq<seq<int>>, b: seq<seq<int>>)
    ensures ExtensionKeys(a) <= ExtensionKeys(b) <==> Matched(a, b)
  {
    if ExtensionKeys(a) <= ExtensionKeys(b) {
      forall x | x in a
        ensures exists y :: y in b && multiset(x) == multiset(y)
      {
        assert SortSeq(x) in ExtensionKeys(b);
        var y :| y in b && SortSeq(y) == SortSeq(x);
        SameKey(x, y);
      }
    }
    if Matched(a, b) {
      forall k | k in ExtensionKeys(a)
        ensures k in ExtensionKeys(b)
      {
        var x :| x in a && SortSeq(x) == k;
        var y :| y in b && multiset(x) == multiset(y);
        SameKey(x, y);
      }
    }
  }

  /** `criteria.startswith(p)`. */
  predicate StartsWith(s: string, p: string) {
    |p| <= |s| && s[..|p|] == p
  }

  /** The decision `equivalent_to` takes for one side: an argument masked
      there is not accepted. */
  function SideDecision(args: seq<int>, decide: int -> bool, a: int): bool {
    a in args && decide(a)
  }

  /** The decision `solve_decision` takes on argument `a` of a framework
      whose arguments are `0..k`, given the solver's outcome for each
      argument value: accepted only when the run finished with `True`. */
  function Accepts(decide: int -> SolvedAF.Outcome<bool>): int -> bool {
    a => decide(a + 1) == SolvedAF.Finished(true)
  }

  /** The two sides take the same decision on every argument below `n`. */
  predicate AgreeBelow(s: seq<int>, o: seq<int>, n: int, selfDecide: int -> bool, otherDecide: int -> bool) {
    forall a :: 0 <= a < n ==> SideDecision(s, selfDecide, a) == SideDecision(o, otherDecide, a)
  }

  /** Agreeing below `n` is agreeing below any smaller `m`. */
  lemma AgreeBelowPrefix(s: seq<int>, o: seq<int>, m: int, n: int, selfDecide: int -> bool, otherDecide: int -> bool)
    requires m <= n
    ensures AgreeBelow(s, o, n, selfDecide, otherDecide) ==> AgreeBelow(s, o, m, selfDecide, otherDecide)
  {
  }

  /** Agreeing below `n + 1` is agreeing below `n` and on `n`. */
  lemma AgreeBelowStep(s: seq<int>, o: seq<int>, n: int, selfDecide: int -> bool, otherDecide: int -> bool)
    requires n >= 0
    ensures AgreeBelow(s, o, n + 1, selfDecide, otherDecide) <==>
              AgreeBelow(s, o, n, selfDecide, otherDecide) && SideDecision(s, selfDecide, n) == SideDecision(o, otherDecide, n)
  {
  }

  /** What the decision branch of `equivalent_to` returns. */
  function Agreement(s: Option<seq<int>>, o: Option<seq<int>>, n: int, selfDecide: int -> bool, otherDecide: int -> bool): Option<bool> {
    if n <= 0 then Some(true)
    else if s.None? || o.None? then None
    else Some(AgreeBelow(s.value, o.value, n, selfDecide, otherDecide))
  }

  /** The mask cases of the decision branch never apply: where `arguments`
      is defined on both sides it is `0..num_arguments` on both, so the
      branch compares the two decisions on every argument. */
  lemma AgreementOnPrefix(n: int, selfDecide: int -> bool, otherDecide: int -> bool)
    requires n > 0
    ensures Agreement(Some(Range(n)), Some(Range(n)), n, selfDecide, otherDecide) ==
            Some(forall a :: 0 <= a < n ==> selfDecide(a) == otherDecide(a))
  {
    var r := Range(n);
    forall a | 0 <= a < n
      ensures SideDecision(r, selfDecide, a) == selfDecide(a)
      ensures SideDecision(r, otherDecide, a) == otherDecide(a)
    {
      assert r[a] == a;
    }
  }

  /** The loop of `attacks_relation` over the nonzero cells of `m`. */
  method ScanMatrix(m: seq<seq<int>>, args: Option<seq<int>>) returns (r: Option<seq<(int, int)>>)
    ensures r == Relation(m, args)
  {
    ghost var listed := Listed(args);
    var atks: seq<(int, int)> := [];
    var i := 0;
    while i < |m|
      invariant 0 <= i <= |m|
      invariant args.None? ==> MatrixCells(m, i) == []
      invariant atks == Between(MatrixCells(m, i), listed)
    {
      var scanned := ScanRow(m[i], i, args);
      if scanned.None? {
        NoAttacksFirst(m, i);
        return None;
      }
      MatrixStep(m, i, listed);
      atks := atks + scanned.value;
      i := i + 1;
    }
    RelationOfScan(m, args, atks);
    return Some(atks);
  }

  /** One more row of the matrix scan. */
  lemma MatrixStep(m: seq<seq<int>>, i: nat, listed: seq<int>)
    requires i < |m|
    ensures MatrixCells(m, i + 1) == MatrixCells(m, i) + RowCells(m[i], i, |m[i]|)
    ensures Between(MatrixCells(m, i + 1), listed) ==
            Between(MatrixCells(m, i), listed) + Between(RowCells(m[i], i, |m[i]|), listed)
  {
    BetweenAppend(MatrixCells(m, i), RowCells(m[i], i, |m[i]|), listed);
  }

  /** The inner loop of `attacks_relation` over row `i`: the pairs it adds. */
  method ScanRow(row: seq<int>, i: int, args: Option<seq<int>>) returns (r: Option<seq<(int, int)>>)
    ensures var cells := RowCells(row, i, |row|);
            r == if args.None? && cells != [] then None else Some(Between(cells, Listed(args)))
  {
    ghost var listed := Listed(args);
    var acc := [];
    var j := 0;
    while j < |row|
      invariant 0 <= j <= |row|
      invariant args.None? ==> RowCells(row, i, j) == []
      invariant acc == Between(RowCells(row, i, j), listed)
    {
      RowStep(row, i, j, listed);
      if row[j] != 0 {
        if args.None? {
          RowCellsHit(row, i, j);
          return None;
        }
        if Joins((i, j), args.value) {
          acc := acc + [(i, j)];
        }
      }
      j := j + 1;
    }
    return Some(acc);
  }

  /** One more cell of the row scan. */
  lemma RowStep(row: seq<int>, i: int, j: nat, listed: seq<int>)
    requires j < |row|
    ensures RowCells(row, i, j + 1) == RowCells(row, i, j) + (if row[j] != 0 then [(i, j)] else [])
    ensures Between(RowCells(row, i, j + 1), listed) ==
            Between(RowCells(row, i, j), listed) + (if row[j] != 0 && Joins((i, j), listed) then [(i, j)] else [])
  {
    if row[j] != 0 {
      BetweenSnoc(RowCells(row, i, j), (i, j), listed);
    } else {
      assert RowCells(row, i, j + 1) == RowCells(row, i, j);
    }
  }

  /** A nonzero cell puts the row among the attacks. */
  lemma RowCellsHit(row: seq<int>, i: int, j: nat)
    requires j < |row| && row[j] != 0
    ensures RowCells(row, i, |row|) != []
  {
    RowCellsMembers(row, i, |row|);
    assert (i, j) in RowCells(row, i, |row|);
  }

  /** Why an operation of the framework raises instead of answering: the
      `arguments` indexing fails, or the solver adapter exits or raises. */
  datatype Failure = MaskIndexError | Adapter(error: SolvedAF.AdapterError)

  /** The list `solve_extensions` returns for the adapter's result: one
      extension is wrapped in a list, and no extension at all reads as the
      single empty extension. */
  function NormalizeExtensions(enum: SolvedAF.Found<int>): (r: seq<seq<int>>)
    ensures r != []
    ensures forall e :: e in r ==> e == [] || (enum.Names? && e == enum.names) || (enum.NameLists? && e in enum.lists)
    ensures enum.NameLists? ==> forall e :: e in enum.lists ==> e in r
  {
    match enum
    case Names(ns) => [ns]
    case NameLists(ls) => if ls == [] then [[]] else ls
  }

  /** A timed-out solver run and a run that finds no extension, or only the
      empty one, all give `[[]]`. */
  lemma NormalizeTimedOut(f: ListGraphFramework<int>, taskType: string)
    requires taskType == "SE" || taskType == "EE"
    ensures NormalizeExtensions(SolvedAF.ParseSolution(f, taskType, SolvedAF.TimedOut)) == [[]]
    ensures NormalizeExtensions(SolvedAF.NameLists([])) == [[]]
    ensures NormalizeExtensions(SolvedAF.NameLists([[]])) == [[]]
    ensures NormalizeExtensions(SolvedAF.Names([])) == [[]]
  {
    assert SolvedAF.ParseSolution(f, taskType, SolvedAF.TimedOut) == SolvedAF.Default(taskType);
  }

  /** The rest of `solve_extensions` once the solver's framework is built:
      the adapter's answer, normalised. */
  function Extensions(af: ListGraphFramework<int>, taskName: string, run: SolvedAF.Outcome<Tasks.Answer>): (r: Result<seq<seq<int>>, Failure>)
    requires SolvedAF.IsValidTask(taskName)
    ensures r.Err? <==> !SolvedAF.IsEnumerationCode(taskName)
    ensures r.Err? ==> r.error.Adapter? && r.error.error.Exit? && r.error.error.error.exitCode == 1
    ensures r.Ok? ==> r.value != []
    ensures r.Ok? && run.TimedOut? ==> r.value == [[]]
    ensures r.Ok? && SolvedAF.TaskType(taskName) == "SE" ==> |r.value| == 1
  {
    match SolvedAF.FindExtensions(af, taskName, run)
    case Err(e) => Err(Adapter(SolvedAF.Exit(e)))
    case Ok(found) =>
      if run.TimedOut? then
        NormalizeTimedOut(af, SolvedAF.TaskType(taskName));
        Ok(NormalizeExtensions(found))
      else
        Ok(NormalizeExtensions(found))
  }

  /** The argument among `0..k` that the solver's value `v` names: value
      `v` is argument `v - 1`, and a value of 0 or below counts from the
      end, as a negative Python index does. */
  function ArgumentOfValue(k: int, v: int): int {
    if v >= 1 then v - 1 else k + v - 1
  }

  /** Every value of `s` names one of the arguments `0..k`. */
  predicate NamesArgument(k: int, s: set<int>) {
    forall v :: v in s ==> -k < v <= k
  }

  /** The arguments that the values `vs` name, position by position. */
  function Shift(k: int, vs: seq<int>): (r: seq<int>)
    ensures |r| == |vs| && forall i :: 0 <= i < |vs| ==> r[i] == ArgumentOfValue(k, vs[i])
  {
    seq(|vs|, i requires 0 <= i < |vs| => ArgumentOfValue(k, vs[i]))
  }

  /** The arguments that the values of `s` name, in ascending order of
      value. */
  function ArgumentsOfValues(k: int, s: set<int>): (r: seq<int>)
    requires NamesArgument(k, s)
    ensures |r| == |s|
    ensures forall i :: 0 <= i < |r| ==> 0 <= r[i] < k
  {
    Shift(k, Sorted(s))
  }

  /** Where every value is positive, the arguments named are exactly one
      below the values, each once, in ascending order. */
  lemma ArgumentsOfPositiveValues(k: int, s: set<int>)
    requires forall v :: v in s ==> 1 <= v <= k
    ensures NamesArgument(k, s)
    ensures forall x :: x in ArgumentsOfValues(k, s) <==> x + 1 in s
    ensures StrictlyAscending(ArgumentsOfValues(k, s))
  {
    var vs := Sorted(s);
    var r := ArgumentsOfValues(k, s);
    assert forall i :: 0 <= i < |r| ==> r[i] == vs[i] - 1;
    forall x | x + 1 in s
      ensures x in r
    {
      var i :| 0 <= i < |vs| && vs[i] == x + 1;
      assert r[i] == x;
    }
  }

  /** The extensions `solve_extensions` reports over the arguments `0..k`,
      read off the solver's answer: the arguments each found extension
      names, and `[[]]` where the run timed out, found nothing, answered
      for the other kind of task or named a value outside `-k+1..k`. */
  function Reported(k: int, taskType: string, run: SolvedAF.Outcome<Tasks.Answer>): (r: seq<seq<int>>)
    ensures r != []
  {
    match run
    case Finished(Single(Some(s))) =>
      if taskType == "SE" && NamesArgument(k, s) then [ArgumentsOfValues(k, s)] else [[]]
    case Finished(Full(exts)) =>
      if taskType == "EE" && exts != [] && forall j :: 0 <= j < |exts| ==> NamesArgument(k, exts[j]) then
        seq(|exts|, j requires 0 <= j < |exts| => ArgumentsOfValues(k, exts[j]))
      else [[]]
    case _ => [[]]
  }

  /** On a framework whose names are `0..k`, `valuesToArguments` is
      `Shift`. */
  lemma TranslateShift(af: ListGraphFramework<int>, vs: seq<int>)
    requires af.names == Range(|af.names|) && SolvedAF.Translatable(af, vs)
    ensures SolvedAF.Translate(af, vs) == Some(Shift(|af.names|, vs))
  {
    var t := SolvedAF.Translate(af, vs).value;
    forall i | 0 <= i < |vs|
      ensures t[i] == ArgumentOfValue(|af.names|, vs[i])
    {
      SolvedAF.TranslateAt(af, vs, i);
    }
    assert t == Shift(|af.names|, vs);
  }

  /** The ascending values of `s` can be translated exactly when each of
      them names an argument. */
  lemma TranslatableSorted(af: ListGraphFramework<int>, s: set<int>)
    ensures SolvedAF.Translatable(af, Sorted(s)) <==> NamesArgument(|af.names|, s)
  {
    var vs := Sorted(s);
    if !NamesArgument(|af.names|, s) {
      var v :| v in s && !(-|af.names| < v <= |af.names|);
      assert v in vs;
    }
  }

  /** On a framework whose names are `0..k`, translating an extension
      gives `ArgumentsOfValues`, and fails where a value names nothing. */
  lemma TranslateOnRange(af: ListGraphFramework<int>, s: set<int>)
    requires af.names == Range(|af.names|)
    ensures SolvedAF.Translate(af, Sorted(s)).Some? <==> NamesArgument(|af.names|, s)
    ensures NamesArgument(|af.names|, s) ==>
              SolvedAF.Translate(af, Sorted(s)) == Some(ArgumentsOfValues(|af.names|, s))
  {
    TranslatableSorted(af, s);
    if NamesArgument(|af.names|, s) {
      TranslateShift(af, Sorted(s));
    }
  }

  /** The `EE` answer translated on a framework whose names are `0..k`. */
  lemma TranslateAllOnRange(af: ListGraphFramework<int>, exts: seq<set<int>>)
    requires af.names == Range(|af.names|)
    ensures SolvedAF.TranslateAll(af, exts).Some? <==> forall j :: 0 <= j < |exts| ==> NamesArgument(|af.names|, exts[j])
    ensures SolvedAF.TranslateAll(af, exts).Some? ==>
              SolvedAF.TranslateAll(af, exts).value ==
              seq(|exts|, j requires 0 <= j < |exts| && NamesArgument(|af.names|, exts[j]) => ArgumentsOfValues(|af.names|, exts[j]))
  {
    forall j | 0 <= j < |exts|
      ensures SolvedAF.Translate(af, Sorted(exts[j])).Some? <==> NamesArgument(|af.names|, exts[j])
      ensures NamesArgument(|af.names|, exts[j]) ==>
                SolvedAF.Translate(af, Sorted(exts[j])) == Some(ArgumentsOfValues(|af.names|, exts[j]))
    {
      TranslateOnRange(af, exts[j]);
    }
  }

  /** The adapter's answer over `0..k`, normalised, is what `Reported`
      reads off the solver's answer. */
  lemma ParsedOnRange(af: ListGraphFramework<int>, taskType: string, run: SolvedAF.Outcome<Tasks.Answer>)
    requires af.names == Range(|af.names|)
    requires taskType == "SE" || taskType == "EE"
    ensures NormalizeExtensions(SolvedAF.ParseSolution(af, taskType, run)) == Reported(|af.names|, taskType, run)
  {
    match run
    case Finished(Single(Some(s))) =>
      TranslateOnRange(af, s);
    case Finished(Full(exts)) =>
      TranslateAllOnRange(af, exts);
    case _ =>
  }

  /** On the solver's framework over `0..k`, `Extensions` reports exactly
      what `Reported` reads off the answer. */
  lemma ExtensionsReported(af: ListGraphFramework<int>, taskName: string, run: SolvedAF.Outcome<Tasks.Answer>)
    requires af.names == Range(|af.names|) && SolvedAF.IsValidTask(taskName)
    ensures Extensions(af, taskName, run).Ok? ==>
              Extensions(af, taskName, run).value == Reported(|af.names|, SolvedAF.TaskType(taskName), run)
  {
    var tt := SolvedAF.TaskType(taskName);
    if SolvedAF.IsEnumerationCode(taskName) {
      CriteriaKinds(taskName);
      assert tt == "SE" || tt == "EE";
      ParsedOnRange(af, tt, run);
    }
  }

  /** A valid code starts with `SE` or `EE` exactly when it is an
      enumeration code, and otherwise with `DC` or `DS`. */
  lemma CriteriaKinds(criteria: string)
    requires SolvedAF.IsValidTask(criteria)
    ensures StartsWith(criteria, "SE") || StartsWith(criteria, "EE") <==> SolvedAF.IsEnumerationCode(criteria)
    ensures !SolvedAF.IsEnumerationCode(criteria) ==> StartsWith(criteria, "DC") || StartsWith(criteria, "DS")
  {
    var codes := SolvedAF.ValidTasks;
    var j :| 0 <= j < |codes| && codes[j] == criteria;
    if j < 7 {
      assert codes[..7][j] == criteria;
      assert criteria[..2] == "SE" || criteria[..2] == "EE";
    } else {
      assert criteria[..2] == "DC" || criteria[..2] == "DS";
      assert !(criteria in codes[..7]);
    }
  }

  /** The rest of `solve_decision` once the solver's framework is built
      over the arguments `0..k`: argument `a` has value `a + 1`. */
  function Decision(g: ListGraphFramework<int>, argument: int, taskName: string, run: int -> SolvedAF.Outcome<bool>): (r: Result<bool, Failure>)
    requires g.Valid() && g.names == Range(|g.names|) && SolvedAF.IsValidTask(taskName)
    ensures r.Err? <==> SolvedAF.IsEnumerationCode(taskName) || !(0 <= argument < |g.names|)
    ensures r.Ok? ==> (r.value <==> run(argument + 1) == SolvedAF.Finished(true))
  {
    var decided := SolvedAF.FindAcceptance(g, argument, taskName, run);
    RangeMembers(|g.names|);
    if decided.Err? then Err(Adapter(decided.error))
    else
      RangeDistinct(|g.names|);
      SolvedAF.AcceptanceOfName(g, argument, taskName, run);
      Ok(decided.value)
  }

  /** `ArgumentationFramework`. */
  /** `ListGraphFramework(arguments, attacks)` on the attack relation of
      the matrix `m`, which never names a masked argument. */
  method BuildGraph(m: seq<seq<int>>, arguments: seq<int>, relation: seq<(int, int)>) returns (g: ListGraphFramework<int>)
    requires Relation(m, Some(arguments)) == Some(relation)
    ensures g.Valid() && g.names == arguments && |g.atts| == |relation|
  {
    RelationEndpoints(m, arguments);
    var built := NewListGraphFramework(arguments, relation);
    if built.Err? {
      assert false;
    }
    return built.value;
  }

  class ArgumentationFramework {
    /** `_attacks`: cell `[i, j]` is 1 when `i` attacks `j`. */
    var attacks: array2<int>
    /** `_arguments_mask`: 0 switches an argument off. */
    var mask: array<real>
    /** Whether the mask setter has replaced the mask by a boolean array. */
    var boolMask: bool
    /** `_data`: the keyword data of each argument. */
    var data: map<int, map<string, Datum>>

    ghost predicate Valid()
      reads this, attacks, mask
    {
      && attacks.Length0 == mask.Length && attacks.Length1 == mask.Length
      && (forall i, j :: 0 <= i < attacks.Length0 && 0 <= j < attacks.Length1 ==> 0 <= attacks[i, j] <= 1)
      && UnitEntries(mask[..])
      && (boolMask ==> ZeroOneEntries(mask[..]))
    }

    /** `num_max_arguments`. */
    function Capacity(): (r: int)
      reads this
      ensures r >= 0
    {
      mask.Length
    }

    /** `num_arguments`: the integer part of the sum of the mask. */
    function NumArguments(): int
      reads this, mask
    {
      SumBelow(mask[..], mask.Length).Floor
    }

    /** `all_arguments`: `0..num_arguments`, whatever the mask. */
    function AllArguments(): seq<int>
      reads this, mask
    {
      if NumArguments() < 0 then [] else Range(NumArguments())
    }

    /** `arguments`: `np.arange(num_arguments)` indexed by the positions of
        the nonzero mask entries; `None` where that indexing raises. */
    function Arguments(): (r: Option<seq<int>>)
      reads this, mask
      ensures r.Some? ==> r.value == NonzeroBelow(mask[..], mask.Length)
    {
      var positions := NonzeroBelow(mask[..], mask.Length);
      if forall i :: 0 <= i < |positions| ==> positions[i] < NumArguments() then Some(positions)
      else None
    }

    /** `attacks_matrix`: a copy of the attack matrix. */
    function AttacksMatrix(): (r: seq<seq<int>>)
      reads this, attacks
      ensures |r| == attacks.Length0
      ensures forall i :: 0 <= i < |r| ==> r[i] == Row(i)
    {
      seq(attacks.Length0, i requires 0 <= i < attacks.Length0 reads this, attacks => Row(i))
    }

    /** Row `i` of the attack matrix. */
    function Row(i: int): (r: seq<int>)
      reads this, attacks
      requires 0 <= i < attacks.Length0
      ensures |r| == attacks.Length1 && forall j :: 0 <= j < attacks.Length1 ==> r[j] == attacks[i, j]
    {
      var a := attacks;
      seq(a.Length1, j requires 0 <= j < a.Length1 reads a => a[i, j])
    }

    /** The pairs `attacks_relation` yields, `None` where it raises. */
    function AttackPairs(): Option<seq<(int, int)>>
      reads this, attacks, mask
    {
      Relation(AttacksMatrix(), Arguments())
    }

    /** `attacks_relation`: the attacks between unmasked arguments, in the
        order `np.argwhere` lists the nonzero cells; `None` where
        evaluating `arguments` raises. */
    method AttacksRelation() returns (r: Option<seq<(int, int)>>)
      requires Valid()
      ensures r == AttackPairs()
    {
      var args := Arguments();
      var m := AttacksMatrix();
      r := ScanMatrix(m, args);
    }

    /** The relation holds exactly the attacks among `0..num_arguments`. */
    lemma RelationMembers()
      requires Valid() && AttackPairs().Some?
      ensures forall p :: p in AttackPairs().value <==>
                0 <= p.0 < NumArguments() && 0 <= p.1 < NumArguments() &&
                p.0 < Capacity() && p.1 < Capacity() && attacks[p.0, p.1] != 0
    {
      var m := AttacksMatrix();
      var cells := MatrixCells(m, |m|);
      MatrixCellsMembers(m, |m|);
      if cells != [] {
        ArgumentsArePrefix();
        var a := Arguments().value;
        BetweenMembers(cells, a);
        forall x ensures x in a <==> 0 <= x < NumArguments() {
          if 0 <= x < NumArguments() {
            assert a[x] == x;
          }
        }
      }
    }

    /** `to_solved_af`: the solver's framework over the unmasked arguments
        and the attacks among them; `None` where `arguments` raises. */
    method ToSolvedAF() returns (r: Option<ListGraphFramework<int>>)
      requires Valid()
      ensures r.Some? <==> Arguments().Some?
      ensures r.Some? ==> r.value.Valid() && r.value.names == Arguments().value
      ensures r.Some? ==> |r.value.atts| == |AttackPairs().value|
    {
      var arguments := Arguments();
      if arguments.None? {
        return None;
      }
      var relation := AttacksRelation();
      PairsDefined();
      var built := BuildGraph(AttacksMatrix(), arguments.value, relation.value);
      return Some(built);
    }

    /** Where `arguments` is defined, so is `attacks_relation`. */
    lemma PairsDefined()
      requires Arguments().Some?
      ensures AttackPairs().Some?
    {
    }

    /** `solve_extensions`: the extensions of `taskName`, given the
        outcome `run` of the solver on this framework. */
    method SolveExtensions(taskName: string, run: SolvedAF.Outcome<Tasks.Answer>) returns (r: Result<seq<seq<int>>, Failure>)
      requires Valid() && SolvedAF.IsValidTask(taskName)
      ensures r.Err? <==> Arguments().None? || !SolvedAF.IsEnumerationCode(taskName)
      ensures Arguments().None? ==> r == Err(MaskIndexError)
      ensures r.Ok? ==> r.value != []
      ensures r.Ok? && run.TimedOut? ==> r.value == [[]]
      ensures r.Ok? ==> r.value == Reported(NumArguments(), SolvedAF.TaskType(taskName), run)
    {
      var af := ToSolvedAF();
      if af.None? {
        return Err(MaskIndexError);
      }
      ArgumentsArePrefix();
      ExtensionsReported(af.value, taskName, run);
      return Extensions(af.value, taskName, run);
    }

    /** `solve_decision`: whether `argument` is accepted under `taskName`,
        given the outcome `run` of the solver for each argument value. */
    method SolveDecision(argument: int, taskName: string, run: int -> SolvedAF.Outcome<bool>) returns (r: Result<bool, Failure>)
      requires Valid() && SolvedAF.IsValidTask(taskName)
      ensures r.Err? <==> Arguments().None? || SolvedAF.IsEnumerationCode(taskName) || argument !in Arguments().value
      ensures Arguments().None? ==> r == Err(MaskIndexError)
      ensures r.Ok? ==> (r.value <==> run(argument + 1) == SolvedAF.Finished(true))
    {
      var af := ToSolvedAF();
      if af.None? {
        return Err(MaskIndexError);
      }
      ArgumentsArePrefix();
      RangeMembers(|af.value.names|);
      return Decision(af.value, argument, taskName, run);
    }

    /** `equivalent_to`: the two frameworks report the same extensions
        (`SE`, `EE`; `run` and `otherRun` are the solver's answers on each
        side) or take the same decision on every argument (`DC`, `DS`;
        `decide` and `otherDecide` are the solver's outcomes for each
        argument value on each side); `None` where evaluating `arguments`
        raises on either side. */
    method EquivalentTo(other: ArgumentationFramework, criteria: string,
                        run: SolvedAF.Outcome<Tasks.Answer>, otherRun: SolvedAF.Outcome<Tasks.Answer>,
                        decide: int -> SolvedAF.Outcome<bool>, otherDecide: int -> SolvedAF.Outcome<bool>) returns (r: Option<bool>)
      requires Valid() && other.Valid()
      requires NumArguments() == other.NumArguments()
      requires SolvedAF.IsValidTask(criteria)
      ensures StartsWith(criteria, "SE") || StartsWith(criteria, "EE") ==>
                r == (if Arguments().None? || other.Arguments().None? then None
                      else Some(ExtensionKeys(Reported(NumArguments(), SolvedAF.TaskType(criteria), run)) ==
                                ExtensionKeys(Reported(other.NumArguments(), SolvedAF.TaskType(criteria), otherRun))))
      ensures !(StartsWith(criteria, "SE") || StartsWith(criteria, "EE")) ==>
                r == Agreement(Arguments(), other.Arguments(), NumArguments(), Accepts(decide), Accepts(otherDecide))
    {
      CriteriaKinds(criteria);
      if StartsWith(criteria, "SE") || StartsWith(criteria, "EE") {
        r := SameExtensions(other, criteria, run, otherRun);
      } else {
        r := SameDecisions(other, criteria, decide, otherDecide);
      }
    }

    /** The `SE`/`EE` branch of `equivalent_to`: the keys of the extensions
        each side reports, compared as sets. */
    method SameExtensions(other: ArgumentationFramework, criteria: string,
                          run: SolvedAF.Outcome<Tasks.Answer>, otherRun: SolvedAF.Outcome<Tasks.Answer>) returns (r: Option<bool>)
      requires Valid() && other.Valid()
      requires SolvedAF.IsValidTask(criteria) && SolvedAF.IsEnumerationCode(criteria)
      ensures r == (if Arguments().None? || other.Arguments().None? then None
                    else Some(ExtensionKeys(Reported(NumArguments(), SolvedAF.TaskType(criteria), run)) ==
                              ExtensionKeys(Reported(other.NumArguments(), SolvedAF.TaskType(criteria), otherRun))))
    {
      var mine := SolveExtensions(criteria, run);
      var theirs := other.SolveExtensions(criteria, otherRun);
      if mine.Err? || theirs.Err? {
        return None;
      }
      var keys := ExtensionKeys(mine.value);
      var otherKeys := ExtensionKeys(theirs.value);
      return Some(keys <= otherKeys && otherKeys <= keys);
    }

    /** The `DC`/`DS` branch of `equivalent_to`: the decisions on each
        argument of `0..num_arguments`, `False` on a side that masks it. */
    method SameDecisions(other: ArgumentationFramework, criteria: string,
                         decide: int -> SolvedAF.Outcome<bool>, otherDecide: int -> SolvedAF.Outcome<bool>) returns (r: Option<bool>)
      requires Valid() && other.Valid()
      requires NumArguments() == other.NumArguments()
      requires SolvedAF.IsValidTask(criteria) && !SolvedAF.IsEnumerationCode(criteria)
      ensures r == Agreement(Arguments(), other.Arguments(), NumArguments(), Accepts(decide), Accepts(otherDecide))
    {
      var n := NumArguments();
      if n <= 0 {
        return Some(true);
      }
      var s := Arguments();
      var o := other.Arguments();
      if s.None? || o.None? {
        return None;
      }
      var agree := DecideAll(other, criteria, decide, otherDecide, n);
      return Some(agree);
    }

    /** The loop of the `DC`/`DS` branch over `0..n` once `arguments` is
        defined on both sides: false at the first argument where the two
        decisions differ. */
    method DecideAll(other: ArgumentationFramework, criteria: string,
                     decide: int -> SolvedAF.Outcome<bool>, otherDecide: int -> SolvedAF.Outcome<bool>, n: int)
      returns (agree: bool)
      requires Valid() && other.Valid() && Arguments().Some? && other.Arguments().Some?
      requires SolvedAF.IsValidTask(criteria) && !SolvedAF.IsEnumerationCode(criteria)
      ensures agree == AgreeBelow(Arguments().value, other.Arguments().value, n, Accepts(decide), Accepts(otherDecide))
    {
      ghost var s, o := Arguments().value, other.Arguments().value;
      ghost var selfAccepts, otherAccepts := Accepts(decide), Accepts(otherDecide);
      var a := 0;
      while a < n
        invariant Valid() && other.Valid() && Arguments() == Some(s) && other.Arguments() == Some(o)
        invariant a <= n || n < 0
        invariant AgreeBelow(s, o, a, selfAccepts, otherAccepts)
      {
        var selfDecision := SideDecide(a, criteria, decide);
        var otherDecision := other.SideDecide(a, criteria, otherDecide);
        AgreeBelowStep(s, o, a, selfAccepts, otherAccepts);
        if selfDecision != otherDecision {
          AgreeBelowPrefix(s, o, a + 1, n, selfAccepts, otherAccepts);
          return false;
        }
        a := a + 1;
      }
      AgreeBelowPrefix(s, o, n, a, selfAccepts, otherAccepts);
      return true;
    }

    /** One side's decision in a pass of the `DC`/`DS` loop: `False` where
        this side masks `a`, and otherwise what `solve_decision` answers. */
    method SideDecide(a: int, criteria: string, decide: int -> SolvedAF.Outcome<bool>) returns (d: bool)
      requires Valid() && Arguments().Some?
      requires SolvedAF.IsValidTask(criteria) && !SolvedAF.IsEnumerationCode(criteria)
      ensures d == SideDecision(Arguments().value, Accepts(decide), a)
    {
      if a !in Arguments().value {
        return false;
      }
      var decided := SolveDecision(a, criteria, decide);
      d := decided.value;
    }

    /** `arguments` is defined only when the unmasked arguments are
        `0..k`, and then `num_arguments` is `k`. */
    lemma ArgumentsArePrefix()
      requires Valid() && Arguments().Some?
      ensures Arguments().value == Range(|Arguments().value|)
      ensures NumArguments() == |Arguments().value|
    {
      var a := Arguments().value;
      SumBelowBound(mask[..], mask.Length);
      assert NumArguments() <= |a|;
      AscendingBelowIsRange(a);
      if a != [] {
        assert a[|a| - 1] == |a| - 1;
      }
    }

    /** With a 0/1 mask, `arguments` is defined exactly when the unmasked
        arguments come first. */
    lemma ZeroOneArguments()
      requires Valid() && ZeroOneEntries(mask[..])
      ensures Arguments().Some? <==> PrefixMask(mask[..])
    {
      var m := mask[..];
      SumBelowCount(m, |m|);
      if Arguments().Some? {
        ArgumentsArePrefix();
        var a := Arguments().value;
        forall i, j | 0 <= i < j < |m| && m[j] != 0.0
          ensures m[i] != 0.0
        {
          assert j in a;
          assert a[i] == i;
        }
      }
      if PrefixMask(m) {
        var t := PrefixNonzero(m, |m|);
        assert NumArguments() == t;
      }
    }

    constructor (maxNumArguments: nat)
      ensures Valid() && fresh(attacks) && fresh(mask)
      ensures Capacity() == maxNumArguments
      ensures forall i, j :: 0 <= i < maxNumArguments && 0 <= j < maxNumArguments ==> attacks[i, j] == 0
      ensures forall i :: 0 <= i < maxNumArguments ==> mask[i] == 1.0
      ensures !boolMask && data == map[]
      ensures Arguments() == Some(Range(maxNumArguments))
    {
      attacks := new int[maxNumArguments, maxNumArguments]((i, j) => 0);
      mask := new real[maxNumArguments](i => 1.0);
      boolMask := false;
      data := map[];
      new;
      AllNonzero(mask[..], maxNumArguments);
      SumBelowCount(mask[..], maxNumArguments);
    }

    /** The `argument_mask` setter: stores `v > 0` in a new boolean array of
        the same length. */
    method SetArgumentMask(v: seq<real>) returns (raised: bool)
      requires Valid()
      modifies this
      ensures raised <==> |v| != old(Capacity())
      ensures raised ==> mask == old(mask) && boolMask == old(boolMask)
      ensures Valid() && (!raised ==> fresh(mask) && boolMask)
      ensures !raised ==> mask[..] == seq(|v|, i requires 0 <= i < |v| => if v[i] > 0.0 then 1.0 else 0.0)
      ensures attacks == old(attacks) && data == old(data)
    {
      if |v| != mask.Length {
        return true;
      }
      mask := new real[|v|](i requires 0 <= i < |v| => if v[i] > 0.0 then 1.0 else 0.0);
      boolMask := true;
      return false;
    }

    /** What `mask_argument` stores: the clamped value, or whether it is
        positive once the mask is boolean. */
    function MaskValue(v: real): (r: real)
      reads this
      ensures 0.0 <= r <= 1.0
      ensures r == 0.0 <==> v <= 0.0
      ensures boolMask ==> r == 0.0 || r == 1.0
      ensures !boolMask && v <= 1.0 ==> r == ClampReal(v)
    {
      if boolMask then (if v > 0.0 then 1.0 else 0.0) else ClampReal(v)
    }

    /** `mask_argument`. */
    method MaskArgument(n: int, v: real) returns (raised: bool)
      requires Valid()
      modifies mask
      ensures Valid()
      ensures raised <==> !InBounds(n, Capacity())
      ensures mask[..] == if !InBounds(n, Capacity()) then old(mask[..])
                          else old(mask[..])[PyIndex(n, Capacity()) := MaskValue(v)]
    {
      if !InBounds(n, mask.Length) {
        return true;
      }
      mask[PyIndex(n, mask.Length)] := MaskValue(v);
      return false;
    }

    /** The data of argument `idx`, an empty dictionary when there is none. */
    function Entry(idx: int): map<string, Datum>
      reads this
    {
      if idx in data then data[idx] else map[]
    }

    /** `set_data`: merges the keywords into the data of `idx`. */
    method SetData(idx: int, kwargs: map<string, Datum>) returns (raised: bool)
      modifies this
      ensures raised <==> !(0 <= idx < old(NumArguments()))
      ensures data == if raised then old(data) else old(data)[idx := old(Entry(idx)) + kwargs]
      ensures attacks == old(attacks) && mask == old(mask) && boolMask == old(boolMask)
    {
      if !(0 <= idx < NumArguments()) {
        return true;
      }
      data := data[idx := Entry(idx) + kwargs];
      return false;
    }

    /** `get_data`: the `defaultdict` lookup, which records an empty
        dictionary for an argument without data. */
    method GetData(idx: int) returns (d: Option<map<string, Datum>>)
      modifies this
      ensures d.None? <==> !(0 <= idx < old(NumArguments()))
      ensures d.None? ==> data == old(data)
      ensures d.Some? ==> d.value == old(Entry(idx)) && data == old(data)[idx := d.value]
      ensures attacks == old(attacks) && mask == old(mask) && boolMask == old(boolMask)
    {
      if !(0 <= idx < NumArguments()) {
        return None;
      }
      var entry := Entry(idx);
      data := data[idx := entry];
      return Some(entry);
    }

    /** `get_attacks`. */
    function GetAttacks(frm: int, to: int): int
      reads this, attacks, mask
      requires Valid() && InBounds(frm, Capacity()) && InBounds(to, Capacity())
    {
      attacks[PyIndex(frm, Capacity()), PyIndex(to, Capacity())]
    }

    /** `set_attacks`: writes `max(0, min(v, 1))` into one cell. */
    method SetAttacks(frm: int, to: int, v: int) returns (raised: bool)
      requires Valid()
      modifies attacks
      ensures Valid()
      ensures raised <==> !(InBounds(frm, Capacity()) && InBounds(to, Capacity()))
      ensures !raised ==> GetAttacks(frm, to) == Clamp(v)
      ensures forall i, j ::
                (0 <= i < attacks.Length0 && 0 <= j < attacks.Length1 &&
                 (raised || (i, j) != (PyIndex(frm, Capacity()), PyIndex(to, Capacity())))) ==>
                attacks[i, j] == old(attacks[i, j])
    {
      if !(InBounds(frm, mask.Length) && InBounds(to, mask.Length)) {
        return true;
      }
      attacks[PyIndex(frm, mask.Length), PyIndex(to, mask.Length)] := Clamp(v);
      return false;
    }
  }
}
