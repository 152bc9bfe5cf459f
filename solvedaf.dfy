/** The solver adapter: runs an enumeration or a decision task of the
    solver on a framework and translates the argument values of the answer
    back to names. The solver run (a worker thread with a timeout) is an
    outcome given as a parameter: `TimedOut` stands for the timeout and for
    any exception raised inside the worker, which never signals completion
    and so surfaces as the same `TimeoutError`. */
module SolvedAF {
  import opened Wrappers
  import opened Collections
  import opened Framework
  import opened Tasks

  /** `valid_tasks`: the enumeration codes, then the decision codes. */
  const ValidTasks: seq<string> :=
    ["EE-CO", "SE-CO", "SE-GR", "EE-PR", "SE-PR", "EE-ST", "SE-ST",
     "DC-CO", "DS-CO", "DC-GR", "DC-PR", "DS-PR", "DC-ST", "DS-ST"]

  /** The `assert` of `find_extensions` and `find_acceptance`. */
  predicate IsValidTask(taskName: string) {
    taskName in ValidTasks
  }

  /** One of the enumeration codes, the first seven. */
  predicate IsEnumerationCode(taskName: string) {
    taskName in ValidTasks[..7]
  }

  /** The adapter accepts exactly the codes of the solver's task table, in
      the same order. */
  lemma ValidTasksAreTheTable()
    ensures ValidTasks == GetTasks()
  {
    EnumerationCodesListed();
    DecisionCodesListed();
    assert ValidTasks == ValidTasks[..7] + ValidTasks[7..];
  }

  lemma EnumerationCodesListed()
    ensures ValidTasks[..7] == Codes(EnumerationTasks)
  {
    var t := Codes(EnumerationTasks);
    assert t[0] == "EE-CO" && t[1] == "SE-CO" && t[2] == "SE-GR" && t[3] == "EE-PR";
    assert t[4] == "SE-PR" && t[5] == "EE-ST" && t[6] == "SE-ST";
  }

  lemma DecisionCodesListed()
    ensures ValidTasks[7..] == Codes(DecisionTasks)
  {
    var t := Codes(DecisionTasks);
    assert t[0] == "DC-CO" && t[1] == "DS-CO" && t[2] == "DC-GR" && t[3] == "DC-PR";
    assert t[4] == "DS-PR" && t[5] == "DC-ST" && t[6] == "DS-ST";
  }

  /** Every enumeration code is a valid code. */
  lemma EnumerationCodeValid(taskName: string)
    requires IsEnumerationCode(taskName)
    ensures IsValidTask(taskName)
  {
    var k :| 0 <= k < 7 && ValidTasks[..7][k] == taskName;
    assert ValidTasks[k] == taskName;
  }

  /** Enumeration codes start with `E` or `S`, decision codes with `D`. */
  lemma CodeKinds()
    ensures forall i :: 0 <= i < 7 ==> |ValidTasks[i]| > 0 && ValidTasks[i][0] != 'D'
    ensures forall j :: 7 <= j < 14 ==> |ValidTasks[j]| > 0 && ValidTasks[j][0] == 'D'
  {
  }

  /** A valid code names an enumeration task exactly when it is one of the
      first seven. */
  lemma EnumerationCodes(taskName: string, isEnumeration: bool)
    requires IsValidTask(taskName)
    ensures GetTaskMethod(taskName, isEnumeration).Ok? <==> (IsEnumerationCode(taskName) <==> isEnumeration)
  {
    ValidTasksAreTheTable();
    TasksResolve(taskName, isEnumeration);
    CodeKinds();
    var j :| 0 <= j < 14 && ValidTasks[j] == taskName;
    assert GetTasks()[j] == taskName;
    assert IsEnumerationCode(taskName) <==> j < 7 by {
      if j < 7 {
        assert ValidTasks[..7][j] == taskName;
      } else {
        forall k | 0 <= k < 7
          ensures ValidTasks[..7][k] != taskName
        {
          assert ValidTasks[..7][k] == ValidTasks[k];
        }
      }
    }
  }

  /** Python's slice `s[:2]`, the task type of a code. */
  function TaskType(s: string): (r: string)
    ensures |s| >= 2 ==> |r| == 2
    ensures r <= s
  {
    if |s| < 2 then s else s[..2]
  }

  /** How a solver run ended. */
  datatype Outcome<T> = Finished(value: T) | TimedOut

  /** What the adapter returns for an enumeration: the names of one
      extension (`SE`) or the names of each extension (`EE`). */
  datatype Found<N> = Names(names: seq<N>) | NameLists(lists: seq<seq<N>>)

  /** A value list `valuesToArguments` can translate without an
      `IndexError`: Python list indexing at `v - 1`. */
  predicate Translatable<N(==,!new)>(f: ListGraphFramework<N>, vs: seq<int>) {
    forall i :: 0 <= i < |vs| ==> -|f.names| < vs[i] <= |f.names|
  }

  /** `valuesToArguments`, with `None` where it raises. */
  function Translate<N(==,!new)>(f: ListGraphFramework<N>, vs: seq<int>): (r: Option<seq<N>>)
    ensures r.Some? <==> Translatable(f, vs)
    ensures r.Some? ==> |r.value| == |vs|
  {
    if Translatable(f, vs) then Some(seq(|vs|, i requires 0 <= i < |vs| => f.ValueToArgument(vs[i])))
    else None
  }

  lemma TranslateAt<N(!new)>(f: ListGraphFramework<N>, vs: seq<int>, i: int)
    requires Translatable(f, vs) && 0 <= i < |vs|
    ensures Translate(f, vs).value[i] == f.ValueToArgument(vs[i])
  {
  }

  /** With distinct names, value `v` translates to a name of value `v`. */
  lemma TranslateMember<N(!new)>(f: ListGraphFramework<N>, vs: seq<int>, i: int)
    requires f.Valid() && Distinct(f.names)
    requires Translatable(f, vs) && 0 <= i < |vs| && 1 <= vs[i]
    ensures Translate(f, vs).value[i] in f.names
    ensures f.values[Translate(f, vs).value[i]] == vs[i]
  {
    TranslateAt(f, vs, i);
    f.DistinctNamesNumbered(vs[i] - 1);
  }

  /** A name whose value is listed is among the translated names. */
  lemma TranslateHit<N(!new)>(f: ListGraphFramework<N>, vs: seq<int>, x: N)
    requires f.Valid() && x in f.names && Translatable(f, vs)
    requires f.values[x] in vs
    ensures x in Translate(f, vs).value
  {
    f.ArgumentValueRoundTrip(x);
    var i :| 0 <= i < |vs| && vs[i] == f.values[x];
    TranslateAt(f, vs, i);
  }

  /** Translating values `1..|names|` names exactly the arguments whose
      values are listed, position by position. */
  lemma TranslateValues<N(!new)>(f: ListGraphFramework<N>, vs: seq<int>)
    requires f.Valid() && Distinct(f.names)
    requires forall i :: 0 <= i < |vs| ==> 1 <= vs[i] <= |f.names|
    ensures Translate(f, vs).Some?
    ensures forall x :: x in Translate(f, vs).value <==> x in f.names && f.values[x] in vs
    ensures forall i :: 0 <= i < |vs| ==> f.values[Translate(f, vs).value[i]] == vs[i]
  {
    assert Translatable(f, vs);
    var ns := Translate(f, vs).value;
    forall i | 0 <= i < |vs|
      ensures ns[i] in f.names && f.values[ns[i]] == vs[i]
    {
      TranslateMember(f, vs, i);
    }
    forall x | x in f.names && f.values[x] in vs
      ensures x in ns
    {
      TranslateHit(f, vs, x);
    }
  }

  /** Translating the values of an extension, in the order Python visits a
      set, names exactly the arguments whose values it holds. */
  lemma TranslateExtension<N(!new)>(f: ListGraphFramework<N>, s: set<int>)
    requires f.Valid() && Distinct(f.names)
    requires forall v :: v in s ==> 1 <= v <= |f.names|
    ensures Translate(f, Sorted(s)).Some?
    ensures forall x :: x in Translate(f, Sorted(s)).value <==> x in f.names && f.values[x] in s
    ensures forall i :: 0 <= i < |s| ==> f.values[Translate(f, Sorted(s)).value[i]] == Sorted(s)[i]
  {
    var vs := Sorted(s);
    assert forall i :: 0 <= i < |vs| ==> 1 <= vs[i] <= |f.names|;
    TranslateValues(f, vs);
  }

  /** The list comprehension over the extensions of an `EE` answer, with
      `None` where one of them raises. */
  function TranslateAll<N(==,!new)>(f: ListGraphFramework<N>, exts: seq<set<int>>): (r: Option<seq<seq<N>>>)
    ensures r.Some? <==> forall k :: 0 <= k < |exts| ==> Translate(f, Sorted(exts[k])).Some?
    ensures r.Some? ==> |r.value| == |exts|
  {
    if forall k :: 0 <= k < |exts| ==> Translate(f, Sorted(exts[k])).Some? then
      Some(seq(|exts|, k requires 0 <= k < |exts| => Translate(f, Sorted(exts[k])).value))
    else None
  }

  /** Translating the extensions one by one names, for each of them,
      exactly the arguments whose values it holds. */
  lemma TranslateExtensions<N(!new)>(f: ListGraphFramework<N>, exts: seq<set<int>>)
    requires f.Valid() && Distinct(f.names)
    requires forall k, v :: 0 <= k < |exts| && v in exts[k] ==> 1 <= v <= |f.names|
    ensures TranslateAll(f, exts).Some?
    ensures forall k, x :: 0 <= k < |exts| ==>
              (x in TranslateAll(f, exts).value[k] <==> x in f.names && f.values[x] in exts[k])
  {
    forall k | 0 <= k < |exts|
      ensures Translate(f, Sorted(exts[k])).Some?
      ensures forall x :: x in Translate(f, Sorted(exts[k])).value <==> x in f.names && f.values[x] in exts[k]
    {
      TranslateExtension(f, exts[k]);
    }
    var ls := TranslateAll(f, exts).value;
    assert forall k :: 0 <= k < |exts| ==> ls[k] == Translate(f, Sorted(exts[k])).value;
  }

  /** `parsed_solution = []`, the value returned when the run fails. */
  function Default<N>(taskType: string): Found<N> {
    if taskType == "SE" then Names([]) else NameLists([])
  }

  /** The `try` block of `find_extensions`: a timeout, a failing worker,
      or a value the translation cannot index leaves the default empty
      list, which the `finally` clause returns. */
  function ParseSolution<N(==,!new)>(f: ListGraphFramework<N>, taskType: string, run: Outcome<Answer>): (r: Found<N>)
    ensures r.Names? <==> taskType == "SE"
    ensures run.TimedOut? ==> r == Default(taskType)
  {
    var parsed := Default(taskType);
    match run
    case Finished(Single(Some(s))) =>
      if taskType != "SE" then parsed
      else (match Translate(f, Sorted(s)) case Some(ns) => Names(ns) case None => parsed)
    case Finished(Full(exts)) =>
      if taskType != "EE" then parsed
      else (match TranslateAll(f, exts) case Some(ls) => NameLists(ls) case None => parsed)
    case _ => parsed
  }

  /** `find_extensions`. A decision code exits, since `getTaskMethod` runs
      outside the `try`; an enumeration code parses the run. */
  function FindExtensions<N(==,!new)>(f: ListGraphFramework<N>, taskName: string, run: Outcome<Answer>): (r: Result<Found<N>, TaskError>)
    requires IsValidTask(taskName)
    ensures r.Err? <==> !IsEnumerationCode(taskName)
    ensures r.Err? ==> r.error.exitCode == 1
    ensures r.Ok? ==> r.value == ParseSolution(f, TaskType(taskName), run)
  {
    EnumerationCodes(taskName, true);
    match GetTaskMethod(taskName, true)
    case Err(e) => Err(e)
    case Ok(_) => Ok(ParseSolution(f, TaskType(taskName), run))
  }

  /** An `SE` run that finds an extension returns the names of its
      arguments, in ascending order of their values. */
  lemma FindSingleExtension<N(!new)>(f: ListGraphFramework<N>, taskName: string, s: set<int>)
    requires f.Valid() && Distinct(f.names)
    requires IsEnumerationCode(taskName) && TaskType(taskName) == "SE"
    requires forall v :: v in s ==> 1 <= v <= |f.names|
    ensures IsValidTask(taskName)
    ensures FindExtensions(f, taskName, Finished(Single(Some(s)))).Ok?
    ensures var r := FindExtensions(f, taskName, Finished(Single(Some(s)))).value;
            r.Names? && |r.names| == |s| &&
            (forall x :: x in r.names <==> x in f.names && f.values[x] in s) &&
            forall i :: 0 <= i < |s| ==> f.values[r.names[i]] == Sorted(s)[i]
  {
    EnumerationCodeValid(taskName);
    TranslateExtension(f, s);
    assert ParseSolution(f, TaskType(taskName), Finished(Single(Some(s)))) == Names(Translate(f, Sorted(s)).value);
  }

  /** An `EE` run returns, for each extension in turn, the names of its
      arguments. */
  lemma FindAllExtensions<N(!new)>(f: ListGraphFramework<N>, taskName: string, exts: seq<set<int>>)
    requires f.Valid() && Distinct(f.names)
    requires IsEnumerationCode(taskName) && TaskType(taskName) == "EE"
    requires forall k, v :: 0 <= k < |exts| && v in exts[k] ==> 1 <= v <= |f.names|
    ensures IsValidTask(taskName)
    ensures FindExtensions(f, taskName, Finished(Full(exts))).Ok?
    ensures var r := FindExtensions(f, taskName, Finished(Full(exts))).value;
            r.NameLists? && |r.lists| == |exts| &&
            forall k, x :: 0 <= k < |exts| ==> (x in r.lists[k] <==> x in f.names && f.values[x] in exts[k])
  {
    EnumerationCodeValid(taskName);
    TranslateExtensions(f, exts);
    assert ParseSolution(f, TaskType(taskName), Finished(Full(exts))) == NameLists(TranslateAll(f, exts).value);
  }

  /** For an `SE` code the caller cannot tell a timeout, or a run that
      found no extension at all, from a run that found the empty
      extension. */
  lemma TimeoutLooksEmpty<N(!new)>(f: ListGraphFramework<N>)
    ensures ParseSolution(f, "SE", TimedOut) == ParseSolution(f, "SE", Finished(Single(Some({}))))
    ensures ParseSolution(f, "SE", Finished(Single(None))) == ParseSolution(f, "SE", Finished(Single(Some({}))))
  {
    assert Sorted({}) == [];
    assert Translate(f, []) == Some([]);
  }

  /** Why `find_acceptance` fails instead of answering. */
  datatype AdapterError = Exit(error: TaskError) | UnknownArgument

  /** `find_acceptance`. The code check and the `argumentToValue` lookup run
      outside the `try`, so an enumeration code exits and an unknown name
      raises; a run that times out or fails answers `False`. `run` gives
      the outcome of the decision for each argument value. */
  function FindAcceptance<N(==,!new)>(f: ListGraphFramework<N>, argument: N, taskName: string, run: int -> Outcome<bool>): (r: Result<bool, AdapterError>)
    requires f.Valid() && IsValidTask(taskName)
    ensures r.Err? <==> IsEnumerationCode(taskName) || argument !in f.names
    ensures IsEnumerationCode(taskName) ==> r.Err? && r.error.Exit? && r.error.error.exitCode == 1
    ensures r.Ok? ==> (r.value <==> run(f.values[argument]) == Finished(true))
  {
    EnumerationCodes(taskName, false);
    match GetTaskMethod(taskName, false)
    case Err(e) => Err(Exit(e))
    case Ok(_) =>
      match f.ArgumentToValue(argument)
      case None => Err(UnknownArgument)
      case Some(v) =>
        var parsed := false;
        Ok(match run(v) case Finished(b) => b case TimedOut => parsed)
  }

  /** With distinct names, deciding the i-th name decides value i + 1. */
  lemma AcceptanceOfName<N(!new)>(f: ListGraphFramework<N>, i: int, taskName: string, run: int -> Outcome<bool>)
    requires f.Valid() && Distinct(f.names) && 0 <= i < |f.names|
    requires IsValidTask(taskName) && !IsEnumerationCode(taskName)
    ensures FindAcceptance(f, f.names[i], taskName, run) == Ok(run(i + 1) == Finished(true))
  {
    f.DistinctNamesNumbered(i);
  }
}
