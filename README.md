# PyPLAF core, modelled and verified in Dafny

PyPLAF is a Python library for abstract and probabilistic argumentation.
This project models its two packages.

- **Solved-AF** (`solved_af/`) is a solver for the ICCMA tasks over Dung's abstract argumentation frameworks:
  - complete, grounded, preferred and stable semantics;
  - single and full enumeration, and credulous and skeptical decisions.

  It maps argument names to the dense values 1..n and reduces complete and stable labellings to CNF. Each argument has three label variables (In = 3a−2, Out = 3a−1, Und = 3a). It renders the theory as DIMACS text for a SAT solver and reads extensions back from the solver's model. The grounded extension is the least fixpoint of the characteristic function. It parses the TGF and APX input formats and prints answers in the ICCMA output shapes.
- **argumentation_framework** (`argumentation_framework/`) is an attack-graph store: a 0/1 attack matrix with an argument mask and per-argument data. On top of it sit:
  - a probabilistic wrapper. It enumerates every resolved instance of an annotated framework with a FIFO worklist. It folds the solver's per-world answers into extension probabilities, decision probabilities and the probability that two frameworks are equivalent;
  - logical arguments whose rebut and undercut attacks come from modus ponens inference rules over `{atom: bool}` knowledge bases.

## Module layout

- `wrappers.dfy` has `Option` and `Result`.
- `collections.dfy` has sets read in ascending order, insertion sort and counting.
- `text.dfy` has Python's `split`, `join`, `strip` and `int`/`str` on strings.
- `utils.dfy` models `solved_af/utils.py`.
- `framework.dfy` models `solved_af/framework.py`.
- `theories.dfy` models `solved_af/theories.py`.
- `tasks.dfy` models `solved_af/tasks.py`.
- `io.dfy` models `solved_af/io.py`.
- `solvedaf.dfy` models `argumentation_framework/solved_af.py`.
- `frameworks.dfy` models the `ArgumentationFramework` class of `argumentation_framework/frameworks.py`.
- The `ProbabilisiticWrapper` class of the same file is split across four files:
  - `worlds.dfy`: world enumeration on values;
  - `aggregation.dfy`: the extension and decision folds and the equivalence sum;
  - `probabilistic.dfy`: their loops and the all-worlds results;
  - `probabilistic_wrapper.dfy`: the class itself.
- `inference_rules.dfy` and `logical_arguments.dfy` model the two files of those names.

Classes are used where the program updates fields in place:
- `Utils.Memoized`, the `memoize` cache;
- `Theories.DimacsHeader` and `Theories.DimacsInput`;
- `Frameworks.ArgumentationFramework`;
- `ProbabilisticWrapping.ProbabilisticWrapper`;
- `InferenceRules.KnowledgeBase`, the dictionary that `apply_to` updates.

Loops in the program are methods with loop invariants, proved against specification functions. Pure code is functions with lemmas.

The SAT solver, the semantics solver behind `solve_extensions` and `solve_decision`, and the timeout are outside the model. They appear as parameters:
- an oracle listing a theory's models;
- functions from an attack matrix to extensions or a decision;
- a flag saying that the run timed out.

The model lists the members of a Python set in ascending order; CPython's order is hash order, which differs (`list({1, 8})` is `[8, 1]`). White space is the set Python's `str.isspace` accepts, Unicode spaces included; `split()`, `strip()` and `\s` use the same set. A numpy probability is a `real`.

## Model

| member | source | states |
|---|---|---|
| Utils.FlattenOrigin | solved_af/utils.py:19-21 | every item of `flatten`'s result lies in some inner list |
| Utils.FlattenKeeps | solved_af/utils.py:19-21 | every item of every inner list is in `flatten`'s result |
| Utils.FlattenLength | solved_af/utils.py:19-21 | the result's length is the sum of the inner lengths: nothing is added or dropped |
| Utils.FlattenAppend | solved_af/utils.py:19-21 | flattening keeps the order of the outer list: it distributes over concatenation |
| Utils.FlattenSet | solved_af/utils.py:24-26 | `flattenSet` holds x exactly when some inner collection holds x |
| Utils.Memoized.constructor | solved_af/utils.py:29-31 | a fresh memoized function starts with an empty cache and no evaluations |
| Utils.Memoized.Call | solved_af/utils.py:33-39 | the result is `func(k)`; the cache gains the entry for k and keeps every other entry; a hit leaves the cache as it was and does not evaluate `func`, a miss evaluates it once |
| Framework.ValueMap | solved_af/framework.py:32-33 | exactly the listed names are keys; each name's value v is a position with `names[v - 1]` that name and no later occurrence (later duplicates win, as in the dict comprehension) |
| Framework.ValueMapDistinct | solved_af/framework.py:32-33 | with distinct names the name at index i gets value i + 1 |
| Framework.ListGraphFramework.ArgumentToValue | solved_af/framework.py:38-39 | a value exists exactly for the listed names (the lookup raises `KeyError` otherwise) |
| Framework.ListGraphFramework.ValuesToArguments | solved_af/framework.py:41-45 | one name per value, the name at position `v - 1` |
| Framework.ListGraphFramework.ArgumentValueRoundTrip | solved_af/framework.py:32-42 | for a listed name x, `valueToArgument(argumentToValue(x)) == x` and the value lies in 1..n |
| Framework.ListGraphFramework.DistinctNamesNumbered | solved_af/framework.py:29-48 | with distinct names, name i has value i + 1, `getArguments()[i] == i + 1`, and `argumentToValue(valueToArgument(i + 1)) == i + 1` |
| Framework.AttackValues | solved_af/framework.py:35-36 | the attacks convert exactly when every endpoint is a listed name; pair k becomes the values of its two endpoints; a failure names an unlisted endpoint |
| Framework.AttackValuesInRange | solved_af/framework.py:32-36 | converted attacks join values in 1..n |
| Framework.BuildNodeList | solved_af/framework.py:116-119 | after the loop, node i holds exactly the arguments that i + 1 attacks and exactly those that attack it |
| Framework.RecordAttack | solved_af/framework.py:117-119 | adding the target to the attacker's set and the attacker to the target's set records one more attack |
| Framework.BuiltValid | solved_af/framework.py:112-121 | the fields set up by the constructor satisfy the framework invariant |
| Framework.NewListGraphFramework | solved_af/framework.py:112-121 | construction succeeds exactly when every attack endpoint is a listed name; the result keeps the names, has length n, and converts attack k to its endpoints' values |
| Framework.ListGraphFramework.AttackedBy | solved_af/framework.py:173-174 | y is in `getAttackedBy(x)` exactly when x attacks y |
| Framework.ListGraphFramework.AttackersOf | solved_af/framework.py:176-177 | y is in `getAttackersOf(x)` exactly when y attacks x |
| Framework.ListGraphFramework.AttackedBySet | solved_af/framework.py:179-180 | everything that some member of the set attacks, and nothing else |
| Framework.ListGraphFramework.AttackersOfSet | solved_af/framework.py:182-183 | everything that attacks some member of the set, and nothing else |
| Framework.ListGraphFramework.Characteristic | solved_af/framework.py:144-167 | a is in F(S) exactly when a is an argument and every attacker of a is attacked by a member of S |
| Framework.ListGraphFramework.CharacteristicMonotone | solved_af/framework.py:164-167 | S ⊆ T implies F(S) ⊆ F(T) |
| Framework.ListGraphFramework.UnattackedDefended | solved_af/framework.py:164-167 | an argument with no attacker is in F(S) for every S |
| Framework.ListGraphFramework.NoAttacksAllDefended | solved_af/framework.py:164-167 | without attacks F(S) is every argument |
| Framework.EncEmpty | solved_af/framework.py:205-210 | the empty extension encodes as 0 |
| Framework.EncAdd | solved_af/framework.py:207-208 | adding argument x adds `2 ** (x - 1)` to the encoding |
| Framework.EncInjective | solved_af/framework.py:192-210 | two extensions with the same encoding are equal |
| Framework.EncMonotone | solved_af/framework.py:192-210 | a subset never has a larger encoding |
| Framework.EncAnd | solved_af/framework.py:231 | the bitwise and of two encodings encodes the intersection |
| Framework.ExtensionToInt | solved_af/framework.py:192-210 | the loop's result is the number whose bit a - 1 is set exactly for the members a of the extension |
| Framework.IsIncluded | solved_af/framework.py:213-231 | true exactly when the extension is a subset of the other |
| Framework.CompareWithMaximal | solved_af/framework.py:259-267 | the inner loop either finds a current maximal extension that includes `ext`, or collects every current one that `ext` includes |
| Framework.MaximalStep | solved_af/framework.py:258-272 | one pass of the outer loop keeps the current set an antichain drawn from the extensions seen, covering each of them |
| Framework.AntichainCoverIsMaximal | solved_af/framework.py:241-274 | an antichain drawn from the extensions that covers each of them is exactly their maximal elements |
| Framework.GetAllMaximal | solved_af/framework.py:241-274 | the result is exactly the listed extensions that no listed extension strictly includes: a subset of the input that covers every input extension (so it does not depend on the iteration order) |
| Theories.FloorDivBounds | solved_af/theories.py:72 | Python's `//` as modelled: the floor quotient, bounded on both sides for either sign of the divisor |
| Theories.InLab | solved_af/theories.py:75-79 | `inLab(a) == 3a - 2` |
| Theories.OutLab | solved_af/theories.py:82-86 | `outLab(a) == 3a - 1` |
| Theories.UndLab | solved_af/theories.py:89-93 | `undLab(a) == 3a` |
| Theories.LabelVarInjective | solved_af/theories.py:34-56 | two label variables coincide exactly when argument and label coincide: the three labels are distinct and disjoint across arguments |
| Theories.LabelVarRange | solved_af/theories.py:34-56 | for 1 ≤ a ≤ n every label variable lies in 1..3n |
| Theories.LabelVarToArgInverse | solved_af/theories.py:56-72 | `labelVarToArg` gives back a for the In and Out variables and a + 1 for the Und variable |
| Theories.UniquenessClauses | solved_af/theories.py:330-343 | `uniqueness_theory` gives 4 clauses |
| Theories.InForcesOuts | solved_af/theories.py:386-387 | one clause `[-inLab(a), outLab(x)]` per listed argument x |
| Theories.InsForceOut | solved_af/theories.py:407-408 | one clause `[-inLab(x), outLab(a)]` per listed attacker x |
| Theories.NotBoth | solved_af/theories.py:484-485 | one clause `[-x, -a]` per listed attacker x |
| Theories.Generate | solved_af/theories.py:137-153 | clause counts per template: 4 for uniqueness, 1 for `complete_in_theory_1`, `complete_out_theory_2` and `stable_in_theory`, one per attacked argument for `complete_in_theory_2` as written, one per attacker for `complete_out_theory_1`, `stable_out_theory` and the corrected in-clause family |
| Theories.UniquenessMeaning | solved_af/theories.py:330-343 | the clauses hold exactly when a carries exactly one label |
| Theories.CompleteIn1Meaning | solved_af/theories.py:346-365 | the clause holds exactly when "all attackers Out implies a In" |
| Theories.CompleteIn2Meaning | solved_af/theories.py:368-387 | the clauses as written hold exactly when "a In implies everything a attacks is Out" |
| Theories.CompleteIn2AttackersMeaning | solved_af/theories.py:368-387 | the corrected clauses hold exactly when "a In implies every attacker of a is Out" |
| Theories.CompleteOut1Meaning | solved_af/theories.py:390-408 | the clauses hold exactly when "some attacker In implies a Out" |
| Theories.CompleteOut2Meaning | solved_af/theories.py:411-430 | the clause holds exactly when "a Out implies some attacker In" |
| Theories.StableInMeaning | solved_af/theories.py:453-468 | the clause holds exactly when a or one of its attackers is in the set |
| Theories.StableOutMeaning | solved_af/theories.py:471-485 | the clauses hold exactly when "a in the set implies none of its attackers is" |
| Theories.GenerateMeaning | solved_af/theories.py:330-485 | for every template, the generated clauses hold exactly when the template's meaning holds for a |
| Theories.GenerateAll | solved_af/theories.py:155-174 | the loop's result is the in-order concatenation of `generate(a)` over the argument values |
| Theories.FlattenHolds | solved_af/theories.py:171-174 | a concatenation of theories holds exactly when each part holds |
| Theories.GenerateAllMeaning | solved_af/theories.py:155-174 | `generateAll` holds exactly when the template's meaning holds for every listed argument |
| Theories.TheoryParts | solved_af/theories.py:294-296 | one generated theory per template of the parser, each over all of the framework's arguments |
| Theories.ReductionMeaning | solved_af/theories.py:286-301 | the raw clauses of `parse` hold exactly when every template's meaning holds for every argument |
| Theories.CompleteAt | solved_af/theories.py:436-442 | the five complete templates (with the corrected in-clause) together say that a is labelled completely |
| Theories.CompleteReductionMeaning | solved_af/theories.py:436-442 | the models of the corrected complete reduction are exactly the complete labellings |
| Theories.StableAtMeaning | solved_af/theories.py:491-493 | the two stable templates together say that a is in the set unattacked from inside, or outside it and attacked from inside |
| Theories.StableReductionMeaning | solved_af/theories.py:491-493 | the models of the stable reduction are exactly the stable extensions |
| Theories.SelfAttackerShape | solved_af/theories.py:368-387 | the two-argument framework with attacks 1→1 and 1→2 that exhibits the finding |
| Theories.AsWrittenHoldsOnSelfAttacker | solved_af/theories.py:436-442 | the as-written complete reduction accepts the labelling In(2), Und(1) on that framework |
| Theories.AsWrittenCompleteAcceptsUndefended | solved_af/theories.py:386-387 | the as-written reduction has a model that is not a complete labelling, which the corrected reduction rejects |
| Theories.SelfAttackerNotComplete | solved_af/theories.py:436-442 | In(2), Und(1) is not a complete labelling and does not satisfy the corrected reduction |
| Theories.LiteralTexts | solved_af/theories.py:284 | one decimal text per literal |
| Theories.ParseClause | solved_af/theories.py:282-284 | a rendered clause is a single line |
| Theories.ClauseWords | solved_af/theories.py:282-284 | the words of a rendered clause are the literals' texts followed by `0` |
| Theories.ClauseRoundTrip | solved_af/theories.py:282-284 | reading a rendered clause back gives the clause |
| Theories.ParseLiteralTexts | solved_af/theories.py:284 | the literals' texts parse back to the literals |
| Theories.ClauseLines | solved_af/theories.py:279 | one rendered line per clause |
| Theories.DecodeClauseLines | solved_af/theories.py:277-280 | the rendered lines decode back to the clauses |
| Theories.TheoryLines | solved_af/theories.py:277-280 | `parseCNFTheory` is the clause lines joined by newlines with a final newline |
| Theories.CNFTheoryAppend | solved_af/theories.py:277-280 | rendering one more clause appends its line: rendering is a homomorphism over clause lists |
| Theories.HeaderRoundTrip | solved_af/theories.py:237-238 | the header is one line `p cnf V C` from which V and C read back |
| Theories.DimacsLines | solved_af/theories.py:256-257 | header plus content splits into the header line, one line per clause and a final empty line |
| Theories.DimacsRoundTrip | solved_af/theories.py:256-257 | a DIMACS text reads back to its variable count, clause count and clauses |
| Theories.DimacsHeader.constructor | solved_af/theories.py:233-235 | the header holds the given counts |
| Theories.DimacsHeader.IncrementClauses | solved_af/theories.py:240-241 | the clause count goes up by one and the variable count is kept |
| Theories.DimacsHeader.SetClauses | solved_af/theories.py:243-244 | the clause count is replaced and the variable count is kept |
| Theories.DimacsInput.constructor | solved_af/theories.py:252-254 | a fresh header with the given counts and the given content |
| Theories.DimacsInput.AddSingleClause | solved_af/theories.py:259-261 | the content gains exactly the given text and the header's clause count goes up by one |
| Theories.GenerateTheories | solved_af/theories.py:290-296 | the loop over the parser's templates collects exactly the raw clauses |
| Theories.Parse | solved_af/theories.py:286-301 | vars = `len(framework) * vars_per_argument`, clauses = the number of raw clauses, content = their rendering; when there is a clause the text reads back to exactly these |
| Theories.ExtractPositiveLiterals | solved_af/theories.py:317-319 | the positive literals of the assignment and nothing else |
| Theories.ExtractExtension | solved_af/theories.py:303-315 | with more than one variable per argument, the arguments read off positive variables in `range(1, len(assignment), step)`; with one, the positive literals |
| Theories.ExtractedInLabel | solved_af/theories.py:303-313 | with three variables per argument, a is extracted exactly when its in-label variable is a positive literal below `len(assignment)` |
| Tasks.NegateClause | solved_af/tasks.py:82-83 | the negation has one literal per literal of the clause |
| Tasks.NegateClauseInvolution | solved_af/tasks.py:82-83 | negating twice gives back the clause |
| Tasks.BlockingClauseMeaning | solved_af/tasks.py:117-120 | the exclusion clause holds under a set of true variables exactly when one of the solution's positive literals is false there, so the excluded solution no longer satisfies the theory |
| Tasks.ExcludeAssignment | solved_af/tasks.py:105-121 | as written: the content gains the rendered negation of the positive literals, with no line break, and the clause count goes up by one |
| Tasks.AsWrittenExclusionsShareLine | solved_af/tasks.py:105-121 | after two exclusions, the last line of the text is `-1 0-2 0`, which a line-by-line clause reader rejects |
| Tasks.ExclusionsShareLine | solved_af/tasks.py:119-121 | any two clauses added as written end up on the same line |
| Tasks.MergedLineRejected | solved_af/tasks.py:119-121 | read as one clause per line, the merged line `-1 0-2 0` is rejected, since `0-2` is not an integer |
| Tasks.ExcludeAssignmentOnLine | solved_af/tasks.py:105-121 | corrected: the content gains the negation clause as a line of its own and the clause count goes up by one |
| Tasks.ExclusionReadsBack | solved_af/tasks.py:105-121 | after the corrected exclusion, the DIMACS text reads back to the old clauses plus the blocking clause, with the clause count one higher |
| Tasks.ExtractAssignment | solved_af/tasks.py:86-102 | a result exists only when the output has a second-to-last line |
| Tasks.ModelLineWords | solved_af/tasks.py:99-102 | a solver model line `v l1 … ln 0` splits into `v`, the literals' texts and `0` |
| Tasks.ExtractAssignmentRoundTrip | solved_af/tasks.py:99-102 | from solver output whose second-to-last line is `v l1 … ln 0`, the assignment read back is exactly l1 … ln |
| Tasks.CredulousDecision | solved_af/tasks.py:184-203 | true exactly when some extension contains the argument |
| Tasks.SkepticalDecision | solved_af/tasks.py:206-223 | true exactly when every extension contains the argument |
| Tasks.EmptyEnumerationDecisions | solved_af/tasks.py:184-223 | with no extension the credulous decision is false and the skeptical one true |
| Tasks.SkepticalCredulousDuality | solved_af/tasks.py:184-223 | skeptical acceptance is the absence of an extension without the argument, and on a non-empty enumeration it implies credulous acceptance |
| Tasks.DecisionsOnElements | solved_af/tasks.py:318-356 | both decisions depend only on the set of extensions, not their order or repetition, so they agree on the maximal set however it is listed |
| Tasks.IterChain | solved_af/tasks.py:248-259 | the iterates of a monotone function from ∅ form an ascending chain |
| Tasks.IterBelow | solved_af/tasks.py:230-261 | every iterate lies below every pre-fixpoint |
| Tasks.LeastFixpoint | solved_af/tasks.py:230-261 | an iterate that is a fixpoint includes every iterate and lies below every pre-fixpoint: it is the least fixpoint |
| Tasks.KleeneIterate | solved_af/tasks.py:248-261 | the loop stops, and its result is an iterate that the next step does not change |
| Tasks.DefendedInDefends | solved_af/framework.py:164-167 | defence computed over the attack list agrees with the framework's defence |
| Tasks.CharacteristicAgrees | solved_af/framework.py:144-167 | `characteristic` agrees with the specification function of F used for the fixpoint proof |
| Tasks.CharacteristicOfMonotone | solved_af/framework.py:164-167 | F is monotone on the framework's arguments |
| Tasks.IterateStep | solved_af/tasks.py:251-259 | each iterate lies within the arguments, and `characteristic` of an iterate is the next iterate, which includes it |
| Tasks.GroundedIterate | solved_af/tasks.py:230-261 | an iterate that the next step does not change is a subset of the arguments, a fixpoint of F, below every fixpoint, and includes every iterate |
| Tasks.GroundedSingleEnumeration | solved_af/tasks.py:230-261 | terminates; the result lies within the arguments, is a fixpoint of F, lies below every fixpoint, includes every F^i(∅) and is one of them: the union of the iterates |
| Tasks.GroundedCredulousDecision | solved_af/tasks.py:264-281 | true exactly when the argument is in some F^i(∅), equivalently in every fixpoint of F |
| Tasks.PreferredSingleEnumeration | solved_af/tasks.py:327-338 | `None` exactly when there is no complete extension; otherwise one of the maximal complete extensions |
| Tasks.SetToSeq | solved_af/tasks.py:333 | lists the members of a set |
| Tasks.CodeInjective | solved_af/tasks.py:392-430 | distinct tasks have distinct codes |
| Tasks.TableKinds | solved_af/tasks.py:392-430 | the first table holds only enumeration tasks and the second only decision tasks |
| Tasks.Codes | solved_af/tasks.py:433-435 | one code per task, in order |
| Tasks.Lookup | solved_af/tasks.py:452-454 | a task is found exactly when some entry of the table has that code, and it is that entry |
| Tasks.GetTasks | solved_af/tasks.py:433-435 | 14 codes: the 7 enumeration codes in table order, then the 7 decision codes |
| Tasks.GetTaskMethod | solved_af/tasks.py:438-481 | success gives the task with that code and the requested kind; failure is exit code 1 with the message for the requested kind |
| Tasks.TasksResolve | solved_af/tasks.py:433-481 | `getTaskMethod` succeeds exactly when the code is among the first 7 listed codes for an enumeration, or among the last 7 for a decision |
| Tasks.SolveDecision | solved_af/tasks.py:300-389 | each decision task decides by the right semantics: grounded is membership in every fixpoint; complete and stable are any/all over the oracle's enumeration; preferred is any/all over its maximal complete extensions |
| Tasks.First | solved_af/tasks.py:124-151 | the single enumeration is the oracle's first extension, `None` when there is none |
| Tasks.SolveEnumeration | solved_af/tasks.py:284-371 | each enumeration task answers in its shape: EE-CO/EE-ST the oracle's extensions, EE-PR exactly the maximal complete ones, SE-CO/SE-ST the first, SE-GR the least fixpoint, SE-PR a maximal complete extension or `None` when there is none |
| IO.ValidateArgument | solved_af/io.py:62-77 | an error exactly when the name has inner whitespace, contains a comma, or is already defined; the whitespace/comma message takes precedence |
| IO.ValidateAttack | solved_af/io.py:35-59 | no error exactly when the attack has two parts, both defined, and is not already listed |
| IO.WellFormedArgument | solved_af/io.py:62-77 | an argument that passes validation keeps the parsed framework well formed (distinct names without whitespace or comma) |
| IO.WellFormedAttack | solved_af/io.py:35-59 | an attack that passes validation keeps the parsed framework well formed (pairs of defined names, no duplicates) |
| IO.StripAllAt | solved_af/io.py:103 | each line is stripped on its own |
| IO.PivotIndex | solved_af/io.py:109-112 | the index of the first line containing `#`, or the number of lines when there is none |
| IO.NonBlank | solved_af/io.py:105-107 | blank lines are skipped |
| IO.TGFArgumentLine | solved_af/io.py:114-121 | without validation, a non-blank line before the pivot adds that line as an argument |
| IO.TGFAttackLine | solved_af/io.py:127-134 | without validation, a non-blank line after the pivot adds its whitespace-split parts as an attack |
| IO.TGFPivotLine | solved_af/io.py:109-112 | the first line with `#` turns the pivot on and adds nothing |
| IO.TGFRejectArgument | solved_af/io.py:114-138 | with validation, an argument line read before the pivot means the input is rejected |
| IO.TGFRejectAfterPivot | solved_af/io.py:123-138 | with validation, any non-blank line after the pivot means the input is rejected |
| IO.TGFDone | solved_af/io.py:102-140 | at the end of the loop, without validation the arguments are the non-blank lines before the pivot and the attacks the split lines after it; with validation only a file with nothing but one pivot line survives, with nothing read |
| IO.ReadTGFLine | solved_af/io.py:102-138 | one iteration of the `_parseTGF` loop keeps the reading invariant; it fails only with validation on an input that is not just a pivot, with the "does not contain #" error when the first non-blank line has no `#` |
| IO.ReadTGFLines | solved_af/io.py:102-138 | the loop over all lines keeps the reading invariant or fails as `ReadTGFLine` does |
| IO.ParseTGF | solved_af/io.py:80-140 | without validation the result is the arguments before the pivot and the split attack lines after it; with validation it succeeds exactly when the file holds only a pivot line, with empty lists, and an argument line first gives the "does not contain #" error |
| IO.MatchParensOf | solved_af/io.py:164 | the `(args).` part of the pattern matches the longest run of word, comma and space characters |
| IO.MatchStatementOf | solved_af/io.py:164-174 | a line of the form `type(args).` matches with that type and those args |
| IO.MatchStatementShape | solved_af/io.py:164-174 | every match comes from a line of the form `type(args).` |
| IO.APXSnoc | solved_af/io.py:166-193 | one more line adds its args to the arguments when its type is `arg`, its comma-split stripped parts to the attacks when its type is `att`, and nothing otherwise |
| IO.APXOtherLine | solved_af/io.py:169-172 | lines that do not match, or of another type, are ignored |
| IO.APXArgumentLine | solved_af/io.py:176-183 | an `arg` line adds its args text as an argument |
| IO.APXAttackLine | solved_af/io.py:185-193 | an `att` line adds the comma-split, stripped parts as an attack |
| IO.ReadAPXLine | solved_af/io.py:166-193 | one iteration of the `_parseAPX` loop keeps the reading invariant; without validation it never fails, and with validation it fails exactly when `APXLineError` finds the `arg` line redefining or malformed, or the `att` line invalid, against the statements read so far, with that message |
| IO.APXFirstErrorNone | solved_af/io.py:166-193 | the first-error reading of a file and the line-by-line one agree: no line fails exactly when every line validates against those before it |
| IO.APXRejected | solved_af/io.py:176-193 | the first line that fails validation decides the error of the whole file, which then does not validate |
| IO.ParseAPX | solved_af/io.py:143-195 | without validation it succeeds with exactly the `arg` and `att` statements; any success is that result; with validation it succeeds exactly when every line validates against the lines before it (`APXValidates`), is then well formed, and otherwise fails with the first failing line's message |
| IO.ParseInput | solved_af/io.py:198-237 | a format other than `tgf`/`apx` is the unsupported-format error; otherwise the result is that of the chosen parser, including which validated files each accepts |
| IO.ReadListFormatOutput | solved_af/io.py:337-338 | `formatOutput` with `,` reads back to its items when the items are non-empty and comma-free |
| IO.ReadOutputDecision | solved_af/io.py:341-354 | the decision renders as `YES` or `NO` and reads back |
| IO.ReadOutputSE | solved_af/io.py:361-378 | an SE answer renders as `NO` for `None` and as the formatted list otherwise, and reads back |
| IO.FormatAll | solved_af/io.py:398 | one formatted list per extension |
| IO.OutputEEBrackets | solved_af/io.py:381-401 | the EE rendering opens one bracket per extension plus the outer one |
| SolvedAF.ValidTasksAreTheTable | argumentation_framework/solved_af.py:45-47 | the 14 `valid_tasks` codes are exactly `getTasks()`, in the same order |
| SolvedAF.EnumerationCodesListed | argumentation_framework/solved_af.py:11-23 | the first seven valid codes are the enumeration tasks' codes |
| SolvedAF.DecisionCodesListed | argumentation_framework/solved_af.py:29-41 | the last seven valid codes are the decision tasks' codes |
| SolvedAF.CodeKinds | argumentation_framework/solved_af.py:45-47 | the enumeration codes do not start with `D` and the decision codes do |
| SolvedAF.EnumerationCodes | argumentation_framework/solved_af.py:62-67 | for a valid code, `getTaskMethod` succeeds exactly when the code's kind matches the requested kind |
| SolvedAF.TaskType | argumentation_framework/solved_af.py:63 | `task_name[:2]`: a prefix of the code, two characters long when the code is |
| SolvedAF.Translate | argumentation_framework/solved_af.py:71 | `valuesToArguments` succeeds exactly when every value indexes the name list, and gives one name per value |
| SolvedAF.TranslateAt | argumentation_framework/solved_af.py:71 | the i-th name is `valueToArgument` of the i-th value |
| SolvedAF.TranslateValues | argumentation_framework/solved_af.py:71 | with distinct names, values 1..n translate to exactly the names whose values are listed, each back to its own value |
| SolvedAF.TranslateExtension | argumentation_framework/solved_af.py:70-71 | an extension translates to exactly the names of its members, in ascending order of value |
| SolvedAF.TranslateAll | argumentation_framework/solved_af.py:73 | every extension translates or the whole translation fails; one name list per extension |
| SolvedAF.TranslateExtensions | argumentation_framework/solved_af.py:72-73 | each translated extension holds exactly the names of its members |
| SolvedAF.ParseSolution | argumentation_framework/solved_af.py:65-77 | an SE task answers a name list and an EE task a list of name lists; a timeout or failure gives the empty default |
| SolvedAF.FindExtensions | argumentation_framework/solved_af.py:54-77 | a decision code exits with code 1 (`getTaskMethod` runs outside the `try`); an enumeration code gives the parsed run |
| SolvedAF.FindSingleExtension | argumentation_framework/solved_af.py:63-71 | an SE run with an extension returns exactly the names of its members, in ascending order of value |
| SolvedAF.FindAllExtensions | argumentation_framework/solved_af.py:63-73 | an EE run returns, per extension, exactly the names of its members |
| SolvedAF.TimeoutLooksEmpty | argumentation_framework/solved_af.py:65-77 | for SE a timeout, no solution and the empty extension all give the same answer `[]` |
| SolvedAF.FindAcceptance | argumentation_framework/solved_af.py:82-101 | an enumeration code exits with code 1 and an unknown name fails; otherwise the answer is true exactly when the run for the argument's value finishes with true, so a timeout answers false |
| SolvedAF.AcceptanceOfName | argumentation_framework/solved_af.py:92-97 | with distinct names, deciding the i-th name decides value i + 1 |
| Frameworks.Range | argumentation_framework/frameworks.py:50 | `np.arange(n)`: the list 0..n-1 |
| Frameworks.PyIndex | argumentation_framework/frameworks.py:75-82 | numpy indexing: an index in bounds (negative ones from the end) names a cell below n, a non-negative one itself |
| Frameworks.Clamp | argumentation_framework/frameworks.py:136 | `max(0, min(v, 1))`: 0 or 1, 0 for v ≤ 0 and 1 for v ≥ 1 |
| Frameworks.ClampReal | argumentation_framework/frameworks.py:82 | `min(max(v, 0), 1)`: in [0, 1], v itself when v is, 0 exactly when v ≤ 0 |
| Frameworks.NonzeroBelow | argumentation_framework/frameworks.py:51 | `np.nonzero(mask)`: exactly the positions of nonzero entries, in ascending order |
| Frameworks.SumBelowCount | argumentation_framework/frameworks.py:25 | for a 0/1 mask, the sum is the number of nonzero entries |
| Frameworks.PrefixNonzero | argumentation_framework/frameworks.py:50-52 | for a mask whose nonzero entries come first, the nonzero positions are 0..t-1 |
| Frameworks.MatrixCellsMembers | argumentation_framework/frameworks.py:101 | `np.argwhere` lists exactly the nonzero cells, in row-major order |
| Frameworks.BetweenMembers | argumentation_framework/frameworks.py:102-103 | the filter keeps exactly the cells whose two endpoints are unmasked arguments |
| Frameworks.RelationEndpoints | argumentation_framework/frameworks.py:95-104 | every pair of `attacks_relation` joins two listed arguments |
| Frameworks.RangeDistinct | argumentation_framework/frameworks.py:50 | `np.arange(n)` has no repeated value |
| Frameworks.ScanMatrix | argumentation_framework/frameworks.py:100-104 | the loop over the nonzero cells gives exactly the attacks between unmasked arguments, in row-major order, and fails only where evaluating `arguments` raises |
| Frameworks.ScanRow | argumentation_framework/frameworks.py:101-103 | one row of the scan: the row's nonzero cells between unmasked arguments |
| Frameworks.ArgumentationFramework.constructor | argumentation_framework/frameworks.py:14-17 | an all-zero n×n attack matrix, every argument unmasked, no data; `arguments` is 0..n-1 |
| Frameworks.ArgumentationFramework.Capacity | argumentation_framework/frameworks.py:28-34 | `num_max_arguments` is the length of the mask, never negative |
| Frameworks.ArgumentationFramework.Arguments | argumentation_framework/frameworks.py:45-52 | where defined, the positions of the unmasked arguments |
| Frameworks.ArgumentationFramework.ArgumentsArePrefix | argumentation_framework/frameworks.py:25-52 | `arguments` is defined only when the unmasked arguments are 0..k-1, and then `num_arguments` is k |
| Frameworks.ArgumentationFramework.ZeroOneArguments | argumentation_framework/frameworks.py:50-72 | for a boolean mask, `arguments` is defined exactly when the unmasked positions form a prefix |
| Frameworks.ArgumentationFramework.AttacksMatrix | argumentation_framework/frameworks.py:85-91 | a copy of the matrix, row by row |
| Frameworks.ArgumentationFramework.AttacksRelation | argumentation_framework/frameworks.py:94-104 | the attacks between unmasked arguments in row-major order, or the error of `arguments` |
| Frameworks.ArgumentationFramework.RelationMembers | argumentation_framework/frameworks.py:94-104 | a pair is listed exactly when both endpoints are below `num_arguments` and the capacity and the cell is nonzero |
| Frameworks.ArgumentationFramework.PairsDefined | argumentation_framework/frameworks.py:94-104 | `attacks_relation` is defined whenever `arguments` is |
| Frameworks.ArgumentationFramework.SetArgumentMask | argumentation_framework/frameworks.py:63-72 | raises, changing nothing, exactly when the length of v differs from the mask's; otherwise the mask becomes `v > 0` entry by entry; the attack matrix and the data are unchanged either way |
| Frameworks.ArgumentationFramework.MaskValue | argumentation_framework/frameworks.py:82 | the stored value lies in [0, 1] and is 0 exactly when v ≤ 0; a boolean mask stores 0 or 1, a float mask the clamped value |
| Frameworks.ArgumentationFramework.MaskArgument | argumentation_framework/frameworks.py:75-82 | raises `IndexError`, changing nothing, exactly when n is outside -cap..cap−1; otherwise only entry n of the mask (counted from the end when negative) changes, to the clamped value; the attack matrix is untouched |
| Frameworks.ArgumentationFramework.SetData | argumentation_framework/frameworks.py:107-115 | raises, changing nothing, exactly when idx is outside 0..num_arguments−1; otherwise the keywords are merged into the data of idx; other arguments' data, the matrix and the mask are unchanged |
| Frameworks.ArgumentationFramework.GetData | argumentation_framework/frameworks.py:118-125 | no result, changing nothing, exactly when idx is outside 0..num_arguments−1; otherwise the data of idx, an empty dictionary (then recorded) when there is none; nothing else changes |
| Frameworks.ArgumentationFramework.SetAttacks | argumentation_framework/frameworks.py:128-136 | raises `IndexError`, changing nothing, exactly when frm or to is outside -cap..cap−1; otherwise cell (frm, to) becomes the clamped value and no other cell changes, so every cell stays 0 or 1 |
| Frameworks.BuildGraph | argumentation_framework/frameworks.py:155-158 | the solver framework over the unmasked arguments and their attacks |
| Frameworks.ArgumentationFramework.ToSolvedAF | argumentation_framework/frameworks.py:149-158 | defined exactly when `arguments` is; then a valid solver framework whose names are the unmasked arguments, with one attack per pair of `attacks_relation` |
| Frameworks.NormalizeExtensions | argumentation_framework/frameworks.py:171-176 | never empty: `[[]]` for no result, `[enum]` for a single extension, the list itself otherwise |
| Frameworks.NormalizeTimedOut | argumentation_framework/frameworks.py:169-176 | a timed-out run, no extension, and one empty extension all give `[[]]` |
| Frameworks.Extensions | argumentation_framework/frameworks.py:161-176 | a decision code exits with code 1; otherwise a non-empty list, `[[]]` after a timeout, one extension for an SE task |
| Frameworks.ArgumentationFramework.SolveExtensions | argumentation_framework/frameworks.py:161-176 | fails exactly when `arguments` raises or the code is not an enumeration; otherwise exactly the extensions `Reported` reads off the solver's answer over `0..num_arguments`: non-empty, `[[]]` after a timeout |
| Frameworks.ArgumentsOfPositiveValues | argumentation_framework/solved_af.py:70-71 | solver values 1..k name exactly the arguments one below them, once each, in ascending order |
| Frameworks.TranslateOnRange | argumentation_framework/solved_af.py:70-71 | on the framework `to_solved_af` builds, whose names are `0..k`, `valuesToArguments` fails exactly when a value is outside -k+1..k and otherwise names argument v − 1, counting values ≤ 0 from the end |
| Frameworks.TranslateAllOnRange | argumentation_framework/solved_af.py:72-73 | the EE comprehension on such a framework fails exactly when one extension has a value outside -k+1..k, and otherwise names each extension's arguments |
| Frameworks.ParsedOnRange | argumentation_framework/frameworks.py:161-176 | the normalised adapter answer over `0..k` is exactly what `Reported` reads off the solver's answer |
| Frameworks.ExtensionsReported | argumentation_framework/frameworks.py:161-176 | on the solver's framework over `0..k`, `solve_extensions` returns exactly what `Reported` reads off the answer |
| Frameworks.CriteriaKinds | argumentation_framework/frameworks.py:204-227 | a valid code starts with SE or EE exactly when it is an enumeration code, and otherwise with DC or DS |
| Frameworks.Decision | argumentation_framework/frameworks.py:179-188 | fails for an enumeration code or an argument outside the framework; otherwise true exactly when the run for the argument's value finishes with true |
| Frameworks.ArgumentationFramework.SolveDecision | argumentation_framework/frameworks.py:179-188 | fails exactly when `arguments` raises, the code is an enumeration code or the argument is masked; otherwise the run's answer for argument + 1, false on timeout |
| Frameworks.SameKey | argumentation_framework/frameworks.py:205 | two extensions get the same `str(sorted(x))` key exactly when they have the same members with the same multiplicities |
| Frameworks.ExtensionKeysMatch | argumentation_framework/frameworks.py:205-208 | one key set is included in the other exactly when each extension has a same-members extension on the other side |
| Frameworks.AgreementOnPrefix | argumentation_framework/frameworks.py:210-225 | where `arguments` is defined on both sides the mask cases never apply, and the decision branch compares the two decisions on every argument |
| Frameworks.ArgumentationFramework.EquivalentTo | argumentation_framework/frameworks.py:193-227 | for SE/EE, no answer where `arguments` raises on either side, and otherwise true exactly when the sorted extensions each side's solver answer yields form the same set; for DC/DS, true when `num_arguments` is 0, no answer where `arguments` raises, and otherwise true exactly when the two sides take the same decision on every argument below `num_arguments`, a masked argument counting as not accepted and an unmasked one as accepted exactly when its run finishes with true |
| Frameworks.ArgumentationFramework.SameExtensions | argumentation_framework/frameworks.py:204-208 | the SE/EE branch calls `solve_extensions` on both sides: no answer where either raises, and otherwise equality of the two sets of sorted extensions |
| Frameworks.ArgumentationFramework.SameDecisions | argumentation_framework/frameworks.py:210-226 | the DC/DS branch: true when there are no arguments, no answer where `arguments` raises on either side, and otherwise agreement on every argument |
| Frameworks.ArgumentationFramework.DecideAll | argumentation_framework/frameworks.py:211-226 | the loop over `0..num_arguments` answers true exactly when both sides take the same decision on every argument |
| Frameworks.ArgumentationFramework.SideDecide | argumentation_framework/frameworks.py:211-222 | in one pass, a side that masks the argument decides false, and a side that lists it takes `solve_decision`'s answer |
| Worlds.Set | argumentation_framework/frameworks.py:306-310 | `curr_p_0[i, j] = 1` on a copy: cell (i, j) takes the value, every other cell and the shape are kept |
| Worlds.FirstUncertain | argumentation_framework/frameworks.py:300-304 | `np.argwhere((curr > 0) * (curr < 1))[0]`: the first cell strictly between 0 and 1 in row-major order, none exactly when every cell is 0 or 1 or outside (0, 1) |
| Worlds.RowFirst | argumentation_framework/frameworks.py:300 | the first uncertain cell of a row from column j on |
| Worlds.FirstFrom | argumentation_framework/frameworks.py:300 | the first uncertain cell from row i on, in row-major order |
| Worlds.Resolve | argumentation_framework/frameworks.py:306-311 | fixing an uncertain cell to 0 or 1 lowers the number of uncertain cells by one |
| Worlds.Branches | argumentation_framework/frameworks.py:305-311 | the two children of a world: the cell set to 1 with weight p·proba and to 0 with weight p·(1 − proba); their weights add up to the parent's |
| Worlds.BranchesSound | argumentation_framework/frameworks.py:305-311 | the children of a sound world (non-negative weight, a refinement of the normal form) are sound |
| Worlds.BranchesCost | argumentation_framework/frameworks.py:298-311 | the queue's measure drops when a world is replaced by its two children, so the worklist terminates |
| Worlds.Rest | argumentation_framework/frameworks.py:299-311 | one step of the worklist keeps every queued world the shape of the normal form |
| Worlds.RestWeight | argumentation_framework/frameworks.py:298-311 | one step of the worklist lowers the queue's measure |
| Worlds.ExpandMass | argumentation_framework/frameworks.py:295-311 | the worklist yields worlds whose weights add up to those of the queue it started from |
| Worlds.ExpandResolved | argumentation_framework/frameworks.py:301-302 | every yielded world has no uncertain cell and the normal form's shape |
| Worlds.ExpandSound | argumentation_framework/frameworks.py:295-311 | from a queue of sound worlds only sound worlds are yielded |
| Worlds.ResolvedZeroOne | argumentation_framework/frameworks.py:301-302 | a yielded refinement of a matrix with entries in [0, 1] has only 0 and 1 cells |
| Worlds.AllWorldsSound | argumentation_framework/frameworks.py:295-311 | the yielded worlds' probabilities sum to 1, each is non-negative and each world is a 0/1 refinement of the normal form |
| Worlds.CertainWorld | argumentation_framework/frameworks.py:297-302 | a normal form without uncertain cells yields itself alone, with probability 1 |
| Worlds.ExpandCount | argumentation_framework/frameworks.py:295-311 | the number of yielded worlds is the sum over the queue of 2 to the number of its uncertain cells |
| Worlds.WorldCount | argumentation_framework/frameworks.py:295-311 | a normal form with u uncertain cells yields exactly 2^u worlds |
| Worlds.WeightAppend | argumentation_framework/frameworks.py:308-311 | the queue's measure is additive over concatenation |
| Worlds.MassAppend | argumentation_framework/frameworks.py:308-311 | total probability is additive over concatenation |
| Aggregation.DropGroundMembers | argumentation_framework/frameworks.py:369-370 | removing argument 0 and shifting down by one keeps exactly the members x with x + 1 in the extension |
| Aggregation.DropGroundAscending | argumentation_framework/frameworks.py:367-372 | the shifted extension of a sorted one is sorted |
| Aggregation.Key | argumentation_framework/frameworks.py:367-372 | no key (the assertion fails) exactly when the ground-truth argument 0 is missing; otherwise the sorted shifted members |
| Aggregation.KeyOfSameArguments | argumentation_framework/frameworks.py:367-372 | two extensions listing the same arguments in any order get the same key |
| Aggregation.IndexOf | argumentation_framework/frameworks.py:375-376 | the dictionary lookup: a position holding the key, none exactly when no entry has that key |
| Aggregation.AddMassTotal | argumentation_framework/frameworks.py:375 | `hash_proba[hashed] += p` raises the total mass by exactly p |
| Aggregation.AddMassEntries | argumentation_framework/frameworks.py:375-376 | adding mass keeps keys distinct and masses non-negative, and adds the key if it was missing |
| Aggregation.Keys | argumentation_framework/frameworks.py:386-387 | the keys of the accumulator in insertion order |
| Aggregation.GroundKeys | argumentation_framework/frameworks.py:366-372 | one key per extension when defined |
| Aggregation.GroundKeysDefined | argumentation_framework/frameworks.py:368 | every extension has a key exactly when every extension contains argument 0 |
| Aggregation.AllGroundedMeans | argumentation_framework/frameworks.py:368 | the ground-truth check holds exactly when every extension contains 0 |
| Aggregation.GroundedMeans | argumentation_framework/frameworks.py:368 | the check over all worlds holds exactly when every extension of every world contains 0 |
| Aggregation.FileAllTotal | argumentation_framework/frameworks.py:366-376 | filing a world's keys adds p once per extension to the total |
| Aggregation.FileAllEntries | argumentation_framework/frameworks.py:366-376 | filing keys keeps keys distinct and masses non-negative |
| Aggregation.WorldMassDefined | argumentation_framework/frameworks.py:360-377 | solving one world succeeds exactly when every extension contains argument 0 |
| Aggregation.WorldMassTotal | argumentation_framework/frameworks.py:360-377 | one world adds p times its number of extensions to the total |
| Aggregation.WorldMassEntries | argumentation_framework/frameworks.py:360-377 | one world keeps keys distinct and masses non-negative |
| Aggregation.MassFromDefined | argumentation_framework/frameworks.py:379-383 | the fold over the worlds succeeds exactly when every extension of every world contains 0 |
| Aggregation.MassFromTotal | argumentation_framework/frameworks.py:379-383 | the fold's total is the start total plus each world's probability times its number of extensions |
| Aggregation.MassFromEntries | argumentation_framework/frameworks.py:379-383 | the fold keeps keys distinct and, for non-negative world weights, masses non-negative |
| Aggregation.ExtensionMassSound | argumentation_framework/frameworks.py:356-387 | the result is defined exactly when the ground truth is in every extension; then the keys are distinct, the masses non-negative and their total the weighted count of extensions |
| Aggregation.AddMassOf | argumentation_framework/frameworks.py:375-376 | `hash_proba[hashed] += p` raises the mass read under `hashed` by p and leaves every other key's mass unchanged |
| Aggregation.FileAllOf | argumentation_framework/frameworks.py:366-376 | filing a world's keys adds p to a key once per occurrence of that key |
| Aggregation.FileAllKeys | argumentation_framework/frameworks.py:366-376 | after filing, a key is listed exactly when it was listed before or is one of the filed keys |
| Aggregation.GroundKeysOf | argumentation_framework/frameworks.py:366-373 | the keys of one world occur as often as its extensions hashed to them, and are exactly the keys of its extensions |
| Aggregation.WorldMassOf | argumentation_framework/frameworks.py:360-377 | one world of probability p adds p to a key per extension hashed to it, and lists exactly the keys of its extensions |
| Aggregation.MassFromOf | argumentation_framework/frameworks.py:379-383 | over all worlds the mass under a key grows by the sum over worlds of p times the number of that world's extensions hashed to the key |
| Aggregation.MassFromKeys | argumentation_framework/frameworks.py:379-383 | over all worlds a key is listed exactly when it was listed before or some extension of some world hashes to it |
| Aggregation.ExtensionMassPerKey | argumentation_framework/frameworks.py:356-387 | each yielded key carries the sum over worlds of p times the number of that world's extensions with that key, and the keys yielded are exactly those of some extension of some world |
| Aggregation.OneExtensionEach | argumentation_framework/frameworks.py:356-387 | when every world has one extension, the weighted count is the worlds' total probability |
| Aggregation.RepeatIsProduct | argumentation_framework/frameworks.py:375 | adding p to the total n times adds n·p |
| Aggregation.DecisionSplit | argumentation_framework/frameworks.py:412-422 | `v[0] + v[1]` is the total probability, and `v[1]` lies between 0 and that total for non-negative weights |
| Aggregation.RowPairBounds | argumentation_framework/frameworks.py:471-476 | one world against all worlds of the other side adds between 0 and p_0 times the other side's mass |
| Aggregation.RowPairAgree | argumentation_framework/frameworks.py:471-476 | a world equivalent to every world of the other side adds exactly p_0 times the other side's mass |
| Aggregation.PairBounds | argumentation_framework/frameworks.py:465-482 | the equivalence probability lies between 0 and the product of the two total masses |
| Aggregation.AgreeSplit | argumentation_framework/frameworks.py:465-482 | agreement of every pair holds for the head world and for the remaining worlds |
| Aggregation.PairAgree | argumentation_framework/frameworks.py:465-482 | when every pair of worlds is equivalent, the equivalence probability is the product of the two masses |
| Probabilistic.Adjacency | argumentation_framework/frameworks.py:323-330 | the c×c 0/1 attack matrix of a world: 1 exactly where the world's cell is nonzero |
| Probabilistic.Graphs | argumentation_framework/frameworks.py:320-331 | each world becomes its probability paired with its attack matrix, in order |
| Probabilistic.GraphsMass | argumentation_framework/frameworks.py:320-331 | building the frameworks keeps the total probability |
| Probabilistic.GraphsSound | argumentation_framework/frameworks.py:295-331 | the enumerated frameworks' probabilities are non-negative and sum to 1 |
| Probabilistic.Solved | argumentation_framework/frameworks.py:360-363 | each world's probability paired with the solver's extensions of its framework |
| Probabilistic.OkMeansSolved | argumentation_framework/frameworks.py:360-383 | a successful aggregation means the solver succeeded on every world |
| Probabilistic.OutcomeIsMass | argumentation_framework/frameworks.py:356-387 | when the solver succeeds on every world, the aggregation succeeds exactly when the ground-truth check does, with the same masses; the only error is the missing ground truth |
| Probabilistic.SolvedProbability | argumentation_framework/frameworks.py:360-383 | the solved worlds carry the same total probability |
| Probabilistic.WorldMassStep | argumentation_framework/frameworks.py:366-376 | one step of the per-extension loop: stop without key, else add p under the key and go on |
| Probabilistic.FileWorld | argumentation_framework/frameworks.py:366-376 | the loop over one world's extensions computes the per-world aggregation |
| Probabilistic.FoldExtensions | argumentation_framework/frameworks.py:379-387 | the loop over the worlds computes the aggregation, stopping at the first solver error or missing ground truth |
| Probabilistic.ExtensionProbabilities | argumentation_framework/frameworks.py:334-387 | over all worlds of a normal form: distinct keys, non-negative masses; the only failure besides the solver's is the missing ground truth; with one extension per world the masses sum to 1 |
| Probabilistic.Decisions | argumentation_framework/frameworks.py:415-420 | every world's probability paired with the decision on its framework, or the first world's error |
| Probabilistic.FirstFailure | argumentation_framework/frameworks.py:415-420 | the error reported is that of the first world whose decision fails |
| Probabilistic.DecisionsSnoc | argumentation_framework/frameworks.py:415-420 | the decisions of k + 1 worlds extend those of the first k |
| Probabilistic.TrueMassSnoc | argumentation_framework/frameworks.py:418 | `v[int(decision)] += p` adds p to `v[1]` exactly for a true decision |
| Probabilistic.FoldDecisions | argumentation_framework/frameworks.py:412-422 | the loop returns `v[1]`, the total probability of the worlds where the decision is true, or the solver's error |
| Probabilistic.DecidedMassOf | argumentation_framework/frameworks.py:412-422 | the decided worlds carry the worlds' total probability, each non-negative |
| Probabilistic.DecisionProbability | argumentation_framework/frameworks.py:390-422 | over all worlds of a normal form the decision probability lies in [0, 1] |
| Probabilistic.Product | argumentation_framework/frameworks.py:465 | `itertools.product` has |xs|·|ys| pairs |
| Probabilistic.FlatAppend | argumentation_framework/frameworks.py:471-480 | the equivalence mass is additive over concatenated pair lists |
| Probabilistic.FlatRow | argumentation_framework/frameworks.py:465-480 | the pairs of one world with all the other side's worlds give that row's mass |
| Probabilistic.ProductMass | argumentation_framework/frameworks.py:465-482 | the loop over the flat product gives the row-by-row double sum |
| Probabilistic.FoldEquivalence | argumentation_framework/frameworks.py:467-482 | the loop's `p` is the sum of p_0·p_1 over the equivalent pairs |
| Probabilistic.EquivalenceProbability | argumentation_framework/frameworks.py:425-482 | over all worlds of two normal forms the equivalence probability lies in [0, 1] |
| Probabilistic.CertainEquivalence | argumentation_framework/frameworks.py:425-482 | when every pair of worlds is equivalent the probability is 1 |
| Probabilistic.CertainPair | argumentation_framework/frameworks.py:471-482 | two distributions of mass 1 that agree everywhere give probability 1 |
| ProbabilisticWrapping.ProbabilisticWrapper.constructor | argumentation_framework/frameworks.py:243-246 | an (n+1)×(n+1) matrix with the wrapped attack matrix copied below and right of row and column 0, zeros elsewhere; every cell is 0 or 1 |
| ProbabilisticWrapping.Wrap | argumentation_framework/frameworks.py:243-246 | the copy succeeds exactly when numpy can broadcast the capacity×capacity matrix into the n×n block |
| ProbabilisticWrapping.ProbabilisticWrapper.Cell | argumentation_framework/frameworks.py:253-258 | a normal-form cell: in [0, 1], 0 where the wrapped matrix has no attack, the stored probability otherwise |
| ProbabilisticWrapping.ProbabilisticWrapper.NormalRow | argumentation_framework/frameworks.py:253-258 | one row of the normal form, cell by cell |
| ProbabilisticWrapping.ProbabilisticWrapper.NormalForm | argumentation_framework/frameworks.py:253-258 | `p_attacks_normal_form` has n + 1 rows |
| ProbabilisticWrapping.ProbabilisticWrapper.NormalFormCells | argumentation_framework/frameworks.py:253-258 | the normal form is square with every cell the product of stored probability and attack, in [0, 1] |
| ProbabilisticWrapping.ProbabilisticWrapper.CertainHasOneWorld | argumentation_framework/frameworks.py:295-311 | a wrapper with no probability set enumerates one world, itself, with probability 1 |
| ProbabilisticWrapping.ProbabilisticWrapper.GetPAttacks | argumentation_framework/frameworks.py:261-262 | the normal form without row and column 0 |
| ProbabilisticWrapping.ProbabilisticWrapper.SetPAttacks | argumentation_framework/frameworks.py:265-276 | cell (frm+1, to+1) reads back p, the wrapped attack becomes `p > 0`, and no other cell of either matrix changes |
| ProbabilisticWrapping.ProbabilisticWrapper.SetPArg | argumentation_framework/frameworks.py:279-288 | `get_p_arg(argn)` reads back p; only cell (0, argn+1) changes, with a negative argn+1 counted from the end as numpy does |
| ProbabilisticWrapping.ProbabilisticWrapper.GetPArg | argumentation_framework/frameworks.py:291-292 | for every argn numpy accepts, -(n+2) up to n−1, 1 minus cell (0, argn+1) of the normal form counted from the end when negative, in [0, 1]; argn = −1 reads cell (0, 0) |
| ProbabilisticWrapping.ProbabilisticWrapper.YieldAllFrameworks | argumentation_framework/frameworks.py:295-311 | the worklist's worlds are those of the normal form's expansion |
| ProbabilisticWrapping.Worklist | argumentation_framework/frameworks.py:296-311 | the FIFO loop yields exactly the expansion of the start world |
| ProbabilisticWrapping.YieldStep | argumentation_framework/frameworks.py:301-302 | yielding a resolved head keeps the loop invariant and lowers the measure |
| ProbabilisticWrapping.ExpandYield | argumentation_framework/frameworks.py:301-302 | a resolved head is yielded first, then the rest of the queue |
| ProbabilisticWrapping.BranchStep | argumentation_framework/frameworks.py:304-311 | replacing the head by its two children keeps the loop invariant and lowers the measure |
| ProbabilisticWrapping.ExpandBranches | argumentation_framework/frameworks.py:304-311 | replacing the head by its children does not change what is yielded |
| ProbabilisticWrapping.ProbabilisticWrapper.EnumerateFrameworks | argumentation_framework/frameworks.py:314-331 | fails (an index error) exactly when some world's attack lies outside an (n+1)-argument framework or `arguments` raises; otherwise one framework per world, in order, with all n + 1 arguments present and the world's attacks |
| ProbabilisticWrapping.EnumerateWorlds | argumentation_framework/frameworks.py:320-331 | the loop builds one framework per world, or fails exactly as above |
| ProbabilisticWrapping.BuildAll | argumentation_framework/frameworks.py:322-331 | all worlds built in order, none when some world does not fit |
| ProbabilisticWrapping.BuildNext | argumentation_framework/frameworks.py:322-331 | one more world built, keeping the invariant of the loop |
| ProbabilisticWrapping.BuildWorld | argumentation_framework/frameworks.py:323-330 | a fresh framework with all arguments present and the world's attacks, none exactly when an attack index is out of range |
| ProbabilisticWrapping.AllPresent | argumentation_framework/frameworks.py:324-328 | the mask loop leaves every argument 0..n unmasked and no attack |
| ProbabilisticWrapping.Present | argumentation_framework/frameworks.py:326-327 | the mask after unmasking arguments 1..k |
| ProbabilisticWrapping.PresentStep | argumentation_framework/frameworks.py:326-327 | unmasking argument k + 1 extends the mask by one |
| ProbabilisticWrapping.PresentAll | argumentation_framework/frameworks.py:328 | unmasking 0 last leaves every entry 1 |
| ProbabilisticWrapping.MarkAttacks | argumentation_framework/frameworks.py:329-330 | the attack loop succeeds exactly when every attack fits, and then the matrix is the world's adjacency |
| ProbabilisticWrapping.AttacksAre | argumentation_framework/frameworks.py:329-330 | the written cells make `attacks_matrix` the world's adjacency |
| ProbabilisticWrapping.SomeDoesNotFit | argumentation_framework/frameworks.py:329-330 | one world that does not fit makes the whole enumeration fail |
| ProbabilisticWrapping.AllFitSnoc | argumentation_framework/frameworks.py:322-331 | fitting extends one world at a time |
| ProbabilisticWrapping.EnumeratedSnoc | argumentation_framework/frameworks.py:322-331 | the enumeration relation extends one world at a time |
| ProbabilisticWrapping.AttackGraphs | argumentation_framework/frameworks.py:360-363 | each enumerated framework handed to the solver as its attack matrix, probability kept |
| ProbabilisticWrapping.GraphsOf | argumentation_framework/frameworks.py:320-331 | the enumerated frameworks' matrices are the worlds' adjacencies |
| ProbabilisticWrapping.SolverGraphs | argumentation_framework/frameworks.py:379 | the list of (p, framework) pairs as the solver sees them, none exactly when enumeration fails |
| ProbabilisticWrapping.ProbabilisticWrapper.GetPExtension | argumentation_framework/frameworks.py:334-387 | the aggregated extension masses of all worlds, or the enumeration's or solver's error; keys distinct, masses non-negative, summing to 1 when every world has one extension |
| ProbabilisticWrapping.PExtension | argumentation_framework/frameworks.py:356-387 | the same aggregation on a normal form |
| ProbabilisticWrapping.ProbabilisticWrapper.GetPDecision | argumentation_framework/frameworks.py:390-422 | the probability mass of the worlds where the decision on argument + 1 is true, in [0, 1], or the first error |
| ProbabilisticWrapping.PDecision | argumentation_framework/frameworks.py:412-422 | the same on a normal form |
| ProbabilisticWrapping.ProbabilisticWrapper.GetPEquivalentTo | argumentation_framework/frameworks.py:425-482 | the `IndexError` of either enumeration first; then the size assertion of `equivalent_to` when the two wrapped frameworks differ in `num_arguments`, then its criteria assertion for a code not starting with SE, EE, DC or DS; otherwise the sum of p_0·p_1 over equivalent world pairs, in [0, 1], and 1 when every pair is equivalent |
| ProbabilisticWrapping.PEquivalence | argumentation_framework/frameworks.py:465-482 | the same on two normal forms: worlds of sizes n + 1 and otherN + 1 fail the size assertion exactly when n ≠ otherN |
| ProbabilisticWrapping.ProbabilisticWrapper.PreparedForSolver | argumentation_framework/frameworks.py:253-258 | the normal form has entries in [0, 1], and `arguments` is 0..n-1 when defined |
| InferenceRules.ValueDefaults | argumentation_framework/inference_rules.py:76-80 | with every free symbol defaulting to False before the kb is merged, substituting gives the premise's truth in the kb |
| InferenceRules.IsSatisfiedBy | argumentation_framework/inference_rules.py:75-80 | the loop over the free symbols returns the premise's truth in the kb, atoms absent from the kb counting as false |
| InferenceRules.Facts | argumentation_framework/inference_rules.py:45 | the conclusion dict as facts: every listed atom with its value and no other atom |
| InferenceRules.KnowledgeBase.constructor | argumentation_framework/inference_rules.py:88 | a knowledge base holding the given facts |
| InferenceRules.ApplyTo | argumentation_framework/inference_rules.py:38-45 | the kb becomes the rule applied to its old facts |
| InferenceRules.ApplyConcludes | argumentation_framework/inference_rules.py:38-45 | if the premise holds every conclusion atom takes its value; if not the kb is unchanged |
| InferenceRules.ApplyFrame | argumentation_framework/inference_rules.py:45 | an atom not in the conclusion keeps its presence and value |
| InferenceRules.HoldsAgree | argumentation_framework/inference_rules.py:76-80 | the premise's value depends only on the truth of its own atoms |
| InferenceRules.ApplyTwice | argumentation_framework/inference_rules.py:38-45 | when the conclusion does not mention the premise's atoms, applying the rule twice is applying it once |
| InferenceRules.FactsSingle | argumentation_framework/inference_rules.py:89 | a one-entry conclusion is a one-fact map |
| InferenceRules.ExampleFires | argumentation_framework/inference_rules.py:87-92 | a ∧ b with a, b true concludes c |
| InferenceRules.ExampleStays | argumentation_framework/inference_rules.py:94-98 | a ∧ b with b false leaves the kb as it is |
| InferenceRules.RuleText | argumentation_framework/inference_rules.py:57-61 | the premise's text, then " → ", then the conclusion's literals |
| InferenceRules.Spaced | argumentation_framework/inference_rules.py:60 | the pieces of `', '.join` as the pieces of a ',' join |
| InferenceRules.JoinCommaSpace | argumentation_framework/inference_rules.py:60 | joining with ", " is joining the spaced pieces with "," |
| InferenceRules.ConclusionReadsBack | argumentation_framework/inference_rules.py:58-61 | the printed conclusion (`~` for false) reads back as the same entries, for atoms without ',', ' ' or a leading '~' |
| InferenceRules.SpacedPieces | argumentation_framework/inference_rules.py:60 | no printed piece contains ',', and the first is not empty |
| InferenceRules.ReadPiece | argumentation_framework/inference_rules.py:60 | each printed literal reads back as its entry |
| InferenceRules.JoinLength | argumentation_framework/inference_rules.py:60 | the joined text is at least as long as its first piece |
| LogicalArguments.Claim | argumentation_framework/logical_arguments.py:44-51 | the rule's conclusion exactly when the rule is satisfied by the argument's premise, none otherwise |
| LogicalArguments.Attacks | argumentation_framework/logical_arguments.py:54-75 | rebut or undercut; an argument without a claim attacks nothing |
| LogicalArguments.ConflictIsOrderDependence | argumentation_framework/logical_arguments.py:58-75 | two kbs conflict (a shared atom with different values) exactly when merging them in either order differs |
| LogicalArguments.RebutSymmetric | argumentation_framework/logical_arguments.py:68-75 | a rebuts b exactly when b rebuts a |
| LogicalArguments.UndercutOverwrites | argumentation_framework/logical_arguments.py:58-65 | a undercuts b exactly when a has a claim that would change some atom of b's premise |
| LogicalArguments.AttackMatrix | argumentation_framework/logical_arguments.py:116-121 | the n×n matrix with 1 exactly where argument i attacks argument j, 0 elsewhere |
| LogicalArguments.MakeArgumentationFramework | argumentation_framework/logical_arguments.py:109-123 | a fresh framework of capacity n, all arguments present, whose attack matrix is the attack relation |
| LogicalArguments.MarkAttacks | argumentation_framework/logical_arguments.py:118-121 | the loop over all ordered pairs writes every cell of the matrix |
| LogicalArguments.MatrixIs | argumentation_framework/logical_arguments.py:118-121 | the written cells make `attacks_matrix` the attack relation |
| LogicalArguments.RelationIsAttacks | argumentation_framework/logical_arguments.py:109-123 | the built framework's `attacks_relation` lists (i, j) exactly when argument i attacks argument j |

## Left out

- The SAT solver is an oracle parameter: `runSATSolver`, `singleEnumeration` and `fullEnumeration` start the external `glucose-syrup` process and read its output files. Single enumeration is the oracle's first model.
- The semantics solver is a set of function parameters over the attack matrix, in `solve_extensions`, `solve_decision`, `get_p_extension`, `get_p_decision` and `get_p_equivalent_to`.
- `execute_with_timeout` in `argumentation_framework/util.py` runs a thread. A run is modelled by its outcome: a result, or the flag that it timed out or raised in the thread.
- `parallelize_iterations` is a sequential fold in list order. It runs a thread pool with one worker, so the order is the same.
- `draw_networkx_figure`, `draw_extensions`, the GUI, `test.py` and `solved_af/__main__.py` are presentation, event wiring and the command line.
- In `solved_af/io.py`, argparse, `open`, stdout and stderr are I/O. A `sys.exit` is an error result and a write is a returned string.
- The `outputSolution` dispatch on the task code is not modelled. The strings of `outputDecision`, `outputSE` and `outputEE` are.
- `ListGraphFramework.__str__` is presentation only.
- Floating-point arithmetic is not modelled: numpy probabilities are exact reals. Numpy shapes and broadcasting appear only where they decide success or failure (`Wrap`, `BuildWorld`).
- The `hash(... .tobytes())` keys of `get_p_extension` are sequence keys. A hash collision cannot happen in the model.
- The sympy formula is a propositional formula datatype. `subs` is evaluation. `make_simple_logic_argument` builds a sympy conjunction and is not modelled.
- The `print` calls in `get_p_equivalent_to`, in the timeout handlers and in the `__main__` example of `inference_rules.py` are side effects only. The example's two results are the lemmas `ExampleFires` and `ExampleStays`.
- The `P` accumulator and the counter `n` of `get_p_equivalent_to` are never read, so they are not modelled.
- Generators are sequences. `enumerate_frameworks` and `__yield_all_frameworks` are listed in full before use, as the program does with `list(...)`.
- Argument data is an abstract value type. `get_data` returns the stored dictionary, and a caller that mutates it mutates the framework; this aliasing is not modelled.
- `SetArgumentMask` stores `v > 0` as 0/1 values. A mask of a float dtype is kept apart from a boolean one only in `MaskValue`.
- The base `InferenceRule.is_satisfied_by` raises `NotImplementedError`, so `ModusPonens` is the only kind of rule.
- A conclusion dictionary is its list of entries in insertion order, with distinct keys.
- `LogicalArguments.MakeArgumentationFramework` computes the attack relation first and then writes the matrix. Each cell is written once, so the result is the same as writing cell by cell.
- `ProbabilisticWrapping.ProbabilisticWrapper.EnumerateFrameworks` states that each framework is freshly allocated but not that two of them never alias each other.
- `InferenceRules.RuleText` takes the premise's text as a parameter, since sympy's printer is outside the model.
- Python sets iterate in hash order. The model lists set members in ascending order instead. So the order of the names within an extension that `find_extensions` returns, and the order of the clauses `generate` writes, are the model's, not CPython's; comparisons that sort first (`equivalent_to`, the keys of `get_p_extension`) are unaffected.
- `extensionToInt` is wrapped by `memoize` in the program. The model computes it directly, and `Utils.Memoized` states the cache separately.
- NegateClause: its own contract states only the length. That each literal is negated is its definition, and its partner is the lemma `NegateClauseInvolution`.
- SetPAttacks: takes indices in 0..n−1. Numpy would also accept a negative index and count it from the end.
- GetPArg, SetPArg: an argn outside -(n+2)..n−1 makes numpy raise `IndexError`; that is a precondition.
- GetAttacks: numpy's `IndexError` for frm or to outside -cap..cap−1 is a precondition; the function serves the contracts of `SetAttacks` and `SetPAttacks`, which state that error themselves.
- GetPEquivalentTo, PEquivalence: `equiv` stands for `equivalent_to` on two worlds of equal size under a code that starts with SE, EE, DC or DS. A solver failure inside it, or a code with such a prefix that is missing from the task table and fails the adapter's assertion, is not modelled for the wrapper.
- `SetPAttacks`, `SetPArg`: the `0 <= p <= 1` assertion is a precondition.
- EquivalentTo: a criteria outside the adapter's task table fails an assertion of the program (its own for a criteria not starting with SE, EE, DC or DS, the adapter's for any other). Here `SolvedAF.IsValidTask(criteria)` is a precondition, and so is the assertion that both sides have the same `num_arguments`.
- FindExtensions, FindAcceptance: the `assert task_name in valid_tasks` is a precondition (`IsValidTask`). A code outside the table, which fails that assertion, is not modelled.
- SolveExtensions, SolveDecision: they inherit that precondition from the adapter, so a code outside the task table is not modelled either.
- IsWordChar: the regular expression class `\w` is taken on ASCII: letters, digits and `_`. Python's `\w` on `str` also takes every other Unicode letter and digit, so an Aspartix line such as `arg(é).` is read by the program and ignored by the model.
- MatchParensOf, MatchStatementOf: stated for the ASCII `\w` of `IsWordChar`, so they do not cover argument text with other Unicode letters or digits. A non-ASCII type is no gap: only `arg` and `att` act, and the program and the model both ignore any other type.
- ParseAPX: stated for the ASCII `\w`. An `arg` or `att` line whose arguments hold other Unicode letters or digits is read by the program and ignored by the model.
- ParseInt: accepts an optional sign followed by ASCII digits. Python's `int` also accepts `_` between digits and other Unicode decimal digits; the model rejects those tokens. White space around a token cannot occur, since the tokens come from `split()`.

## Findings

| source | as written | input that shows it | evidently intended | confidence | as-written member | corrected member |
|---|---|---|---|---|---|---|
| solved_af/theories.py:386-387 | `complete_in_theory_2` loops over `getAttackedBy(a)`, the same list as `complete_out_theory_1`. So "a is In" never forces a's attackers Out | attacks 1→1 and 1→2 with the labelling In(2), Und(1): every as-written clause holds, yet 2 is In while its attacker 1 is not Out | loop over `getAttackersOf(a)`: a In implies every attacker of a Out, so that the models are exactly the complete labellings | not executed | Theories.AsWrittenCompleteAcceptsUndefended | Theories.CompleteReductionMeaning |
| solved_af/tasks.py:105-121 | `excludeAssignment` appends the blocking clause `-l1 ... 0` without a line break. The next appended clause continues the same line | two exclusions of the models {1} and {2} leave the line `-1 0-2 0`: the text no longer has one clause per line, and a line-based reader rejects the token `0-2` (a token-based reader such as MiniSat's reads it as `0` then `-2`) | end each blocking clause with a newline, so that each exclusion reads back as its own clause | not executed | Tasks.AsWrittenExclusionsShareLine | Tasks.ExclusionReadsBack |
