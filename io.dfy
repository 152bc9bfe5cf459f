/** The solver's side of the ICCMA interface: the two input formats (the
    Trivial Graph Format and the Aspartix format), the checks made on what
    they declare when validation is asked for, and the text printed for each
    kind of answer. A file is the sequence of its lines; what the solver
    writes to standard error before `sys.exit(1)` is the `Err` of a
    `Result`, and what it writes to standard output is a returned string. */
module IO {
  import opened Wrappers
  import opened Text

  /** An argument framework as the parsers hand it over: argument names and
      attacks, each attack being the parts its line was split into. */
  type Parsed = (seq<string>, seq<seq<string>>)

  /** The text written to standard error by a rejected input. */
  function InvalidInput(message: string): string {
    "Invalid input file!" + message
  }

  function SpaceOrCommaMessage(argument: string): string {
    "Argument \"" + argument + "\" contains whitespace or comma."
  }

  function RedefinedArgumentMessage(argument: string): string {
    "Argument \"" + argument + "\" is defiled more than once."
  }

  const NoPivotMessage := "TGF file does not contain \"#\"."

  const SecondPivotMessage := "TGF file contains more than one \"#\"."

  /** The check made on an argument name before it is added: `Some` holds
      the message it is rejected with. */
  function ValidateArgument(argument: string, arguments: seq<string>): (r: Option<string>)
    ensures r.Some? <==> HasInnerSpace(argument) || ',' in argument || argument in arguments
    ensures HasInnerSpace(argument) || ',' in argument ==> r == Some(SpaceOrCommaMessage(argument))
    ensures r.Some? && !HasInnerSpace(argument) && ',' !in argument ==> r == Some(RedefinedArgumentMessage(argument))
  {
    WordsMany(argument);
    if |Words(argument)| > 1 || ',' in argument then Some(SpaceOrCommaMessage(argument))
    else if argument in arguments then Some(RedefinedArgumentMessage(argument))
    else None
  }

  /** The check made on an attack before it is added; `attackText` is its
      line as read. */
  function ValidateAttack(attack: seq<string>, arguments: seq<string>, attacks: seq<seq<string>>,
                          attackText: string): (r: Option<string>)
    ensures r.None? <==> |attack| == 2 && attack[0] in arguments && attack[1] in arguments && attack !in attacks
  {
    if |attack| != 2 then Some("Attack \"" + attackText + "\" must contain exactly two arguments.")
    else if attack[0] !in arguments || attack[1] !in arguments then
      Some("Argument(s) in \"" + attackText + "\" are not defined.")
    else if attack in attacks then Some("Attack \"" + attackText + "\" is defiled more than once.")
    else None
  }

  /** What a validated parse guarantees: distinct argument names free of
      inner white space and commas, and distinct attacks between two
      declared arguments. */
  ghost predicate WellFormed(p: Parsed) {
    var (arguments, attacks) := p;
    (forall i, j :: 0 <= i < j < |arguments| ==> arguments[i] != arguments[j]) &&
    (forall i :: 0 <= i < |arguments| ==> !HasInnerSpace(arguments[i]) && ',' !in arguments[i]) &&
    (forall i, j :: 0 <= i < j < |attacks| ==> attacks[i] != attacks[j]) &&
    (forall i :: 0 <= i < |attacks| ==>
      |attacks[i]| == 2 && attacks[i][0] in arguments && attacks[i][1] in arguments)
  }

  // Trivial Graph Format

  /** Every line stripped. */
  function StripAll(lines: seq<string>): (r: seq<string>)
    ensures |r| == |lines|
  {
    if lines == [] then [] else StripAll(lines[..|lines| - 1]) + [Strip(lines[|lines| - 1])]
  }

  lemma {:induction false} StripAllAt(lines: seq<string>, i: nat)
    requires i < |lines|
    ensures StripAll(lines)[i] == Strip(lines[i])
    decreases |lines|
  {
    if i < |lines| - 1 {
      StripAllAt(lines[..|lines| - 1], i);
    }
  }

  /** Position of the first line holding `#`, or the number of lines. */
  function PivotIndex(ls: seq<string>): (p: nat)
    ensures p <= |ls|
    ensures forall i :: 0 <= i < p ==> '#' !in ls[i]
    ensures p < |ls| ==> '#' in ls[p]
  {
    if ls == [] then 0 else if '#' in ls[0] then 0 else 1 + PivotIndex(ls[1..])
  }

  /** The non-empty lines, in order. */
  function NonBlank(ls: seq<string>): (r: seq<string>)
    ensures forall i :: 0 <= i < |r| ==> r[i] != ""
  {
    if ls == [] then []
    else NonBlank(ls[..|ls| - 1]) + (if ls[|ls| - 1] == "" then [] else [ls[|ls| - 1]])
  }

  lemma NonBlankSnoc(ls: seq<string>, l: string)
    ensures NonBlank(ls + [l]) == NonBlank(ls) + (if l == "" then [] else [l])
  {
    assert (ls + [l])[..|ls|] == ls;
  }

  lemma {:induction false} NonBlankAppend(a: seq<string>, b: seq<string>)
    ensures NonBlank(a + b) == NonBlank(a) + NonBlank(b)
    decreases |b|
  {
    if b == [] {
      assert a + b == a;
    } else {
      var init, last := b[..|b| - 1], b[|b| - 1];
      assert b == init + [last];
      assert a + b == (a + init) + [last];
      NonBlankSnoc(a + init, last);
      NonBlankSnoc(init, last);
      NonBlankAppend(a, init);
    }
  }

  /** `line.split()` of each line, in order. */
  function SplitAll(ls: seq<string>): (r: seq<seq<string>>)
    ensures |r| == |ls|
  {
    if ls == [] then [] else SplitAll(ls[..|ls| - 1]) + [Words(ls[|ls| - 1])]
  }

  lemma SplitAllSnoc(ls: seq<string>, l: string)
    ensures SplitAll(ls + [l]) == SplitAll(ls) + [Words(l)]
  {
    assert (ls + [l])[..|ls|] == ls;
  }

  /** The arguments of a TGF file: the non-blank stripped lines before the
      first line holding `#`. */
  function TGFArguments(lines: seq<string>): seq<string> {
    var ls := StripAll(lines);
    NonBlank(ls[..PivotIndex(ls)])
  }

  /** The attacks of a TGF file: the white-space separated parts of each
      non-blank line after the first line holding `#`. */
  function TGFAttacks(lines: seq<string>): seq<seq<string>> {
    var ls := StripAll(lines);
    var p := PivotIndex(ls);
    if p < |ls| then SplitAll(NonBlank(ls[p + 1..])) else []
  }

  /** The only files a validating TGF parse accepts: every non-blank line,
      and there is at most one, holds `#`. */
  ghost predicate PivotOnly(ls: seq<string>) {
    var nb := NonBlank(ls);
    |nb| == 0 || (|nb| == 1 && '#' in nb[0])
  }

  /** How a validating TGF parse rejects a file whose first non-blank line is
      an argument: by that argument's own check, or for the missing `#`. */
  function FirstArgumentMessage(argument: string): string {
    match ValidateArgument(argument, []) {
      case Some(m) => m
      case None => NoPivotMessage
    }
  }

  lemma PivotOnlyStep(ls: seq<string>, l: string)
    requires PivotOnly(ls)
    requires l == "" || (NonBlank(ls) == [] && '#' in l)
    ensures PivotOnly(ls + [l])
  {
    NonBlankSnoc(ls, l);
  }

  lemma Around<T>(s: seq<T>, i: nat)
    requires i < |s|
    ensures s == s[..i] + [s[i]] + s[i + 1..]
  {
  }

  /** The line `i` is the first non-blank line of `ls`. */
  lemma FirstNonBlank(ls: seq<string>, i: nat)
    requires i < |ls| && ls[i] != "" && NonBlank(ls[..i]) == []
    ensures NonBlank(ls) != [] && NonBlank(ls)[0] == ls[i]
  {
    var front := ls[..i] + [ls[i]];
    Around(ls, i);
    NonBlankAppend(front, ls[i + 1..]);
    NonBlankSnoc(ls[..i], ls[i]);
    assert NonBlank(front) == [ls[i]];
  }

  /** A second non-blank line rules out `PivotOnly`. */
  lemma SecondNonBlank(ls: seq<string>, i: nat)
    requires i < |ls| && ls[i] != "" && NonBlank(ls[..i]) != []
    ensures !PivotOnly(ls)
    ensures NonBlank(ls)[0] == NonBlank(ls[..i])[0]
  {
    var front := ls[..i] + [ls[i]];
    Around(ls, i);
    NonBlankAppend(front, ls[i + 1..]);
    NonBlankSnoc(ls[..i], ls[i]);
    assert |NonBlank(front)| >= 2;
  }

  lemma SliceSnoc<T>(s: seq<T>, a: nat, b: nat)
    requires a <= b < |s|
    ensures s[a..b + 1] == s[a..b] + [s[b]]
  {
  }

  /** What the TGF loop knows after `i` stripped lines `ls[..i]`. */
  ghost predicate TGFRead(ls: seq<string>, i: nat, validate: bool, seen: bool,
                          arguments: seq<string>, attacks: seq<seq<string>>) {
    var p := PivotIndex(ls);
    i <= |ls| &&
    (!validate ==>
      (seen <==> p < i) &&
      arguments == NonBlank(ls[..if p < i then p else i]) &&
      attacks == if p < i then SplitAll(NonBlank(ls[p + 1..i])) else []) &&
    (validate ==>
      arguments == [] && attacks == [] && PivotOnly(ls[..i]) &&
      (seen <==> NonBlank(ls[..i]) != []))
  }

  lemma TGFBlankLine(ls: seq<string>, i: nat, validate: bool, seen: bool,
                     arguments: seq<string>, attacks: seq<seq<string>>)
    requires TGFRead(ls, i, validate, seen, arguments, attacks)
    requires i < |ls| && ls[i] == ""
    ensures TGFRead(ls, i + 1, validate, seen, arguments, attacks)
  {
    var p := PivotIndex(ls);
    SliceSnoc(ls, 0, i);
    NonBlankSnoc(ls[..i], ls[i]);
    if validate {
      PivotOnlyStep(ls[..i], ls[i]);
    } else if p < i {
      SliceSnoc(ls, p + 1, i);
      NonBlankSnoc(ls[p + 1..i], ls[i]);
      assert NonBlank(ls[p + 1..i + 1]) == NonBlank(ls[p + 1..i]);
    } else {
      assert NonBlank(ls[..i + 1]) == NonBlank(ls[..i]);
    }
  }

  lemma TGFPivotLine(ls: seq<string>, i: nat, validate: bool,
                     arguments: seq<string>, attacks: seq<seq<string>>)
    requires TGFRead(ls, i, validate, false, arguments, attacks)
    requires i < |ls| && '#' in ls[i]
    ensures TGFRead(ls, i + 1, validate, true, arguments, attacks)
  {
    var p := PivotIndex(ls);
    SliceSnoc(ls, 0, i);
    NonBlankSnoc(ls[..i], ls[i]);
    if validate {
      PivotOnlyStep(ls[..i], ls[i]);
    } else {
      assert p == i && ls[p + 1..i + 1] == [];
    }
  }

  lemma TGFArgumentLine(ls: seq<string>, i: nat, arguments: seq<string>, attacks: seq<seq<string>>)
    requires TGFRead(ls, i, false, false, arguments, attacks)
    requires i < |ls| && ls[i] != "" && '#' !in ls[i]
    ensures TGFRead(ls, i + 1, false, false, arguments + [ls[i]], attacks)
  {
    SliceSnoc(ls, 0, i);
    NonBlankSnoc(ls[..i], ls[i]);
  }

  lemma TGFAttackLine(ls: seq<string>, i: nat, arguments: seq<string>, attacks: seq<seq<string>>)
    requires TGFRead(ls, i, false, true, arguments, attacks)
    requires i < |ls| && ls[i] != ""
    ensures TGFRead(ls, i + 1, false, true, arguments, attacks + [Words(ls[i])])
  {
    var p := PivotIndex(ls);
    assert p < i && attacks == SplitAll(NonBlank(ls[p + 1..i]));
    SliceSnoc(ls, p + 1, i);
    NonBlankSnoc(ls[p + 1..i], ls[i]);
    assert NonBlank(ls[p + 1..i + 1]) == NonBlank(ls[p + 1..i]) + [ls[i]];
    SplitAllSnoc(NonBlank(ls[p + 1..i]), ls[i]);
    assert attacks + [Words(ls[i])] == SplitAll(NonBlank(ls[p + 1..i + 1]));
  }

  /** A validating read fails at the first argument line. */
  lemma TGFRejectArgument(ls: seq<string>, i: nat)
    requires TGFRead(ls, i, true, false, [], [])
    requires i < |ls| && ls[i] != "" && '#' !in ls[i]
    ensures !PivotOnly(ls) && NonBlank(ls) != [] && NonBlank(ls)[0] == ls[i]
  {
    FirstNonBlank(ls, i);
  }

  /** A validating read fails at the first line after the pivot. */
  lemma TGFRejectAfterPivot(ls: seq<string>, i: nat)
    requires TGFRead(ls, i, true, true, [], [])
    requires i < |ls| && ls[i] != ""
    ensures !PivotOnly(ls) && '#' in NonBlank(ls)[0]
  {
    SecondNonBlank(ls, i);
  }

  lemma TGFDone(ls: seq<string>, validate: bool, seen: bool,
                arguments: seq<string>, attacks: seq<seq<string>>)
    requires TGFRead(ls, |ls|, validate, seen, arguments, attacks)
    ensures !validate ==> arguments == NonBlank(ls[..PivotIndex(ls)])
    ensures !validate ==> attacks == if PivotIndex(ls) < |ls| then SplitAll(NonBlank(ls[PivotIndex(ls) + 1..])) else []
    ensures validate ==> PivotOnly(ls) && arguments == [] && attacks == []
  {
    assert ls[..|ls|] == ls;
  }

  /** Reads the stripped line `line`, number `i` of `ls`, of a TGF file into
      the pivot flag, arguments and attacks read so far, or rejects it. */
  method ReadTGFLine(ghost ls: seq<string>, i: nat, line: string, validate: bool, seen: bool,
                     arguments: seq<string>, attacks: seq<seq<string>>)
    returns (r: Result<(bool, seq<string>, seq<seq<string>>), string>)
    requires TGFRead(ls, i, validate, seen, arguments, attacks) && i < |ls| && line == ls[i]
    ensures r.Ok? ==> TGFRead(ls, i + 1, validate, r.value.0, r.value.1, r.value.2)
    ensures r.Err? ==> validate && !PivotOnly(ls)
    ensures r.Err? && '#' !in NonBlank(ls)[0] ==> r.error == InvalidInput(FirstArgumentMessage(NonBlank(ls)[0]))
  {
    if line == "" {
      // a blank line is skipped
      TGFBlankLine(ls, i, validate, seen, arguments, attacks);
      r := Ok((seen, arguments, attacks));
    } else if !seen && '#' in line {
      TGFPivotLine(ls, i, validate, arguments, attacks);
      r := Ok((true, arguments, attacks));
    } else if !seen {
      if validate {
        TGFRejectArgument(ls, i);
        var v := ValidateArgument(line, arguments);
        if v.Some? {
          return Err(InvalidInput(v.value));
        }
        // the argument is appended, then the missing pivot is reported
        return Err(InvalidInput(NoPivotMessage));
      }
      TGFArgumentLine(ls, i, arguments, attacks);
      r := Ok((seen, arguments + [line], attacks));
    } else if validate && '#' in line {
      TGFRejectAfterPivot(ls, i);
      r := Err(InvalidInput(SecondPivotMessage));
    } else {
      var attack := Words(line);
      if validate {
        TGFRejectAfterPivot(ls, i);
        var v := ValidateAttack(attack, arguments, attacks, line);
        return Err(InvalidInput(v.value));
      }
      TGFAttackLine(ls, i, arguments, attacks);
      r := Ok((seen, arguments, attacks + [attack]));
    }
  }

  /** The loop of the TGF reader over all lines: the final pivot flag,
      arguments and attacks, or the first rejection. */
  method ReadTGFLines(lines: seq<string>, validate: bool)
    returns (r: Result<(bool, seq<string>, seq<seq<string>>), string>)
    ensures r.Ok? ==> TGFRead(StripAll(lines), |lines|, validate, r.value.0, r.value.1, r.value.2)
    ensures r.Err? ==> validate && !PivotOnly(StripAll(lines))
    ensures r.Err? && '#' !in NonBlank(StripAll(lines))[0] ==>
      r.error == InvalidInput(FirstArgumentMessage(NonBlank(StripAll(lines))[0]))
  {
    ghost var ls := StripAll(lines);
    var arguments: seq<string> := [];
    var attacks: seq<seq<string>> := [];
    var hasSeenPivot := false;
    var i := 0;
    while i < |lines|
      invariant TGFRead(ls, i, validate, hasSeenPivot, arguments, attacks)
    {
      StripAllAt(lines, i);
      r := ReadTGFLine(ls, i, Strip(lines[i]), validate, hasSeenPivot, arguments, attacks);
      if r.Err? {
        return;
      }
      hasSeenPivot, arguments, attacks := r.value.0, r.value.1, r.value.2;
      i := i + 1;
    }
    assert i == |lines| && ls == StripAll(lines);
    r := Ok((hasSeenPivot, arguments, attacks));
  }

  /** Reads a TGF file: argument lines, a line holding `#`, attack lines.
      Blank lines are skipped and every line is stripped first. With
      validation on, the test for the missing `#` is made after every line,
      so the first argument line already fails it. */
  method ParseTGF(lines: seq<string>, validate: bool) returns (r: Result<Parsed, string>)
    ensures !validate ==> r == Ok((TGFArguments(lines), TGFAttacks(lines)))
    ensures validate ==> (r.Ok? <==> PivotOnly(StripAll(lines)))
    ensures validate && r.Ok? ==> r.value == ([], [])
    ensures validate && NonBlank(StripAll(lines)) != [] && '#' !in NonBlank(StripAll(lines))[0] ==>
      r == Err(InvalidInput(FirstArgumentMessage(NonBlank(StripAll(lines))[0])))
  {
    ghost var ls := StripAll(lines);
    var read := ReadTGFLines(lines, validate);
    if read.Err? {
      return Err(read.error);
    }
    var (_, arguments, attacks) := read.value;
    TGFDone(ls, validate, read.value.0, arguments, attacks);
    TGFOfStripped(lines);
    r := Ok((arguments, attacks));
  }

  /** The arguments and attacks of a TGF file, read on its stripped lines. */
  lemma TGFOfStripped(lines: seq<string>)
    ensures var ls := StripAll(lines); var p := PivotIndex(ls);
            TGFArguments(lines) == NonBlank(ls[..p]) &&
            TGFAttacks(lines) == if p < |ls| then SplitAll(NonBlank(ls[p + 1..])) else []
  {
  }

  // Aspartix format

  /** The characters of the regular expression class `\w`, restricted to
      ASCII: letters, digits and `_`. The other Unicode letters and digits
      that Python's `\w` also takes are not modelled. */
  predicate IsWordChar(c: char) {
    'a' <= c <= 'z' || 'A' <= c <= 'Z' || '0' <= c <= '9' || c == '_'
  }

  /** The characters of the class `[\w,\s]`. */
  predicate IsArgsChar(c: char) {
    IsWordChar(c) || c == ',' || IsSpace(c)
  }

  /** `\((?P<args>[\w,\s]+)\)\.` at the start of `body`: the arguments text.
      The repetition is followed by `)`, which it cannot take, so the greedy
      match never backtracks and the group is the longest run there. */
  function MatchParens(body: string): Option<string> {
    if body == [] || body[0] != '(' then None
    else
      var a := Span(body[1..], IsArgsChar);
      var tail := body[1 + a..];
      if a == 0 || |tail| < 2 || tail[0] != ')' || tail[1] != '.' then None
      else Some(body[1..1 + a])
  }

  /** The pattern `(?P<type>\w+)\s*\((?P<args>[\w,\s]+)\)\.` matched at the
      start of `line`: the statement's type and its arguments text. The type
      is the longest run of word characters, since the pattern goes on with
      white space or `(`. */
  function MatchStatement(line: string): Option<(string, string)> {
    var t := Span(line, IsWordChar);
    var rest := line[t..];
    if t == 0 then None
    else match MatchParens(rest[Span(rest, IsSpace)..]) {
      case Some(a) => Some((line[..t], a))
      case None => None
    }
  }

  /** The shape of a statement: a type, white space, and the arguments in
      parentheses followed by a full stop, then anything. */
  ghost predicate StatementShape(t: string, sp: string, a: string) {
    t != [] && (forall i :: 0 <= i < |t| ==> IsWordChar(t[i])) &&
    (forall i :: 0 <= i < |sp| ==> IsSpace(sp[i])) &&
    a != [] && (forall i :: 0 <= i < |a| ==> IsArgsChar(a[i]))
  }

  /** The arguments in parentheses, a full stop, and whatever follows. */
  function Parens(a: string, tail: string): string {
    ['('] + a + [')', '.'] + tail
  }

  /** A statement line built from its parts. */
  function Statement(t: string, sp: string, a: string, tail: string): string {
    t + (sp + Parens(a, tail))
  }

  lemma MatchParensOf(a: string, tail: string)
    requires a != [] && forall i :: 0 <= i < |a| ==> IsArgsChar(a[i])
    ensures MatchParens(Parens(a, tail)) == Some(a)
  {
    var body := Parens(a, tail);
    assert body[1..] == a + ([')', '.'] + tail);
    SpanAfter(a, [')', '.'] + tail, IsArgsChar);
    assert body[1 + |a|..] == [')', '.'] + tail;
    assert body[1..1 + |a|] == a;
  }

  /** Every line of the statement shape matches, with its own parts. */
  lemma MatchStatementOf(t: string, sp: string, a: string, tail: string)
    requires StatementShape(t, sp, a)
    ensures MatchStatement(Statement(t, sp, a, tail)) == Some((t, a))
  {
    var body := Parens(a, tail);
    var rest := sp + body;
    var line := Statement(t, sp, a, tail);
    SpanAfter(t, rest, IsWordChar);
    assert line[|t|..] == rest && line[..|t|] == t;
    SpanAfter(sp, body, IsSpace);
    assert rest[|sp|..] == body;
    MatchParensOf(a, tail);
  }

  lemma MatchParensShape(body: string) returns (a: string, tail: string)
    requires MatchParens(body).Some?
    ensures a == MatchParens(body).value
    ensures a != [] && forall i :: 0 <= i < |a| ==> IsArgsChar(a[i])
    ensures body == Parens(a, tail)
  {
    var k := Span(body[1..], IsArgsChar);
    a, tail := body[1..1 + k], body[k + 3..];
    assert a == body[1..][..k];
    assert body == ['('] + a + [')', '.'] + tail;
  }

  lemma SliceJoin<T>(s: seq<T>, k: nat)
    requires k <= |s|
    ensures s == s[..k] + s[k..]
  {
  }

  /** Only lines of the statement shape match, and they give their parts:
      the white space and the rest of the line are returned. */
  lemma MatchStatementShape(line: string) returns (sp: string, tail: string)
    requires MatchStatement(line).Some?
    ensures StatementShape(MatchStatement(line).value.0, sp, MatchStatement(line).value.1)
    ensures line == Statement(MatchStatement(line).value.0, sp, MatchStatement(line).value.1, tail)
  {
    var t := Span(line, IsWordChar);
    var rest := line[t..];
    var k := Span(rest, IsSpace);
    var body := rest[k..];
    var a;
    a, tail := MatchParensShape(body);
    sp := rest[..k];
    assert MatchStatement(line).value == (line[..t], a);
    SliceJoin(rest, k);
    SliceJoin(line, t);
  }

  /** The parts of an `att` statement: its arguments split on commas and
      stripped. */
  function AttackParts(args: string): seq<string> {
    StripAll(Split(args, ','))
  }

  /** The arguments declared by `arg` statements, in order. */
  function APXArguments(lines: seq<string>): seq<string> {
    if lines == [] then []
    else
      var last := lines[|lines| - 1];
      APXArguments(lines[..|lines| - 1]) +
        match MatchStatement(last) {
          case Some((t, a)) => if t == "arg" then [a] else []
          case None => []
        }
  }

  /** The attacks declared by `att` statements, in order. */
  function APXAttacks(lines: seq<string>): seq<seq<string>> {
    if lines == [] then []
    else
      var last := lines[|lines| - 1];
      APXAttacks(lines[..|lines| - 1]) +
        match MatchStatement(last) {
          case Some((t, a)) => if t == "att" then [AttackParts(a)] else []
          case None => []
        }
  }

  /** The complaint validation makes about the line `l` read after
      `lines`: an `arg` statement is checked against the arguments declared
      so far, an `att` statement against those and the attacks so far, and
      any other line passes. */
  function APXLineError(lines: seq<string>, l: string): Option<string> {
    match MatchStatement(l) {
      case Some((t, a)) =>
        if t == "arg" then ValidateArgument(a, APXArguments(lines))
        else if t == "att" then ValidateAttack(AttackParts(a), APXArguments(lines), APXAttacks(lines), Strip(l))
        else None
      case None => None
    }
  }

  /** The complaint about the first line that fails validation, if any. */
  function APXFirstError(lines: seq<string>): Option<string> {
    if lines == [] then None
    else
      var init := lines[..|lines| - 1];
      if APXFirstError(init).Some? then APXFirstError(init)
      else APXLineError(init, lines[|lines| - 1])
  }

  /** Every line of an Aspartix file passes validation against the lines
      before it. */
  ghost predicate APXValidates(lines: seq<string>) {
    forall i :: 0 <= i < |lines| ==> APXLineError(lines[..i], lines[i]).None?
  }

  /** A file has no first error exactly when every line validates. */
  lemma {:induction false} APXFirstErrorNone(lines: seq<string>)
    ensures APXFirstError(lines).None? <==> APXValidates(lines)
  {
    if lines != [] {
      var init := lines[..|lines| - 1];
      var k := |init|;
      APXFirstErrorNone(init);
      assert lines[..k] == init;
      if APXValidates(lines) {
        forall i | 0 <= i < k ensures APXLineError(init[..i], init[i]).None? {
          assert init[..i] == lines[..i];
        }
        assert APXLineError(lines[..k], lines[k]).None?;
      }
      if APXFirstError(lines).None? {
        assert APXFirstError(init).None? && APXLineError(init, lines[k]).None?;
        forall i | 0 <= i < |lines| ensures APXLineError(lines[..i], lines[i]).None? {
          if i < k {
            assert lines[..i] == init[..i] && lines[i] == init[i];
            assert APXLineError(init[..i], init[i]).None?;
          } else {
            assert i == k;
          }
        }
      }
    }
  }

  /** The first line that fails validation is the error of the whole
      file. */
  lemma APXRejected(lines: seq<string>, i: nat)
    requires i < |lines| && APXFirstError(lines[..i]).None?
    requires APXLineError(lines[..i], lines[i]).Some?
    ensures APXFirstError(lines) == APXLineError(lines[..i], lines[i])
    ensures !APXValidates(lines)
  {
    APXFirstErrorStep(lines, i);
    APXFirstErrorKept(lines, i + 1);
    APXFirstErrorNone(lines);
  }

  lemma APXFirstErrorStep(lines: seq<string>, i: nat)
    requires i < |lines|
    ensures APXFirstError(lines[..i + 1]) ==
      if APXFirstError(lines[..i]).Some? then APXFirstError(lines[..i])
      else APXLineError(lines[..i], lines[i])
  {
    assert lines[..i + 1][..i] == lines[..i];
  }

  /** Once a prefix has failed, the whole file reports that failure. */
  lemma {:induction false} APXFirstErrorKept(lines: seq<string>, k: nat)
    requires k <= |lines| && APXFirstError(lines[..k]).Some?
    ensures APXFirstError(lines) == APXFirstError(lines[..k])
    decreases |lines| - k
  {
    if k < |lines| {
      var init := lines[..|lines| - 1];
      assert init[..k] == lines[..k];
      APXFirstErrorKept(init, k);
    } else {
      assert lines[..k] == lines;
    }
  }

  /** Adding an argument that passed its check keeps the parse well formed. */
  lemma WellFormedArgument(p: Parsed, a: string)
    requires WellFormed(p) && ValidateArgument(a, p.0).None?
    ensures WellFormed((p.0 + [a], p.1))
  {
    var args := p.0 + [a];
    forall i, j | 0 <= i < j < |args| ensures args[i] != args[j] {
      if j == |p.0| {
        assert args[i] == p.0[i];
      }
    }
    forall i | 0 <= i < |p.1| ensures p.1[i][0] in args && p.1[i][1] in args {
      assert args[..|p.0|] == p.0;
    }
  }

  /** Adding an attack that passed its check keeps the parse well formed. */
  lemma WellFormedAttack(p: Parsed, attack: seq<string>, text: string)
    requires WellFormed(p) && ValidateAttack(attack, p.0, p.1, text).None?
    ensures WellFormed((p.0, p.1 + [attack]))
  {
    var atts := p.1 + [attack];
    forall i, j | 0 <= i < j < |atts| ensures atts[i] != atts[j] {
      if j == |p.1| {
        assert atts[i] == p.1[i];
      }
    }
  }

  lemma APXSnoc(lines: seq<string>, l: string)
    ensures APXArguments(lines + [l]) == APXArguments(lines) +
      match MatchStatement(l) {
        case Some((t, a)) => if t == "arg" then [a] else []
        case None => []
      }
    ensures APXAttacks(lines + [l]) == APXAttacks(lines) +
      match MatchStatement(l) {
        case Some((t, a)) => if t == "att" then [AttackParts(a)] else []
        case None => []
      }
  {
    assert (lines + [l])[..|lines|] == lines;
  }

  /** What the Aspartix loop knows after the lines `lines[..i]`. */
  ghost predicate APXRead(lines: seq<string>, i: nat, validate: bool,
                          arguments: seq<string>, attacks: seq<seq<string>>) {
    i <= |lines| &&
    arguments == APXArguments(lines[..i]) && attacks == APXAttacks(lines[..i]) &&
    (validate ==> WellFormed((arguments, attacks)))
  }

  lemma APXOtherLine(lines: seq<string>, i: nat, validate: bool,
                     arguments: seq<string>, attacks: seq<seq<string>>)
    requires APXRead(lines, i, validate, arguments, attacks) && i < |lines|
    requires MatchStatement(lines[i]).None? ||
      (MatchStatement(lines[i]).value.0 != "arg" && MatchStatement(lines[i]).value.0 != "att")
    ensures APXRead(lines, i + 1, validate, arguments, attacks)
  {
    SliceSnoc(lines, 0, i);
    APXSnoc(lines[..i], lines[i]);
  }

  lemma APXArgumentLine(lines: seq<string>, i: nat, validate: bool,
                        arguments: seq<string>, attacks: seq<seq<string>>, a: string)
    requires APXRead(lines, i, validate, arguments, attacks) && i < |lines|
    requires MatchStatement(lines[i]) == Some(("arg", a))
    requires validate ==> ValidateArgument(a, arguments).None?
    ensures APXRead(lines, i + 1, validate, arguments + [a], attacks)
  {
    SliceSnoc(lines, 0, i);
    APXSnoc(lines[..i], lines[i]);
    if validate {
      WellFormedArgument((arguments, attacks), a);
    }
  }

  lemma APXAttackLine(lines: seq<string>, i: nat, validate: bool,
                      arguments: seq<string>, attacks: seq<seq<string>>, a: string)
    requires APXRead(lines, i, validate, arguments, attacks) && i < |lines|
    requires MatchStatement(lines[i]) == Some(("att", a))
    requires validate ==> ValidateAttack(AttackParts(a), arguments, attacks, Strip(lines[i])).None?
    ensures APXRead(lines, i + 1, validate, arguments, attacks + [AttackParts(a)])
  {
    SliceSnoc(lines, 0, i);
    APXSnoc(lines[..i], lines[i]);
    if validate {
      WellFormedAttack((arguments, attacks), AttackParts(a), Strip(lines[i]));
    }
  }

  /** Reads the line `lines[i]` of an Aspartix file into the arguments and
      attacks read so far, or rejects it. */
  method ReadAPXLine(lines: seq<string>, i: nat, validate: bool,
                     arguments: seq<string>, attacks: seq<seq<string>>)
    returns (r: Result<Parsed, string>)
    requires APXRead(lines, i, validate, arguments, attacks) && i < |lines|
    ensures r.Ok? ==> APXRead(lines, i + 1, validate, r.value.0, r.value.1)
    ensures !validate ==> r.Ok?
    ensures validate ==> r.Err? == APXLineError(lines[..i], lines[i]).Some?
    ensures r.Err? ==> APXLineError(lines[..i], lines[i]).Some? && r.error == InvalidInput(APXLineError(lines[..i], lines[i]).value)
  {
    var line := lines[i];
    var m := MatchStatement(line);
    if m.None? {
      APXOtherLine(lines, i, validate, arguments, attacks);
      return Ok((arguments, attacks));
    }
    var (lineType, args) := m.value;
    if lineType == "arg" {
      if validate {
        var v := ValidateArgument(args, arguments);
        if v.Some? {
          return Err(InvalidInput(v.value));
        }
      }
      APXArgumentLine(lines, i, validate, arguments, attacks, args);
      r := Ok((arguments + [args], attacks));
    } else if lineType == "att" {
      var attack := AttackParts(args);
      if validate {
        var v := ValidateAttack(attack, arguments, attacks, Strip(line));
        if v.Some? {
          return Err(InvalidInput(v.value));
        }
      }
      APXAttackLine(lines, i, validate, arguments, attacks, args);
      r := Ok((arguments, attacks + [attack]));
    } else {
      APXOtherLine(lines, i, validate, arguments, attacks);
      r := Ok((arguments, attacks));
    }
  }

  /** Reads an Aspartix file: `arg(a).` declares an argument, `att(a,b).` an
      attack; lines that do not match the statement pattern, and statements
      of any other type, are skipped. Validation only ever rejects. */
  method ParseAPX(lines: seq<string>, validate: bool) returns (r: Result<Parsed, string>)
    ensures !validate ==> r == Ok((APXArguments(lines), APXAttacks(lines)))
    ensures r.Ok? ==> r.value == (APXArguments(lines), APXAttacks(lines))
    ensures validate && r.Ok? ==> WellFormed(r.value)
    ensures validate ==> (r.Ok? <==> APXValidates(lines))
    ensures validate && r.Err? ==> APXFirstError(lines).Some? && r.error == InvalidInput(APXFirstError(lines).value)
  {
    var arguments: seq<string> := [];
    var attacks: seq<seq<string>> := [];
    var i := 0;
    while i < |lines|
      invariant APXRead(lines, i, validate, arguments, attacks)
      invariant validate ==> APXFirstError(lines[..i]).None?
    {
      var next := ReadAPXLine(lines, i, validate, arguments, attacks);
      if next.Err? {
        APXRejected(lines, i);
        return next;
      }
      APXFirstErrorStep(lines, i);
      arguments, attacks := next.value.0, next.value.1;
      i := i + 1;
    }
    assert i == |lines| && lines[..i] == lines;
    APXFirstErrorNone(lines);
    r := Ok((arguments, attacks));
  }

  /** The supported input formats, in the order they are listed. */
  function GetFormats(): seq<string> {
    ["tgf", "apx"]
  }

  function UnsupportedFormatMessage(format: string): string {
    "File format \"" + format + "\" is not supported!" +
    "Use --formats to see the list of supported formats."
  }

  /** Reads a file in the named format; any other format is rejected. */
  method ParseInput(lines: seq<string>, format: string, validate: bool) returns (r: Result<Parsed, string>)
    ensures format !in GetFormats() ==> r == Err(UnsupportedFormatMessage(format))
    ensures format == "tgf" && !validate ==> r == Ok((TGFArguments(lines), TGFAttacks(lines)))
    ensures format == "tgf" && validate ==> (r.Ok? <==> PivotOnly(StripAll(lines)))
    ensures format == "apx" && r.Ok? ==> r.value == (APXArguments(lines), APXAttacks(lines))
    ensures format == "apx" && !validate ==> r.Ok?
    ensures format == "apx" && validate && r.Ok? ==> WellFormed(r.value)
    ensures format == "apx" && validate ==> (r.Ok? <==> APXValidates(lines))
    ensures format == "apx" && validate && r.Err? ==> APXFirstError(lines).Some? && r.error == InvalidInput(APXFirstError(lines).value)
  {
    if format == "tgf" {
      r := ParseTGF(lines, validate);
    } else if format == "apx" {
      r := ParseAPX(lines, validate);
    } else {
      r := Err(UnsupportedFormatMessage(format));
    }
  }

  // Output

  /** `prefix + "[" + sep.join(output) + "]" + suffix`. */
  function FormatOutput(output: seq<string>, sep: string, prefix: string, suffix: string): string {
    prefix + "[" + Join(output, sep) + "]" + suffix
  }

  /** Reads a bracketed, comma-separated list back. */
  function ReadList(s: string): Option<seq<string>> {
    if |s| < 2 || s[0] != '[' || s[|s| - 1] != ']' then None
    else if |s| == 2 then Some([])
    else Some(Split(s[1..|s| - 1], ','))
  }

  lemma {:induction false} JoinNonEmpty(xs: seq<string>, sep: string)
    requires |xs| >= 1 && xs[0] != ""
    ensures Join(xs, sep) != ""
  {
  }

  /** A list of names without commas reads back from its printed form. */
  lemma ReadListFormatOutput(xs: seq<string>)
    requires forall i :: 0 <= i < |xs| ==> xs[i] != "" && ',' !in xs[i]
    ensures ReadList(FormatOutput(xs, ",", "", "")) == Some(xs)
  {
    var inner := Join(xs, ",");
    var s := FormatOutput(xs, ",", "", "");
    assert s == "[" + inner + "]";
    assert s[1..|s| - 1] == inner;
    if xs != [] {
      JoinNonEmpty(xs, ",");
      SplitJoin(xs, ',');
    }
  }

  /** A decision is printed as `YES` or `NO`. */
  function OutputDecision(accepted: bool, suffix: string): string {
    (if accepted then "YES" else "NO") + suffix
  }

  /** A single extension is printed as a list, and its absence as `NO`. */
  function OutputSE(ext: Option<seq<string>>, suffix: string): string {
    match ext {
      case None => "NO" + suffix
      case Some(e) => FormatOutput(e, ",", "", "") + suffix
    }
  }

  /** Reads back a printed decision. */
  function ReadDecision(s: string): Option<bool> {
    if s == "YES" then Some(true) else if s == "NO" then Some(false) else None
  }

  /** Reads back a printed single extension. */
  function ReadSE(s: string): Option<Option<seq<string>>> {
    if s == "NO" then Some(None)
    else match ReadList(s) {
      case Some(xs) => Some(Some(xs))
      case None => None
    }
  }

  /** Each printed decision reads back to itself. */
  lemma ReadOutputDecision(accepted: bool)
    ensures ReadDecision(OutputDecision(accepted, "")) == Some(accepted)
  {
    assert OutputDecision(accepted, "") == if accepted then "YES" else "NO";
  }

  /** A printed single extension of names without commas reads back to
      itself; in particular `NO` and an empty extension `[]` differ. */
  lemma ReadOutputSE(ext: Option<seq<string>>)
    requires ext.Some? ==> forall i :: 0 <= i < |ext.value| ==> ext.value[i] != "" && ',' !in ext.value[i]
    ensures ReadSE(OutputSE(ext, "")) == Some(ext)
  {
    if ext.Some? {
      var s := FormatOutput(ext.value, ",", "", "");
      assert OutputSE(ext, "") == s;
      assert s[0] == '[';
      ReadListFormatOutput(ext.value);
    } else {
      assert OutputSE(ext, "") == "NO";
    }
  }

  function FormatAll(exts: seq<seq<string>>): (r: seq<string>)
    ensures |r| == |exts|
  {
    seq(|exts|, i requires 0 <= i < |exts| => FormatOutput(exts[i], ",", "", ""))
  }

  /** All extensions: the printed extensions, separated by `sep`, in brackets. */
  function OutputEE(exts: seq<seq<string>>, sep: string, suffix: string): string {
    "[" + Join(FormatAll(exts), sep) + "]" + suffix
  }

  /** Number of occurrences of `c` in `s`. */
  function Count(c: char, s: string): nat {
    if s == [] then 0 else (if s[0] == c then 1 else 0) + Count(c, s[1..])
  }

  lemma {:induction false} CountAppend(c: char, a: string, b: string)
    ensures Count(c, a + b) == Count(c, a) + Count(c, b)
  {
    if a != [] {
      assert (a + b)[1..] == a[1..] + b;
      CountAppend(c, a[1..], b);
    } else {
      assert a + b == b;
    }
  }

  lemma {:induction false} CountAbsent(c: char, s: string)
    requires c !in s
    ensures Count(c, s) == 0
  {
    if s != [] {
      CountAbsent(c, s[1..]);
    }
  }

  /** Joining pieces that each hold `c` once, with a separator free of `c`,
      gives one `c` per piece. */
  lemma {:induction false} CountJoin(c: char, xs: seq<string>, sep: string)
    requires c !in sep
    requires forall i :: 0 <= i < |xs| ==> Count(c, xs[i]) == 1
    ensures Count(c, Join(xs, sep)) == |xs|
  {
    if |xs| > 1 {
      var rest := Join(xs[1..], sep);
      assert Join(xs, sep) == (xs[0] + sep) + rest;
      CountJoin(c, xs[1..], sep);
      CountAbsent(c, sep);
      CountAppend(c, xs[0] + sep, rest);
      CountAppend(c, xs[0], sep);
    }
  }

  /** Each extension printed by `OutputEE` opens exactly one bracket, and the
      whole answer one more, when names and separator hold no `[`. */
  lemma OutputEEBrackets(exts: seq<seq<string>>, sep: string)
    requires '[' !in sep
    requires forall i, j :: 0 <= i < |exts| && 0 <= j < |exts[i]| ==> '[' !in exts[i][j]
    ensures Count('[', OutputEE(exts, sep, "")) == |exts| + 1
  {
    var fs := FormatAll(exts);
    forall i | 0 <= i < |fs| ensures Count('[', fs[i]) == 1 {
      var inner := Join(exts[i], ",");
      JoinAvoids(exts[i], ",", '[');
      CountAbsent('[', inner);
      assert fs[i] == "[" + inner + "]";
      CountAppend('[', "[" + inner, "]");
      CountAppend('[', "[", inner);
    }
    CountJoin('[', fs, sep);
    var body := Join(fs, sep);
    assert OutputEE(exts, sep, "") == "[" + body + "]";
    CountAppend('[', "[" + body, "]");
    CountAppend('[', "[", body);
  }
}
