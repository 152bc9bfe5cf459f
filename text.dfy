/** The few pieces of Python's `str` behaviour that the parsers and printers
    of the system rely on: `split`, `join`, `strip`, `str(int)` and `int(str)`. */
module Text {
  import opened Wrappers

  /** Python's `str.isspace`, which is also what `split()`, `strip()` and the
      regular expression class `\s` take as white space: TAB..CR, the four
      separators 0x1C..0x1F, SPACE, NEL, NO-BREAK SPACE, OGHAM SPACE MARK,
      EN QUAD..HAIR SPACE, LINE and PARAGRAPH SEPARATOR, NARROW NO-BREAK
      SPACE, MEDIUM MATHEMATICAL SPACE and IDEOGRAPHIC SPACE. */
  predicate IsSpace(c: char) {
    var n := c as int;
    9 <= n <= 13 || 28 <= n <= 32 || n == 0x85 || n == 0xA0 || n == 0x1680 ||
    0x2000 <= n <= 0x200A || n == 0x2028 || n == 0x2029 || n == 0x202F ||
    n == 0x205F || n == 0x3000
  }

  predicate NoSpace(s: string) {
    forall i :: 0 <= i < |s| ==> !IsSpace(s[i])
  }

  /** Position of the first `c` in `s`, or `|s|` when there is none. */
  function IndexOf(s: string, c: char): (k: nat)
    ensures k <= |s|
    ensures forall i :: 0 <= i < k ==> s[i] != c
    ensures k < |s| ==> s[k] == c
  {
    if |s| == 0 then 0 else if s[0] == c then 0 else 1 + IndexOf(s[1..], c)
  }

  /** Python's `s.split(sep)` for a one-character separator. */
  function Split(s: string, sep: char): (r: seq<string>)
    ensures |r| >= 1
    decreases |s|
  {
    var k := IndexOf(s, sep);
    if k == |s| then [s] else [s[..k]] + Split(s[k + 1..], sep)
  }

  /** Python's `sep.join(xs)`. */
  function Join(xs: seq<string>, sep: string): string {
    if |xs| == 0 then ""
    else if |xs| == 1 then xs[0]
    else xs[0] + sep + Join(xs[1..], sep)
  }

  /** Joining one more piece adds the separator and the piece. */
  lemma {:induction false} JoinAppend(xs: seq<string>, y: string, sep: string)
    requires |xs| >= 1
    ensures Join(xs + [y], sep) == Join(xs, sep) + sep + y
  {
    if |xs| > 1 {
      assert (xs + [y])[1..] == xs[1..] + [y];
      JoinAppend(xs[1..], y, sep);
    }
  }

  /** A character in neither the pieces nor the separator is not in the join. */
  lemma {:induction false} JoinAvoids(xs: seq<string>, sep: string, c: char)
    requires forall i :: 0 <= i < |xs| ==> c !in xs[i]
    requires c !in sep
    ensures c !in Join(xs, sep)
  {
    if |xs| > 1 {
      JoinAvoids(xs[1..], sep, c);
    }
  }

  lemma {:induction false} IndexOfAfter(x: string, t: string, c: char)
    requires c !in x
    ensures IndexOf(x + t, c) == |x| + IndexOf(t, c)
  {
    if x != [] {
      assert (x + t)[1..] == x[1..] + t;
      IndexOfAfter(x[1..], t, c);
    } else {
      assert x + t == t;
    }
  }

  /** Splitting undoes joining when no piece holds the separator. */
  lemma {:induction false} SplitJoin(xs: seq<string>, sep: char)
    requires |xs| >= 1
    requires forall i :: 0 <= i < |xs| ==> sep !in xs[i]
    ensures Split(Join(xs, [sep]), sep) == xs
  {
    var x := xs[0];
    if |xs| == 1 {
      IndexOfAfter(x, [], sep);
      assert x + [] == x;
    } else {
      var rest := Join(xs[1..], [sep]);
      var s := Join(xs, [sep]);
      assert s == x + ([sep] + rest);
      assert IndexOf(s, sep) == |x| by {
        IndexOfAfter(x, [sep] + rest, sep);
      }
      assert s[..|x|] == x && s[|x| + 1..] == rest;
      assert Split(rest, sep) == xs[1..] by {
        SplitJoin(xs[1..], sep);
      }
      assert Split(s, sep) == [x] + xs[1..];
      assert xs == [x] + xs[1..];
    }
  }

  /** Length of the run of non-space characters at the front of `s`. */
  function WordLen(s: string): (k: nat)
    ensures k <= |s|
    ensures forall i :: 0 <= i < k ==> !IsSpace(s[i])
    ensures k < |s| ==> IsSpace(s[k])
  {
    if |s| == 0 || IsSpace(s[0]) then 0 else 1 + WordLen(s[1..])
  }

  /** Python's `s.split()`: the maximal runs of non-space characters. */
  function Words(s: string): (r: seq<string>)
    ensures forall i :: 0 <= i < |r| ==> r[i] != "" && NoSpace(r[i])
    decreases |s|
  {
    if |s| == 0 then []
    else if IsSpace(s[0]) then Words(s[1..])
    else
      var k := WordLen(s);
      [s[..k]] + Words(s[k..])
  }

  lemma {:induction false} WordLenAfter(x: string, t: string)
    requires NoSpace(x)
    requires t == [] || IsSpace(t[0])
    ensures WordLen(x + t) == |x|
  {
    if x != [] {
      assert (x + t)[1..] == x[1..] + t;
      WordLenAfter(x[1..], t);
    } else {
      assert x + t == t;
    }
  }

  /** A word followed by white space is the first word. */
  lemma WordThenSpace(w: string, t: string)
    requires w != "" && NoSpace(w)
    requires t != [] && IsSpace(t[0])
    ensures Words(w + t) == [w] + Words(t[1..])
  {
    var s := w + t;
    WordLenAfter(w, t);
    assert s[..|w|] == w && s[|w|..] == t;
    assert Words(s) == [w] + Words(t);
  }

  /** Splitting on white space undoes joining with single spaces. */
  lemma {:induction false} WordsJoin(xs: seq<string>)
    requires forall i :: 0 <= i < |xs| ==> xs[i] != "" && NoSpace(xs[i])
    ensures Words(Join(xs, " ")) == xs
  {
    if |xs| == 1 {
      var x := xs[0];
      WordLenAfter(x, []);
      assert x + [] == x;
      assert x[|x|..] == [];
    } else if |xs| > 1 {
      var x := xs[0];
      var rest := Join(xs[1..], " ");
      assert Join(xs, " ") == x + (" " + rest);
      assert Words(x + (" " + rest)) == [x] + Words(rest) by {
        WordThenSpace(x, " " + rest);
        assert (" " + rest)[1..] == rest;
      }
      WordsJoin(xs[1..]);
      assert xs == [x] + xs[1..];
    }
  }

  /** `s` holds a non-space character. */
  ghost predicate HasWord(s: string) {
    exists i :: 0 <= i < |s| && !IsSpace(s[i])
  }

  /** `s` holds white space with a non-space character on each side. */
  ghost predicate HasInnerSpace(s: string) {
    exists i: nat, j: nat, k: nat :: InnerSpaceAt(s, i, j, k)
  }

  /** White space at `j` between the non-space characters at `i` and `k`. */
  ghost predicate InnerSpaceAt(s: string, i: nat, j: nat, k: nat) {
    i < j < k < |s| && !IsSpace(s[i]) && IsSpace(s[j]) && !IsSpace(s[k])
  }

  /** `s.split()` is empty exactly when `s` is all white space. */
  lemma {:induction false} WordsNonEmpty(s: string)
    ensures Words(s) != [] <==> HasWord(s)
    decreases |s|
  {
    if s != [] {
      if IsSpace(s[0]) {
        WordsNonEmpty(s[1..]);
        if HasWord(s) {
          var i :| 0 <= i < |s| && !IsSpace(s[i]);
          assert s[1..][i - 1] == s[i];
        }
        if HasWord(s[1..]) {
          var i :| 0 <= i < |s[1..]| && !IsSpace(s[1..][i]);
          assert s[i + 1] == s[1..][i];
        }
      } else {
        assert !IsSpace(s[0]);
      }
    }
  }

  lemma InnerSpaceWitness(s: string) returns (i: nat, j: nat, k: nat)
    requires HasInnerSpace(s)
    ensures InnerSpaceAt(s, i, j, k)
  {
    i, j, k :| InnerSpaceAt(s, i, j, k);
  }

  /** Dropping a leading space keeps the inner-space test. */
  lemma SpaceFirstInner(s: string)
    requires s != [] && IsSpace(s[0])
    ensures HasInnerSpace(s) <==> HasInnerSpace(s[1..])
  {
    var t := s[1..];
    if HasInnerSpace(s) {
      var i, j, k := InnerSpaceWitness(s);
      assert t[i - 1] == s[i] && t[j - 1] == s[j] && t[k - 1] == s[k];
      assert InnerSpaceAt(t, i - 1, j - 1, k - 1);
    }
    if HasInnerSpace(t) {
      var i, j, k := InnerSpaceWitness(t);
      assert s[i + 1] == t[i] && s[j + 1] == t[j] && s[k + 1] == t[k];
      assert InnerSpaceAt(s, i + 1, j + 1, k + 1);
    }
  }

  /** After a leading word, more words follow exactly when `s` has inner space. */
  lemma WordFirstInner(s: string)
    requires s != [] && !IsSpace(s[0])
    ensures HasInnerSpace(s) <==> HasWord(s[WordLen(s)..])
  {
    var n := WordLen(s);
    if HasInnerSpace(s) {
      var i, j, k := InnerSpaceWitness(s);
      assert n <= j;
      assert s[n..][k - n] == s[k];
    }
    if HasWord(s[n..]) {
      var m :| 0 <= m < |s[n..]| && !IsSpace(s[n..][m]);
      assert n < |s| && m > 0;
      assert s[n + m] == s[n..][m];
      assert InnerSpaceAt(s, 0, n, n + m);
    }
  }

  /** `s.split()` has more than one part exactly when white space separates
      two non-space characters of `s`. */
  lemma {:induction false} WordsMany(s: string)
    ensures |Words(s)| > 1 <==> HasInnerSpace(s)
    decreases |s|
  {
    if s == [] {
      assert !HasInnerSpace(s);
    } else if IsSpace(s[0]) {
      SpaceFirstInner(s);
      WordsMany(s[1..]);
    } else {
      var k := WordLen(s);
      WordFirstInner(s);
      WordsNonEmpty(s[k..]);
      assert Words(s) == [s[..k]] + Words(s[k..]);
    }
  }

  /** Length of the longest prefix of `s` whose characters satisfy `p`. */
  function Span(s: string, p: char -> bool): (k: nat)
    ensures k <= |s|
    ensures forall i :: 0 <= i < k ==> p(s[i])
    ensures k < |s| ==> !p(s[k])
  {
    if s == [] || !p(s[0]) then 0 else 1 + Span(s[1..], p)
  }

  lemma {:induction false} SpanAfter(x: string, t: string, p: char -> bool)
    requires forall i :: 0 <= i < |x| ==> p(x[i])
    requires t == [] || !p(t[0])
    ensures Span(x + t, p) == |x|
  {
    if x != [] {
      assert (x + t)[1..] == x[1..] + t;
      SpanAfter(x[1..], t, p);
    } else {
      assert x + t == t;
    }
  }

  function StripLeft(s: string): (r: string)
    ensures r == [] || !IsSpace(r[0])
  {
    if |s| > 0 && IsSpace(s[0]) then StripLeft(s[1..]) else s
  }

  function StripRight(s: string): (r: string)
    ensures r == [] || !IsSpace(r[|r| - 1])
  {
    if |s| > 0 && IsSpace(s[|s| - 1]) then StripRight(s[..|s| - 1]) else s
  }

  /** Python's `s.strip()`. */
  function Strip(s: string): string {
    StripRight(StripLeft(s))
  }

  predicate IsDigit(c: char) {
    48 <= c as int <= 57
  }

  function DigitChar(d: nat): (c: char)
    requires d < 10
    ensures IsDigit(c)
  {
    (d + 48) as char
  }

  function NatToString(n: nat): (s: string)
    ensures s != [] && forall i :: 0 <= i < |s| ==> IsDigit(s[i])
    decreases n
  {
    if n < 10 then [DigitChar(n)] else NatToString(n / 10) + [DigitChar(n % 10)]
  }

  /** Python's `str(i)`. */
  function IntToString(i: int): (s: string)
    ensures s != [] && NoSpace(s)
    ensures forall k :: 0 <= k < |s| ==> IsDigit(s[k]) || s[k] == '-'
  {
    if i < 0 then "-" + NatToString(-i) else NatToString(i)
  }

  function ParseDigits(s: string): (n: nat)
    requires forall i :: 0 <= i < |s| ==> IsDigit(s[i])
  {
    if s == [] then 0
    else
      assert IsDigit(s[|s| - 1]);
      10 * ParseDigits(s[..|s| - 1]) + (s[|s| - 1] as int - 48)
  }

  predicate AllDigits(s: string) {
    s != [] && forall i :: 0 <= i < |s| ==> IsDigit(s[i])
  }

  /** Python's `int(token)` on a token without white space: an optional sign
      followed by ASCII decimal digits; anything else raises `ValueError`
      (`None`). The `_` separators and non-ASCII decimal digits that `int`
      also accepts are not modelled. */
  function ParseInt(s: string): Option<int> {
    if |s| > 0 && (s[0] == '-' || s[0] == '+') then
      if AllDigits(s[1..]) then
        var n: int := ParseDigits(s[1..]);
        Some(if s[0] == '-' then -n else n)
      else None
    else if AllDigits(s) then Some(ParseDigits(s))
    else None
  }

  lemma {:induction false} ParseNatToString(n: nat)
    ensures ParseDigits(NatToString(n)) == n
    decreases n
  {
    if n >= 10 {
      ParseNatToString(n / 10);
      var s := NatToString(n / 10) + [DigitChar(n % 10)];
      assert s[..|s| - 1] == NatToString(n / 10);
    }
  }

  /** Reading back what `str` printed gives the integer again. */
  lemma ParseIntToString(i: int)
    ensures ParseInt(IntToString(i)) == Some(i)
  {
    if i < 0 {
      var d := NatToString(-i);
      ParseNatToString(-i);
      assert AllDigits(d);
      assert IntToString(i)[0] == '-' && IntToString(i)[1..] == d;
    } else {
      var d := NatToString(i);
      ParseNatToString(i);
      assert AllDigits(d) && d[0] != '-' && d[0] != '+';
    }
  }
}
