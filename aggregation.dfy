// How `ProbabilisiticWrapper` folds the results of the possible worlds into
// probabilities (argumentation_framework/frameworks.py): `get_p_extension`
// sums the probability of the worlds per extension, `get_p_decision` sums
// the probability of the worlds that accept, `get_p_equivalent_to` sums the
// probability of the pairs of worlds that agree. The fold is sequential,
// in the order the worlds are listed.

module Aggregation {
  import opened Wrappers
  import opened Collections

  /** The extension `s` without the ground-truth argument 0, every other
      argument `a` renamed `a - 1`. */
  function DropGround(s: seq<int>): seq<int> {
    if s == [] then []
    else (if s[0] == 0 then [] else [s[0] - 1]) + DropGround(s[1..])
  }

  lemma {:induction false} DropGroundMembers(s: seq<int>)
    ensures forall x :: x in DropGround(s) <==> x + 1 in s && x != -1
  {
    if s != [] {
      DropGroundMembers(s[1..]);
      assert forall y :: y in s <==> y == s[0] || y in s[1..];
    }
  }

  lemma {:induction false} DropGroundAscending(s: seq<int>)
    requires Ascending(s)
    ensures Ascending(DropGround(s))
  {
    if s != [] {
      var tail := DropGround(s[1..]);
      DropGroundAscending(s[1..]);
      if s[0] == 0 {
        assert DropGround(s) == tail;
      } else {
        HeadBelowRest(s);
        AscendingCons(s[0] - 1, tail);
        assert DropGround(s) == [s[0] - 1] + tail;
      }
    }
  }

  lemma HeadBelowRest(s: seq<int>)
    requires Ascending(s) && s != []
    ensures forall x :: x in DropGround(s[1..]) ==> s[0] - 1 <= x
  {
    DropGroundMembers(s[1..]);
    forall x | x in DropGround(s[1..])
      ensures s[0] - 1 <= x
    {
      var k :| 0 <= k < |s[1..]| && s[1..][k] == x + 1;
      assert s[k + 1] == x + 1;
    }
  }

  lemma AscendingCons(h: int, t: seq<int>)
    requires Ascending(t) && forall x :: x in t ==> h <= x
    ensures Ascending([h] + t)
  {
    forall i, j | 0 <= i < j < |[h] + t|
      ensures ([h] + t)[i] <= ([h] + t)[j]
    {
      if i > 0 {
        assert ([h] + t)[i] == t[i - 1] && ([h] + t)[j] == t[j - 1];
      } else {
        assert ([h] + t)[j] == t[j - 1] && t[j - 1] in t;
      }
    }
  }

  /** Sequences with the same multiset hold the same values. */
  lemma SameMembers(a: seq<int>, b: seq<int>)
    requires multiset(a) == multiset(b)
    ensures forall x :: x in a <==> x in b
  {
    forall x ensures x in a <==> x in b {
      assert x in a <==> x in multiset(a);
      assert x in b <==> x in multiset(b);
    }
  }

  /** The key `get_p_extension` files an extension under: sorted, the
      ground truth removed, every argument renamed `a - 1`; `None` where
      the ground truth is missing, which fails the assertion. */
  function Key(e: seq<int>): (r: Option<seq<int>>)
    ensures r.None? <==> 0 !in e
    ensures r.Some? ==> Ascending(r.value) && forall x :: x in r.value <==> x + 1 in e && x != -1
  {
    if 0 in e then
      var sorted := SortSeq(e);
      SameMembers(sorted, e);
      DropGroundMembers(sorted);
      DropGroundAscending(sorted);
      Some(DropGround(sorted))
    else None
  }

  /** Extensions with the same arguments get the same key. */
  lemma KeyOfSameArguments(a: seq<int>, b: seq<int>)
    requires multiset(a) == multiset(b)
    ensures Key(a) == Key(b)
  {
    SameMembers(a, b);
    SortSeqCanonical(a, b);
  }

  /** The dictionary of `get_p_extension` as a list of (mass, key) entries
      in insertion order. */
  type Masses = seq<(real, seq<int>)>

  /** The position of `key` among the entries. */
  function IndexOf(acc: Masses, key: seq<int>): (r: Option<nat>)
    ensures r.Some? ==> r.value < |acc| && acc[r.value].1 == key
    ensures r.None? ==> forall k :: 0 <= k < |acc| ==> acc[k].1 != key
  {
    if acc == [] then None
    else if acc[0].1 == key then Some(0)
    else match IndexOf(acc[1..], key)
      case None => None
      case Some(k) => Some(k + 1)
  }

  /** `hash_proba[key] += p` on the `defaultdict`, with `hash_extension[key]`
      set alongside. */
  function AddMass(acc: Masses, key: seq<int>, p: real): Masses {
    match IndexOf(acc, key)
    case Some(k) => acc[k := (acc[k].0 + p, key)]
    case None => acc + [(p, key)]
  }

  /** The sum of the masses. */
  function Total(acc: Masses): real {
    if acc == [] then 0.0 else acc[0].0 + Total(acc[1..])
  }

  lemma {:induction false} TotalSnoc(acc: Masses, x: (real, seq<int>))
    ensures Total(acc + [x]) == Total(acc) + x.0
  {
    if acc != [] {
      assert (acc + [x])[1..] == acc[1..] + [x];
      TotalSnoc(acc[1..], x);
    }
  }

  lemma {:induction false} TotalUpdate(acc: Masses, k: nat, x: (real, seq<int>))
    requires k < |acc|
    ensures Total(acc[k := x]) == Total(acc) - acc[k].0 + x.0
  {
    if k == 0 {
      assert acc[k := x][1..] == acc[1..];
    } else {
      assert acc[k := x][1..] == acc[1..][k - 1 := x];
      TotalUpdate(acc[1..], k - 1, x);
    }
  }

  /** Each key has one entry. */
  predicate DistinctKeys(acc: Masses) {
    forall i, j :: 0 <= i < j < |acc| ==> acc[i].1 != acc[j].1
  }

  /** Every mass is at least 0. */
  predicate NonNegative(acc: Masses) {
    forall k :: 0 <= k < |acc| ==> acc[k].0 >= 0.0
  }

  /** Adding `p` to the entry of `key` raises the total by `p`. */
  lemma AddMassTotal(acc: Masses, key: seq<int>, p: real)
    ensures Total(AddMass(acc, key, p)) == Total(acc) + p
  {
    match IndexOf(acc, key)
    case Some(k) =>
      TotalUpdate(acc, k, (acc[k].0 + p, key));
    case None =>
      TotalSnoc(acc, (p, key));
  }

  /** Adding to the entry of `key` keeps one entry per key, files `key`
      and keeps the masses at least 0. */
  lemma AddMassEntries(acc: Masses, key: seq<int>, p: real)
    ensures DistinctKeys(acc) ==> DistinctKeys(AddMass(acc, key, p))
    ensures NonNegative(acc) && p >= 0.0 ==> NonNegative(AddMass(acc, key, p))
    ensures forall k :: k in Keys(AddMass(acc, key, p)) <==> k in Keys(acc) || k == key
  {
    match IndexOf(acc, key)
    case Some(k) =>
      assert Keys(AddMass(acc, key, p)) == Keys(acc);
    case None =>
      assert Keys(AddMass(acc, key, p)) == Keys(acc) + [key];
  }

  /** The keys of the entries, in order. */
  function Keys(acc: Masses): (r: seq<seq<int>>)
    ensures |r| == |acc| && forall k :: 0 <= k < |acc| ==> r[k] == acc[k].1
  {
    seq(|acc|, k requires 0 <= k < |acc| => acc[k].1)
  }

  /** The inner loop of `__solve_for_p_af`: the extensions of one world of
      probability `p` filed one by one; `None` where one lacks the ground
      truth. */
  function WorldMass(acc: Masses, p: real, exts: seq<seq<int>>): Option<Masses> {
    match GroundKeys(exts)
    case None => None
    case Some(keys) => Some(FileAll(acc, p, keys))
  }

  /** The keys of the extensions of one world, `None` where one lacks the
      ground truth: the assertion then fails before the world's masses can
      be seen. */
  function GroundKeys(exts: seq<seq<int>>): (r: Option<seq<seq<int>>>)
    ensures r.Some? ==> |r.value| == |exts|
  {
    if exts == [] then Some([])
    else match (Key(exts[0]), GroundKeys(exts[1..]))
      case (Some(key), Some(keys)) => Some([key] + keys)
      case _ => None
  }

  /** `hash_proba[key] += p` for each key in turn. */
  function FileAll(acc: Masses, p: real, keys: seq<seq<int>>): Masses
    decreases |keys|
  {
    if keys == [] then acc else FileAll(AddMass(acc, keys[0], p), p, keys[1..])
  }

  /** The fold over the worlds, each with its probability and the
      extensions `solve_extensions` finds in it. */
  function MassFrom(acc: Masses, items: seq<(real, seq<seq<int>>)>): Option<Masses>
    decreases |items|
  {
    if items == [] then Some(acc)
    else match WorldMass(acc, items[0].0, items[0].1)
      case None => None
      case Some(next) => MassFrom(next, items[1..])
  }

  /** What `get_p_extension` yields: the (mass, key) entries, `None` where
      an extension lacks the ground truth. */
  function ExtensionMass(items: seq<(real, seq<seq<int>>)>): Option<Masses> {
    MassFrom([], items)
  }

  /** The probability of each world counted once per extension, summed
      over the worlds (`RepeatIsProduct`: probability times number of
      extensions). */
  function Weighted(items: seq<(real, seq<seq<int>>)>): real {
    if items == [] then 0.0 else Repeat(items[0].0, |items[0].1|) + Weighted(items[1..])
  }

  /** Every world has probability at least 0. */
  predicate Probable(items: seq<(real, seq<seq<int>>)>) {
    forall k :: 0 <= k < |items| ==> items[k].0 >= 0.0
  }

  /** Every extension of one world holds the ground truth. */
  predicate AllGrounded(exts: seq<seq<int>>) {
    exts == [] || (0 in exts[0] && AllGrounded(exts[1..]))
  }

  /** Every extension of every world holds the ground truth. */
  predicate Grounded(items: seq<(real, seq<seq<int>>)>) {
    items == [] || (AllGrounded(items[0].1) && Grounded(items[1..]))
  }

  lemma {:induction false} AllGroundedMeans(exts: seq<seq<int>>)
    ensures AllGrounded(exts) <==> forall e :: e in exts ==> 0 in e
  {
    if exts != [] {
      AllGroundedMeans(exts[1..]);
      assert forall e :: e in exts <==> e == exts[0] || e in exts[1..];
    }
  }

  /** The recursive reading of "grounded" is the plain one: no extension of
      any world lacks the ground truth. */
  lemma {:induction false} GroundedMeans(items: seq<(real, seq<seq<int>>)>)
    ensures Grounded(items) <==> forall k, e :: 0 <= k < |items| && e in items[k].1 ==> 0 in e
  {
    if items != [] {
      GroundedMeans(items[1..]);
      AllGroundedMeans(items[0].1);
      forall k, e | 0 < k < |items| && e in items[k].1
        ensures e in items[1..][k - 1].1
      {
      }
      forall k, e | 0 <= k < |items[1..]| && e in items[1..][k].1
        ensures e in items[k + 1].1
      {
      }
    }
  }

  /** `p` added `n` times: what one world of probability `p` files for
      its `n` extensions. */
  function Repeat(p: real, n: nat): real {
    if n == 0 then 0.0 else p + Repeat(p, n - 1)
  }

  lemma {:induction false} RepeatIsProduct(p: real, n: nat)
    ensures Repeat(p, n) == p * n as real
  {
    if n > 0 {
      RepeatIsProduct(p, n - 1);
    }
  }


  lemma {:induction false} GroundKeysDefined(exts: seq<seq<int>>)
    ensures GroundKeys(exts).Some? <==> AllGrounded(exts)
  {
    if exts != [] {
      GroundKeysDefined(exts[1..]);
    }
  }

  lemma {:induction false} FileAllTotal(acc: Masses, p: real, keys: seq<seq<int>>)
    ensures Total(FileAll(acc, p, keys)) == Total(acc) + Repeat(p, |keys|)
    decreases |keys|
  {
    if keys != [] {
      var next := AddMass(acc, keys[0], p);
      AddMassTotal(acc, keys[0], p);
      FileAllTotal(next, p, keys[1..]);
    }
  }

  lemma {:induction false} FileAllEntries(acc: Masses, p: real, keys: seq<seq<int>>)
    ensures DistinctKeys(acc) ==> DistinctKeys(FileAll(acc, p, keys))
    ensures NonNegative(acc) && p >= 0.0 ==> NonNegative(FileAll(acc, p, keys))
    decreases |keys|
  {
    if keys != [] {
      AddMassEntries(acc, keys[0], p);
      FileAllEntries(AddMass(acc, keys[0], p), p, keys[1..]);
    }
  }

  lemma WorldMassDefined(acc: Masses, p: real, exts: seq<seq<int>>)
    ensures WorldMass(acc, p, exts).Some? <==> AllGrounded(exts)
  {
    GroundKeysDefined(exts);
  }

  lemma WorldMassTotal(acc: Masses, p: real, exts: seq<seq<int>>)
    requires WorldMass(acc, p, exts).Some?
    ensures Total(WorldMass(acc, p, exts).value) == Total(acc) + Repeat(p, |exts|)
  {
    FileAllTotal(acc, p, GroundKeys(exts).value);
  }

  lemma WorldMassEntries(acc: Masses, p: real, exts: seq<seq<int>>)
    requires WorldMass(acc, p, exts).Some?
    ensures DistinctKeys(acc) ==> DistinctKeys(WorldMass(acc, p, exts).value)
    ensures NonNegative(acc) && p >= 0.0 ==> NonNegative(WorldMass(acc, p, exts).value)
  {
    FileAllEntries(acc, p, GroundKeys(exts).value);
  }

  lemma {:induction false} MassFromDefined(acc: Masses, items: seq<(real, seq<seq<int>>)>)
    ensures MassFrom(acc, items).Some? <==> Grounded(items)
    decreases |items|
  {
    if items != [] {
      WorldMassDefined(acc, items[0].0, items[0].1);
      match WorldMass(acc, items[0].0, items[0].1)
      case None =>
      case Some(next) =>
        MassFromDefined(next, items[1..]);
    }
  }

  lemma {:induction false} MassFromTotal(acc: Masses, items: seq<(real, seq<seq<int>>)>)
    requires MassFrom(acc, items).Some?
    ensures Total(MassFrom(acc, items).value) == Total(acc) + Weighted(items)
    decreases |items|
  {
    if items != [] {
      var next := WorldMass(acc, items[0].0, items[0].1).value;
      WorldMassTotal(acc, items[0].0, items[0].1);
      MassFromTotal(next, items[1..]);
    }
  }

  lemma {:induction false} MassFromEntries(acc: Masses, items: seq<(real, seq<seq<int>>)>)
    requires MassFrom(acc, items).Some?
    ensures DistinctKeys(acc) ==> DistinctKeys(MassFrom(acc, items).value)
    ensures NonNegative(acc) && Probable(items) ==> NonNegative(MassFrom(acc, items).value)
    decreases |items|
  {
    if items != [] {
      var next := WorldMass(acc, items[0].0, items[0].1).value;
      WorldMassEntries(acc, items[0].0, items[0].1);
      assert Probable(items) ==> items[0].0 >= 0.0 && Probable(items[1..]);
      MassFromEntries(next, items[1..]);
    }
  }

  /** `get_p_extension` fails exactly when an extension lacks the ground
      truth; otherwise it files each key once, with a mass at least 0, and
      the masses add up to the probability-weighted number of extensions. */
  lemma ExtensionMassSound(items: seq<(real, seq<seq<int>>)>)
    ensures ExtensionMass(items).Some? <==> Grounded(items)
    ensures ExtensionMass(items).Some? ==>
              Total(ExtensionMass(items).value) == Weighted(items) && DistinctKeys(ExtensionMass(items).value)
    ensures ExtensionMass(items).Some? && Probable(items) ==> NonNegative(ExtensionMass(items).value)
  {
    MassFromDefined([], items);
    if ExtensionMass(items).Some? {
      MassFromTotal([], items);
      MassFromEntries([], items);
    }
  }

  /** The mass filed under `key`, 0 where it has no entry: what
      `hash_proba[key]` reads on the `defaultdict`. */
  function MassOf(acc: Masses, key: seq<int>): real {
    match IndexOf(acc, key)
    case Some(k) => acc[k].0
    case None => 0.0
  }

  /** How many of the extensions are filed under `key`. */
  function KeyCount(exts: seq<seq<int>>, key: seq<int>): nat {
    if exts == [] then 0 else (if Key(exts[0]) == Some(key) then 1 else 0) + KeyCount(exts[1..], key)
  }

  /** The mass `key` should end up with, summed world by world: the
      probability of each world times (`RepeatIsProduct`) the number of
      its extensions filed under `key`. */
  function KeyMass(items: seq<(real, seq<seq<int>>)>, key: seq<int>): real {
    if items == [] then 0.0 else Repeat(items[0].0, KeyCount(items[0].1, key)) + KeyMass(items[1..], key)
  }

  /** Some extension of some world is filed under `key`. */
  ghost predicate Filed(items: seq<(real, seq<seq<int>>)>, key: seq<int>) {
    exists w, e :: 0 <= w < |items| && e in items[w].1 && Key(e) == Some(key)
  }

  /** With one entry per key, the entry holding `key` is the one `IndexOf`
      finds. */
  lemma IndexOfDistinct(acc: Masses, key: seq<int>, i: int)
    requires DistinctKeys(acc) && 0 <= i < |acc| && acc[i].1 == key
    ensures IndexOf(acc, key) == Some(i)
  {
  }

  /** With one entry per key, the mass of `k` is that of the entry holding
      `k`, or 0. */
  lemma MassOfEntry(acc: Masses, k: seq<int>, i: int)
    requires DistinctKeys(acc) && 0 <= i < |acc| && acc[i].1 == k
    ensures MassOf(acc, k) == acc[i].0
  {
    IndexOfDistinct(acc, k, i);
  }

  /** `hash_proba[key] += p` raises the mass of `key` by `p` and leaves
      every other key's mass alone. */
  lemma AddMassOf(acc: Masses, key: seq<int>, p: real, k: seq<int>)
    requires DistinctKeys(acc)
    ensures MassOf(AddMass(acc, key, p), k) == MassOf(acc, k) + (if k == key then p else 0.0)
  {
    var next := AddMass(acc, key, p);
    AddMassEntries(acc, key, p);
    match IndexOf(acc, k)
    case Some(j) =>
      assert next[j].1 == k;
      MassOfEntry(next, k, j);
    case None =>
      if k == key {
        assert next[|acc|] == (p, key);
        MassOfEntry(next, k, |acc|);
      } else {
        assert forall j :: 0 <= j < |next| ==> next[j].1 != k;
      }
  }

  /** Filing `keys` one by one with `p` adds `p` to `k` once per
      occurrence of `k`. */
  lemma {:induction false} FileAllOf(acc: Masses, p: real, keys: seq<seq<int>>, k: seq<int>)
    requires DistinctKeys(acc)
    ensures MassOf(FileAll(acc, p, keys), k) == MassOf(acc, k) + Repeat(p, multiset(keys)[k])
    decreases |keys|
  {
    if keys != [] {
      var next := AddMass(acc, keys[0], p);
      AddMassOf(acc, keys[0], p, k);
      AddMassEntries(acc, keys[0], p);
      FileAllOf(next, p, keys[1..], k);
      assert keys == [keys[0]] + keys[1..];
      assert multiset(keys)[k] == multiset(keys[1..])[k] + (if keys[0] == k then 1 else 0);
    }
  }

  /** Filing `keys` lists exactly the keys already listed and `keys`. */
  lemma {:induction false} FileAllKeys(acc: Masses, p: real, keys: seq<seq<int>>, k: seq<int>)
    ensures k in Keys(FileAll(acc, p, keys)) <==> k in Keys(acc) || k in keys
    decreases |keys|
  {
    if keys != [] {
      AddMassEntries(acc, keys[0], p);
      FileAllKeys(AddMass(acc, keys[0], p), p, keys[1..], k);
      assert k in keys <==> k == keys[0] || k in keys[1..];
    }
  }

  /** The keys of one world count and list its extensions by key. */
  lemma {:induction false} GroundKeysOf(exts: seq<seq<int>>, k: seq<int>)
    requires GroundKeys(exts).Some?
    ensures multiset(GroundKeys(exts).value)[k] == KeyCount(exts, k)
    ensures k in GroundKeys(exts).value <==> exists e :: e in exts && Key(e) == Some(k)
  {
    if exts != [] {
      var keys := GroundKeys(exts).value;
      var rest := GroundKeys(exts[1..]).value;
      GroundKeysOf(exts[1..], k);
      assert keys == [Key(exts[0]).value] + rest;
      assert forall e :: e in exts <==> e == exts[0] || e in exts[1..];
    }
  }

  /** One world of probability `p` adds `p` to `k` for each of its
      extensions filed under `k`, and lists the keys of its extensions. */
  lemma WorldMassOf(acc: Masses, p: real, exts: seq<seq<int>>, k: seq<int>)
    requires DistinctKeys(acc) && WorldMass(acc, p, exts).Some?
    ensures MassOf(WorldMass(acc, p, exts).value, k) == MassOf(acc, k) + Repeat(p, KeyCount(exts, k))
    ensures k in Keys(WorldMass(acc, p, exts).value) <==> k in Keys(acc) || exists e :: e in exts && Key(e) == Some(k)
  {
    var keys := GroundKeys(exts).value;
    FileAllOf(acc, p, keys, k);
    FileAllKeys(acc, p, keys, k);
    GroundKeysOf(exts, k);
  }

  /** Over all the worlds, `k` gains exactly `KeyMass`. */
  lemma {:induction false} MassFromOf(acc: Masses, items: seq<(real, seq<seq<int>>)>, k: seq<int>)
    requires DistinctKeys(acc) && MassFrom(acc, items).Some?
    ensures MassOf(MassFrom(acc, items).value, k) == MassOf(acc, k) + KeyMass(items, k)
    decreases |items|
  {
    if items != [] {
      var next := WorldMass(acc, items[0].0, items[0].1).value;
      WorldMassOf(acc, items[0].0, items[0].1, k);
      WorldMassEntries(acc, items[0].0, items[0].1);
      MassFromOf(next, items[1..], k);
    }
  }

  /** Over all the worlds, the keys listed are those already listed and
      the keys of the extensions of every world. */
  lemma {:induction false} MassFromKeys(acc: Masses, items: seq<(real, seq<seq<int>>)>, k: seq<int>)
    requires DistinctKeys(acc) && MassFrom(acc, items).Some?
    ensures k in Keys(MassFrom(acc, items).value) <==> k in Keys(acc) || Filed(items, k)
    decreases |items|
  {
    if items != [] {
      var next := WorldMass(acc, items[0].0, items[0].1).value;
      WorldMassOf(acc, items[0].0, items[0].1, k);
      WorldMassEntries(acc, items[0].0, items[0].1);
      MassFromKeys(next, items[1..], k);
      if Filed(items, k) {
        var w, e :| 0 <= w < |items| && e in items[w].1 && Key(e) == Some(k);
        if w > 0 {
          assert e in items[1..][w - 1].1;
        }
      }
      if Filed(items[1..], k) {
        var w, e :| 0 <= w < |items[1..]| && e in items[1..][w].1 && Key(e) == Some(k);
        assert e in items[w + 1].1;
      }
    }
  }

  /** `get_p_extension` gives each key the probability-weighted number of
      extensions filed under it, and lists exactly the keys of the
      extensions found in some world. */
  lemma ExtensionMassPerKey(items: seq<(real, seq<seq<int>>)>, k: seq<int>)
    requires ExtensionMass(items).Some?
    ensures MassOf(ExtensionMass(items).value, k) == KeyMass(items, k)
    ensures k in Keys(ExtensionMass(items).value) <==> Filed(items, k)
  {
    MassFromOf([], items, k);
    MassFromKeys([], items, k);
  }

  /** The probabilities of the worlds, summed. */
  function Probability(items: seq<(real, seq<seq<int>>)>): real {
    if items == [] then 0.0 else items[0].0 + Probability(items[1..])
  }

  /** Where every world has exactly one extension (as every single
      enumeration does), the masses add up to the total probability. */
  lemma {:induction false} OneExtensionEach(items: seq<(real, seq<seq<int>>)>)
    requires forall k :: 0 <= k < |items| ==> |items[k].1| == 1
    ensures Weighted(items) == Probability(items)
  {
    if items != [] {
      assert |items[0].1| == 1;
      assert Repeat(items[0].0, 1) == items[0].0 + Repeat(items[0].0, 0);
      OneExtensionEach(items[1..]);
    }
  }

  /** The mass of the worlds whose decision is `True`: `v[1]` of
      `get_p_decision`. */
  function TrueMass(items: seq<(real, bool)>): real {
    if items == [] then 0.0 else (if items[0].1 then items[0].0 else 0.0) + TrueMass(items[1..])
  }

  /** `v[0]`: the mass of the worlds whose decision is `False`. */
  function FalseMass(items: seq<(real, bool)>): real {
    if items == [] then 0.0 else (if items[0].1 then 0.0 else items[0].0) + FalseMass(items[1..])
  }

  /** The probabilities of the decided worlds, summed. */
  function DecidedMass(items: seq<(real, bool)>): real {
    if items == [] then 0.0 else items[0].0 + DecidedMass(items[1..])
  }

  /** Each world counts once, for its decision; with probabilities at
      least 0 the accepted mass lies between 0 and the total. */
  lemma {:induction false} DecisionSplit(items: seq<(real, bool)>)
    ensures TrueMass(items) + FalseMass(items) == DecidedMass(items)
    ensures (forall k :: 0 <= k < |items| ==> items[k].0 >= 0.0) ==>
              0.0 <= TrueMass(items) <= DecidedMass(items)
  {
    if items != [] {
      DecisionSplit(items[1..]);
    }
  }

  /** The mass of the worlds `y` of the other framework that agree with
      the world `x`, weighted by the probability of `x`. */
  function RowPairMass<W>(x: (real, W), ys: seq<(real, W)>, equiv: (W, W) -> bool): real {
    if ys == [] then 0.0
    else (if equiv(x.1, ys[0].1) then x.0 * ys[0].0 else 0.0) + RowPairMass(x, ys[1..], equiv)
  }

  /** What `get_p_equivalent_to` returns: the mass of the agreeing pairs
      of `itertools.product(xs, ys)`. */
  function PairMass<W>(xs: seq<(real, W)>, ys: seq<(real, W)>, equiv: (W, W) -> bool): real {
    if xs == [] then 0.0 else RowPairMass(xs[0], ys, equiv) + PairMass(xs[1..], ys, equiv)
  }

  /** The probabilities of the worlds, summed. */
  function WorldsMass<W>(xs: seq<(real, W)>): real {
    if xs == [] then 0.0 else xs[0].0 + WorldsMass(xs[1..])
  }

  predicate AllProbable<W>(xs: seq<(real, W)>) {
    forall k :: 0 <= k < |xs| ==> xs[k].0 >= 0.0
  }

  lemma MulNonNegative(a: real, b: real)
    requires a >= 0.0 && b >= 0.0
    ensures a * b >= 0.0
  {
  }

  lemma MulDistributes(a: real, b: real, c: real)
    ensures a * (b + c) == a * b + a * c
    ensures (b + c) * a == b * a + c * a
  {
  }

  lemma {:induction false} RowPairBounds<W>(x: (real, W), ys: seq<(real, W)>, equiv: (W, W) -> bool)
    requires x.0 >= 0.0 && AllProbable(ys)
    ensures 0.0 <= RowPairMass(x, ys, equiv) <= x.0 * WorldsMass(ys)
  {
    if ys != [] {
      RowPairBounds(x, ys[1..], equiv);
      MulNonNegative(x.0, ys[0].0);
      MulDistributes(x.0, ys[0].0, WorldsMass(ys[1..]));
    }
  }

  lemma {:induction false} RowPairAgree<W>(x: (real, W), ys: seq<(real, W)>, equiv: (W, W) -> bool)
    requires forall y :: y in ys ==> equiv(x.1, y.1)
    ensures RowPairMass(x, ys, equiv) == x.0 * WorldsMass(ys)
  {
    if ys != [] {
      assert equiv(x.1, ys[0].1);
      assert forall y :: y in ys[1..] ==> y in ys;
      RowPairAgree(x, ys[1..], equiv);
      MulDistributes(x.0, ys[0].0, WorldsMass(ys[1..]));
    }
  }

  /** The equivalence probability lies between 0 and the product of the
      two total probabilities. */
  lemma {:induction false} PairBounds<W>(xs: seq<(real, W)>, ys: seq<(real, W)>, equiv: (W, W) -> bool)
    requires AllProbable(xs) && AllProbable(ys)
    ensures 0.0 <= PairMass(xs, ys, equiv) <= WorldsMass(xs) * WorldsMass(ys)
  {
    if xs != [] {
      RowPairBounds(xs[0], ys, equiv);
      PairBounds(xs[1..], ys, equiv);
      MulDistributes(WorldsMass(ys), xs[0].0, WorldsMass(xs[1..]));
    }
  }

  /** Every world of `xs` is equivalent to every world of `ys`. */
  ghost predicate AllAgree<W>(xs: seq<(real, W)>, ys: seq<(real, W)>, equiv: (W, W) -> bool) {
    forall x, y :: x in xs && y in ys ==> equiv(x.1, y.1)
  }

  lemma AgreeSplit<W>(xs: seq<(real, W)>, ys: seq<(real, W)>, equiv: (W, W) -> bool)
    requires xs != [] && AllAgree(xs, ys, equiv)
    ensures forall y :: y in ys ==> equiv(xs[0].1, y.1)
    ensures AllAgree(xs[1..], ys, equiv)
  {
    assert xs[0] in xs;
    assert forall x :: x in xs[1..] ==> x in xs;
  }

  /** Where every pair agrees, as for a framework compared with itself
      under a criterion it always meets, the equivalence probability is
      the product of the two total probabilities. */
  lemma {:induction false} PairAgree<W>(xs: seq<(real, W)>, ys: seq<(real, W)>, equiv: (W, W) -> bool)
    requires AllAgree(xs, ys, equiv)
    ensures PairMass(xs, ys, equiv) == WorldsMass(xs) * WorldsMass(ys)
  {
    if xs != [] {
      var head, rest := xs[0], xs[1..];
      AgreeSplit(xs, ys, equiv);
      RowPairAgree(head, ys, equiv);
      PairAgree(rest, ys, equiv);
      MulDistributes(WorldsMass(ys), head.0, WorldsMass(rest));
    }
  }
}
