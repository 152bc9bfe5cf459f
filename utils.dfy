/** solved_af/utils.py: flattening of nested collections and a result cache. */
module Utils {

  /** `flatten`: the items of the inner lists, list after list. */
  function Flatten<T>(xss: seq<seq<T>>): (r: seq<T>)
  {
    if xss == [] then [] else xss[0] + Flatten(xss[1..])
  }

  function TotalLength<T>(xss: seq<seq<T>>): nat {
    if xss == [] then 0 else |xss[0]| + TotalLength(xss[1..])
  }

  /** An item of the flattened list comes from some inner list. */
  lemma {:induction false} FlattenOrigin<T>(xss: seq<seq<T>>, x: T) returns (i: nat)
    requires x in Flatten(xss)
    ensures i < |xss| && x in xss[i]
  {
    if x in xss[0] {
      i := 0;
    } else {
      var j := FlattenOrigin(xss[1..], x);
      i := j + 1;
    }
  }

  /** Every item of every inner list is in the flattened list. */
  lemma {:induction false} FlattenKeeps<T>(xss: seq<seq<T>>, i: nat, x: T)
    requires i < |xss| && x in xss[i]
    ensures x in Flatten(xss)
  {
    if i > 0 {
      FlattenKeeps(xss[1..], i - 1, x);
    }
  }

  /** Flattening keeps every item and adds none, so its length is the sum
      of the inner lengths. */
  lemma {:induction false} FlattenLength<T>(xss: seq<seq<T>>)
    ensures |Flatten(xss)| == TotalLength(xss)
  {
    if xss != [] {
      FlattenLength(xss[1..]);
    }
  }

  /** Flattening distributes over concatenation of the outer list. */
  lemma {:induction false} FlattenAppend<T>(a: seq<seq<T>>, b: seq<seq<T>>)
    ensures Flatten(a + b) == Flatten(a) + Flatten(b)
  {
    if a == [] {
      assert a + b == b;
    } else {
      assert (a + b)[1..] == a[1..] + b;
      FlattenAppend(a[1..], b);
    }
  }

  /** Flattening one more inner list of a prefix appends that list. */
  lemma FlattenPrefixStep<T>(xss: seq<seq<T>>, j: nat)
    requires j < |xss|
    ensures Flatten(xss[..j + 1]) == Flatten(xss[..j]) + xss[j]
  {
    assert xss[..j + 1] == xss[..j] + [xss[j]];
    FlattenAppend(xss[..j], [xss[j]]);
    assert [xss[j]][1..] == [];
  }

  /** `flattenSet`: the union of the inner collections. */
  function FlattenSet<T(!new)>(xss: seq<set<T>>): (r: set<T>)
    ensures forall x :: x in r <==> exists i :: 0 <= i < |xss| && x in xss[i]
  {
    if xss == [] then {}
    else
      var rest := FlattenSet(xss[1..]);
      assert forall x :: x in rest ==> exists i :: 0 <= i < |xss| && x in xss[i] by {
        forall x | x in rest ensures exists i :: 0 <= i < |xss| && x in xss[i] {
          var i :| 0 <= i < |xss[1..]| && x in xss[1..][i];
          assert x in xss[i + 1];
        }
      }
      assert forall i :: 1 <= i < |xss| ==> xss[i] == xss[1..][i - 1];
      xss[0] + rest
  }

  /** `memoize`: a function with a cache of the results it has computed. */
  class Memoized<K(==), V> {
    const func: K -> V
    var cache: map<K, V>
    /** How often `func` has been evaluated. */
    ghost var evaluations: nat

    /** Every cached result is the function's result. */
    ghost predicate Valid()
      reads this
    {
      forall k :: k in cache ==> cache[k] == func(k)
    }

    constructor (f: K -> V)
      ensures Valid() && func == f && cache == map[] && evaluations == 0
    {
      func := f;
      cache := map[];
      evaluations := 0;
    }

    /** `memoized_func`: the cached result when there is one, otherwise the
        function's result, which is then cached. */
    method Call(k: K) returns (v: V)
      requires Valid()
      modifies this
      ensures Valid()
      ensures v == func(k)
      ensures cache == old(cache)[k := v]
      ensures k in old(cache) ==> cache == old(cache) && evaluations == old(evaluations)
      ensures k !in old(cache) ==> evaluations == old(evaluations) + 1
    {
      if k in cache {
        v := cache[k];
      } else {
        v := func(k);
        cache := cache[k := v];
        evaluations := evaluations + 1;
      }
    }
  }
}
