/** The decomposition of a number into named values for a first hint (numerics.cpp). */
module NumberHint {
  import opened Common

  /** The keys of the table of named numbers; a multimap keeps them in ascending order. */
  predicate Sorted(keys: seq<u64>) {
    forall i, j :: 0 <= i < j < |keys| ==> keys[i] <= keys[j]
  }

  /** `v` is the largest key that does not exceed `n`. */
  ghost predicate IsNearest(keys: seq<u64>, n: u64, v: u64) {
    v in keys && v <= n && forall k :: k in keys && k <= n ==> k <= v
  }

  /** Searches the table from its end; 0 when every key is larger. */
  method GetNearestNumberVal(keys: seq<u64>, n: u64) returns (v: u64)
    requires Sorted(keys)
    ensures IsNearest(keys, n, v) || (v == 0 && forall k :: k in keys ==> k > n)
  {
    var i := |keys|;
    while i > 0
      invariant 0 <= i <= |keys|
      invariant forall j :: i <= j < |keys| ==> keys[j] > n
    {
      i := i - 1;
      if keys[i] <= n {
        return keys[i];
      }
    }
    v := 0;
  }

  function Sum(s: seq<u64>): nat {
    if s == [] then 0 else Sum(s[..|s| - 1]) + s[|s| - 1]
  }

  lemma SumAppend(s: seq<u64>, v: u64)
    ensures Sum(s + [v]) == Sum(s) + v
  {
    assert (s + [v])[..|s|] == s;
  }

  /** Nothing in the table names a part of `n`. */
  ghost predicate Exhausted(keys: seq<u64>, n: u64) {
    forall k :: k in keys ==> k == 0 || k > n
  }

  /** Each value is the largest key that fits into what the values before it leave of `n`. */
  ghost predicate GreedyParts(keys: seq<u64>, n: u64, parts: seq<u64>) {
    forall i :: 0 <= i < |parts| ==>
      Sum(parts[..i]) <= n && parts[i] > 0 && IsNearest(keys, n - Sum(parts[..i]), parts[i])
  }

  method FirstHintParts(keys: seq<u64>, number: u64) returns (parts: seq<u64>, left: u64)
    requires Sorted(keys)
    ensures GreedyParts(keys, number, parts)
    ensures Sum(parts) + left == number
    ensures Exhausted(keys, left)
  {
    var n := number;
    parts := [];
    var v := GetNearestNumberVal(keys, n);
    while v != 0 && n > 0
      invariant IsNearest(keys, n, v) || (v == 0 && forall k :: k in keys ==> k > n)
      invariant Sum(parts) + n == number
      invariant GreedyParts(keys, number, parts)
      decreases n
    {
      SumAppend(parts, v);
      AppendPart(keys, number, parts, v);
      parts := parts + [v];
      n := n - v;
      v := GetNearestNumberVal(keys, n);
    }
    left := n;
  }

  lemma AppendPart(keys: seq<u64>, n: u64, parts: seq<u64>, v: u64)
    requires GreedyParts(keys, n, parts) && Sum(parts) <= n
    requires v > 0 && IsNearest(keys, n - Sum(parts), v)
    ensures GreedyParts(keys, n, parts + [v])
  {
    forall i | 0 <= i <= |parts|
      ensures Sum((parts + [v])[..i]) <= n
      ensures (parts + [v])[i] > 0 && IsNearest(keys, n - Sum((parts + [v])[..i]), (parts + [v])[i])
    {
      if i < |parts| {
        assert (parts + [v])[..i] == parts[..i];
      } else {
        assert (parts + [v])[..i] == parts;
      }
    }
  }

  lemma {:induction false} SumGrows(s: seq<u64>, i: nat, j: nat)
    requires i <= j <= |s|
    ensures Sum(s[..i]) <= Sum(s[..j])
    decreases j
  {
    if i < j {
      assert s[..j][..j - 1] == s[..j - 1];
      SumGrows(s, i, j - 1);
    }
  }

  /** The values never grow. */
  lemma PartsNeverGrow(keys: seq<u64>, n: u64, parts: seq<u64>, i: nat, j: nat)
    requires GreedyParts(keys, n, parts) && i < j < |parts|
    ensures parts[j] <= parts[i]
  {
    SumGrows(parts, i, j);
    assert IsNearest(keys, n - Sum(parts[..j]), parts[j]);
    assert IsNearest(keys, n - Sum(parts[..i]), parts[i]);
  }

  lemma NearestIsUnique(keys: seq<u64>, n: u64, v: u64, w: u64)
    requires IsNearest(keys, n, v) && IsNearest(keys, n, w)
    ensures v == w
  {
  }

  lemma PartAt(keys: seq<u64>, n: u64, p: seq<u64>, i: nat)
    requires GreedyParts(keys, n, p) && i < |p|
    ensures Sum(p[..i]) <= n && IsNearest(keys, n - Sum(p[..i]), p[i])
  {
  }

  lemma SameHead(keys: seq<u64>, n: u64, p: seq<u64>, q: seq<u64>, i: nat)
    requires GreedyParts(keys, n, p) && GreedyParts(keys, n, q) && i < |p| && i < |q|
    requires p[..i] == q[..i]
    ensures p[i] == q[i] && p[..i + 1] == q[..i + 1]
  {
    PartAt(keys, n, p, i);
    PartAt(keys, n, q, i);
    NearestIsUnique(keys, n - Sum(p[..i]), p[i], q[i]);
    PrefixNext(p, i);
    PrefixNext(q, i);
  }

  /** A complete greedy decomposition is not longer than any other. */
  lemma {:induction false} SameSoFar(keys: seq<u64>, n: u64, p: seq<u64>, q: seq<u64>, i: nat)
    requires GreedyParts(keys, n, p) && GreedyParts(keys, n, q) && i <= |p| && i <= |q|
    ensures p[..i] == q[..i]
  {
    if i > 0 {
      SameSoFar(keys, n, p, q, i - 1);
      SameHead(keys, n, p, q, i - 1);
    }
  }

  lemma NotLonger(keys: seq<u64>, n: u64, p: seq<u64>, q: seq<u64>)
    requires GreedyParts(keys, n, p) && GreedyParts(keys, n, q)
    requires Sum(p) <= n && Exhausted(keys, n - Sum(p))
    ensures |q| <= |p|
  {
    assert p[..|p|] == p;
    if |q| > |p| {
      SameSoFar(keys, n, p, q, |p|);
      assert false;
    }
  }

  /** Table and number determine the decomposition. */
  lemma PartsAreUnique(keys: seq<u64>, n: u64, p: seq<u64>, q: seq<u64>)
    requires GreedyParts(keys, n, p) && Sum(p) <= n && Exhausted(keys, n - Sum(p))
    requires GreedyParts(keys, n, q) && Sum(q) <= n && Exhausted(keys, n - Sum(q))
    ensures p == q
  {
    NotLonger(keys, n, p, q);
    NotLonger(keys, n, q, p);
    SameSoFar(keys, n, p, q, |p|);
    assert p[..|p|] == p && q[..|q|] == q;
  }

  /** Nothing is left over of any number exactly when the table names the number one. */
  lemma NothingLeftIff(keys: seq<u64>)
    ensures 1 in keys <==>
      forall n: u64, parts :: GreedyParts(keys, n, parts) && Sum(parts) <= n && Exhausted(keys, n - Sum(parts))
        ==> Sum(parts) == n
  {
    if 1 !in keys {
      assert GreedyParts(keys, 1, []) && Sum([]) == 0 && Exhausted(keys, 1);
    }
  }
}
