/** Small facts about slices, stated once so that larger proofs do not have to rediscover them. */
module Sequences {

  lemma DropTwice<T>(s: seq<T>, a: nat, b: nat)
    requires a + b <= |s|
    ensures s[a..][b..] == s[a + b..]
  {
  }

  lemma DropOneMore<T>(s: seq<T>, k: nat)
    requires k < |s|
    ensures s[k..] == [s[k]] + s[k + 1..] && s[k..][0] == s[k] && s[k..][1..] == s[k + 1..]
  {
  }

  lemma TakeOfDrop<T>(s: seq<T>, a: nat, n: nat)
    requires a + n <= |s|
    ensures s[a..][..n] == s[a..a + n]
  {
  }

  lemma Associate<T>(a: seq<T>, b: seq<T>, c: seq<T>)
    ensures (a + b) + c == a + (b + c)
  {
  }

  /** A sequence of different numbers below a bound is no longer than the bound. */
  lemma Pigeonhole(keys: seq<int>, bound: nat)
    requires forall k :: 0 <= k < |keys| ==> 0 <= keys[k] < bound
    requires forall k, l :: 0 <= k < l < |keys| ==> keys[k] != keys[l]
    ensures |keys| <= bound
  {
    var used := set k | k in keys;
    DistinctCount(keys, used);
    SubsetCount(used, Below(bound));
  }

  function Below(bound: nat): (r: set<int>)
    ensures |r| == bound && forall k :: k in r <==> 0 <= k < bound
  {
    if bound == 0 then {} else Below(bound - 1) + {bound - 1}
  }

  lemma SubsetCount(a: set<int>, b: set<int>)
    requires a <= b
    ensures |a| <= |b|
  {
    assert b == a + (b - a);
  }

  lemma {:induction false} DistinctCount(keys: seq<int>, used: set<int>)
    requires forall k, l :: 0 <= k < l < |keys| ==> keys[k] != keys[l]
    requires used == set k | k in keys
    ensures |used| == |keys|
  {
    if keys != [] {
      var last := keys[|keys| - 1];
      var rest := keys[..|keys| - 1];
      DistinctCount(rest, set k | k in rest);
      assert used == (set k | k in rest) + {last};
    }
  }
}
