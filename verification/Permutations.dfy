/** Sequences of positions that name every position once, and what is rearranged by them. */
module Permutations {

  /** `at` names every position below n exactly once. */
  ghost predicate Permutes(at: seq<nat>, n: nat) {
    && (forall i :: 0 <= i < |at| ==> at[i] < n)
    && (forall i, j :: 0 <= i < j < |at| ==> at[i] != at[j])
    && (forall p :: 0 <= p < n ==> p in at)
  }

  function Without<T>(s: seq<T>, k: nat): (r: seq<T>)
    requires k < |s|
    ensures |r| == |s| - 1
  {
    s[..k] + s[k + 1..]
  }

  lemma WithoutAt<T>(s: seq<T>, k: nat, i: nat)
    requires k < |s| && i < |s| - 1
    ensures Without(s, k)[i] == if i < k then s[i] else s[i + 1]
  {
  }

  lemma WithoutIsPart<T>(s: seq<T>, k: nat)
    requires k < |s|
    ensures multiset(s) == multiset(Without(s, k)) + multiset{s[k]}
  {
    assert s == s[..k] + [s[k]] + s[k + 1..];
  }

  /** Leaving out the last position leaves a permutation of the others. */
  lemma LeaveOut(at: seq<nat>, n: nat, k: nat)
    requires Permutes(at, n) && n > 0 && k < |at| && at[k] == n - 1
    ensures Permutes(Without(at, k), n - 1)
  {
    var rest := Without(at, k);
    hide Without;
    forall i | 0 <= i < |rest|
      ensures rest[i] < n - 1
    {
      WithoutAt(at, k, i);
    }
    forall i, j | 0 <= i < j < |rest|
      ensures rest[i] != rest[j]
    {
      WithoutAt(at, k, i);
      WithoutAt(at, k, j);
    }
    forall p | 0 <= p < n - 1
      ensures p in rest
    {
      assert p in at;
      var i :| 0 <= i < |at| && at[i] == p;
      WithoutAt(at, k, if i < k then i else i - 1);
    }
  }

  lemma NoPositions(at: seq<nat>)
    requires Permutes(at, 0)
    ensures at == []
  {
    if at != [] {
      FirstIsBelow(at, 0);
      assert false;
    }
  }

  lemma FirstIsBelow(at: seq<nat>, n: nat)
    requires Permutes(at, n) && at != []
    ensures 0 < n
  {
    var first := at[0];
    assert first < n;
  }

  /** As many positions as there are, and the rearranged sequence holds the same values. */
  lemma {:induction false} Rearranged<T>(s: seq<T>, t: seq<T>, at: seq<nat>)
    requires Permutes(at, |t|) && |s| == |at|
    requires forall i :: 0 <= i < |at| ==> s[i] == t[at[i]]
    ensures |s| == |t| && multiset(s) == multiset(t)
    decreases |t|
  {
    if t == [] {
      NoPositions(at);
      assert s == [];
    } else {
      var n := |t| - 1;
      assert n in at;
      var k :| 0 <= k < |at| && at[k] == n;
      LeaveOut(at, |t|, k);
      WithoutMatches(s, t, at, k);
      Rearranged(Without(s, k), t[..n], Without(at, k));
      WithoutIsPart(s, k);
      assert t == t[..n] + [t[n]];
    }
  }

  lemma WithoutMatches<T>(s: seq<T>, t: seq<T>, at: seq<nat>, k: nat)
    requires Permutes(at, |t|) && |s| == |at| && k < |at| && at[k] == |t| - 1
    requires forall i :: 0 <= i < |at| ==> s[i] == t[at[i]]
    ensures forall i :: 0 <= i < |at| - 1 ==>
              Without(at, k)[i] < |t| - 1 && Without(s, k)[i] == t[..|t| - 1][Without(at, k)[i]]
  {
    LeaveOut(at, |t|, k);
    forall i | 0 <= i < |at| - 1
      ensures Without(at, k)[i] < |t| - 1 && Without(s, k)[i] == t[..|t| - 1][Without(at, k)[i]]
    {
      WithoutAt(at, k, i);
      WithoutAt(s, k, i);
    }
  }
}
