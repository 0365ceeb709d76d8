/** Row permutations: the seeded shuffle applied after encoding, its inverse
    applied before decoding, and the facts that make the pair exact. A row list
    is reordered by gathering (`df.iloc[index]`), so reordering `xs` by `p`
    gives the list whose k-th row is `xs[p[k]]`. */
module Permutations {

  /** `np.arange(n)`. */
  function Range(n: nat): (r: seq<nat>)
    ensures |r| == n && forall i :: 0 <= i < n ==> r[i] == i
  {
    seq(n, i => i)
  }

  predicate InRange(idx: seq<nat>, n: nat) {
    forall k :: 0 <= k < |idx| ==> idx[k] < n
  }

  /** A rearrangement of `np.arange(n)` (its range bound is implied by the
      multiset equation and stated for convenience). */
  predicate IsPermutation(p: seq<nat>, n: nat) {
    |p| == n && InRange(p, n) && multiset(p) == multiset(Range(n))
  }

  /** The seeded shuffle `np.random.seed(seed); np.random.shuffle(np.arange(n))`
      is not modelled; a shuffler is any function that, for every row count
      and seed, yields some permutation of [0, n). */
  type Shuffler = (nat, int) -> seq<nat>

  ghost predicate ValidShuffler(sh: Shuffler) {
    forall n: nat, seed: int :: IsPermutation(sh(n, seed), n)
  }

  /** Positional row selection `xs.iloc[idx]`. */
  function Gather<T>(idx: seq<nat>, xs: seq<T>): (r: seq<T>)
    requires InRange(idx, |xs|)
    ensures |r| == |idx|
    ensures forall k :: 0 <= k < |idx| ==> r[k] == xs[idx[k]]
  {
    seq(|idx|, k requires 0 <= k < |idx| => xs[idx[k]])
  }

  lemma RangeSnoc(n: nat)
    ensures Range(n + 1) == Range(n) + [n]
  {
  }

  lemma {:induction false} RangeMultiplicity(n: nat, v: nat)
    ensures multiset(Range(n))[v] == if v < n then 1 else 0
  {
    if n > 0 {
      assert Range(n) == Range(n - 1) + [n - 1];
      RangeMultiplicity(n - 1, v);
    }
  }

  lemma TwoOccurrences<T>(s: seq<T>, i: nat, j: nat)
    requires i < j < |s|
    ensures s[i] == s[j] ==> multiset(s)[s[i]] >= 2
  {
    assert s == s[..i] + [s[i]] + s[i + 1..j] + [s[j]] + s[j + 1..];
  }

  /** A permutation of [0, n) is injective. */
  lemma PermutationInjective(p: seq<nat>, n: nat)
    requires IsPermutation(p, n)
    ensures forall i, j :: 0 <= i < j < n ==> p[i] != p[j]
  {
    forall i, j | 0 <= i < j < n ensures p[i] != p[j] {
      TwoOccurrences(p, i, j);
      RangeMultiplicity(n, p[i]);
    }
  }

  /** A permutation of [0, n) is onto. */
  lemma PermutationOnto(p: seq<nat>, n: nat, j: nat)
    requires IsPermutation(p, n) && j < n
    ensures j in p
  {
    RangeMultiplicity(n, j);
    assert j in multiset(p);
  }

  /** Dropping the position that holds the largest value n - 1 leaves a
      permutation of [0, n - 1). */
  lemma RemoveTop(p: seq<nat>, n: nat, m: nat)
    requires IsPermutation(p, n) && m < n && p[m] == n - 1
    ensures IsPermutation(p[..m] + p[m + 1..], n - 1)
  {
    var q := p[..m] + p[m + 1..];
    assert p == p[..m] + [p[m]] + p[m + 1..];
    assert Range(n) == Range(n - 1) + [n - 1];
    var top: nat := n - 1;
    calc {
      multiset(q) + multiset{top};
      multiset(p[..m]) + multiset(p[m + 1..]) + multiset{p[m]};
      multiset(p);
      multiset(Range(n - 1)) + multiset{top};
    }
    MultisetCancel(multiset(q), multiset(Range(n - 1)), top);
    forall k | 0 <= k < n - 1 ensures q[k] < n - 1 {
      assert q[k] in multiset(Range(n - 1));
      RangeMultiplicity(n - 1, q[k]);
    }
  }

  /** Reordering by a permutation keeps the multiset of rows. */
  lemma {:induction false} GatherPermutationMultiset<T>(p: seq<nat>, xs: seq<T>)
    requires IsPermutation(p, |xs|)
    ensures multiset(Gather(p, xs)) == multiset(xs)
  {
    var n := |xs|;
    if n > 0 {
      PermutationOnto(p, n, n - 1);
      var m :| 0 <= m < n && p[m] == n - 1;
      var q := p[..m] + p[m + 1..];
      RemoveTop(p, n, m);
      var ys := xs[..n - 1];
      GatherPermutationMultiset(q, ys);
      var g := Gather(p, xs);
      GatherDropOne(p, xs, m);
      MultisetDropOne(g, m);
      assert xs == ys + [xs[n - 1]];
    }
  }

  lemma MultisetCancel<T>(a: multiset<T>, b: multiset<T>, x: T)
    requires a + multiset{x} == b + multiset{x}
    ensures a == b
  {
    assert forall v :: a[v] == (a + multiset{x})[v] - (if v == x then 1 else 0);
    assert forall v :: b[v] == (b + multiset{x})[v] - (if v == x then 1 else 0);
  }

  lemma MultisetDropOne<T>(s: seq<T>, m: nat)
    requires m < |s|
    ensures multiset(s) == multiset(s[..m] + s[m + 1..]) + multiset{s[m]}
  {
    assert s == s[..m] + [s[m]] + s[m + 1..];
  }

  /** Gathering with the top position removed is the gathered list minus row m. */
  lemma GatherDropOne<T>(p: seq<nat>, xs: seq<T>, m: nat)
    requires |xs| > 0 && IsPermutation(p, |xs|) && m < |p| && p[m] == |xs| - 1
    requires IsPermutation(p[..m] + p[m + 1..], |xs| - 1)
    ensures Gather(p[..m] + p[m + 1..], xs[..|xs| - 1]) == Gather(p, xs)[..m] + Gather(p, xs)[m + 1..]
  {
    var q := p[..m] + p[m + 1..];
    var g := Gather(p, xs);
    var ys := xs[..|xs| - 1];
    assert forall k :: 0 <= k < |q| ==> q[k] == if k < m then p[k] else p[k + 1];
    assert forall k :: 0 <= k < |q| ==> Gather(q, ys)[k] == (g[..m] + g[m + 1..])[k];
  }

  /** Position of x in s (its first occurrence). */
  function IndexOf(s: seq<nat>, x: nat): (k: nat)
    requires x in s
    ensures k < |s| && s[k] == x
  {
    if s[0] == x then 0 else 1 + IndexOf(s[1..], x)
  }

  /** The inverse permutation: entry j is the position at which p holds j. */
  function Inverse(p: seq<nat>): (inv: seq<nat>)
    requires IsPermutation(p, |p|)
    ensures |inv| == |p| && InRange(inv, |p|)
    ensures forall k :: 0 <= k < |p| ==> inv[p[k]] == k
    ensures forall j :: 0 <= j < |p| ==> p[inv[j]] == j
  {
    PermutationInjective(p, |p|);
    assert forall j :: 0 <= j < |p| ==> j in p by {
      forall j | 0 <= j < |p| ensures j in p { PermutationOnto(p, |p|, j); }
    }
    seq(|p|, j requires 0 <= j < |p| => IndexOf(p, j))
  }

  /** Undoing the shuffle restores the exact row order. */
  lemma GatherInverse<T>(p: seq<nat>, xs: seq<T>)
    requires IsPermutation(p, |xs|)
    ensures Gather(Inverse(p), Gather(p, xs)) == xs
  {
  }

  /** Any list that undoes p at every position is p's inverse. */
  lemma InverseUnique(p: seq<nat>, q: seq<nat>)
    requires IsPermutation(p, |p|) && |q| == |p|
    requires forall k :: 0 <= k < |p| ==> q[p[k]] == k
    ensures q == Inverse(p)
  {
    var inv := Inverse(p);
    forall j | 0 <= j < |p| ensures q[j] == inv[j] {
      assert q[p[inv[j]]] == inv[j];
    }
  }

  /** Decode's `index_ori = np.zeros_like(index_rand);
      index_ori[index_rand] = np.arange(n)`: a scatter of positions. */
  method InvertShuffle(p: seq<nat>) returns (inv: seq<nat>)
    requires IsPermutation(p, |p|)
    ensures inv == Inverse(p)
  {
    PermutationInjective(p, |p|);
    var a := new nat[|p|](_ => 0);
    forall k | 0 <= k < |p| {
      a[p[k]] := k;
    }
    inv := a[..];
    InverseUnique(p, inv);
  }
}
