/** Degree-class buckets shared by BIND (4 classes) and BYMOND (256 classes).
    Every cover row has a key (its class); a bucket is the stable list of row
    indices with one key, i.e. `df_edges_cover[cond].index` over the default
    row index 0..n-1. Encoding consumes, for symbol i, the next unused index of
    the bucket of that symbol, then appends the unused tail of every bucket. */
module Buckets {
  import opened Permutations

  /** Stable filter: the indices i of `keys`, in increasing order, with
      keys[i] == k. */
  function IndicesOf(keys: seq<int>, k: int): (r: seq<nat>)
    ensures |r| == multiset(keys)[k]
    ensures forall t :: 0 <= t < |r| ==> r[t] < |keys| && keys[r[t]] == k
    decreases |keys|
  {
    if |keys| == 0 then []
    else
      var n := |keys| - 1;
      assert keys == keys[..n] + [keys[n]];
      IndicesOf(keys[..n], k) + (if keys[n] == k then [n] else [])
  }

  /** The filter keeps every index with key k, in increasing order. */
  lemma IndicesOfComplete(keys: seq<int>, k: int)
    ensures forall i :: 0 <= i < |keys| && keys[i] == k ==> i in IndicesOf(keys, k)
    ensures forall s, t :: 0 <= s < t < |IndicesOf(keys, k)| ==>
      IndicesOf(keys, k)[s] < IndicesOf(keys, k)[t]
  {
    IndicesOfHas(keys, k);
    IndicesOfSorted(keys, k);
  }

  lemma {:induction false} IndicesOfHas(keys: seq<int>, k: int)
    ensures forall i :: 0 <= i < |keys| && keys[i] == k ==> i in IndicesOf(keys, k)
    decreases |keys|
  {
    if |keys| > 0 {
      IndicesOfHas(keys[..|keys| - 1], k);
      IndicesOfHasStep(keys, k);
    }
  }

  lemma IndicesOfHasStep(keys: seq<int>, k: int)
    requires |keys| > 0
    requires var pre := keys[..|keys| - 1];
      forall i :: 0 <= i < |pre| && pre[i] == k ==> i in IndicesOf(pre, k)
    ensures forall i :: 0 <= i < |keys| && keys[i] == k ==> i in IndicesOf(keys, k)
  {
    var n := |keys| - 1;
    var pre := keys[..n];
    var r0 := IndicesOf(pre, k);
    var r := IndicesOf(keys, k);
    assert r == r0 + (if keys[n] == k then [n] else []);
    forall i | 0 <= i < |keys| && keys[i] == k ensures i in r {
      if i < n {
        assert pre[i] == keys[i];
        assert i in r0;
      } else {
        assert r[|r| - 1] == n;
      }
    }
  }

  lemma {:induction false} IndicesOfSorted(keys: seq<int>, k: int)
    ensures forall s, t :: 0 <= s < t < |IndicesOf(keys, k)| ==>
      IndicesOf(keys, k)[s] < IndicesOf(keys, k)[t]
    decreases |keys|
  {
    if |keys| > 0 {
      var n := |keys| - 1;
      var pre := keys[..n];
      IndicesOfSorted(pre, k);
      var r0 := IndicesOf(pre, k);
      var r := IndicesOf(keys, k);
      assert r == r0 + (if keys[n] == k then [n] else []);
      forall s, t | 0 <= s < t < |r| ensures r[s] < r[t] {
        if t >= |r0| {
          assert r[s] == r0[s] && r0[s] < |pre|;
        }
      }
    }
  }

  /** One bucket per key 0..alphabet-1. */
  function Partition(keys: seq<int>, alphabet: nat): (buckets: seq<seq<nat>>)
    ensures |buckets| == alphabet
  {
    seq(alphabet, c => IndicesOf(keys, c))
  }

  function Sizes(buckets: seq<seq<nat>>): (sizes: seq<nat>)
    ensures |sizes| == |buckets|
    ensures forall c :: 0 <= c < |buckets| ==> sizes[c] == |buckets[c]|
  {
    seq(|buckets|, c requires 0 <= c < |buckets| => |buckets[c]|)
  }

  predicate KeysIn(keys: seq<int>, alphabet: nat) {
    forall i :: 0 <= i < |keys| ==> 0 <= keys[i] < alphabet
  }

  /** No symbol occurs more often than its bucket has rows. */
  predicate Fits(syms: seq<int>, buckets: seq<seq<nat>>) {
    KeysIn(syms, |buckets|) &&
    forall c :: 0 <= c < |buckets| ==> multiset(syms)[c] <= |buckets[c]|
  }

  /** Number of earlier occurrences of the symbol at position i. */
  function Occ(syms: seq<int>, i: nat): nat
    requires i < |syms|
  {
    multiset(syms[..i])[syms[i]]
  }

  lemma OccBelowCount(syms: seq<int>, i: nat)
    requires i < |syms|
    ensures Occ(syms, i) < multiset(syms)[syms[i]]
  {
    assert syms == syms[..i] + [syms[i]] + syms[i + 1..];
  }

  lemma OccBounds(syms: seq<int>, buckets: seq<seq<nat>>)
    requires Fits(syms, buckets)
    ensures forall i :: 0 <= i < |syms| ==> Occ(syms, i) < |buckets[syms[i]]|
  {
    forall i | 0 <= i < |syms| ensures Occ(syms, i) < |buckets[syms[i]]| {
      OccBelowCount(syms, i);
    }
  }

  /** Symbol i takes edge number Occ(syms, i) of its bucket. */
  function Consumed(syms: seq<int>, buckets: seq<seq<nat>>): (idx: seq<nat>)
    requires Fits(syms, buckets)
    ensures |idx| == |syms|
  {
    OccBounds(syms, buckets);
    seq(|syms|, i requires 0 <= i < |syms| => buckets[syms[i]][Occ(syms, i)])
  }

  function Concat(parts: seq<seq<nat>>): (r: seq<nat>)
    decreases |parts|
  {
    if |parts| == 0 then [] else Concat(parts[..|parts| - 1]) + parts[|parts| - 1]
  }

  /** The unused tail of every bucket, buckets in key order. */
  function Tails(syms: seq<int>, buckets: seq<seq<nat>>): seq<nat>
    requires Fits(syms, buckets)
  {
    Concat(seq(|buckets|, c requires 0 <= c < |buckets| => buckets[c][multiset(syms)[c]..]))
  }

  /** The assembled index list before the shuffle. */
  function Assemble(syms: seq<int>, buckets: seq<seq<nat>>): seq<nat>
    requires Fits(syms, buckets)
  {
    Consumed(syms, buckets) + Tails(syms, buckets)
  }

  /** The first class c >= from whose symbol count exceeds sizes[c], or -1. */
  function FirstOverflow(syms: seq<int>, sizes: seq<nat>, from: nat): (r: int)
    requires from <= |sizes|
    ensures r == -1 <==> forall c :: from <= c < |sizes| ==> multiset(syms)[c] <= sizes[c]
    ensures r != -1 ==> from <= r < |sizes| && multiset(syms)[r] > sizes[r]
    ensures r != -1 ==> forall c :: from <= c < r ==> multiset(syms)[c] <= sizes[c]
    decreases |sizes| - from
  {
    if from == |sizes| then -1
    else if multiset(syms)[from] > sizes[from] then from
    else FirstOverflow(syms, sizes, from + 1)
  }

  /** Python's `min` of a non-empty tuple. */
  function MinOf(s: seq<nat>): (m: nat)
    requires |s| > 0
    ensures forall i :: 0 <= i < |s| ==> m <= s[i]
    ensures m in s
  {
    if |s| == 1 then s[0]
    else
      var rest := MinOf(s[1..]);
      if s[0] <= rest then s[0] else rest
  }

  /** With no more symbols than the smallest bucket has rows, every bucket
      can supply its symbol's occurrences. */
  lemma SmallStreamFits(syms: seq<int>, sizes: seq<nat>)
    requires |sizes| > 0 && |syms| <= MinOf(sizes)
    ensures FirstOverflow(syms, sizes, 0) == -1
  {
    forall c | 0 <= c < |sizes| ensures multiset(syms)[c] <= sizes[c] {
      assert multiset(syms)[c] <= |multiset(syms)|;
    }
  }

  /** Growing buckets never lowers the smallest one. */
  lemma MinOfMonotone(s: seq<nat>, t: seq<nat>)
    requires |s| == |t| > 0
    requires forall i :: 0 <= i < |s| ==> s[i] <= t[i]
    ensures MinOf(s) <= MinOf(t)
  {
    var j :| 0 <= j < |t| && t[j] == MinOf(t);
  }

  // ---------------------------------------------------------------------
  // Every assembled index is a row of its symbol's class.

  lemma ConsumedClass(keys: seq<int>, syms: seq<int>, alphabet: nat)
    requires Fits(syms, Partition(keys, alphabet))
    ensures forall i :: 0 <= i < |syms| ==>
      Consumed(syms, Partition(keys, alphabet))[i] < |keys| &&
      keys[Consumed(syms, Partition(keys, alphabet))[i]] == syms[i]
  {
    var b := Partition(keys, alphabet);
    OccBounds(syms, b);
    forall i | 0 <= i < |syms|
      ensures Consumed(syms, b)[i] < |keys| && keys[Consumed(syms, b)[i]] == syms[i]
    {
      assert Consumed(syms, b)[i] == b[syms[i]][Occ(syms, i)];
    }
  }

  /** Every bucket entry, used or not, is a row index. */
  lemma TailsInRange(keys: seq<int>, syms: seq<int>, alphabet: nat)
    requires Fits(syms, Partition(keys, alphabet))
    ensures forall c :: 0 <= c < alphabet ==>
      InRange(Partition(keys, alphabet)[c][multiset(syms)[c]..], |keys|)
  {
    var b := Partition(keys, alphabet);
    forall c | 0 <= c < alphabet ensures InRange(b[c][multiset(syms)[c]..], |keys|) {
      assert b[c] == IndicesOf(keys, c);
    }
  }

  /** The first |syms| assembled indices are rows whose key is the symbol
      placed there. */
  lemma AssembledKeys(keys: seq<int>, syms: seq<int>, alphabet: nat)
    requires Fits(syms, Partition(keys, alphabet))
    ensures forall i :: 0 <= i < |syms| ==>
      Assemble(syms, Partition(keys, alphabet))[i] < |keys| &&
      keys[Assemble(syms, Partition(keys, alphabet))[i]] == syms[i]
  {
    ConsumedClass(keys, syms, alphabet);
  }

  // ---------------------------------------------------------------------
  // The assembled list is a permutation of the row indices.

  lemma {:induction false} ConcatAppend(parts: seq<seq<nat>>, c: nat, v: nat)
    requires c < |parts|
    ensures multiset(Concat(parts[c := parts[c] + [v]])) == multiset(Concat(parts)) + multiset{v}
    decreases |parts|
  {
    var n := |parts| - 1;
    var upd := parts[c := parts[c] + [v]];
    assert Concat(upd) == Concat(upd[..n]) + upd[n];
    assert Concat(parts) == Concat(parts[..n]) + parts[n];
    if c < n {
      assert upd[..n] == parts[..n][c := parts[c] + [v]];
      assert upd[n] == parts[n];
      ConcatAppend(parts[..n], c, v);
    } else {
      assert upd[..n] == parts[..n];
      assert upd[n] == parts[n] + [v];
    }
  }

  lemma {:induction false} ConcatPairs(p: seq<seq<nat>>, s: seq<seq<nat>>, w: seq<seq<nat>>)
    requires |p| == |s| == |w|
    requires forall c :: 0 <= c < |w| ==> w[c] == p[c] + s[c]
    ensures multiset(Concat(w)) == multiset(Concat(p)) + multiset(Concat(s))
    decreases |w|
  {
    if |w| > 0 {
      var n := |w| - 1;
      ConcatPairs(p[..n], s[..n], w[..n]);
    }
  }

  lemma {:induction false} PartitionCovers(keys: seq<int>, alphabet: nat)
    requires KeysIn(keys, alphabet)
    ensures multiset(Concat(Partition(keys, alphabet))) == multiset(Range(|keys|))
    decreases |keys|
  {
    if |keys| == 0 {
      EmptyConcat(alphabet);
      assert Partition(keys, alphabet) == Empties(alphabet);
    } else {
      var n := |keys| - 1;
      var prev := keys[..n];
      assert KeysIn(prev, alphabet);
      PartitionCovers(prev, alphabet);
      assert keys == prev + [keys[n]];
      PartitionStep(prev, keys[n], alphabet);
      RangeSnoc(n);
    }
  }

  lemma PartitionStep(prev: seq<int>, x: int, alphabet: nat)
    requires 0 <= x < alphabet
    ensures multiset(Concat(Partition(prev + [x], alphabet)))
         == multiset(Concat(Partition(prev, alphabet))) + multiset{|prev| as nat}
  {
    var before := Partition(prev, alphabet);
    PartitionSnoc(prev, x, alphabet);
    ConcatAppend(before, x, |prev|);
  }

  /** Appending a row with key x extends bucket x by that row's index only. */
  lemma PartitionSnoc(prev: seq<int>, x: int, alphabet: nat)
    requires 0 <= x < alphabet
    ensures Partition(prev + [x], alphabet)
         == Partition(prev, alphabet)[x := Partition(prev, alphabet)[x] + [|prev|]]
  {
    var keys := prev + [x];
    assert keys[..|prev|] == prev;
    var lhs := Partition(keys, alphabet);
    var rhs := Partition(prev, alphabet)[x := Partition(prev, alphabet)[x] + [|prev|]];
    forall c | 0 <= c < alphabet ensures lhs[c] == rhs[c] {
      assert lhs[c] == IndicesOf(keys, c);
    }
  }

  function Prefixes(syms: seq<int>, buckets: seq<seq<nat>>): (r: seq<seq<nat>>)
    requires Fits(syms, buckets)
    ensures |r| == |buckets|
  {
    seq(|buckets|, c requires 0 <= c < |buckets| => buckets[c][..multiset(syms)[c]])
  }

  lemma FitsPrefix(syms: seq<int>, buckets: seq<seq<nat>>, n: nat)
    requires Fits(syms, buckets) && n <= |syms|
    ensures Fits(syms[..n], buckets)
  {
    assert syms == syms[..n] + syms[n..];
  }

  lemma {:induction false} ConsumedMultiset(syms: seq<int>, buckets: seq<seq<nat>>)
    requires Fits(syms, buckets)
    ensures multiset(Consumed(syms, buckets)) == multiset(Concat(Prefixes(syms, buckets)))
    decreases |syms|
  {
    if |syms| == 0 {
      assert Prefixes(syms, buckets) == Empties(|buckets|);
      EmptyConcat(|buckets|);
    } else {
      var n := |syms| - 1;
      FitsPrefix(syms, buckets, n);
      ConsumedMultiset(syms[..n], buckets);
      ConsumedSnoc(syms, buckets);
      var x := syms[n];
      assert syms == syms[..n] + [x];
      PrefixesSnoc(syms[..n], x, buckets);
      ConcatAppend(Prefixes(syms[..n], buckets), x, buckets[x][Occ(syms, n)]);
    }
  }

  /** A prefix of the symbols consumes the same edges as the whole stream
      does at those positions. */
  lemma ConsumedPrefix(syms: seq<int>, buckets: seq<seq<nat>>, n: nat)
    requires Fits(syms, buckets) && n <= |syms| && Fits(syms[..n], buckets)
    ensures forall i :: 0 <= i < n ==> Consumed(syms[..n], buckets)[i] == Consumed(syms, buckets)[i]
  {
    var prev := syms[..n];
    forall i | 0 <= i < n ensures Consumed(prev, buckets)[i] == Consumed(syms, buckets)[i] {
      assert prev[..i] == syms[..i];
    }
  }

  /** The last symbol consumes the next unused edge of its bucket. */
  lemma ConsumedSnoc(syms: seq<int>, buckets: seq<seq<nat>>)
    requires Fits(syms, buckets) && |syms| > 0
    ensures Fits(syms[..|syms| - 1], buckets)
    ensures Occ(syms, |syms| - 1) < |buckets[syms[|syms| - 1]]|
    ensures Consumed(syms, buckets)
         == Consumed(syms[..|syms| - 1], buckets) + [buckets[syms[|syms| - 1]][Occ(syms, |syms| - 1)]]
  {
    var n := |syms| - 1;
    FitsPrefix(syms, buckets, n);
    OccBounds(syms, buckets);
    ConsumedPrefix(syms, buckets, n);
    var whole := Consumed(syms, buckets);
    SnocOfPrefix(whole, Consumed(syms[..n], buckets));
    assert whole[n] == buckets[syms[n]][Occ(syms, n)];
  }

  lemma SnocOfPrefix(whole: seq<nat>, front: seq<nat>)
    requires |whole| == |front| + 1
    requires forall i :: 0 <= i < |front| ==> front[i] == whole[i]
    ensures whole == front + [whole[|front|]]
  {
  }

  /** ...and so extends the used prefix of that bucket by one edge. */
  lemma PrefixesSnoc(prev: seq<int>, x: int, buckets: seq<seq<nat>>)
    requires Fits(prev + [x], buckets)
    ensures Fits(prev, buckets) && 0 <= x < |buckets| && multiset(prev)[x] < |buckets[x]|
    ensures Prefixes(prev + [x], buckets)
         == Prefixes(prev, buckets)[x := Prefixes(prev, buckets)[x] + [buckets[x][multiset(prev)[x]]]]
  {
    var syms := prev + [x];
    assert syms[..|prev|] == prev;
    FitsPrefix(syms, buckets, |prev|);
    assert syms[|prev|] == x;
    assert multiset(syms) == multiset(prev) + multiset{x};
    var k := multiset(prev)[x];
    var before := Prefixes(prev, buckets);
    var after := Prefixes(syms, buckets);
    var upd := before[x := before[x] + [buckets[x][k]]];
    forall c | 0 <= c < |buckets| ensures after[c] == upd[c] {
      if c == x {
        assert buckets[x][..k + 1] == buckets[x][..k] + [buckets[x][k]];
      } else {
        assert multiset(syms)[c] == multiset(prev)[c];
      }
    }
  }

  function Empties(n: nat): seq<seq<nat>> {
    seq(n, c => [])
  }

  lemma {:induction false} EmptyConcat(n: nat)
    ensures Concat(Empties(n)) == []
  {
    if n > 0 {
      assert Empties(n)[..n - 1] == Empties(n - 1);
      EmptyConcat(n - 1);
    }
  }

  /** The consumed rows followed by the unused tails are a permutation of the
      cover rows: `Assemble` lists every row index exactly once. */
  lemma AssembleIsPermutation(keys: seq<int>, syms: seq<int>, alphabet: nat)
    requires KeysIn(keys, alphabet)
    requires Fits(syms, Partition(keys, alphabet))
    ensures IsPermutation(Assemble(syms, Partition(keys, alphabet)), |keys|)
  {
    var b := Partition(keys, alphabet);
    var pre := Prefixes(syms, b);
    var suf := seq(|b|, c requires 0 <= c < |b| => b[c][multiset(syms)[c]..]);
    ConsumedMultiset(syms, b);
    ConcatPairs(pre, suf, b);
    PartitionCovers(keys, alphabet);
    var a := Assemble(syms, b);
    assert multiset(a) == multiset(Range(|keys|));
    assert |a| == |multiset(a)| == |keys|;
    forall k | 0 <= k < |a| ensures a[k] < |keys| {
      assert a[k] in multiset(Range(|keys|));
      RangeMultiplicity(|keys|, a[k]);
    }
  }
}
