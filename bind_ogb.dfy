/** The BIND experiment helpers: a stand-alone capacity estimate that
    returns the four parity buckets, and a dry run of the encoder that only
    performs its checks. */
module BindOgb {
  import opened Common
  import opened Permutations
  import opened Buckets
  import opened Bind

  /** `_estimate_max_bits`: the capacity and the buckets [EE, EO, OE, OO],
      the same stable buckets `BIND.estimate_max_bits` caches. Each bucket
      holds exactly the rows of its class, each once, so its size is the
      class count and the capacity is eight bits per row of the smallest
      class. */
  function EstimateMaxBits(g: Graph, rows: seq<Row>): (r: (nat, seq<seq<nat>>))
    ensures r.1 == Partition(Keys(g, rows), 4) && |r.1| == 4
    ensures forall c, i :: 0 <= c < 4 && 0 <= i < |rows| ==>
      (i in r.1[c] <==> ParityKey(g, rows[i]) == c)
    ensures forall c, t :: 0 <= c < 4 && 0 <= t < |r.1[c]| ==> r.1[c][t] < |rows|
    ensures forall c :: 0 <= c < 4 ==> |r.1[c]| == multiset(Keys(g, rows))[c]
    ensures r.0 == 8 * MinOf(Sizes(r.1))
    ensures forall c :: 0 <= c < 4 ==> r.0 <= 8 * |r.1[c]|
    ensures exists c :: 0 <= c < 4 && r.0 == 8 * |r.1[c]|
  {
    var buckets := Partition(Keys(g, rows), 4);
    ParityBucketsExact(g, rows);
    ParityBucketSizes(g, rows);
    var m := MinOf(Sizes(buckets));
    assert exists c :: 0 <= c < 4 && m == Sizes(buckets)[c];
    (8 * m, buckets)
  }

  lemma ParityBucketsExact(g: Graph, rows: seq<Row>)
    ensures forall c, i :: 0 <= c < 4 && 0 <= i < |rows| ==>
      (i in Partition(Keys(g, rows), 4)[c] <==> ParityKey(g, rows[i]) == c)
  {
    forall c, i | 0 <= c < 4 && 0 <= i < |rows|
      ensures i in Partition(Keys(g, rows), 4)[c] <==> ParityKey(g, rows[i]) == c
    {
      BucketsExact(g, rows, i, c);
    }
  }

  lemma ParityBucketSizes(g: Graph, rows: seq<Row>)
    ensures forall c, t :: 0 <= c < 4 && 0 <= t < |Partition(Keys(g, rows), 4)[c]| ==>
      Partition(Keys(g, rows), 4)[c][t] < |rows|
    ensures forall c :: 0 <= c < 4 ==> |Partition(Keys(g, rows), 4)[c]| == multiset(Keys(g, rows))[c]
  {
    var keys := Keys(g, rows);
    forall c | 0 <= c < 4
      ensures Partition(keys, 4)[c] == IndicesOf(keys, c)
    {
    }
  }

  /** `_encode`: the checks of `BIND.encode` and nothing else. The bucket
      list is read first (IndexError when it has fewer than four entries),
      then the header and symbols are built and the classes are checked in
      the order EE, EO, OE, OO; the helper returns nothing on success. */
  function EncodeCheck(rows: seq<Row>, msg: seq<bit>, buckets: seq<seq<nat>>): (r: Result<()>)
    ensures r.Ok? ==>
      |buckets| >= 4 && |rows| >= 1 && Stream(|rows|, msg).Ok? &&
      |Symbols(Stream(|rows|, msg).value)| > 0
    ensures r.Ok? ==> forall c :: 0 <= c < 4 ==>
      multiset(Symbols(Stream(|rows|, msg).value))[c] <= |buckets[c]|
    ensures r.Err? ==>
      r.error == IndexError || r.error == ValueError ||
      exists c :: 0 <= c < 4 && r.error == RuntimeError(ClassName(c))
  {
    if |buckets| < 4 then Err(IndexError)
    else
      match Stream(|rows|, msg)
      case Err(e) => Err(e)
      case Ok(bits) =>
        var syms := Symbols(bits);
        if |syms| == 0 then Err(ValueError)
        else
          var sizes := Sizes(buckets[..4]);
          assert forall c :: 0 <= c < 4 ==> sizes[c] == |buckets[c]|;
          var over := FirstOverflow(syms, sizes, 0);
          if over != -1 then
            assert 0 <= over < 4;
            Err(RuntimeError(ClassName(over)))
          else
            Ok(())
  }

  /** The dry run passes exactly when the stream exists, is non-empty and
      every class has enough rows; a failure names the first class, in the
      order EE, EO, OE, OO, that runs short. */
  lemma EncodeCheckMeaning(rows: seq<Row>, msg: seq<bit>, buckets: seq<seq<nat>>)
    requires |buckets| == 4
    ensures EncodeCheck(rows, msg, buckets).Ok? <==>
      Stream(|rows|, msg).Ok? && |Symbols(Stream(|rows|, msg).value)| > 0 &&
      Fits(Symbols(Stream(|rows|, msg).value), buckets)
    ensures forall c :: 0 <= c < 4 && EncodeCheck(rows, msg, buckets) == Err(RuntimeError(ClassName(c))) ==>
      var count := multiset(Symbols(Stream(|rows|, msg).value));
      count[c] > |buckets[c]| && forall k :: 0 <= k < c ==> count[k] <= |buckets[k]|
  {
    assert buckets[..4] == buckets;
    forall c | 0 <= c < 4 && EncodeCheck(rows, msg, buckets) == Err(RuntimeError(ClassName(c)))
      ensures var count := multiset(Symbols(Stream(|rows|, msg).value));
        count[c] > |buckets[c]| && forall k :: 0 <= k < c ==> count[k] <= |buckets[k]|
    {
      var syms := Symbols(Stream(|rows|, msg).value);
      var over := FirstOverflow(syms, Sizes(buckets), 0);
      ClassNameInjective(over, c);
    }
  }

  lemma ClassNameInjective(a: int, b: nat)
    requires 0 <= a < 4 && b < 4 && ClassName(a) == ClassName(b)
    ensures a == b
  {
  }

  /** The dry run fails exactly as `BIND.encode` would with the same buckets,
      and when it passes, the encoder gets past its capacity checks. */
  lemma EncodeCheckAgrees(rows: seq<Row>, msg: seq<bit>, buckets: seq<seq<nat>>,
                          pw: Option<int>, sh: Shuffler)
    requires |buckets| == 4 && ValidShuffler(sh)
    ensures EncodeCheck(rows, msg, buckets).Err? ==>
      EncodeSpec(buckets, rows, msg, pw, sh) == Err(EncodeCheck(rows, msg, buckets).error)
    ensures EncodeCheck(rows, msg, buckets).Ok? ==>
      EncodeSpec(buckets, rows, msg, pw, sh) ==
        Arrange(Assemble(Symbols(Stream(|rows|, msg).value), buckets), rows, pw, sh)
  {
    assert buckets[..4] == buckets;
  }
}
