/** The BYMOND experiment helpers: a stand-alone capacity estimate that
    returns the per-residue row counts instead of caching buckets, and a dry
    run of the encoder that reports the first byte value without enough
    rows. */
module BymondOgb {
  import opened Common
  import opened Permutations
  import opened Buckets
  import opened Header
  import opened Bymond

  /** `_estimate_max_bytes`: the same residue loop as `BYMOND`, writing the
      counts into a fresh array and keeping the running minimum. */
  method EstimateMaxBytes(g: Graph, rows: seq<Row>) returns (cap: nat, counts: seq<nat>)
    ensures |counts| == 256
    ensures forall c :: 0 <= c < 256 ==> counts[c] == multiset(Keys(g, rows))[c]
    ensures counts == Sizes(Partition(Keys(g, rows), 256))
    ensures cap == 256 * MinOf(counts) && cap <= 256 * |rows|
  {
    var cnt := new nat[256](_ => 0);
    var buckets, least := Tally(Keys(g, rows), cnt);
    RunningMinIsMin(|rows|, cnt[..]);
    RunningMinBounds(|rows|, cnt[..]);
    cap, counts := 256 * least, cnt[..];
  }

  /** `_encode`: builds the byte stream as `BYMOND.encode` does, counts the
      byte values, and returns the first value in 0..255 that occurs more
      often than its residue has rows, or -1. */
  method EncodeCheck(msg: Message, counts: seq<nat>) returns (r: Result<int>)
    requires |counts| == 256
    ensures DataStream(msg, TypeError).Err? ==> r == Err(DataStream(msg, TypeError).error)
    ensures DataStream(msg, TypeError).Ok? ==>
      r == Ok(FirstOverflow(DataStream(msg, TypeError).value, counts, 0))
  {
    var stream := DataStream(msg, TypeError);
    if stream.Err? {
      return Err(stream.error);
    }
    var data: seq<int> := stream.value;
    var cntsBytes := multiset(data);
    for i := 0 to 256
      invariant FirstOverflow(data, counts, i) == FirstOverflow(data, counts, 0)
    {
      if cntsBytes[i] > counts[i] {
        return Ok(i);
      }
    }
    return Ok(-1);
  }

  /** With the counts of the cover rows, the dry run reports -1 exactly when
      `BYMOND.encode` places the stream, and a byte value exactly when the
      encoder runs out of rows for it. */
  lemma EncodeCheckAgrees(g: Graph, rows: seq<Row>, msg: Message, pw: Option<int>, sh: Shuffler)
    requires ValidShuffler(sh)
    requires DataStream(msg, TypeError).Ok? && SeedInRange(SeedOf(pw))
    ensures var over := FirstOverflow(DataStream(msg, TypeError).value, Sizes(Partition(Keys(g, rows), 256)), 0);
      var r := EncodeSpec(Partition(Keys(g, rows), 256), rows, msg, pw, sh);
      (over == -1 <==> r.Ok?) && (over != -1 ==> r == Err(IndexError))
  {
    var data: seq<int> := DataStream(msg, TypeError).value;
    FreshPlace(g, rows, data);
    EncodePermutes(g, rows, msg, pw, sh);
  }
}
