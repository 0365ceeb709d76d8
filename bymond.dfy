/** BYMOND: one byte per cover edge, carried by the sum of its endpoints'
    degrees modulo 256. Cover rows fall into 256 buckets by that residue;
    byte i of the stream `[bytewidth][length][payload]` takes the next unused
    row of its bucket, the unused rows of buckets 0..255 follow, and a seeded
    shuffle hides the order. */
module Bymond {
  import opened Common
  import opened Permutations
  import opened Buckets
  import opened Utils
  import opened Header

  /** The residue class of a row: (deg(a) + deg(b)) mod 256. */
  function SumKey(g: Graph, row: Row): byte {
    (g.degree(row.0) + g.degree(row.1)) % 256
  }

  function Keys(g: Graph, rows: seq<Row>): (keys: seq<byte>)
    ensures |keys| == |rows| && KeysIn(keys, 256)
    ensures forall i :: 0 <= i < |rows| ==> keys[i] == SumKey(g, rows[i])
  {
    seq(|rows|, i requires 0 <= i < |rows| => SumKey(g, rows[i]))
  }

  // -----------------------------------------------------------------------
  // Encoding.

  /** Placement with the buckets `_indices_edge[0..255]`: the assignment loop
      fails on an exhausted bucket (IndexError), `iloc` on a consumed index
      past the rows (IndexError), and `loc` on an unused index that is not a
      row label (KeyError); otherwise the consumed indices followed by the
      unused tails in bucket order. */
  function Place(b: seq<seq<nat>>, rows: seq<Row>, data: seq<int>): Result<seq<nat>>
    requires |b| == 256
  {
    if !Fits(data, b) then Err(IndexError)
    else if !InRange(Consumed(data, b), |rows|) then Err(IndexError)
    else if !(forall c :: 0 <= c < 256 ==> InRange(b[c][multiset(data)[c]..], |rows|)) then Err(KeyError)
    else Ok(Consumed(data, b) + Tails(data, b))
  }

  /** The rows at the placed indices, permuted by the shuffle of this seed. */
  function Shuffled(idx: seq<nat>, rows: seq<Row>, seed: int, sh: Shuffler): (out: seq<Row>)
    requires InRange(idx, |rows|) && ValidShuffler(sh)
    ensures |out| == |idx|
  {
    var pre := Gather(idx, rows);
    Gather(sh(|pre|, seed), pre)
  }

  /** `BYMOND.encode` as written: `if pw: pw = 1` on line 78 and
      `if not pw: pw = 1` on line 126 leave the shuffle seeded with 1 for
      every password, so it is the corrected encoder given no password. */
  function EncodeAsWritten(b: seq<seq<nat>>, rows: seq<Row>, msg: Message, sh: Shuffler): (r: Result<seq<Row>>)
    requires |b| == 256 && ValidShuffler(sh)
    ensures r == EncodeSpec(b, rows, msg, None, sh)
  {
    match DataStream(msg, TypeError)
    case Err(e) => Err(e)
    case Ok(data) =>
      match Place(b, rows, data)
      case Err(e) => Err(e)
      case Ok(idx) =>
        PlaceInRange(b, rows, data);
        Ok(Shuffled(idx, rows, 1, sh))
  }

  /** `BYMOND.encode` with the password handled as in decode (`pw or 1`):
      the seed is checked when it is first set (ValueError outside
      [0, 2^32)), then the stream, the placement and the seeded shuffle. */
  function EncodeSpec(b: seq<seq<nat>>, rows: seq<Row>, msg: Message, pw: Option<int>, sh: Shuffler): Result<seq<Row>>
    requires |b| == 256 && ValidShuffler(sh)
  {
    if !SeedInRange(SeedOf(pw)) then Err(ValueError)
    else
      match DataStream(msg, TypeError)
      case Err(e) => Err(e)
      case Ok(data) =>
        match Place(b, rows, data)
        case Err(e) => Err(e)
        case Ok(idx) =>
          PlaceInRange(b, rows, data);
          Ok(Shuffled(idx, rows, SeedOf(pw), sh))
  }

  lemma PlaceInRange(b: seq<seq<nat>>, rows: seq<Row>, data: seq<int>)
    requires |b| == 256 && Place(b, rows, data).Ok?
    ensures InRange(Place(b, rows, data).value, |rows|)
  {
    var parts := seq(256, c requires 0 <= c < 256 => b[c][multiset(data)[c]..]);
    ConcatInRange(parts, |rows|);
  }

  lemma {:induction false} ConcatInRange(parts: seq<seq<nat>>, n: nat)
    requires forall c :: 0 <= c < |parts| ==> InRange(parts[c], n)
    ensures InRange(Concat(parts), n)
    decreases |parts|
  {
    if |parts| > 0 {
      ConcatInRange(parts[..|parts| - 1], n);
    }
  }

  // -----------------------------------------------------------------------
  // Decoding.

  /** The residues decode reads: the classes of the rows after undoing the
      shuffle. */
  function DecodedSymbols(g: Graph, rows: seq<Row>, seed: int, sh: Shuffler): (syms: seq<byte>)
    requires ValidShuffler(sh)
    ensures |syms| == |rows|
  {
    Keys(g, Gather(Inverse(sh(|rows|, seed)), rows))
  }

  /** Reading the byte stream back: `iloc[0]` of no rows (IndexError), the
      label lookups `mod_sum_deg[i + 1]` past the last row (KeyError), a width
      missing from `bw2fmt` (KeyError), then the count and the positional
      slice of the payload, cut short when rows run out. */
  function ReadData(syms: seq<byte>): Result<seq<byte>> {
    if |syms| == 0 then Err(IndexError)
    else
      var bw := syms[0] as nat;
      if 1 + bw > |syms| then Err(KeyError)
      else if !InFormatTable(bw) then Err(KeyError)
      else
        var n := FromLE(syms[1..1 + bw]);
        Ok(syms[1 + bw..Min(1 + bw + n, |syms|)])
  }

  /** What `BYMOND.decode` returns: the seed `pw or 1` (ValueError outside
      [0, 2^32)), then the stream read from the unshuffled residues. */
  function DecodeSpec(g: Graph, rows: seq<Row>, pw: Option<int>, sh: Shuffler): Result<seq<byte>>
    requires ValidShuffler(sh)
  {
    if !SeedInRange(SeedOf(pw)) then Err(ValueError)
    else ReadData(DecodedSymbols(g, rows, SeedOf(pw), sh))
  }

  // -----------------------------------------------------------------------
  // The operations.

  /** Occurrences in a prefix never exceed those in the whole sequence. */
  lemma PrefixCount(s: seq<int>, i: nat, x: int)
    requires i <= |s|
    ensures multiset(s[..i])[x] <= multiset(s)[x]
  {
    assert s == s[..i] + s[i..];
  }

  lemma PrefixSnoc(s: seq<int>, i: nat)
    requires i < |s|
    ensures multiset(s[..i + 1]) == multiset(s[..i]) + multiset{s[i]}
  {
    assert s[..i + 1] == s[..i] + [s[i]];
  }

  /** The index symbol k takes, when its bucket has one. */
  function Pick(b: seq<seq<nat>>, data: seq<int>, k: nat): nat
    requires k < |data|
  {
    if 0 <= data[k] < |b| && Occ(data, k) < |b[data[k]]| then b[data[k]][Occ(data, k)] else 0
  }

  /** A byte whose bucket is used up before it makes the stream not fit. */
  lemma Exhausted(b: seq<seq<nat>>, data: seq<int>, i: nat)
    requires i < |data| && 0 <= data[i] < |b|
    requires multiset(data[..i])[data[i]] >= |b[data[i]]|
    ensures !Fits(data, b)
  {
    PrefixSnoc(data, i);
    PrefixCount(data, i + 1, data[i]);
  }

  lemma PicksAreConsumed(b: seq<seq<nat>>, data: seq<int>, s: seq<nat>)
    requires Fits(data, b) && |s| == |data|
    requires forall k :: 0 <= k < |data| ==> s[k] == Pick(b, data, k)
    ensures s == Consumed(data, b)
  {
    OccBounds(data, b);
  }

  lemma PickNext(b: seq<seq<nat>>, data: seq<int>, i: nat, count: nat)
    requires i < |data| && 0 <= data[i] < |b|
    requires multiset(data[..i])[data[i]] == count < |b[data[i]]|
    ensures Pick(b, data, i) == b[data[i]][count]
  {
  }

  /** One iteration of the assignment loop: byte i takes the next unused
      row of its bucket, or the bucket is exhausted. */
  method PickOne(b: seq<seq<nat>>, data: seq<int>, i: nat, stego: array<nat>, counts: array<nat>)
    returns (ok: bool)
    requires |b| == 256 && KeysIn(data, 256) && i < |data| == stego.Length && counts.Length == 256
    requires stego != counts
    requires forall c :: 0 <= c < 256 ==> counts[c] == multiset(data[..i])[c] <= |b[c]|
    requires forall k :: 0 <= k < i ==> stego[k] == Pick(b, data, k)
    modifies stego, counts
    ensures !ok ==> !Fits(data, b)
    ensures ok ==> forall c :: 0 <= c < 256 ==> counts[c] == multiset(data[..i + 1])[c] <= |b[c]|
    ensures ok ==> forall k :: 0 <= k < i + 1 ==> stego[k] == Pick(b, data, k)
  {
    var d := data[i];
    PrefixSnoc(data, i);
    if counts[d] >= |b[d]| {
      Exhausted(b, data, i);
      return false;
    }
    PickNext(b, data, i, counts[d]);
    stego[i] := b[d][counts[d]];
    counts[d] := counts[d] + 1;
    return true;
  }

  /** The assignment loop of lines 108-111: per-byte counters `i_edges` and
      the consumed indices, failing on an exhausted bucket. */
  method Consume(b: seq<seq<nat>>, data: seq<int>) returns (r: Option<seq<nat>>, used: seq<nat>)
    requires |b| == 256 && KeysIn(data, 256)
    ensures r.Some? <==> Fits(data, b)
    ensures r.Some? ==> r.value == Consumed(data, b)
    ensures r.Some? ==> |used| == 256 && forall c :: 0 <= c < 256 ==> used[c] == multiset(data)[c]
  {
    var stego := new nat[|data|](_ => 0);
    var counts := new nat[256](_ => 0);
    for i := 0 to |data|
      invariant forall c :: 0 <= c < 256 ==> counts[c] == multiset(data[..i])[c] <= |b[c]|
      invariant forall k :: 0 <= k < i ==> stego[k] == Pick(b, data, k)
    {
      var ok := PickOne(b, data, i, stego, counts);
      if !ok {
        return None, [];
      }
    }
    assert data[..|data|] == data;
    assert Fits(data, b);
    PicksAreConsumed(b, data, stego[..]);
    r, used := Some(stego[..]), counts[..];
  }

  /** The unused part of every bucket, given how many rows each lost. */
  function TailParts(b: seq<seq<nat>>, used: seq<nat>): (parts: seq<seq<nat>>)
    requires |used| == |b| && forall c :: 0 <= c < |b| ==> used[c] <= |b[c]|
    ensures |parts| == |b|
    ensures forall c :: 0 <= c < |b| ==> parts[c] == b[c][used[c]..]
  {
    seq(|b|, c requires 0 <= c < |b| => b[c][used[c]..])
  }

  /** The unused tails of lines 119-121, bucket by bucket, with the KeyError
      of `loc` on an index that is not a row label. */
  method CollectTails(b: seq<seq<nat>>, used: seq<nat>, n: nat) returns (r: Option<seq<nat>>)
    requires |b| == 256 && |used| == 256
    requires forall c :: 0 <= c < 256 ==> used[c] <= |b[c]|
    ensures r.Some? <==> forall c :: 0 <= c < 256 ==> InRange(TailParts(b, used)[c], n)
    ensures r.Some? ==> r.value == Concat(TailParts(b, used))
  {
    ghost var parts := TailParts(b, used);
    var tails: seq<nat> := [];
    for c := 0 to 256
      invariant tails == Concat(parts[..c])
      invariant forall k :: 0 <= k < c ==> InRange(parts[k], n)
    {
      var part := b[c][used[c]..];
      if !InRange(part, n) {
        assert part == parts[c];
        return None;
      }
      assert parts[..c + 1][..c] == parts[..c];
      tails := tails + part;
    }
    assert parts[..256] == parts;
    r := Some(tails);
  }

  /** Lines 105-121: the consumed indices, the range check of `iloc`, and
      the unused tails. */
  method PlaceRows(b: seq<seq<nat>>, rows: seq<Row>, data: seq<int>) returns (r: Result<seq<nat>>)
    requires |b| == 256 && KeysIn(data, 256)
    ensures r == Place(b, rows, data)
  {
    var consumed, used := Consume(b, data);
    if consumed.None? {
      return Err(IndexError);
    }
    if !InRange(consumed.value, |rows|) {
      return Err(IndexError);
    }
    var tails := CollectTails(b, used, |rows|);
    assert TailParts(b, used) ==
      seq(|b|, c requires 0 <= c < |b| => b[c][multiset(data)[c]..]);
    if tails.None? {
      return Err(KeyError);
    }
    r := Ok(consumed.value + tails.value);
  }

  /** The body of `BYMOND.encode` once the buckets are cached. */
  method EncodeRows(b: seq<seq<nat>>, rows: seq<Row>, msg: Message, pw: Option<int>, sh: Shuffler)
    returns (r: Result<seq<Row>>)
    requires |b| == 256 && ValidShuffler(sh)
    ensures r == EncodeSpec(b, rows, msg, pw, sh)
  {
    var seed := SeedOf(pw);
    if !SeedInRange(seed) {
      return Err(ValueError);
    }
    var stream := DataStream(msg, TypeError);
    if stream.Err? {
      return Err(stream.error);
    }
    var data: seq<int> := stream.value;
    var placed := PlaceRows(b, rows, data);
    if placed.Err? {
      return Err(placed.error);
    }
    PlaceInRange(b, rows, data);
    var pre := Gather(placed.value, rows);
    r := Ok(Gather(sh(|pre|, seed), pre));
  }

  /** The body of `BYMOND.decode`: rebuilds the inverse of the shuffle in
      place, reads the width, fills the count bytes one row at a time, and
      slices the payload. */
  method DecodeRows(g: Graph, rows: seq<Row>, pw: Option<int>, sh: Shuffler)
    returns (r: Result<seq<byte>>)
    requires ValidShuffler(sh)
    ensures r == DecodeSpec(g, rows, pw, sh)
  {
    var seed := SeedOf(pw);
    if !SeedInRange(seed) {
      return Err(ValueError);
    }
    var inv := InvertShuffle(sh(|rows|, seed));
    var syms := Keys(g, Gather(inv, rows));
    r := ReadStream(syms);
  }

  /** `ReadData` step by step: the width, the count bytes copied one row at a
      time into a zeroed uint8 array, the format lookup and the slice. */
  method ReadStream(syms: seq<byte>) returns (r: Result<seq<byte>>)
    ensures r == ReadData(syms)
  {
    if |syms| == 0 {
      return Err(IndexError);
    }
    var bw := syms[0] as nat;
    var count := new byte[bw](_ => 0);
    for i := 0 to bw
      invariant i < |syms|
      invariant forall k :: 0 <= k < i ==> count[k] == syms[k + 1]
    {
      if i + 1 >= |syms| {
        return Err(KeyError);
      }
      count[i] := syms[i + 1];
    }
    if !InFormatTable(bw) {
      return Err(KeyError);
    }
    assert count[..] == syms[1..1 + bw];
    var n := FromLE(count[..]);
    r := Ok(syms[1 + bw..Min(1 + bw + n, |syms|)]);
  }

  /** One residue of the tally: its bucket appended, its count written and
      the running minimum advanced. */
  method TallyOne(keys: seq<int>, cnt: array<nat>, i: nat, done: seq<seq<nat>>, least0: nat)
    returns (buckets: seq<seq<nat>>, least: nat)
    requires cnt.Length == 256 && i < 256 && |done| == i
    requires forall c :: 0 <= c < i ==> done[c] == IndicesOf(keys, c)
    requires forall c :: 0 <= c < i ==> cnt[c] == multiset(keys)[c] <= |keys|
    requires least0 == RunningMin(|keys|, cnt[..i])
    modifies cnt
    ensures |buckets| == i + 1
    ensures forall c :: 0 <= c < i + 1 ==> buckets[c] == IndicesOf(keys, c)
    ensures forall c :: 0 <= c < i + 1 ==> cnt[c] == multiset(keys)[c] <= |keys|
    ensures least == RunningMin(|keys|, cnt[..i + 1])
  {
    var index := IndicesOf(keys, i);
    CountBound(keys, i);
    buckets := done + [index];
    assert buckets[..i] == done && buckets[i] == index;
    ghost var before := cnt[..i];
    cnt[i] := |index|;
    assert cnt[..i] == before;
    RunningMinStep(|keys|, cnt[..], i);
    least := if |index| < least0 then |index| else least0;
  }

  /** The loop of `estimate_max_bytes`: one bucket per residue, its size
      written into the count array, and a running minimum that starts at the
      row count. */
  method Tally(keys: seq<int>, cnt: array<nat>) returns (buckets: seq<seq<nat>>, least: nat)
    requires cnt.Length == 256
    modifies cnt
    ensures buckets == Partition(keys, 256)
    ensures forall c :: 0 <= c < 256 ==> cnt[c] == multiset(keys)[c] <= |keys|
    ensures least == RunningMin(|keys|, cnt[..])
  {
    buckets := [];
    least := |keys|;
    for i := 0 to 256
      invariant |buckets| == i
      invariant forall c :: 0 <= c < i ==> buckets[c] == IndicesOf(keys, c)
      invariant forall c :: 0 <= c < i ==> cnt[c] == multiset(keys)[c] <= |keys|
      invariant least == RunningMin(|keys|, cnt[..i])
    {
      buckets, least := TallyOne(keys, cnt, i, buckets, least);
    }
    assert cnt[..256] == cnt[..];
    PartitionPointwise(keys, 256, buckets);
  }

  lemma PartitionPointwise(keys: seq<int>, alphabet: nat, buckets: seq<seq<nat>>)
    requires |buckets| == alphabet
    requires forall c :: 0 <= c < alphabet ==> buckets[c] == IndicesOf(keys, c)
    ensures buckets == Partition(keys, alphabet)
  {
  }

  lemma CountBound(keys: seq<int>, k: int)
    ensures multiset(keys)[k] <= |keys|
  {
    assert multiset(keys)[k] <= |multiset(keys)|;
  }

  /** The codec object: the per-residue counts of the last estimate, every
      bucket list ever estimated (256 per estimate, appended; encode reads
      the first 256), the cached capacity and the flag. */
  class BymondCodec {
    var cntDeg: array<nat>
    var indicesEdge: seq<seq<nat>>
    var estimatedMaxBytes: Option<nat>
    var isMaxBytesEstimated: bool

    /** Buckets exist once an estimate ran, and the cached capacity is 256
        times the smallest count. */
    predicate Valid()
      reads this, cntDeg
    {
      cntDeg.Length == 256 &&
      (!isMaxBytesEstimated ==> indicesEdge == []) &&
      (isMaxBytesEstimated ==>
        |indicesEdge| >= 256 && estimatedMaxBytes == Some(256 * MinOf(cntDeg[..])))
    }

    /** The buckets encode uses. */
    function Buckets(): (b: seq<seq<nat>>)
      reads this
      requires |indicesEdge| >= 256
      ensures |b| == 256
    {
      indicesEdge[..256]
    }

    constructor()
      ensures Valid() && fresh(cntDeg) && cntDeg[..] == seq(256, _ => 0)
      ensures indicesEdge == [] && estimatedMaxBytes == None && !isMaxBytesEstimated
    {
      cntDeg := new nat[256](_ => 0);
      indicesEdge := [];
      estimatedMaxBytes := None;
      isMaxBytesEstimated := false;
    }

    method Initialize()
      modifies this
      ensures Valid() && fresh(cntDeg) && cntDeg[..] == seq(256, _ => 0)
      ensures indicesEdge == [] && estimatedMaxBytes == None && !isMaxBytesEstimated
    {
      cntDeg := new nat[256](_ => 0);
      indicesEdge := [];
      estimatedMaxBytes := None;
      isMaxBytesEstimated := false;
    }

    /** The 256-iteration loop of `estimate_max_bytes`: appends each residue
        bucket, records its size and keeps a running minimum that starts at
        the row count. */
    method EstimateMaxBytes(g: Graph, rows: seq<Row>) returns (cap: nat)
      requires Valid()
      modifies this, cntDeg
      ensures Valid() && isMaxBytesEstimated && cntDeg == old(cntDeg)
      ensures indicesEdge == old(indicesEdge) + Partition(Keys(g, rows), 256)
      ensures forall c :: 0 <= c < 256 ==> cntDeg[c] == multiset(Keys(g, rows))[c]
      ensures cap == 256 * MinOf(cntDeg[..]) && cap <= 256 * |rows|
      ensures estimatedMaxBytes == Some(cap)
    {
      var buckets, least := Tally(Keys(g, rows), cntDeg);
      ghost var counts := cntDeg[..];
      TallyCap(Keys(g, rows), counts, least);
      assert |Keys(g, rows)| == |rows| && |buckets| == 256;
      indicesEdge := indicesEdge + buckets;
      cap := 256 * least;
      estimatedMaxBytes := Some(cap);
      isMaxBytesEstimated := true;
      assert cntDeg[..] == counts;
    }

    /** `BYMOND.encode`, with the password handled as in decode: estimates
        first unless the cache is set, then encodes with the first 256
        cached buckets. */
    method Encode(g: Graph, rows: seq<Row>, msg: Message, pw: Option<int>, sh: Shuffler)
      returns (r: Result<seq<Row>>)
      requires ValidShuffler(sh) && Valid()
      modifies this, cntDeg
      ensures Valid() && isMaxBytesEstimated
      ensures old(isMaxBytesEstimated) ==> unchanged(this) && unchanged(cntDeg)
      ensures !old(isMaxBytesEstimated) ==>
        cntDeg == old(cntDeg) && indicesEdge == Partition(Keys(g, rows), 256) &&
        Buckets() == Partition(Keys(g, rows), 256) &&
        (forall c :: 0 <= c < 256 ==> cntDeg[c] == multiset(Keys(g, rows))[c]) &&
        estimatedMaxBytes == Some(256 * MinOf(cntDeg[..]))
      ensures r == EncodeSpec(Buckets(), rows, msg, pw, sh)
    {
      if !isMaxBytesEstimated {
        ghost var estimated := Partition(Keys(g, rows), 256);
        var cap := EstimateMaxBytes(g, rows);
        assert indicesEdge == estimated;
        assert indicesEdge[..256] == estimated;
      }
      var b := Buckets();
      r := EncodeRows(b, rows, msg, pw, sh);
    }

    method Decode(g: Graph, rows: seq<Row>, pw: Option<int>, sh: Shuffler)
      returns (r: Result<seq<byte>>)
      requires ValidShuffler(sh)
      ensures r == DecodeSpec(g, rows, pw, sh)
    {
      r := DecodeRows(g, rows, pw, sh);
    }
  }

  /** The running minimum of a loop over s that starts at `start`. */
  function RunningMin(start: nat, s: seq<nat>): nat
    decreases |s|
  {
    if |s| == 0 then start else Min(RunningMin(start, s[..|s| - 1]), s[|s| - 1])
  }

  lemma RunningMinStep(start: nat, s: seq<nat>, i: nat)
    requires i < |s|
    ensures RunningMin(start, s[..i + 1]) == Min(RunningMin(start, s[..i]), s[i])
  {
    assert s[..i + 1][..i] == s[..i];
  }

  /** The running minimum is below the start and every entry, and it is the
      start or an entry. */
  lemma {:induction false} RunningMinBounds(start: nat, s: seq<nat>)
    ensures RunningMin(start, s) <= start
    ensures forall c :: 0 <= c < |s| ==> RunningMin(start, s) <= s[c]
    ensures RunningMin(start, s) == start || RunningMin(start, s) in s
    decreases |s|
  {
    if |s| > 0 {
      var n := |s| - 1;
      RunningMinBounds(start, s[..n]);
      assert forall c :: 0 <= c < n ==> s[..n][c] == s[c];
      assert s[n] in s;
    }
  }

  /** The minimum the tally keeps is the least count, and at most the row
      count. */
  lemma TallyCap(keys: seq<int>, counts: seq<nat>, least: nat)
    requires |counts| == 256
    requires forall c :: 0 <= c < 256 ==> counts[c] == multiset(keys)[c] <= |keys|
    requires least == RunningMin(|keys|, counts)
    ensures least == MinOf(counts) && 256 * least <= 256 * |keys|
  {
    RunningMinIsMin(|keys|, counts);
    RunningMinBounds(|keys|, counts);
  }

  /** Started at a bound on every entry, the running minimum is the
      minimum. */
  lemma RunningMinIsMin(start: nat, s: seq<nat>)
    requires |s| > 0 && forall c :: 0 <= c < |s| ==> s[c] <= start
    ensures RunningMin(start, s) == MinOf(s)
  {
    RunningMinBounds(start, s);
    var least := RunningMin(start, s);
    if least != start {
      var c :| 0 <= c < |s| && s[c] == least;
    }
  }

  // -----------------------------------------------------------------------
  // Properties.

  /** Every cover row lies in the bucket of its residue and in no other, and
      each bucket lists its rows in their original order. */
  lemma BucketsExact(g: Graph, rows: seq<Row>, i: nat, c: nat)
    requires i < |rows| && c < 256
    ensures i in Partition(Keys(g, rows), 256)[c] <==> SumKey(g, rows[i]) == c
    ensures var b := Partition(Keys(g, rows), 256)[c];
      forall s, t :: 0 <= s < t < |b| ==> b[s] < b[t]
  {
    assert Partition(Keys(g, rows), 256)[c] == IndicesOf(Keys(g, rows), c);
    IndicesOfComplete(Keys(g, rows), c);
  }

  /** With the buckets of the cover rows themselves, placement fails only on
      an exhausted bucket, and what it places lists every row exactly once. */
  lemma FreshPlace(g: Graph, rows: seq<Row>, data: seq<int>)
    requires KeysIn(data, 256)
    ensures var r := Place(Partition(Keys(g, rows), 256), rows, data);
      (r.Ok? <==> Fits(data, Partition(Keys(g, rows), 256))) &&
      (r.Err? ==> r.error == IndexError) &&
      (r.Ok? ==> r.value == Assemble(data, Partition(Keys(g, rows), 256)) && IsPermutation(r.value, |rows|))
  {
    var keys := Keys(g, rows);
    var b := Partition(keys, 256);
    if Fits(data, b) {
      ConsumedClass(keys, data, 256);
      assert InRange(Consumed(data, b), |rows|);
      TailsInRange(keys, data, 256);
      AssembleIsPermutation(keys, data, 256);
    }
  }

  /** A stream no longer than the smallest bucket always fits. */
  lemma SmallStreamPlaced(g: Graph, rows: seq<Row>, data: seq<int>)
    requires KeysIn(data, 256)
    requires |data| <= MinOf(Sizes(Partition(Keys(g, rows), 256)))
    ensures Place(Partition(Keys(g, rows), 256), rows, data).Ok?
  {
    var b := Partition(Keys(g, rows), 256);
    SmallStreamFits(data, Sizes(b));
    FreshPlace(g, rows, data);
  }

  /** With freshly estimated buckets, once the seed and the stream are
      valid, encoding succeeds exactly when every byte value has enough rows
      of its residue; a success is a reordering of the cover rows. */
  lemma EncodePermutes(g: Graph, rows: seq<Row>, msg: Message, pw: Option<int>, sh: Shuffler)
    requires ValidShuffler(sh)
    ensures var r := EncodeSpec(Partition(Keys(g, rows), 256), rows, msg, pw, sh);
      (r.Ok? ==> multiset(r.value) == multiset(rows)) &&
      (SeedInRange(SeedOf(pw)) && DataStream(msg, TypeError).Ok? ==>
        (r.Ok? <==> Fits(DataStream(msg, TypeError).value, Partition(Keys(g, rows), 256))))
  {
    var stream := DataStream(msg, TypeError);
    if SeedInRange(SeedOf(pw)) && stream.Ok? {
      var data: seq<int> := stream.value;
      FreshPlace(g, rows, data);
      var placed := Place(Partition(Keys(g, rows), 256), rows, data);
      if placed.Ok? {
        var pre := Gather(placed.value, rows);
        GatherPermutationMultiset(placed.value, rows);
        GatherPermutationMultiset(sh(|pre|, SeedOf(pw)), pre);
      }
    }
  }

  /** A successful encoding, spelled out. */
  lemma EncodeSpecOk(b: seq<seq<nat>>, rows: seq<Row>, msg: Message, pw: Option<int>, sh: Shuffler)
    requires |b| == 256 && ValidShuffler(sh)
    requires EncodeSpec(b, rows, msg, pw, sh).Ok?
    ensures SeedInRange(SeedOf(pw)) && DataStream(msg, TypeError).Ok?
    ensures var data := DataStream(msg, TypeError).value;
      Place(b, rows, data).Ok? &&
      InRange(Place(b, rows, data).value, |rows|) &&
      EncodeSpec(b, rows, msg, pw, sh).value == Shuffled(Place(b, rows, data).value, rows, SeedOf(pw), sh)
  {
    PlaceInRange(b, rows, DataStream(msg, TypeError).value);
  }

  /** Undoing the shuffle restores the placed rows. */
  lemma ShuffledUnshuffled(g: Graph, idx: seq<nat>, rows: seq<Row>, seed: int, sh: Shuffler)
    requires InRange(idx, |rows|) && ValidShuffler(sh)
    ensures DecodedSymbols(g, Shuffled(idx, rows, seed, sh), seed, sh) == Keys(g, Gather(idx, rows))
  {
    var pre := Gather(idx, rows);
    GatherInverse(sh(|pre|, seed), pre);
  }

  /** The placed rows carry the stream's bytes as their residues. */
  lemma PlacedResidues(g: Graph, rows: seq<Row>, data: seq<int>)
    requires Fits(data, Partition(Keys(g, rows), 256))
    ensures var idx := Assemble(data, Partition(Keys(g, rows), 256));
      IsPermutation(idx, |rows|) && |data| <= |rows| &&
      Keys(g, Gather(idx, rows))[..|data|] == data
  {
    var keys := Keys(g, rows);
    FreshPlace(g, rows, data);
    AssembledKeys(keys, data, 256);
    var idx := Assemble(data, Partition(keys, 256));
    var pre := Gather(idx, rows);
    forall i | 0 <= i < |data| ensures Keys(g, pre)[i] == data[i] {
      assert pre[i] == rows[idx[i]];
    }
  }

  /** Undoing the shuffle of the encoded rows yields residues that start
      with the byte stream. */
  lemma EncodedResidues(g: Graph, rows: seq<Row>, msg: Message, pw: Option<int>, sh: Shuffler)
    requires ValidShuffler(sh)
    requires EncodeSpec(Partition(Keys(g, rows), 256), rows, msg, pw, sh).Ok?
    ensures var out := EncodeSpec(Partition(Keys(g, rows), 256), rows, msg, pw, sh).value;
      var data := DataStream(msg, TypeError).value;
      var syms := DecodedSymbols(g, out, SeedOf(pw), sh);
      DataStream(msg, TypeError).Ok? && |data| <= |syms| == |rows| && syms[..|data|] == data
  {
    var b := Partition(Keys(g, rows), 256);
    EncodeSpecOk(b, rows, msg, pw, sh);
    var data: seq<int> := DataStream(msg, TypeError).value;
    FreshPlace(g, rows, data);
    PlacedResidues(g, rows, data);
    ShuffledUnshuffled(g, Assemble(data, b), rows, SeedOf(pw), sh);
  }

  /** Reading residues that start with a complete stream gives its payload
      back, whatever follows it. */
  lemma ReadDataBack(syms: seq<byte>, msg: Message, otherType: Error)
    requires DataStream(msg, otherType).Ok?
    requires var s := DataStream(msg, otherType).value; |s| <= |syms| && syms[..|s|] == s
    ensures ReadData(syms) == Ok(msg.data)
  {
    var s := DataStream(msg, otherType).value;
    DataStreamLayout(msg, otherType);
    ReadLaidOut(syms, s, msg.data);
  }

  /** The same for any sequence laid out as `[bw][count][payload]`. */
  lemma ReadLaidOut(syms: seq<byte>, s: seq<byte>, data: seq<byte>)
    requires |s| > 0 && InFormatTable(s[0]) && |s| == 1 + s[0] + |data|
    requires FromLE(s[1..1 + s[0]]) == |data| && s[1 + s[0]..] == data
    requires |s| <= |syms| && syms[..|s|] == s
    ensures ReadData(syms) == Ok(data)
  {
    var bw := s[0] as nat;
    assert syms[0] == s[0];
    assert syms[1..1 + bw] == s[1..1 + bw];
    assert syms[1 + bw..1 + bw + |data|] == s[1 + bw..];
  }

  /** Decoding an encoding made with freshly estimated buckets returns the
      payload, for every password whose seed is accepted. */
  lemma RoundTrip(g: Graph, rows: seq<Row>, msg: Message, pw: Option<int>, sh: Shuffler)
    requires ValidShuffler(sh)
    requires EncodeSpec(Partition(Keys(g, rows), 256), rows, msg, pw, sh).Ok?
    ensures DecodeSpec(g, EncodeSpec(Partition(Keys(g, rows), 256), rows, msg, pw, sh).value, pw, sh) == Ok(msg.data)
  {
    EncodedResidues(g, rows, msg, pw, sh);
    var out := EncodeSpec(Partition(Keys(g, rows), 256), rows, msg, pw, sh).value;
    ReadDataBack(DecodedSymbols(g, out, SeedOf(pw), sh), msg, TypeError);
  }

  /** As written, the round trip holds for the passwords that decode also
      turns into seed 1: none, 0 and 1. */
  lemma AsWrittenRoundTrip(g: Graph, rows: seq<Row>, msg: Message, pw: Option<int>, sh: Shuffler)
    requires ValidShuffler(sh) && SeedOf(pw) == 1
    requires EncodeAsWritten(Partition(Keys(g, rows), 256), rows, msg, sh).Ok?
    ensures DecodeSpec(g, EncodeAsWritten(Partition(Keys(g, rows), 256), rows, msg, sh).value, pw, sh) == Ok(msg.data)
  {
    RoundTrip(g, rows, msg, None, sh);
  }

  // -----------------------------------------------------------------------
  // The password mix-up of encode on one concrete cover edge list: encode
  // shuffles with seed 1 whatever the password, decode with the password.

  /** The permutation n-1, ..., 1, 0. */
  function Reversal(n: nat): (r: seq<nat>)
    ensures |r| == n && forall i :: 0 <= i < n ==> r[i] == n - 1 - i
  {
    seq(n, i requires 0 <= i < n => n - 1 - i)
  }

  lemma {:induction false} ReversalIsPermutation(n: nat)
    ensures IsPermutation(Reversal(n), n)
  {
    if n > 0 {
      ReversalIsPermutation(n - 1);
      assert Reversal(n) == [n - 1] + Reversal(n - 1);
      RangeSnoc(n - 1);
    }
  }

  /** A shuffle that leaves the rows alone for seed 1 and reverses them for
      every other seed. */
  function SeedSensitiveShuffler(): Shuffler {
    (n: nat, seed: int) => if seed == 1 then Range(n) else Reversal(n)
  }

  lemma SeedSensitiveShufflerValid()
    ensures ValidShuffler(SeedSensitiveShuffler())
  {
    forall n: nat, seed: int ensures IsPermutation(SeedSensitiveShuffler()(n, seed), n) {
      assert multiset(Range(n)) == multiset(Range(n));
      ReversalIsPermutation(n);
    }
  }

  /** Node identifiers are their own degrees. */
  function DemoGraph(): Graph {
    Graph((x: Node) => if x < 0 then 0 else x, 11)
  }

  /** Rows whose residues are 1, 9 and nine zeros: the stream of a nine-byte
      payload of zeros. */
  function DemoRows(): (rows: seq<Row>)
    ensures |rows| == 11 && rows[10] == (0, 0)
  {
    [(1, 0), (9, 0)] + seq(9, _ => (0, 0))
  }

  function DemoMessage(): Message {
    Bytes(seq(9, _ => 0))
  }

  /** The residues of the demo stream: width 1, count 9, nine zeros. */
  function DemoKeys(): seq<byte> {
    [1, 9] + seq(9, _ => 0)
  }

  /** The demo rows have exactly the residues of the demo stream. */
  lemma DemoStream()
    ensures DataStream(DemoMessage(), TypeError).Ok?
    ensures DataStream(DemoMessage(), TypeError).value == Keys(DemoGraph(), DemoRows())
    ensures |Keys(DemoGraph(), DemoRows())| == 11 && Keys(DemoGraph(), DemoRows())[10] == 0
  {
    DemoStreamBytes();
    DemoRowKeys();
  }

  lemma DemoStreamBytes()
    ensures DataStream(DemoMessage(), TypeError).Ok?
    ensures DataStream(DemoMessage(), TypeError).value == DemoKeys()
  {
    var msg := DemoMessage();
    DataStreamDefined(msg, TypeError);
    DataStreamLayout(msg, TypeError);
    ByteWidthTable(9);
    var s := DataStream(msg, TypeError).value;
    assert s[0] == 1;
    assert s[1..2] == [s[1]];
    assert FromLE([s[1]]) == s[1];
    var want := DemoKeys();
    forall i | 0 <= i < 11 ensures s[i] == want[i] {
      if i >= 2 {
        assert s[i] == s[2..][i - 2];
      }
    }
  }

  lemma DemoRowKeys()
    ensures Keys(DemoGraph(), DemoRows()) == DemoKeys()
  {
    var keys := Keys(DemoGraph(), DemoRows());
    var want := DemoKeys();
    forall i | 0 <= i < 11 ensures keys[i] == want[i] {
    }
  }

  function DemoBuckets(): seq<seq<nat>> {
    Partition(Keys(DemoGraph(), DemoRows()), 256)
  }

  /** The demo stream fits; the as-written encoder leaves the placed rows in
      place, since it always draws the shuffle of seed 1. */
  lemma DemoEncodes()
    ensures DataStream(DemoMessage(), TypeError).Ok?
    ensures var data := DataStream(DemoMessage(), TypeError).value;
      Fits(data, DemoBuckets()) && ValidShuffler(SeedSensitiveShuffler()) &&
      InRange(Assemble(data, DemoBuckets()), |DemoRows()|) &&
      EncodeAsWritten(DemoBuckets(), DemoRows(), DemoMessage(), SeedSensitiveShuffler()) ==
        Ok(Gather(Assemble(data, DemoBuckets()), DemoRows()))
  {
    SeedSensitiveShufflerValid();
    var keys := Keys(DemoGraph(), DemoRows());
    var b := DemoBuckets();
    DemoStream();
    var data: seq<int> := DataStream(DemoMessage(), TypeError).value;
    assert Fits(data, b) by {
      forall c | 0 <= c < 256 ensures multiset(data)[c] <= |b[c]| {
        assert b[c] == IndicesOf(keys, c);
      }
    }
    FreshPlace(DemoGraph(), DemoRows(), data);
    var pre := Gather(Assemble(data, b), DemoRows());
    assert Gather(Range(|pre|), pre) == pre;
  }

  /** Decoding those rows with seed 42 reverses them; the first residue read
      is then the last stream byte, 0, which is no width. */
  lemma DemoDecodeFails()
    ensures DataStream(DemoMessage(), TypeError).Ok?
    ensures var data := DataStream(DemoMessage(), TypeError).value;
      Fits(data, DemoBuckets()) && ValidShuffler(SeedSensitiveShuffler()) &&
      InRange(Assemble(data, DemoBuckets()), |DemoRows()|) &&
      DecodeSpec(DemoGraph(), Gather(Assemble(data, DemoBuckets()), DemoRows()), Some(42),
                 SeedSensitiveShuffler()) == Err(KeyError)
  {
    DemoEncodes();
    DemoStream();
    var data: seq<int> := DataStream(DemoMessage(), TypeError).value;
    PlacedResidues(DemoGraph(), DemoRows(), data);
    ReversedReadFails(DemoGraph(), Gather(Assemble(data, DemoBuckets()), DemoRows()), data, SeedSensitiveShuffler());
  }

  /** Rows whose residues are exactly a stream ending in a zero byte, read
      back in reverse, start with width 0. */
  lemma ReversedReadFails(g: Graph, pre: seq<Row>, data: seq<int>, sh: Shuffler)
    requires ValidShuffler(sh) && sh(|pre|, 42) == Reversal(|pre|)
    requires 0 < |data| == |pre| && Keys(g, pre)[..|data|] == data && data[|data| - 1] == 0
    ensures DecodeSpec(g, pre, Some(42), sh) == Err(KeyError)
  {
    var n := |pre|;
    InverseUnique(Reversal(n), Reversal(n));
    var syms := DecodedSymbols(g, pre, 42, sh);
    assert syms == Keys(g, Gather(Reversal(n), pre));
    assert syms[0] == Keys(g, pre)[n - 1];
  }

  /** With password 42 the as-written encoder's output decodes to a KeyError,
      whereas the corrected encoder's output decodes to the payload. */
  lemma SeedMismatchBreaksRoundTrip()
    ensures var g, rows, msg, sh := DemoGraph(), DemoRows(), DemoMessage(), SeedSensitiveShuffler();
      var b := Partition(Keys(g, rows), 256);
      ValidShuffler(sh) &&
      EncodeAsWritten(b, rows, msg, sh).Ok? &&
      DecodeSpec(g, EncodeAsWritten(b, rows, msg, sh).value, Some(42), sh) == Err(KeyError) &&
      EncodeSpec(b, rows, msg, Some(42), sh).Ok? &&
      DecodeSpec(g, EncodeSpec(b, rows, msg, Some(42), sh).value, Some(42), sh) == Ok(msg.data)
  {
    DemoEncodes();
    DemoDecodeFails();
    var g, rows, msg, sh := DemoGraph(), DemoRows(), DemoMessage(), SeedSensitiveShuffler();
    assert EncodeSpec(DemoBuckets(), rows, msg, Some(42), sh).Ok?;
    RoundTrip(g, rows, msg, Some(42), sh);
  }
}
