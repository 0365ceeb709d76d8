/** BIND: two message bits per cover edge, carried by the degree parities of
    the edge's endpoints. Cover rows fall into four buckets EE, EO, OE, OO by
    (deg(a) mod 2, deg(b) mod 2); symbol i of the bit stream takes the next
    unused row of its bucket, the unused rows follow, and a seeded shuffle
    hides the order. */
module Bind {
  import opened Common
  import opened Permutations
  import opened Buckets
  import opened Utils
  import opened Header

  /** The parity class of a row: EE = 0, EO = 1, OE = 2, OO = 3. */
  function ParityKey(g: Graph, row: Row): (k: int)
    ensures 0 <= k < 4
  {
    2 * (g.degree(row.0) % 2) + g.degree(row.1) % 2
  }

  function Keys(g: Graph, rows: seq<Row>): (keys: seq<int>)
    ensures |keys| == |rows| && KeysIn(keys, 4)
    ensures forall i :: 0 <= i < |rows| ==> keys[i] == ParityKey(g, rows[i])
  {
    seq(|rows|, i requires 0 <= i < |rows| => ParityKey(g, rows[i]))
  }

  function ClassName(c: nat): string
    requires c < 4
  {
    if c == 0 then "EE" else if c == 1 then "EO" else if c == 2 then "OE" else "OO"
  }

  /** Two-bit symbols `zip(bits[0::2], bits[1::2])`; an odd last bit is
      dropped. */
  function Symbols(bits: seq<bit>): (syms: seq<int>)
    ensures |syms| == |bits| / 2 && KeysIn(syms, 4)
    ensures forall k :: 0 <= k < |syms| ==> syms[k] == 2 * (bits[2 * k] as int) + (bits[2 * k + 1] as int)
  {
    seq(|bits| / 2, k requires 0 <= k < |bits| / 2 => 2 * (bits[2 * k] as int) + (bits[2 * k + 1] as int))
  }

  /** The bits read back from symbols: `"%d%d"` per row, joined. */
  function SymbolBits(syms: seq<int>): (bits: seq<bit>)
    requires KeysIn(syms, 4)
    ensures |bits| == 2 * |syms|
  {
    seq(2 * |syms|, j requires 0 <= j < 2 * |syms| =>
      if j % 2 == 0 then syms[j / 2] / 2 else syms[j / 2] % 2)
  }

  /** Reading symbols i..j back gives bits 2i..2j of the stream. */
  lemma SymbolBitsOfSymbols(bits: seq<bit>, i: nat, j: nat)
    requires i <= j <= |bits| / 2
    ensures SymbolBits(Symbols(bits)[i..j]) == bits[2 * i..2 * j]
  {
    var s := Symbols(bits)[i..j];
    forall t | 0 <= t < 2 * (j - i) ensures SymbolBits(s)[t] == bits[2 * i + t] {
      var k := t / 2;
      assert s[k] == 2 * (bits[2 * (i + k)] as int) + (bits[2 * (i + k) + 1] as int);
    }
  }

  /** The encoder's bit stream: `len(msg_bits) div 8` packed as
      `uint:get_bitwidth(#rows)` (ValueError when it does not fit, as for
      `get_bitwidth(0)`), followed by the message bits. */
  function Stream(nRows: int, msg: seq<bit>): (r: Result<seq<bit>>)
    ensures r.Ok? <==> nRows >= 1 && |msg| / 8 < Pow2(Width(nRows))
    ensures r.Err? ==> r.error == ValueError
    ensures r.Ok? ==> var w := Width(nRows);
      |r.value| == w + |msg| && FromBitsBE(r.value[..w]) == |msg| / 8 && r.value[w..] == msg
  {
    match BitWidth(nRows)
    case Err(e) => Err(e)
    case Ok(w) =>
      var len := |msg| / 8;
      if len >= Pow2(w) then Err(ValueError)
      else
        var bits := ToBitsBE(len, w) + msg;
        assert bits[..w] == ToBitsBE(len, w);
        FromToBitsBE(len, w);
        Ok(bits)
  }

  /** What `BIND.encode` returns for given buckets: the errors in source
      order (stream, empty symbol array, the first class EE, EO, OE, OO that
      runs out of rows, out-of-range cached indices, the seed), otherwise the
      assembled rows permuted by the seeded shuffle. */
  function EncodeSpec(buckets: seq<seq<nat>>, rows: seq<Row>, msg: seq<bit>,
                      pw: Option<int>, sh: Shuffler): Result<seq<Row>>
    requires |buckets| == 4 && ValidShuffler(sh)
  {
    match Stream(|rows|, msg)
    case Err(e) => Err(e)
    case Ok(bits) =>
      var syms := Symbols(bits);
      if |syms| == 0 then Err(ValueError)
      else
        var over := FirstOverflow(syms, Sizes(buckets), 0);
        if over != -1 then Err(RuntimeError(ClassName(over)))
        else
          Arrange(Assemble(syms, buckets), rows, pw, sh)
  }

  /** The rows at the assembled indices (IndexError for one past the rows),
      then the seeded shuffle (ValueError for a seed numpy refuses). */
  function Arrange(idx: seq<nat>, rows: seq<Row>, pw: Option<int>, sh: Shuffler): Result<seq<Row>>
    requires ValidShuffler(sh)
  {
    if !InRange(idx, |rows|) then Err(IndexError)
    else if !SeedInRange(SeedOf(pw)) then Err(ValueError)
    else
      var pre := Gather(idx, rows);
      Ok(Gather(sh(|pre|, SeedOf(pw)), pre))
  }

  /** The symbols decode reads: parity classes after undoing the shuffle. */
  function DecodedSymbols(g: Graph, rows: seq<Row>, seed: int, sh: Shuffler): (syms: seq<int>)
    requires ValidShuffler(sh)
    ensures |syms| == |rows| && KeysIn(syms, 4)
  {
    Keys(g, Gather(Inverse(sh(|rows|, seed)), rows))
  }

  /** Reading the unshuffled symbols: the header of `w div 2` symbols
      (ValueError when it comes out empty, as `BitArray(bin="").uint`), its
      value L, then `4L` message symbols with positional truncation, and the
      TypeError of `8 * None` for an object that never estimated. */
  function ReadMessage(syms: seq<int>, w: nat, estimated: Option<nat>): Result<seq<bit>>
    requires KeysIn(syms, 4)
  {
    var h := Min(w / 2, |syms|);
    if h == 0 then Err(ValueError)
    else
      var len := FromBitsBE(SymbolBits(syms[..h]));
      var e := Min(h + 4 * len, |syms|);
      if estimated.None? then Err(TypeError)
      else Ok(SymbolBits(syms[h..e]))
  }

  /** What `BIND.decode` returns: `get_bitwidth(num_edges)` (ValueError for
      an empty graph), the seed, the header of `w div 2` symbols (ValueError
      when it comes out empty), the `4L` message symbols with positional
      truncation, and the TypeError of `8 * None` when the object never
      estimated. */
  function DecodeSpec(g: Graph, rows: seq<Row>, pw: Option<int>, sh: Shuffler,
                      estimated: Option<nat>): Result<seq<bit>>
    requires ValidShuffler(sh)
  {
    match BitWidth(g.numEdges)
    case Err(e) => Err(e)
    case Ok(w) =>
      if !SeedInRange(SeedOf(pw)) then Err(ValueError)
      else
        ReadMessage(DecodedSymbols(g, rows, SeedOf(pw), sh), w, estimated)
  }

  /** The four parity buckets, EE to OO. */
  lemma PartitionOfFour(keys: seq<int>)
    ensures Partition(keys, 4) == [IndicesOf(keys, 0), IndicesOf(keys, 1), IndicesOf(keys, 2), IndicesOf(keys, 3)]
    ensures Sizes(Partition(keys, 4)) == [|IndicesOf(keys, 0)|, |IndicesOf(keys, 1)|, |IndicesOf(keys, 2)|, |IndicesOf(keys, 3)|]
  {
  }

  /** The four capacity checks of encode, EE first, are the first class
      whose symbols outnumber its rows. */
  lemma FirstOverflowOfFour(syms: seq<int>, sizes: seq<nat>)
    requires |sizes| == 4
    ensures var count := multiset(syms);
      FirstOverflow(syms, sizes, 0) ==
        if count[0] > sizes[0] then 0
        else if count[1] > sizes[1] then 1
        else if count[2] > sizes[2] then 2
        else if count[3] > sizes[3] then 3
        else -1
  {
    assert FirstOverflow(syms, sizes, 4) == -1;
  }

  /** `index_edge_stego[index_bits_c] = index_edge_c[:index_bits_c.size]` for
      the four classes in turn: symbol i takes the next unused row of its
      class. */
  method Scatter(syms: seq<int>, b: seq<seq<nat>>) returns (stego: seq<nat>)
    requires |b| == 4 && Fits(syms, b)
    ensures stego == Consumed(syms, b)
  {
    OccBounds(syms, b);
    ghost var want := Consumed(syms, b);
    var a := new nat[|syms|](_ => 0);
    forall i | 0 <= i < |syms| && syms[i] == 0 {
      a[i] := b[0][Occ(syms, i)];
    }
    assert forall i :: 0 <= i < |syms| && syms[i] <= 0 ==> a[i] == want[i];
    forall i | 0 <= i < |syms| && syms[i] == 1 {
      a[i] := b[1][Occ(syms, i)];
    }
    assert forall i :: 0 <= i < |syms| && syms[i] <= 1 ==> a[i] == want[i];
    forall i | 0 <= i < |syms| && syms[i] == 2 {
      a[i] := b[2][Occ(syms, i)];
    }
    assert forall i :: 0 <= i < |syms| && syms[i] <= 2 ==> a[i] == want[i];
    forall i | 0 <= i < |syms| && syms[i] == 3 {
      a[i] := b[3][Occ(syms, i)];
    }
    assert forall i :: 0 <= i < |syms| ==> a[i] == want[i];
    stego := a[..];
  }

  /** The body of `BIND.encode` once the buckets are cached: the header and
      the symbols, the four capacity checks in class order, the scatter, the
      unused tails and the seeded shuffle. */
  method EncodeRows(b: seq<seq<nat>>, rows: seq<Row>, msg: seq<bit>, pw: Option<int>, sh: Shuffler)
    returns (r: Result<seq<Row>>)
    requires |b| == 4 && ValidShuffler(sh)
    ensures r == EncodeSpec(b, rows, msg, pw, sh)
  {
    var stream := Stream(|rows|, msg);
    if stream.Err? {
      return Err(stream.error);
    }
    var syms := Symbols(stream.value);
    if |syms| == 0 {
      return Err(ValueError);
    }
    var count := multiset(syms);
    FirstOverflowOfFour(syms, Sizes(b));
    if count[0] > |b[0]| {
      return Err(RuntimeError("EE"));
    }
    if count[1] > |b[1]| {
      return Err(RuntimeError("EO"));
    }
    if count[2] > |b[2]| {
      return Err(RuntimeError("OE"));
    }
    if count[3] > |b[3]| {
      return Err(RuntimeError("OO"));
    }
    var stego := Scatter(syms, b);
    var idx := stego + Tails(syms, b);
    if !InRange(idx, |rows|) {
      return Err(IndexError);
    }
    var seed := SeedOf(pw);
    if !SeedInRange(seed) {
      return Err(ValueError);
    }
    var pre := Gather(idx, rows);
    r := Ok(Gather(sh(|pre|, seed), pre));
  }

  /** The body of `BIND.decode`: rebuilds the inverse of the shuffle in place
      and reads the parity classes back as bits. */
  method DecodeRows(g: Graph, rows: seq<Row>, pw: Option<int>, sh: Shuffler, estimated: Option<nat>)
    returns (r: Result<seq<bit>>)
    requires ValidShuffler(sh)
    ensures r == DecodeSpec(g, rows, pw, sh, estimated)
  {
    var width := BitWidth(g.numEdges);
    if width.Err? {
      return Err(width.error);
    }
    var seed := SeedOf(pw);
    if !SeedInRange(seed) {
      return Err(ValueError);
    }
    var inv := InvertShuffle(sh(|rows|, seed));
    var syms := Keys(g, Gather(inv, rows));
    r := ReadMessage(syms, width.value, estimated);
  }

  /** The codec object: the four cached buckets, the cached capacity and the
      flag saying that they were computed. Before the first estimate the
      buckets are `None` in the source and empty here; no operation reads
      them in that state. */
  class BindCodec {
    var indexEdgeEE: seq<nat>
    var indexEdgeEO: seq<nat>
    var indexEdgeOE: seq<nat>
    var indexEdgeOO: seq<nat>
    var estimatedMaxBits: Option<nat>
    var isMaxBitsEstimated: bool

    function Buckets(): (b: seq<seq<nat>>)
      reads this
      ensures |b| == 4
    {
      [indexEdgeEE, indexEdgeEO, indexEdgeOE, indexEdgeOO]
    }

    /** The cached capacity is the one of the cached buckets. */
    predicate Valid()
      reads this
    {
      isMaxBitsEstimated ==> estimatedMaxBits == Some(8 * MinOf(Sizes(Buckets())))
    }

    /** The cache holds the buckets of these rows under this graph. */
    predicate EstimatedFor(g: Graph, rows: seq<Row>)
      reads this
    {
      Valid() && isMaxBitsEstimated && Buckets() == Partition(Keys(g, rows), 4)
    }

    constructor()
      ensures Valid() && !isMaxBitsEstimated && estimatedMaxBits == None
      ensures Buckets() == [[], [], [], []]
    {
      indexEdgeEE, indexEdgeEO, indexEdgeOE, indexEdgeOO := [], [], [], [];
      estimatedMaxBits := None;
      isMaxBitsEstimated := false;
    }

    method Initialize()
      modifies this
      ensures Valid() && !isMaxBitsEstimated && estimatedMaxBits == None
      ensures Buckets() == [[], [], [], []]
    {
      indexEdgeEE, indexEdgeEO, indexEdgeOE, indexEdgeOO := [], [], [], [];
      estimatedMaxBits := None;
      isMaxBitsEstimated := false;
    }

    /** Splits the rows into the four stable parity buckets and caches them
        with the capacity 8 * min of their sizes. */
    method EstimateMaxBits(g: Graph, rows: seq<Row>) returns (cap: nat)
      modifies this
      ensures EstimatedFor(g, rows)
      ensures cap == 8 * MinOf(Sizes(Buckets())) && estimatedMaxBits == Some(cap)
    {
      var keys := Keys(g, rows);
      var ee, eo, oe, oo := IndicesOf(keys, 0), IndicesOf(keys, 1), IndicesOf(keys, 2), IndicesOf(keys, 3);
      PartitionOfFour(keys);
      cap := 8 * MinOf([|ee|, |eo|, |oe|, |oo|]);
      indexEdgeEE, indexEdgeEO, indexEdgeOE, indexEdgeOO := ee, eo, oe, oo;
      estimatedMaxBits := Some(cap);
      isMaxBitsEstimated := true;
      assert Buckets() == [ee, eo, oe, oo];
      assert Sizes(Buckets()) == [|ee|, |eo|, |oe|, |oo|];
    }

    /** `BIND.encode`: estimates first unless the cache is set, then places
        the symbols by scattering each class's bucket prefix into the
        positions of that class. */
    method Encode(g: Graph, rows: seq<Row>, msg: seq<bit>, pw: Option<int>, sh: Shuffler)
      returns (r: Result<seq<Row>>)
      requires ValidShuffler(sh) && Valid()
      modifies this
      ensures Valid() && isMaxBitsEstimated
      ensures old(isMaxBitsEstimated) ==>
        Buckets() == old(Buckets()) && estimatedMaxBits == old(estimatedMaxBits)
      ensures !old(isMaxBitsEstimated) ==> EstimatedFor(g, rows)
      ensures r == EncodeSpec(Buckets(), rows, msg, pw, sh)
    {
      if !isMaxBitsEstimated {
        var cap := EstimateMaxBits(g, rows);
      }
      r := EncodeRows(Buckets(), rows, msg, pw, sh);
    }

    /** `BIND.decode`; the cached capacity only matters through the
        statistics line that multiplies it. */
    method Decode(g: Graph, rows: seq<Row>, pw: Option<int>, sh: Shuffler)
      returns (r: Result<seq<bit>>)
      requires ValidShuffler(sh)
      ensures r == DecodeSpec(g, rows, pw, sh, estimatedMaxBits)
    {
      r := DecodeRows(g, rows, pw, sh, estimatedMaxBits);
    }
  }

  // -----------------------------------------------------------------------
  // Properties.

  /** Every cover row lies in the bucket of its parity class and in no other,
      and each bucket lists its rows in their original order. */
  lemma BucketsExact(g: Graph, rows: seq<Row>, i: nat, c: nat)
    requires i < |rows| && c < 4
    ensures i in Partition(Keys(g, rows), 4)[c] <==> ParityKey(g, rows[i]) == c
    ensures var b := Partition(Keys(g, rows), 4)[c];
      forall s, t :: 0 <= s < t < |b| ==> b[s] < b[t]
  {
    assert Partition(Keys(g, rows), 4)[c] == IndicesOf(Keys(g, rows), c);
    IndicesOfComplete(Keys(g, rows), c);
  }

  /** A stream with no more symbols than the smallest bucket has rows never
      hits the capacity check. */
  lemma SmallMessageFits(g: Graph, rows: seq<Row>, msg: seq<bit>)
    requires Stream(|rows|, msg).Ok?
    requires |Symbols(Stream(|rows|, msg).value)| <= MinOf(Sizes(Partition(Keys(g, rows), 4)))
    ensures FirstOverflow(Symbols(Stream(|rows|, msg).value), Sizes(Partition(Keys(g, rows), 4)), 0) == -1
  {
    SmallStreamFits(Symbols(Stream(|rows|, msg).value), Sizes(Partition(Keys(g, rows), 4)));
  }

  /** With freshly estimated buckets the encoder never fails on an index,
      and whatever it returns is a reordering of the cover rows. */
  lemma EncodePermutes(g: Graph, rows: seq<Row>, msg: seq<bit>, pw: Option<int>, sh: Shuffler)
    requires ValidShuffler(sh)
    ensures var r := EncodeSpec(Partition(Keys(g, rows), 4), rows, msg, pw, sh);
      r != Err(IndexError) && (r.Ok? ==> multiset(r.value) == multiset(rows))
  {
    var keys := Keys(g, rows);
    var b := Partition(keys, 4);
    var stream := Stream(|rows|, msg);
    if stream.Ok? {
      var syms := Symbols(stream.value);
      if |syms| > 0 && FirstOverflow(syms, Sizes(b), 0) == -1 {
        AssembleIsPermutation(keys, syms, 4);
        var idx := Assemble(syms, b);
        if SeedInRange(SeedOf(pw)) {
          var pre := Gather(idx, rows);
          GatherPermutationMultiset(idx, rows);
          GatherPermutationMultiset(sh(|pre|, SeedOf(pw)), pre);
        }
      }
    }
  }

  /** The successful encoding, spelled out: a fitting non-empty symbol
      stream whose assembled indices are arranged. */
  lemma EncodeSpecOk(b: seq<seq<nat>>, rows: seq<Row>, msg: seq<bit>, pw: Option<int>, sh: Shuffler)
    requires |b| == 4 && ValidShuffler(sh)
    requires EncodeSpec(b, rows, msg, pw, sh).Ok?
    ensures Stream(|rows|, msg).Ok?
    ensures var syms := Symbols(Stream(|rows|, msg).value);
      |syms| > 0 && Fits(syms, b) &&
      EncodeSpec(b, rows, msg, pw, sh) == Arrange(Assemble(syms, b), rows, pw, sh)
  {
  }

  /** Undoing the shuffle of arranged rows gives the rows at the assembled
      indices, in order. */
  lemma ArrangeUnshuffled(g: Graph, rows: seq<Row>, idx: seq<nat>, pw: Option<int>, sh: Shuffler)
    requires ValidShuffler(sh) && Arrange(idx, rows, pw, sh).Ok?
    ensures SeedInRange(SeedOf(pw))
    ensures DecodedSymbols(g, Arrange(idx, rows, pw, sh).value, SeedOf(pw), sh) == Keys(g, Gather(idx, rows))
  {
    var pre := Gather(idx, rows);
    var p := sh(|pre|, SeedOf(pw));
    GatherInverse(p, pre);
  }

  /** The assembled rows carry the symbols as their parity classes, and
      there are as many of them as cover rows. */
  lemma AssembledParities(g: Graph, rows: seq<Row>, syms: seq<int>)
    requires Fits(syms, Partition(Keys(g, rows), 4))
    ensures var idx := Assemble(syms, Partition(Keys(g, rows), 4));
      IsPermutation(idx, |rows|) && |syms| <= |rows| &&
      Keys(g, Gather(idx, rows))[..|syms|] == syms
  {
    var keys := Keys(g, rows);
    var b := Partition(keys, 4);
    AssembleIsPermutation(keys, syms, 4);
    AssembledKeys(keys, syms, 4);
    var idx := Assemble(syms, b);
    var d := Keys(g, Gather(idx, rows));
    forall i | 0 <= i < |syms| ensures d[i] == syms[i] {
      assert d[i] == ParityKey(g, rows[idx[i]]);
    }
  }

  /** Undoing the shuffle of an encoded edge list gives rows whose parity
      classes are the stream's symbols, in order. */
  lemma EncodedParities(g: Graph, rows: seq<Row>, msg: seq<bit>, pw: Option<int>, sh: Shuffler)
    requires ValidShuffler(sh)
    requires EncodeSpec(Partition(Keys(g, rows), 4), rows, msg, pw, sh).Ok?
    ensures Stream(|rows|, msg).Ok? && SeedInRange(SeedOf(pw))
    ensures var out := EncodeSpec(Partition(Keys(g, rows), 4), rows, msg, pw, sh).value;
      var syms := Symbols(Stream(|rows|, msg).value);
      |out| == |rows| && |syms| <= |rows| &&
      DecodedSymbols(g, out, SeedOf(pw), sh)[..|syms|] == syms
  {
    var b := Partition(Keys(g, rows), 4);
    EncodeSpecOk(b, rows, msg, pw, sh);
    var syms := Symbols(Stream(|rows|, msg).value);
    AssembledParities(g, rows, syms);
    ArrangeUnshuffled(g, rows, Assemble(syms, b), pw, sh);
  }

  lemma WidthEven(n: nat)
    requires n >= 2
    ensures Width(n) >= 2 && Width(n) % 2 == 0
  {
    WidthSpec(n);
    Pow2Small();
  }

  /** The encoder's stream splits into header symbols and message symbols
      at w div 2, and 4L message symbols hold L whole bytes. */
  lemma StreamSymbolBounds(n: nat, msg: seq<bit>)
    requires n >= 2 && Stream(n, msg).Ok?
    ensures var w := Width(n);
      w >= 2 && 2 * (w / 2) == w && w / 2 + 4 * (|msg| / 8) <= |Symbols(Stream(n, msg).value)|
  {
    WidthEven(n);
  }

  /** The header symbols read back as the byte count. */
  lemma HeaderReadBack(d: seq<int>, n: nat, msg: seq<bit>)
    requires KeysIn(d, 4) && n >= 2 && Stream(n, msg).Ok?
    requires var syms := Symbols(Stream(n, msg).value);
      |syms| <= |d| && d[..|syms|] == syms
    ensures Width(n) / 2 <= |d|
    ensures FromBitsBE(SymbolBits(d[..Width(n) / 2])) == |msg| / 8
  {
    var bits := Stream(n, msg).value;
    var syms := Symbols(bits);
    var w := Width(n);
    StreamSymbolBounds(n, msg);
    var h := w / 2;
    assert d[..h] == syms[..h];
    SymbolBitsOfSymbols(bits, 0, h);
    assert bits[..w] == bits[2 * 0..2 * h];
  }

  /** The message symbols read back as the whole bytes of the message. */
  lemma BodyReadBack(d: seq<int>, n: nat, msg: seq<bit>)
    requires KeysIn(d, 4) && n >= 2 && Stream(n, msg).Ok?
    requires var syms := Symbols(Stream(n, msg).value);
      |syms| <= |d| && d[..|syms|] == syms
    ensures var h := Width(n) / 2;
      h + 4 * (|msg| / 8) <= |d| &&
      SymbolBits(d[h..h + 4 * (|msg| / 8)]) == msg[..8 * (|msg| / 8)]
  {
    var bits := Stream(n, msg).value;
    StreamSymbolBounds(n, msg);
    BodyOfBits(d, bits, Width(n) / 2, msg);
  }

  /** The same for any bit sequence made of `2h` header bits and then the
      message. */
  lemma BodyOfBits(d: seq<int>, bits: seq<bit>, h: nat, msg: seq<bit>)
    requires KeysIn(d, 4) && |bits| == 2 * h + |msg| && bits[2 * h..] == msg
    requires var syms := Symbols(bits); |syms| <= |d| && d[..|syms|] == syms
    ensures h + 4 * (|msg| / 8) <= |d|
    ensures SymbolBits(d[h..h + 4 * (|msg| / 8)]) == msg[..8 * (|msg| / 8)]
  {
    var syms := Symbols(bits);
    var len := |msg| / 8;
    var e := h + 4 * len;
    assert |bits| / 2 == h + |msg| / 2;
    assert 8 * len <= |msg| && 4 * len <= |msg| / 2;
    assert e <= |syms|;
    forall k | h <= k < e ensures d[k] == syms[k] {
      assert d[..|syms|][k] == d[k];
    }
    assert d[h..e] == syms[h..e];
    SymbolBitsOfSymbols(bits, h, e);
    assert bits[2 * h..2 * e] == bits[2 * h..][..8 * len];
  }

  /** Symbols that start with the encoder's stream read back as the message
      cut to whole bytes, when the header width is the one the encoder
      used. */
  lemma ReadEncodedStream(d: seq<int>, n: nat, msg: seq<bit>, estimated: Option<nat>)
    requires KeysIn(d, 4) && n >= 2 && estimated.Some? && Stream(n, msg).Ok?
    requires var syms := Symbols(Stream(n, msg).value);
      |syms| <= |d| && d[..|syms|] == syms
    ensures ReadMessage(d, Width(n), estimated) == Ok(msg[..8 * (|msg| / 8)])
  {
    var w := Width(n);
    var len := |msg| / 8;
    StreamSymbolBounds(n, msg);
    HeaderReadBack(d, n, msg);
    BodyReadBack(d, n, msg);
    ReadMessageOk(d, w, estimated, len);
    assert ReadMessage(d, w, estimated) == Ok(SymbolBits(d[w / 2..w / 2 + 4 * len]));
  }

  lemma ReadMessageOk(d: seq<int>, w: nat, estimated: Option<nat>, len: nat)
    requires KeysIn(d, 4) && estimated.Some? && 2 <= w <= 2 * |d|
    requires len == FromBitsBE(SymbolBits(d[..w / 2])) && w / 2 + 4 * len <= |d|
    ensures ReadMessage(d, w, estimated) == Ok(SymbolBits(d[w / 2..w / 2 + 4 * len]))
  {
  }

  /** Decoding an encoded edge list with the same password, on a graph whose
      edge count is the number of cover rows, returns the message cut to
      whole bytes. */
  lemma RoundTrip(g: Graph, rows: seq<Row>, msg: seq<bit>, pw: Option<int>, sh: Shuffler,
                  estimated: Option<nat>)
    requires ValidShuffler(sh)
    requires g.numEdges == |rows| >= 2 && estimated.Some?
    requires EncodeSpec(Partition(Keys(g, rows), 4), rows, msg, pw, sh).Ok?
    ensures DecodeSpec(g, EncodeSpec(Partition(Keys(g, rows), 4), rows, msg, pw, sh).value, pw, sh, estimated)
         == Ok(msg[..8 * (|msg| / 8)])
  {
    var out := EncodeSpec(Partition(Keys(g, rows), 4), rows, msg, pw, sh).value;
    EncodedParities(g, rows, msg, pw, sh);
    ReadEncodedStream(DecodedSymbols(g, out, SeedOf(pw), sh), |rows|, msg, estimated);
  }

  /** A graph with a single edge has a one-bit header field, of which decode
      reads zero symbols: decoding always fails. */
  lemma SingleEdgeDecodeFails(g: Graph, rows: seq<Row>, pw: Option<int>, sh: Shuffler,
                              estimated: Option<nat>)
    requires ValidShuffler(sh) && g.numEdges == 1
    ensures DecodeSpec(g, rows, pw, sh, estimated) == Err(ValueError)
  {
    Pow2Small();
    WidthIs(1, 0);
  }
}
