/** Length headers. BIND writes the payload's byte count as an unsigned
    big-endian bit field (`bitstring.pack("uint:w", n)`); BYMOND and BYNIS
    write a byte stream `[bytewidth][count as bytewidth bytes][payload]`
    (`struct.pack` with the `bw2fmt` formats, native order fixed here as
    little-endian). */
module Header {
  import opened Common
  import opened Utils

  // -----------------------------------------------------------------------
  // Unsigned little-endian bytes.

  function ToLE(n: nat, w: nat): (bs: seq<byte>)
    requires n < Pow2(8 * w)
    ensures |bs| == w
    decreases w
  {
    if w == 0 then []
    else
      Pow2Add(8, 8 * (w - 1));
      Pow2Of8();
      [n % 256] + ToLE(n / 256, w - 1)
  }

  /** The unsigned value of little-endian bytes; it fits their width. */
  function FromLE(bs: seq<byte>): (n: nat)
    ensures n < Pow2(8 * |bs|)
    decreases |bs|
  {
    if |bs| == 0 then 0
    else
      Pow2Add(8, 8 * (|bs| - 1));
      Pow2Of8();
      bs[0] + 256 * FromLE(bs[1..])
  }

  lemma {:induction false} FromToLE(n: nat, w: nat)
    requires n < Pow2(8 * w)
    ensures FromLE(ToLE(n, w)) == n
    decreases w
  {
    if w > 0 {
      Pow2Add(8, 8 * (w - 1));
      Pow2Of8();
      FromToLE(n / 256, w - 1);
      assert ToLE(n, w)[1..] == ToLE(n / 256, w - 1);
    }
  }

  lemma {:induction false} ToFromLE(bs: seq<byte>)
    ensures ToLE(FromLE(bs), |bs|) == bs
    decreases |bs|
  {
    if |bs| > 0 {
      ToFromLE(bs[1..]);
      var n := FromLE(bs);
      assert n % 256 == bs[0] && n / 256 == FromLE(bs[1..]);
    }
  }

  // -----------------------------------------------------------------------
  // Unsigned big-endian bits.

  function ToBitsBE(n: nat, w: nat): (bits: seq<bit>)
    requires n < Pow2(w)
    ensures |bits| == w
    decreases w
  {
    if w == 0 then [] else ToBitsBE(n / 2, w - 1) + [n % 2]
  }

  /** The unsigned value of big-endian bits; it fits their width. */
  function FromBitsBE(bits: seq<bit>): (n: nat)
    ensures n < Pow2(|bits|)
    decreases |bits|
  {
    if |bits| == 0 then 0 else 2 * FromBitsBE(bits[..|bits| - 1]) + bits[|bits| - 1]
  }

  lemma {:induction false} FromToBitsBE(n: nat, w: nat)
    requires n < Pow2(w)
    ensures FromBitsBE(ToBitsBE(n, w)) == n
    decreases w
  {
    if w > 0 {
      FromToBitsBE(n / 2, w - 1);
      var bits := ToBitsBE(n, w);
      assert bits[..w - 1] == ToBitsBE(n / 2, w - 1);
    }
  }

  lemma {:induction false} ToFromBitsBE(bits: seq<bit>)
    ensures ToBitsBE(FromBitsBE(bits), |bits|) == bits
    decreases |bits|
  {
    if |bits| > 0 {
      var k := |bits| - 1;
      ToFromBitsBE(bits[..k]);
      assert bits == bits[..k] + [bits[k]];
    }
  }

  // -----------------------------------------------------------------------
  // The byte stream of BYMOND and BYNIS.

  /** The keys of `bw2fmt`: 1 -> "B", 2 -> "H", 4 -> "I", 8 -> "Q". */
  predicate InFormatTable(bw: int) {
    bw == 1 || bw == 2 || bw == 4 || bw == 8
  }

  /** A payload is a `bytes` object, a uint8 `ndarray`, or some other object
      with a length. */
  datatype Message =
    | Bytes(data: seq<byte>)
    | NdArray(data: seq<byte>)
    | Unsupported(length: nat)

  function Length(msg: Message): nat {
    if msg.Unsupported? then msg.length else |msg.data|
  }

  /** The stream `[bytewidth][count][payload]`, with the errors raised while
      building it: `get_bytewidth(0)` (ValueError), `struct.pack("B", bw)` of
      a width past 255 (struct.error), a width missing from `bw2fmt`
      (KeyError, in particular for payloads of at most 8 bytes), and finally
      an unsupported payload type, which raises `otherType`. */
  function DataStream(msg: Message, otherType: Error): (r: Result<seq<byte>>)
    ensures r.Ok? ==> msg.Bytes? || msg.NdArray?
  {
    var n := Length(msg);
    match ByteWidth(n)
    case Err(e) => Err(e)
    case Ok(bw) =>
      if bw >= 256 then Err(StructError)
      else if !InFormatTable(bw) then Err(KeyError)
      else if msg.Unsupported? then Err(otherType)
      else
        ByteWidthTable(n);
        CountFitsBytes(n);
        Ok([bw as byte] + ToLE(n, bw) + msg.data)
  }

  /** Past 2^63 the width is at least 16 bytes, which `bw2fmt` lacks. */
  lemma WidthBeyond64(n: nat)
    requires n > 0x8000_0000_0000_0000
    ensures Width(n) / 8 >= 16
  {
    Pow2Small();
    Pow2Of64();
    WidthSpec(n);
    var w := Width(n);
    Pow2Monotone(w, 64);
    var k := Log2(w);
    Pow2Monotone(k, 6);
    Pow2Monotone(7, k);
    Pow2Add(3, 4);
  }

  /** The stream exists exactly for payloads of 9 to 2^63 bytes. */
  lemma DataStreamDefined(msg: Message, otherType: Error)
    requires msg.Bytes? || msg.NdArray?
    ensures DataStream(msg, otherType).Ok? <==> 9 <= |msg.data| <= 0x8000_0000_0000_0000
  {
    var n := |msg.data|;
    if n >= 1 {
      ByteWidthTable(n);
      if n > 0x8000_0000_0000_0000 {
        WidthBeyond64(n);
      }
    }
  }

  /** Which error a payload of a given length meets first: an empty payload
      fails in `get_bytewidth`, short and very long ones in `bw2fmt` (or, for
      widths past 255, in `struct.pack`), and only then is the payload's type
      looked at. */
  lemma DataStreamErrors(msg: Message, otherType: Error)
    ensures Length(msg) == 0 ==> DataStream(msg, otherType) == Err(ValueError)
    ensures 1 <= Length(msg) <= 8 ==> DataStream(msg, otherType) == Err(KeyError)
    ensures 9 <= Length(msg) <= 0x8000_0000_0000_0000 && msg.Unsupported? ==>
      DataStream(msg, otherType) == Err(otherType)
    ensures Length(msg) > 0x8000_0000_0000_0000 ==>
      DataStream(msg, otherType) == Err(StructError) || DataStream(msg, otherType) == Err(KeyError)
  {
    var n := Length(msg);
    if n >= 1 {
      ByteWidthTable(n);
      if n > 0x8000_0000_0000_0000 {
        WidthBeyond64(n);
      }
    }
  }

  /** The stream starts with the width, then the count, then the payload
      itself. */
  lemma DataStreamLayout(msg: Message, otherType: Error)
    requires DataStream(msg, otherType).Ok?
    ensures var s := DataStream(msg, otherType).value;
      var bw := s[0];
      InFormatTable(bw) && |s| == 1 + bw + |msg.data| &&
      bw == Width(|msg.data|) / 8 &&
      FromLE(s[1..1 + bw]) == |msg.data| && s[1 + bw..] == msg.data
  {
    var n := |msg.data|;
    var s := DataStream(msg, otherType).value;
    var bw := Width(n) / 8;
    ByteWidthTable(n);
    CountFitsBytes(n);
    assert s[1..1 + bw] == ToLE(n, bw);
    FromToLE(n, bw);
  }
}
