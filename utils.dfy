/** Arithmetic helpers: the header widths derived from a count, and the
    extended Euclidean algorithm with the modular inverse built on it. */
module Utils {
  import opened Common

  function Pow2(k: nat): (r: nat)
    ensures r >= 1
  {
    if k == 0 then 1 else 2 * Pow2(k - 1)
  }

  predicate IsPowerOfTwo(w: nat)
    decreases w
  {
    w == 1 || (w >= 2 && w % 2 == 0 && IsPowerOfTwo(w / 2))
  }

  lemma {:induction false} Pow2IsPowerOfTwo(k: nat)
    ensures IsPowerOfTwo(Pow2(k))
  {
    if k > 0 {
      Pow2IsPowerOfTwo(k - 1);
      assert Pow2(k) / 2 == Pow2(k - 1);
    }
  }

  /** The exponent of a power of two. */
  function Log2(w: nat): (k: nat)
    requires IsPowerOfTwo(w)
    ensures Pow2(k) == w
    decreases w
  {
    if w == 1 then 0 else 1 + Log2(w / 2)
  }

  lemma {:induction false} Pow2Monotone(a: nat, b: nat)
    ensures a <= b ==> Pow2(a) <= Pow2(b)
    decreases b
  {
    if a < b {
      Pow2Monotone(a, b - 1);
    }
  }

  lemma {:induction false} Pow2Above(k: nat)
    ensures Pow2(k) > k
  {
    if k > 0 {
      Pow2Above(k - 1);
    }
  }

  lemma {:induction false} Pow2Add(a: nat, b: nat)
    ensures Pow2(a + b) == Pow2(a) * Pow2(b)
    decreases a
  {
    if a > 0 {
      Pow2Add(a - 1, b);
      assert Pow2(a + b) == 2 * Pow2(a - 1 + b);
    }
  }

  /** Searching upward from exponent e for the first e with 2^(2^e) >= 2n. */
  function WidthExpFrom(n: nat, e: nat): (r: nat)
    requires n >= 1
    requires e == 0 || Pow2(Pow2(e - 1)) < 2 * n
    ensures e <= r
    ensures Pow2(Pow2(r)) >= 2 * n
    ensures r == 0 || Pow2(Pow2(r - 1)) < 2 * n
    decreases 2 * n - e
  {
    Pow2Above(Pow2(e));
    Pow2Above(e);
    if Pow2(Pow2(e)) >= 2 * n then e else WidthExpFrom(n, e + 1)
  }

  /** `get_bitwidth(n) = int(2**ceil(log2(log2(2n))))` over the integers:
      2 raised to the smallest e with 2^(2^e) >= 2n. */
  function Width(n: nat): (w: nat)
    requires n >= 1
  {
    Pow2(WidthExpFrom(n, 0))
  }

  /** The width is a power of two w with 2^w >= 2n, and halving it would
      no longer reach 2n. */
  lemma WidthSpec(n: nat)
    requires n >= 1
    ensures IsPowerOfTwo(Width(n))
    ensures Pow2(Width(n)) >= 2 * n
    ensures Width(n) == 1 || Pow2(Width(n) / 2) < 2 * n
  {
    var e := WidthExpFrom(n, 0);
    Pow2IsPowerOfTwo(e);
    if e > 0 {
      assert Pow2(e) / 2 == Pow2(e - 1);
    }
  }

  /** ...and it is the least such power of two. */
  lemma WidthLeast(n: nat, v: nat)
    requires n >= 1
    requires IsPowerOfTwo(v) && Pow2(v) >= 2 * n
    ensures Width(n) <= v
  {
    var e := WidthExpFrom(n, 0);
    var f := Log2(v);
    if e > 0 {
      Pow2Monotone(Pow2(f), Pow2(e - 1));
      assert Pow2(e - 1) < Pow2(f);
      Pow2Monotone(f, e - 1);
      assert e <= f;
    }
    Pow2Monotone(e, f);
  }

  /** The exact width from the two bracketing powers. */
  lemma WidthIs(n: nat, e: nat)
    requires n >= 1
    requires Pow2(Pow2(e)) >= 2 * n
    requires e == 0 || Pow2(Pow2(e - 1)) < 2 * n
    ensures Width(n) == Pow2(e)
  {
    var r := WidthExpFrom(n, 0);
    if r > 0 {
      Pow2Monotone(e, r - 1);
      Pow2Monotone(Pow2(e), Pow2(r - 1));
    }
    if e > 0 {
      Pow2Monotone(r, e - 1);
      Pow2Monotone(Pow2(r), Pow2(e - 1));
    }
  }

  lemma WidthMonotone(n: nat, m: nat)
    requires 1 <= n <= m
    ensures Width(n) <= Width(m)
  {
    WidthSpec(m);
    WidthLeast(n, Width(m));
  }

  /** `get_bitwidth`, including the error for a non-positive count
      (`log2` of zero or less is NaN and `int(NaN)` raises ValueError). */
  function BitWidth(n: int): (r: Result<nat>)
    ensures r.Err? <==> n <= 0
    ensures r.Err? ==> r.error == ValueError
    ensures r.Ok? ==> r.value == Width(n)
  {
    if n <= 0 then Err(ValueError) else Ok(Width(n))
  }

  /** `get_bytewidth`: the bit width divided by eight. */
  function ByteWidth(n: int): (r: Result<nat>)
    ensures r.Err? <==> n <= 0
    ensures r.Err? ==> r.error == ValueError
    ensures r.Ok? ==> r.value == Width(n) / 8
  {
    if n <= 0 then Err(ValueError) else Ok(Width(n) / 8)
  }

  lemma Pow2Small()
    ensures Pow2(0) == 1 && Pow2(1) == 2 && Pow2(2) == 4 && Pow2(3) == 8 && Pow2(4) == 16
  {
  }

  lemma Pow2Of8()
    ensures Pow2(8) == 256
  {
    Pow2Small();
    Pow2Add(4, 4);
  }

  lemma Pow2Of16()
    ensures Pow2(16) == 0x1_0000
  {
    Pow2Of8();
    Pow2Add(8, 8);
  }

  lemma Pow2Of32()
    ensures Pow2(32) == 0x1_0000_0000
  {
    Pow2Of16();
    Pow2Add(16, 16);
  }

  lemma Pow2Of64()
    ensures Pow2(64) == 0x1_0000_0000_0000_0000
  {
    Pow2Of32();
    Pow2Add(32, 32);
  }

  /** The byte widths of the payload-length header. */
  lemma ByteWidthTable(n: nat)
    requires n >= 1
    ensures n <= 8 ==> Width(n) / 8 == 0
    ensures 9 <= n <= 128 ==> Width(n) / 8 == 1
    ensures 129 <= n <= 0x8000 ==> Width(n) / 8 == 2
    ensures 0x8001 <= n <= 0x8000_0000 ==> Width(n) / 8 == 4
    ensures 0x8000_0001 <= n <= 0x8000_0000_0000_0000 ==> Width(n) / 8 == 8
  {
    Pow2Small();
    if n <= 8 {
      WidthSpec(n);
      WidthLeast(n, 4);
    } else if n <= 128 {
      Pow2Of8();
      WidthIs(n, 3);
    } else if n <= 0x8000 {
      Pow2Of16();
      Pow2Of8();
      WidthIs(n, 4);
    } else if n <= 0x8000_0000 {
      Pow2Of32();
      Pow2Of16();
      WidthIs(n, 5);
    } else if n <= 0x8000_0000_0000_0000 {
      Pow2Of64();
      Pow2Of32();
      WidthIs(n, 6);
    }
  }

  /** A power of two divides every power of two at least as large. */
  lemma {:induction false} PowerOfTwoDivides(w: nat, p: nat)
    requires IsPowerOfTwo(w) && IsPowerOfTwo(p) && p <= w
    ensures w % p == 0
    decreases w
  {
    if p > 1 {
      PowerOfTwoDivides(w / 2, p / 2);
      var q := (w / 2) / (p / 2);
      assert w == p * q;
      DivModUnique(w, p, q, 0);
    }
  }

  /** A power of two above 4 is a multiple of 8. */
  lemma PowerOfTwoAboveFour(w: nat)
    requires IsPowerOfTwo(w) && w > 4
    ensures w >= 8 && w % 8 == 0
  {
    Pow2Small();
    Pow2IsPowerOfTwo(2);
    Pow2IsPowerOfTwo(3);
    PowerOfTwoDivides(w, 4);
    PowerOfTwoDivides(w, 8);
  }

  /** A count of at least 9 fits in unsigned little-endian form in
      `get_bytewidth(n)` bytes. */
  lemma CountFitsBytes(n: nat)
    requires n >= 9
    ensures Width(n) / 8 >= 1
    ensures n < Pow2(8 * (Width(n) / 8))
  {
    Pow2Small();
    WidthSpec(n);
    Pow2Monotone(Width(n), 4);
    PowerOfTwoAboveFour(Width(n));
    assert 8 * (Width(n) / 8) == Width(n);
  }

  // -----------------------------------------------------------------------
  // Extended Euclid.

  /** Python's floor division and modulo (the sign of `b % a` follows a). */
  function FloorDiv(b: int, a: int): int
    requires a != 0
  {
    if a > 0 then b / a else (-b) / (-a)
  }

  function FloorMod(b: int, a: int): (r: int)
    requires a != 0
    ensures b == a * FloorDiv(b, a) + r
    ensures a > 0 ==> 0 <= r < a
    ensures a < 0 ==> a < r <= 0
  {
    b - a * FloorDiv(b, a)
  }

  ghost predicate Divides(d: int, x: int) {
    exists k :: x == d * k
  }

  /** g is the greatest common divisor of a and b in the divisibility order. */
  ghost predicate IsGcd(g: int, a: int, b: int) {
    g >= 0 && Divides(g, a) && Divides(g, b) &&
    forall d :: Divides(d, a) && Divides(d, b) ==> Divides(d, g)
  }

  /** `iterative_egcd(a, b)`: returns (g, x, y) with x*a + y*b == g, where g
      divides both inputs, so it is their gcd up to sign; the sign follows
      the sign pattern of the inputs. */
  method IterativeEgcd(a0: int, b0: int) returns (g: int, x: int, y: int)
    ensures x * a0 + y * b0 == g
    ensures Divides(g, a0) && Divides(g, b0)
    ensures a0 >= 0 && b0 >= 0 ==> g >= 0
    ensures a0 < 0 && b0 > 0 ==> g < 0
  {
    var a, b := a0, b0;
    var u, v := 1, 0;
    x, y := 0, 1;
    // a0 and b0 as combinations of the current pair (a, b).
    ghost var p, q, s, t := 1, 0, 0, 1;
    while a != 0
      invariant a == u * a0 + v * b0
      invariant b == x * a0 + y * b0
      invariant a0 == p * a + q * b && b0 == s * a + t * b
      invariant a0 >= 0 && b0 >= 0 ==> a >= 0 && b >= 0
      invariant a0 < 0 && b0 > 0 ==> (a == a0 && b == b0) || (a <= 0 && b < 0)
      decreases if a < 0 then -a else a
    {
      var qt := FloorDiv(b, a);
      var r := FloorMod(b, a);
      var m, n := x - u * qt, y - v * qt;
      ForwardStep(a0, b0, a, b, x, y, u, v, qt, r);
      BackwardStep(a0, a, b, p, q, qt, r);
      BackwardStep(b0, a, b, s, t, qt, r);
      p, q := q, p + q * qt;
      s, t := t, s + t * qt;
      b, a, x, y, u, v := a, r, u, v, m, n;
    }
    g := b;
    assert a0 == g * q && b0 == g * t;
  }

  /** The remainder is again a combination of the inputs. */
  lemma ForwardStep(a0: int, b0: int, a: int, b: int, x: int, y: int, u: int, v: int, qt: int, r: int)
    requires a == u * a0 + v * b0 && b == x * a0 + y * b0
    requires b == a * qt + r
    ensures r == (x - u * qt) * a0 + (y - v * qt) * b0
  {
    assert a * qt == (u * qt) * a0 + (v * qt) * b0 by {
      assert (u * a0 + v * b0) * qt == (u * a0) * qt + (v * b0) * qt;
    }
  }

  /** An input that is a combination of (a, b) is one of (r, a). */
  lemma BackwardStep(c: int, a: int, b: int, p: int, q: int, qt: int, r: int)
    requires c == p * a + q * b
    requires b == a * qt + r
    ensures c == q * r + (p + q * qt) * a
  {
    assert q * b == q * (a * qt) + q * r;
    assert q * (a * qt) == (q * qt) * a;
  }

  lemma CombinationIsGcd(g: int, x: int, y: int, a: int, b: int)
    requires x * a + y * b == g && g >= 0
    requires Divides(g, a) && Divides(g, b)
    ensures IsGcd(g, a, b)
  {
    forall d | Divides(d, a) && Divides(d, b) ensures Divides(d, g) {
      var k1 :| a == d * k1;
      var k2 :| b == d * k2;
      assert g == d * (x * k1 + y * k2);
    }
  }

  lemma UnitDivisor(g: int)
    requires g >= 0 && Divides(g, 1)
    ensures g == 1
  {
    var k :| 1 == g * k;
    MulSign(g, k);
  }

  lemma MulSign(g: int, k: int)
    requires g >= 0
    ensures k <= 0 ==> g * k <= 0
    ensures k >= 1 ==> g * k >= g
  {
    if k >= 1 {
      assert g * k == g * (k - 1) + g;
    }
  }

  /** Euclidean division is unique. */
  lemma DivModUnique(n: int, m: int, q: int, r: int)
    requires m > 0 && 0 <= r < m && n == m * q + r
    ensures n % m == r
  {
    var d := q - n / m;
    assert m * d == n % m - r by {
      assert m * d == m * q - m * (n / m);
    }
    MulSign(m, d);
    MulSign(m, -d);
    assert m * (-d) == -(m * d);
  }

  lemma ModOfMultiple(v: int, m: int, k: int)
    requires m > 0
    ensures (v + m * k) % m == v % m
  {
    var q := v / m;
    var r := v % m;
    assert v + m * k == m * (q + k) + r;
    DivModUnique(v + m * k, m, q + k, r);
  }

  /** `modinv(a, m)` for a positive modulus: None exactly when a and m are
      not coprime (and always for negative a, whose gcd comes back negative
      from the loop); otherwise the residue r in [0, m) with a*r = 1 mod m. */
  method ModInv(a: int, m: int) returns (r: Option<int>)
    requires m > 0
    ensures a >= 0 ==> (r.None? <==> !IsGcd(1, a, m))
    ensures a < 0 ==> r.None?
    ensures r.Some? ==> 0 <= r.value < m && (a * r.value) % m == 1 % m
  {
    var g, x, y := IterativeEgcd(a, m);
    if a >= 0 {
      CombinationIsGcd(g, x, y, a, m);
      if IsGcd(1, a, m) {
        UnitDivisor(g);
      }
    }
    if g != 1 {
      r := None;
    } else {
      var res := x % m;
      ghost var k := x / m;
      assert x == m * k + res;
      assert a * res == 1 + m * (-y - a * k) by {
        assert a * x + m * y == 1;
        assert a * x == a * (m * k) + a * res;
        assert a * (m * k) == m * (a * k);
      }
      ModOfMultiple(1, m, -y - a * k);
      r := Some(res);
    }
  }
}
