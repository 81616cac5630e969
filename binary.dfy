// Machine-width value types, powers of two and the division/remainder facts
// that the bit-level proofs rely on. Everything is on unbounded `nat`/`int`;
// a byte or a 64-bit word is a natural below 2^8 or 2^64.
module Binary {

  /** A value that fits in one byte (uint8_t). */
  type uint8 = x: nat | x < 256

  /** A value that fits in a 64-bit unsigned word (uint64_t). */
  type uint64 = x: nat | x < 0x1_0000_0000_0000_0000

  /** 2 to the power n. */
  function Pow2(n: nat): (p: nat)
    ensures p >= 1
  {
    if n == 0 then 1 else 2 * Pow2(n - 1)
  }

  lemma {:induction false} Pow2Add(a: nat, b: nat)
    ensures Pow2(a + b) == Pow2(a) * Pow2(b)
  {
    if a > 0 {
      Pow2Add(a - 1, b);
      assert a - 1 + b == a + b - 1;
      MulDouble(Pow2(b), Pow2(a - 1), Pow2(a));
    }
  }

  lemma {:induction false} Pow2Monotone(a: nat, b: nat)
    requires a <= b
    ensures Pow2(a) <= Pow2(b)
  {
    if a < b {
      Pow2Monotone(a, b - 1);
    }
  }

  lemma Pow2Of8()
    ensures Pow2(8) == 256
  {
  }

  lemma Pow2Of16()
    ensures Pow2(16) == 0x1_0000
  {
    Pow2Of8();
    Pow2Add(8, 8);
  }

  lemma Pow2Of32()
    ensures Pow2(32) == 0x1_0000_0000
  {
    Pow2Of16();
    Pow2Add(16, 16);
  }

  /** 2^64, the number of values of a 64-bit word. */
  lemma Pow2Of64()
    ensures Pow2(8) == 256
    ensures Pow2(64) == 0x1_0000_0000_0000_0000
  {
    Pow2Of8();
    Pow2Of32();
    Pow2Add(32, 32);
  }

  lemma MulNonneg(x: int, y: int)
    requires x >= 0 && y >= 0
    ensures x * y >= 0
  {
  }

  lemma DivNonneg(a: nat, d: nat)
    requires d > 0
    ensures a / d >= 0
  {
  }

  /** Quotient and remainder are determined by the division equation. */
  lemma DivModUnique(a: int, d: int, q: int, r: int)
    requires d > 0 && 0 <= r < d && a == q * d + r
    ensures a / d == q && a % d == r
  {
    var q', r' := a / d, a % d;
    assert (q - q') * d == r' - r;
    if q > q' {
      MulNonneg(q - q' - 1, d);
    } else if q < q' {
      MulNonneg(q' - q - 1, d);
    }
  }

  /** Adding a multiple of d shifts the quotient and keeps the remainder. */
  lemma DivAddMultiple(k: int, d: nat, x: nat)
    requires d > 0
    ensures (k * d + x) / d == k + x / d
    ensures (k * d + x) % d == x % d
  {
    assert k * d + x == (k + x / d) * d + x % d;
    DivModUnique(k * d + x, d, k + x / d, x % d);
  }

  lemma ModBelow(i: nat, n: nat)
    requires n > 0
    ensures i % n <= i
  {
    DivNonneg(i, n);
    MulNonneg(i / n, n);
  }

  /** Two numbers with the same remainder less than n apart are equal. */
  lemma SameResidue(i: nat, a: nat, n: nat)
    requires n > 0 && i % n == a % n && a <= i < a + n
    ensures i == a
  {
    var d := i / n - a / n;
    assert i - a == d * n;
    DivModUnique(i - a, n, d, 0);
    DivModUnique(i - a, n, 0, i - a);
  }

  /** Moving less than the room left in a block of n keeps the block. */
  lemma ModAddSmall(a: nat, k: nat, n: nat)
    requires n > 0 && a % n + k < n
    ensures (a + k) % n == a % n + k
  {
    DivModUnique(a + k, n, a / n, a % n + k);
  }

  lemma ModSubSmall(a: nat, k: nat, n: nat)
    requires n > 0 && k <= a % n
    ensures a >= k && (a - k) % n == a % n - k
  {
    ModBelow(a, n);
    DivModUnique(a - k, n, a / n, a % n - k);
  }

  /** In a length that is a multiple of n, an index in the first half of its block has a partner k later. */
  lemma BlockInBounds(a: nat, k: nat, len: nat)
    requires k > 0 && len % (2 * k) == 0 && a < len && a % (2 * k) < k
    ensures a + k < len
  {
    var n := 2 * k;
    var q, qq := a / n, len / n;
    assert a == q * n + a % n;
    assert len == qq * n;
    if q >= qq {
      MulMonotone(qq, q, n);
    }
    assert q + 1 <= qq;
    MulMonotone(q + 1, qq, n);
  }

  lemma MulMonotone(x: nat, y: nat, z: nat)
    requires x <= y
    ensures x * z <= y * z
  {
  }

  /** The low w bits of a: `a & (2^w - 1)`. */
  function Low(a: nat, w: nat): (r: nat)
    ensures r < Pow2(w)
  {
    if w == 0 then 0 else a % 2 + 2 * Low(a / 2, w - 1)
  }

  /** a with its low w bits shifted out: `a >> w`. */
  function High(a: nat, w: nat): nat
  {
    if w == 0 then a else High(a / 2, w - 1)
  }

  lemma Regroup(a: int, half: int, h: int, p: int, l: int)
    requires a == 2 * half + a % 2 && half == h * p + l
    ensures a == h * (2 * p) + (a % 2 + 2 * l)
  {
  }

  /** The low w bits of a keep the lowest bit of a, above it the low w-1 bits of a/2. */
  lemma LowHalves(a: nat, w: nat)
    requires w > 0
    ensures Low(a, w) % 2 == a % 2 && Low(a, w) / 2 == Low(a / 2, w - 1)
  {
    DivModUnique(Low(a, w), 2, Low(a / 2, w - 1), a % 2);
  }

  /** a splits into its high part above bit w and its low w bits. */
  lemma {:induction false} HighLow(a: nat, w: nat)
    ensures a == High(a, w) * Pow2(w) + Low(a, w)
  {
    if w > 0 {
      HighLow(a / 2, w - 1);
      Regroup(a, a / 2, High(a / 2, w - 1), Pow2(w - 1), Low(a / 2, w - 1));
    }
  }

  /** High and low parts are determined by the split equation. */
  lemma HighLowUnique(a: nat, w: nat, h: nat, l: nat)
    requires l < Pow2(w) && a == h * Pow2(w) + l
    ensures High(a, w) == h && Low(a, w) == l
  {
    HighLow(a, w);
    DivModUnique(a, Pow2(w), h, l);
    DivModUnique(a, Pow2(w), High(a, w), Low(a, w));
  }

  lemma LowOfSmall(a: nat, w: nat)
    requires a < Pow2(w)
    ensures Low(a, w) == a
  {
    HighLowUnique(a, w, 0, a);
  }

  /** Shifting by a and then by b is shifting by a + b. */
  lemma {:induction false} HighHigh(v: nat, a: nat, b: nat)
    ensures High(High(v, a), b) == High(v, a + b)
  {
    if a > 0 {
      HighHigh(v / 2, a - 1, b);
      assert a - 1 + b == a + b - 1;
    }
  }

  /** Bit j of v, counting from the least significant bit. */
  function Bit(v: nat, j: nat): (r: nat)
    ensures r < 2
  {
    High(v, j) % 2
  }

  lemma SplitAt(c: int, e: nat, j: nat, hr: int, pe: int, pj: int, pd: int)
    requires pe == pj * pd
    ensures c * pe + (hr * pj) == (c * pd + hr) * pj
  {
  }

  lemma MulDouble(c: int, p: int, q: int)
    requires q == 2 * p
    ensures c * q == (c * p) * 2
  {
  }

  /** Adding a multiple of 2^e leaves the bits below e alone. */
  lemma BitBelowMultiple(c: nat, e: nat, r: nat, j: nat)
    requires j < e
    ensures Bit(c * Pow2(e) + r, j) == Bit(r, j)
  {
    var hr := High(r, j);
    var d := e - j;
    HighLow(r, j);
    assert Pow2(e) == Pow2(j) * Pow2(d) by {
      Pow2Add(j, d);
    }
    SplitAt(c, e, j, hr, Pow2(e), Pow2(j), Pow2(d));
    HighLowUnique(c * Pow2(e) + r, j, c * Pow2(d) + hr, Low(r, j));
    var k := c * Pow2(d - 1);
    MulDouble(c, Pow2(d - 1), Pow2(d));
    DivAddMultiple(k, 2, hr);
  }

  /** The top bit of a value below 2^(e+1) written as c * 2^e + r. */
  lemma BitAtMultiple(c: nat, e: nat, r: nat)
    requires c < 2 && r < Pow2(e)
    ensures Bit(c * Pow2(e) + r, e) == c
  {
    HighLowUnique(c * Pow2(e) + r, e, c, r);
  }
}
