/** The power-of-two rounding that every buffer-size computation relies on.
    The source rounds with a bit mask; all other modules round with `AlignUp`,
    and `MaskRoundsUp` shows that the two agree. */
module Align {

  const U32 := 0x1_0000_0000

  function Pow2(k: nat): (p: nat)
    ensures p > 0
  {
    if k == 0 then 1 else 2 * Pow2(k - 1)
  }

  /** Bitwise `&` on unsigned integers. */
  function And(x: nat, y: nat): (r: nat)
    ensures r <= x && r <= y
  {
    if x == 0 || y == 0 then 0 else 2 * And(x / 2, y / 2) + if x % 2 == 1 && y % 2 == 1 then 1 else 0
  }

  /** `~x` in an unsigned type of `bits` bits. */
  function Not(x: nat, bits: nat): nat
    requires x < Pow2(bits)
  {
    Pow2(bits) - 1 - x
  }

  /** `(x + align - 1) & ~(align - 1)` in an unsigned type of `bits` bits. */
  function AlignMask(x: nat, align: nat, bits: nat): nat
    requires 0 < align <= Pow2(bits)
  {
    And((x + align - 1) % Pow2(bits), Not(align - 1, bits))
  }

  /** Rounds `x` up to a multiple of `align`. */
  function AlignUp(x: nat, align: nat): nat
    requires align > 0
  {
    (x + align - 1) / align * align
  }

  lemma {:induction false} AndAllOnes(x: nat, bits: nat)
    requires x < Pow2(bits)
    ensures And(x, Pow2(bits) - 1) == x
  {
    if bits > 0 && x > 0 {
      AndAllOnes(x / 2, bits - 1);
    }
  }

  /** Masking with the complement of the low `k` bits clears exactly those bits. */
  lemma {:induction false} MaskClearsLowBits(x: nat, k: nat, bits: nat)
    requires k <= bits && x < Pow2(bits)
    ensures Pow2(k) <= Pow2(bits)
    ensures And(x, Pow2(bits) - Pow2(k)) == x - x % Pow2(k)
  {
    if k == 0 {
      AndAllOnes(x, bits);
    } else {
      var low, mask := Pow2(k - 1), Pow2(bits - 1) - Pow2(k - 1);
      MaskClearsLowBits(x / 2, k - 1, bits - 1);
      ModOfDouble(x, low);
      AndEven(x, mask);
      assert Pow2(bits) - Pow2(k) == 2 * mask && Pow2(k) == 2 * low;
    }
  }

  lemma AndEven(x: nat, m: nat)
    ensures And(x, 2 * m) == 2 * And(x / 2, m)
  {
    var y := 2 * m;
    assert y / 2 == m && y % 2 == 0;
    if x > 0 && m > 0 {
      assert And(x, y) == 2 * And(x / 2, y / 2);
    }
  }

  lemma ModOfDouble(x: nat, m: nat)
    requires m > 0
    ensures x % (2 * m) == 2 * ((x / 2) % m) + x % 2
  {
    var q, r := (x / 2) / m, (x / 2) % m;
    assert x / 2 == q * m + r;
    assert x == q * (2 * m) + (2 * r + x % 2) by {
      assert q * (2 * m) == 2 * (q * m);
    }
    QuotientIs(x, 2 * m, q, 2 * r + x % 2);
  }

  lemma MulMono(p: int, q: int, d: nat)
    requires p <= q
    ensures p * d <= q * d
  {
  }

  lemma NextRow(r: int, w: int)
    ensures (r + 1) * w == r * w + w
  {
  }

  lemma Commute(x: int, y: int)
    ensures x * y == y * x
  {
  }

  lemma Associate(x: int, y: int, z: int)
    ensures (x * y) * z == x * (y * z)
  {
  }

  lemma Distribute(x: int, y: int, z: int)
    ensures x * (y + z) == x * y + x * z
  {
  }

  /** `n * step`, as a pointer that moves `n` times by `step` computes it. */
  function Span(n: nat, step: nat): nat {
    if n == 0 then 0 else Span(n - 1, step) + step
  }

  lemma {:induction false} SpanIs(n: nat, step: nat)
    ensures Span(n, step) == n * step
  {
    if n > 0 {
      SpanIs(n - 1, step);
      NextRow(n - 1, step);
    }
  }

  lemma {:induction false} SpanMono(m: nat, n: nat, step: nat)
    requires m <= n
    ensures Span(m, step) <= Span(n, step)
  {
    if m < n {
      SpanMono(m, n - 1, step);
    }
  }

  /** Euclidean division is unique. */
  lemma QuotientIs(x: int, d: int, q: int, r: int)
    requires d > 0 && 0 <= r < d && x == q * d + r
    ensures x / d == q && x % d == r
  {
    var q', r' := x / d, x % d;
    assert x == q' * d + r';
    if q > q' {
      MulMono(q' + 1, q, d);
      assert false;
    } else if q < q' {
      MulMono(q + 1, q', d);
      assert false;
    }
  }

  lemma LeastMultiple(x: nat, a: nat)
    requires a > 0
    ensures AlignUp(x, a) % a == 0
    ensures x <= AlignUp(x, a) < x + a
    ensures forall m: nat | m >= x && m % a == 0 :: AlignUp(x, a) <= m
  {
    var y := x + a - 1;
    var q := y / a;
    assert y == q * a + y % a;
    QuotientIs(q * a, a, q, 0);
    forall m: nat | m >= x && m % a == 0
      ensures q * a <= m
    {
      assert m == m / a * a;
      if m / a < q {
        MulMono(m / a + 1, q, a);
        assert false;
      }
    }
  }

  lemma MaskEqualsAlignUp(x: nat, k: nat, bits: nat)
    requires k <= bits
    requires x + Pow2(k) - 1 < Pow2(bits)
    ensures AlignMask(x, Pow2(k), bits) == AlignUp(x, Pow2(k))
  {
    var y := x + Pow2(k) - 1;
    MaskClearsLowBits(y, k, bits);
    assert y % Pow2(bits) == y by {
      QuotientIs(y, Pow2(bits), 0, y);
    }
    DivMod(y, Pow2(k));
  }

  lemma DivMod(y: nat, a: nat)
    requires a > 0
    ensures y - y % a == y / a * a
  {
  }

  /** The bit-mask form computes the least multiple of a power of two that is not
      below `x`, provided the addition does not wrap. */
  lemma MaskRoundsUp(x: nat, k: nat, bits: nat)
    requires k <= bits
    requires x + Pow2(k) - 1 < Pow2(bits)
    ensures var r := AlignMask(x, Pow2(k), bits);
            && r % Pow2(k) == 0 && x <= r
            && forall m: nat | m >= x && m % Pow2(k) == 0 :: r <= m
  {
    MaskEqualsAlignUp(x, k, bits);
    LeastMultiple(x, Pow2(k));
  }
}
