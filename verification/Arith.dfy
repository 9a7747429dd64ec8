/** The little arithmetic the codecs share: powers of two, and division by a variable. */
module Arith {
  function Pow2(k: nat): (r: nat)
    ensures r >= 1
  {
    if k == 0 then 1 else 2 * Pow2(k - 1)
  }

  lemma MulStep(n: nat, s: nat)
    requires n > 0
    ensures n * s == (n - 1) * s + s
  {}

  lemma MulDistr(a: int, b: int, w: int)
    ensures (a + b) * w == a * w + b * w && (a - b) * w == a * w - b * w
  {}

  lemma MulAtLeast(n: nat, w: nat)
    requires n >= 1
    ensures n * w >= w
  {
    MulStep(n, w);
  }

  /** Quotient and remainder are determined by their defining equation. */
  lemma DivUnique(v: nat, q: nat, r: nat, w: nat)
    requires r < w && v == q * w + r
    ensures v / w == q && v % w == r
  {
    var q', r' := v / w, v % w;
    DivModDef(v, w);
    MulDistr(q', q, w);
    MulDistr(q, q', w);
    if q' > q { MulAtLeast(q' - q, w); } else if q > q' { MulAtLeast(q - q', w); }
  }

  lemma DivModDef(v: nat, w: nat)
    requires w > 0
    ensures v == (v / w) * w + v % w && 0 <= v % w < w
  {}

  lemma DivNat(v: nat, w: nat)
    requires w > 0
    ensures v / w >= 0
  {}

  /** Row-major positions stay inside the rectangle. */
  lemma FlatBelow(x: nat, y: nat, w: nat, h: nat)
    requires x < w && y < h
    ensures y * w + x < h * w && (y + 1) * w <= h * w
  {
    MulDistr(h, y, w);
    MulAtLeast(h - y, w);
    MulDistr(y, 1, w);
  }

  lemma MulMonotone(a: nat, b: nat, w: nat)
    requires a <= b
    ensures a * w <= b * w
  {
    MulDistr(b, a, w);
  }

  lemma RowBelow(q: nat, w: nat, h: nat)
    requires 0 < w && q < h * w
    ensures q / w < h
  {
    DivModDef(q, w);
    if q / w >= h { MulMonotone(h, q / w, w); }
  }

  lemma MulCommute(a: int, b: int)
    ensures a * b == b * a
  {}

  lemma MulNonNegative(a: nat, b: nat)
    ensures a * b >= 0
  {}

  lemma MulAssoc(a: int, b: int, c: int)
    ensures a * (b * c) == a * b * c
  {}

  lemma DivisibleHalf(v: nat, p: nat)
    requires p > 0 && v % (2 * p) == 0
    ensures v % p == 0
  {
    DivModDef(v, 2 * p);
    var q := v / (2 * p);
    MulAssoc(q, 2, p);
    DivUnique(v, q * 2, 0, p);
  }

  /** Counting up from `p` in steps of `s` hits `end`. */
  ghost predicate Hits(p: nat, end: nat, s: nat)
    decreases end - p
  {
    p == end || (p < end && 0 < s && Hits(p + s, end, s))
  }

  lemma {:induction false} HitsMultiple(p: nat, n: nat, s: nat)
    requires s > 0
    ensures Hits(p, p + n * s, s)
    decreases n
  {
    if n == 0 {
    } else {
      MulStep(n, s);
      HitsMultiple(p + s, n - 1, s);
    }
  }

  lemma {:induction false} HitsShift(p: nat, end: nat, s: nat, a: nat)
    requires Hits(p, end, s)
    ensures Hits(p + a, end + a, s)
    decreases end - p
  {
    if p == end {
    } else {
      HitsShift(p + s, end, s, a);
    }
  }
}
