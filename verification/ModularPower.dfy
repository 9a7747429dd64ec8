/** The 64-bit modular arithmetic of the UltraVNC logon, rfbAddM64, rfbMulM64 and rfbPowM64, and the key
    agreement built on it. */
module ModularPower {
  import opened Arith
  import opened Bytes

  const TWO63 := 0x8000_0000_0000_0000

  type uint64 = x: int | 0 <= x < TWO64

  // ------------------------------------------------------------ congruence

  predicate Congruent(a: nat, b: nat, m: nat)
    requires m > 0
  {
    a % m == b % m
  }

  /** Congruent numbers differ by a multiple of the modulus. */
  lemma Differ(a: nat, b: nat, k: int, m: nat)
    requires m > 0 && a == b + k * m
    ensures Congruent(a, b, m)
  {
    DivModDef(b, m);
    DivNat(b, m);
    MulDistr(b / m, k, m);
    var q := b / m + k;
    if q < 0 { MulMonotone(1, -q, m); MulNegate(q, m); }
    DivUnique(a, q, b % m, m);
  }

  lemma MulNegate(q: int, m: int)
    ensures -q * m == -(q * m)
  {}

  lemma Multiple(a: nat, b: nat, m: nat) returns (k: int)
    requires m > 0 && Congruent(a, b, m)
    ensures a == b + k * m
  {
    DivModDef(a, m);
    DivModDef(b, m);
    k := a / m - b / m;
    MulDistr(a / m, b / m, m);
  }

  lemma SumCongruent(a: nat, b: nat, c: nat, d: nat, m: nat)
    requires m > 0 && Congruent(a, b, m) && Congruent(c, d, m)
    ensures Congruent(a + c, b + d, m)
  {
    var k := Multiple(a, b, m);
    var l := Multiple(c, d, m);
    MulDistr(k, l, m);
    Differ(a + c, b + d, k + l, m);
  }

  lemma ProductCongruent(a: nat, b: nat, c: nat, m: nat)
    requires m > 0 && Congruent(a, b, m)
    ensures 0 <= c * a && 0 <= c * b && Congruent(c * a, c * b, m)
  {
    var k := Multiple(a, b, m);
    Expand(c, b, k, m);
    MulNonNegative(c, a);
    MulNonNegative(c, b);
    Differ(c * a, c * b, c * k, m);
  }

  lemma Expand(c: int, b: int, k: int, m: int)
    ensures c * (b + k * m) == c * b + c * k * m
  {
    MulAssoc(c, k, m);
    Distribute(c, b, k * m);
  }

  lemma Distribute(c: int, x: int, y: int)
    ensures c * (x + y) == c * x + c * y
  {}

  // ------------------------------------------------------------ rfbAddM64

  /** The macro, every operation truncated to 64 bits. */
  function AddM64(x: uint64, y: uint64, m: uint64): uint64
    requires m > 0
  {
    var sum := (x + y) % TWO64;
    (sum % m + (if sum < x then ((TWO64 - 1) % m + 1) % TWO64 % m else 0)) % TWO64
  }

  /** What the macro adds after an overflow is 2^64 modulo m. */
  lemma Wrapped(m: uint64)
    requires m > 0
    ensures ((TWO64 - 1) % m + 1) % TWO64 % m == TWO64 % m
  {
    hide *;
    var n: nat := TWO64;
    DivModDef(n - 1, m);
    DivNat(n - 1, m);
    var q, r := (n - 1) / m, (n - 1) % m;
    DivUnique(r + 1, 0, r + 1, n);
    if r + 1 < m {
      DivUnique(n, q, r + 1, m);
      DivUnique(r + 1, 0, r + 1, m);
    } else {
      MulDistr(q, 1, m);
      DivUnique(n, q + 1, 0, m);
      DivUnique(r + 1, 1, 0, m);
    }
  }

  /** The two parts never overflow together. */
  lemma NoWrap(s: nat, m: uint64)
    requires m > 0 && s < TWO64 - 1
    ensures s % m + TWO64 % m < TWO64
  {
    hide *;
    DivModDef(s, m);
    DivModDef(TWO64, m);
    if 2 * m > TWO64 {
      DivUnique(TWO64, 1, TWO64 - m, m);
      if s < m { DivUnique(s, 0, s, m); } else { DivUnique(s, 1, s - m, m); }
    }
  }

  lemma Truncated(x: uint64, y: uint64)
    ensures (x + y) % TWO64 == if x + y < TWO64 then x + y else x + y - TWO64
  {}

  lemma AddValue(x: uint64, y: uint64, m: uint64)
    requires m > 0
    ensures AddM64(x, y, m) == if x + y < TWO64 then (x + y) % m else (x + y - TWO64) % m + TWO64 % m
  {
    Truncated(x, y);
    Wrapped(m);
    DivModDef((x + y) % TWO64, m);
    if x + y < TWO64 {
      DivUnique((x + y) % m, 0, (x + y) % m, TWO64);
    } else {
      NoWrap(x + y - TWO64, m);
      DivModDef(TWO64, m);
      DivUnique((x + y - TWO64) % m + TWO64 % m, 0, (x + y - TWO64) % m + TWO64 % m, TWO64);
    }
  }

  lemma ModCongruent(a: nat, m: nat)
    requires m > 0
    ensures 0 <= a % m < m && Congruent(a % m, a, m)
  {
    DivModDef(a, m);
    DivUnique(a % m, 0, a % m, m);
  }

  /** Works even if the sum takes more than 64 bits. */
  lemma AddCongruent(x: uint64, y: uint64, m: uint64)
    requires m > 0
    ensures Congruent(AddM64(x, y, m), x + y, m)
  {
    hide Congruent, AddM64;
    AddValue(x, y, m);
    if x + y < TWO64 {
      ModCongruent(x + y, m);
    } else {
      ModCongruent(x + y - TWO64, m);
      ModCongruent(TWO64, m);
      SumCongruent((x + y - TWO64) % m, x + y - TWO64, TWO64 % m, TWO64, m);
    }
  }

  /** Reduced operands give a reduced sum. */
  lemma AddReduced(x: uint64, y: uint64, m: uint64)
    requires m > 0 && ((x < m && y < m) || x + y < TWO64)
    ensures AddM64(x, y, m) < m
  {
    hide AddM64;
    AddValue(x, y, m);
    if x + y < TWO64 {
      ModCongruent(x + y, m);
    } else {
      DivUnique(x + y - TWO64, 0, x + y - TWO64, m);
      DivUnique(TWO64, 1, TWO64 - m, m);
    }
  }

  /** Exactly when the sum is reduced, for all operands. */
  lemma AddReducedExactly(x: uint64, y: uint64, m: uint64)
    requires m > 0
    ensures AddM64(x, y, m) < m <==> x + y < TWO64 || (x + y - TWO64) % m + TWO64 % m < m
  {
    hide AddM64;
    AddValue(x, y, m);
    ModCongruent(x + y, m);
  }

  /** It can fail: the largest operands modulo 3. */
  lemma AddNotReduced()
    ensures AddM64(TWO64 - 1, TWO64 - 1, 3) == 3
  {
    AddValue(TWO64 - 1, TWO64 - 1, 3);
  }

  /** Any sum is less than twice the modulus. */
  lemma AddBelowTwice(x: uint64, y: uint64, m: uint64)
    requires m > 0
    ensures AddM64(x, y, m) < 2 * m
  {
    hide AddM64;
    AddValue(x, y, m);
    ModCongruent(x + y, m);
    ModCongruent(TWO64, m);
    if x + y >= TWO64 { ModCongruent(x + y - TWO64, m); }
  }

  /** Up to half the range, it is enough that one operand is reduced and the other less than twice the modulus. */
  lemma AddReducedHalf(x: uint64, y: uint64, m: uint64)
    requires 0 < m <= TWO63 && x < m && y < 2 * m
    ensures AddM64(x, y, m) < m
  {
    hide AddM64;
    AddValue(x, y, m);
    if x + y < TWO64 {
      ModCongruent(x + y, m);
    } else {
      DivUnique(x + y - TWO64, 0, x + y - TWO64, m);
      DivUnique(TWO64, 2, TWO64 - 2 * m, m);
    }
  }

  // ------------------------------------------------------------ rfbMulM64

  /** The loop without assignments. */
  function MulFrom(x: uint64, y: uint64, r: uint64, m: uint64): uint64
    requires m > 0
    decreases x
  {
    if x == 0 then r else MulFrom(x / 2, AddM64(y, y, m), if x % 2 == 1 then AddM64(r, y, m) else r, m)
  }

  /** rfbMulM64 is congruent to the product.  It is reduced when `y` is, and always for a modulus up to 2^63. */
  method MulM64(x0: uint64, y0: uint64, m: uint64) returns (r: uint64)
    requires m > 0
    ensures Congruent(r, Times(x0, y0), m)
    ensures r == MulFrom(x0, y0, 0, m)
    ensures y0 < m || x0 == 0 || m <= TWO63 ==> r < m
  {
    hide AddM64, Times;
    var x: uint64, y: uint64 := x0, y0;
    r := 0;
    StartProduct(x0, y0);
    while x > 0
      invariant Congruent(r + Times(x, y), Times(x0, y0), m)
      invariant MulFrom(x, y, r, m) == MulFrom(x0, y0, 0, m)
      invariant y0 < m || x0 == 0 || m <= TWO63 ==> r < m
      invariant (y0 < m ==> y < m) && (r == 0 || y < 2 * m)
      decreases x
    {
      Double(x, y);
      AddCongruent(r, y, m);
      AddCongruent(y, y, m);
      AddBelowTwice(y, y, m);
      if y0 < m {
        AddReduced(r, y, m);
        AddReduced(y, y, m);
      } else if m <= TWO63 && r < m {
        if r == 0 { AddReduced(r, y, m); } else { AddReducedHalf(r, y, m); }
      }
      var y' := AddM64(y, y, m);
      HalfStep(x, y, y', r, AddM64(r, y, m), m);
      if x % 2 == 1 { r := AddM64(r, y, m); }
      x, y := x / 2, y';
    }
    StartProduct(0, y);
  }

  /** For a larger modulus and a second factor above it, the product need not be reduced. */
  lemma MulNotReduced()
    ensures MulFrom(3, TWO64 - 1, 0, TWO63 + 1) == TWO64 - 7
  {
    hide AddM64;
    AddValue(0, TWO64 - 1, TWO63 + 1);
    AddValue(TWO64 - 1, TWO64 - 1, TWO63 + 1);
    AddValue(TWO63 - 2, TWO64 - 4, TWO63 + 1);
  }

  function Times(x: nat, y: nat): nat {
    MulNonNegative(x, y);
    x * y
  }

  lemma StartProduct(x: nat, y: nat)
    ensures Times(0, y) == 0 && 0 + Times(x, y) == Times(x, y)
  {}

  lemma Double(x: nat, y: nat)
    ensures Times(x, y) == (if x % 2 == 1 then y else 0) + Times(x / 2, 2 * y)
  {
    MulDistr(2 * (x / 2), x % 2, y);
    MulAssoc(x / 2, 2, y);
  }

  /** One bit of the multiplier moves from the product to the sum. */
  lemma HalfStep(x: nat, y: nat, y': nat, r: nat, r': nat, m: nat)
    requires m > 0 && Congruent(y', y + y, m) && Congruent(r', r + y, m)
    ensures Congruent((if x % 2 == 1 then r' else r) + Times(x / 2, y'), r + Times(x, y), m)
  {
    hide Congruent;
    Double(x, y);
    ProductCongruent(y', y + y, x / 2, m);
    if x % 2 == 1 {
      SumCongruent(r', r + y, Times(x / 2, y'), Times(x / 2, 2 * y), m);
    } else {
      Reflexive(r, m);
      SumCongruent(r, r, Times(x / 2, y'), Times(x / 2, 2 * y), m);
    }
  }

  lemma Reflexive(r: nat, m: nat)
    requires m > 0
    ensures Congruent(r, r, m)
  {}

  // ------------------------------------------------------------ rfbPowM64

  function Power(b: nat, e: nat): nat {
    if e == 0 then 1 else Times(b, Power(b, e - 1))
  }

  lemma TimesLaws(x: nat, y: nat, z: nat)
    ensures Times(x, y) == Times(y, x) && Times(Times(x, y), z) == Times(x, Times(y, z)) && Times(1, x) == x
  {
    MulAssoc(x, y, z);
  }

  lemma {:induction false} PowerSum(b: nat, d: nat, e: nat)
    ensures Power(b, d + e) == Times(Power(b, d), Power(b, e))
    decreases d
  {
    hide Times;
    if d == 0 {
      TimesLaws(Power(b, e), 1, 1);
    } else {
      PowerSum(b, d - 1, e);
      TimesLaws(b, Power(b, d - 1), Power(b, e));
    }
  }

  lemma {:induction false} PowerProduct(b: nat, d: nat, e: nat)
    ensures Power(Power(b, d), e) == Power(b, Times(d, e))
    decreases e
  {
    TimesLaws(d, e, 1);
    if e == 0 {
    } else {
      PowerProduct(b, d, e - 1);
      TimesLaws(d, e - 1, 1);
      MulDistr(e - 1, 1, d);
      PowerSum(b, d, Times(d, e - 1));
    }
  }

  lemma {:induction false} SquareHalves(b: nat, e: nat)
    ensures Power(b, e) == if e % 2 == 1 then Times(b, Power(Times(b, b), e / 2)) else Power(Times(b, b), e / 2)
  {
    hide Times;
    PowerSquare(b, e / 2);
    PowerSum(b, e / 2, e / 2);
    PowerSquare(b, e / 2);
    if e % 2 == 1 { assert Power(b, e) == Times(b, Power(b, e - 1)); }
  }

  lemma {:induction false} PowerSquare(b: nat, k: nat)
    ensures Power(Times(b, b), k) == Times(Power(b, k), Power(b, k))
  {
    hide Times;
    if k == 0 {
      TimesLaws(1, 1, 1);
    } else {
      PowerSquare(b, k - 1);
      var p := Power(b, k - 1);
      TimesLaws(b, b, Times(p, p));
      TimesLaws(b, p, p);
      TimesLaws(b, p, Times(b, p));
      TimesLaws(p, b, p);
    }
  }

  lemma TimesCongruent(a: nat, b: nat, c: nat, d: nat, m: nat)
    requires m > 0 && Congruent(a, b, m) && Congruent(c, d, m)
    ensures Congruent(Times(a, c), Times(b, d), m)
  {
    ProductCongruent(c, d, a, m);
    ProductCongruent(a, b, d, m);
    TimesLaws(a, d, 1);
    TimesLaws(b, d, 1);
  }

  lemma {:induction false} PowerCongruent(a: nat, b: nat, e: nat, m: nat)
    requires m > 0 && Congruent(a, b, m)
    ensures Congruent(Power(a, e), Power(b, e), m)
  {
    hide Congruent, Times;
    if e == 0 {
      Reflexive(1, m);
    } else {
      PowerCongruent(a, b, e - 1, m);
      TimesCongruent(a, b, Power(a, e - 1), Power(b, e - 1), m);
    }
  }

  /** rfbPowM64 is congruent to the power for every modulus.  For a reduced base or a modulus up to 2^63 it is the
      power's remainder, except that for the modulus one and the exponent zero it is one. */
  method PowM64(b0: uint64, e0: uint64, m: uint64) returns (r: uint64)
    requires m > 0
    ensures Congruent(r, Power(b0, e0), m)
    ensures b0 < m || m <= TWO63 ==> (r == Power(b0, e0) % m <==> m > 1 || e0 > 0)
  {
    hide Times, Power;
    var b: uint64, e: uint64 := b0, e0;
    r := 1;
    StartPower(b0, e0);
    while e > 0
      invariant Congruent(Times(r, Power(b, e)), Power(b0, e0), m)
      invariant e0 == 0 ==> r == 1
      invariant b0 < m || m <= TWO63 ==> (m > 1 || e == 0 < e0 ==> r < m) && (b < m || m <= TWO63)
      decreases e
    {
      var r' := r;
      if e % 2 == 1 { r' := MulM64(r, b, m); }
      var b' := MulM64(b, b, m);
      SquareStep(b, e, b', r, r', m);
      r, b, e := r', b', e / 2;
    }
    EndPower(r, b);
    ModCongruent(Power(b0, e0), m);
    if r < m { DivUnique(r, 0, r, m); }
  }

  lemma StartPower(b: nat, e: nat)
    ensures Times(1, Power(b, e)) == Power(b, e)
  {
    TimesLaws(Power(b, e), 1, 1);
  }

  lemma EndPower(r: nat, b: nat)
    ensures Times(r, Power(b, 0)) == r
  {
    TimesLaws(r, 1, 1);
  }

  /** One bit of the exponent. */
  lemma SquareStep(b: nat, e: nat, b': nat, r: nat, r': nat, m: nat)
    requires m > 0 && Congruent(b', Times(b, b), m)
    requires if e % 2 == 1 then Congruent(r', Times(r, b), m) else r' == r
    ensures Congruent(Times(r', Power(b', e / 2)), Times(r, Power(b, e)), m)
  {
    hide Congruent, Times, Power;
    SquareHalves(b, e);
    var p := Power(Times(b, b), e / 2);
    PowerCongruent(b', Times(b, b), e / 2, m);
    if e % 2 == 1 {
      TimesCongruent(r', Times(r, b), Power(b', e / 2), p, m);
      TimesLaws(r, b, p);
    } else {
      Reflexive(r, m);
      TimesCongruent(r, r, Power(b', e / 2), p, m);
    }
  }

  // ------------------------------------------------------------ key agreement

  /** Both sides of the exchange: each raises the other's public value to its own secret. */
  method Agree(gen: uint64, mod: uint64, privA: uint64, privB: uint64)
    returns (pubA: uint64, pubB: uint64, keyA: uint64, keyB: uint64)
    requires mod > 1 && (gen < mod || mod <= TWO63)
    ensures pubA == Power(gen, privA) % mod && pubB == Power(gen, privB) % mod
    ensures keyA == keyB == Power(gen, Times(privA, privB)) % mod
  {
    hide Power, Times, Congruent;
    pubA := PowM64(gen, privA, mod);
    pubB := PowM64(gen, privB, mod);
    ModCongruent(Power(gen, privA), mod);
    ModCongruent(Power(gen, privB), mod);
    keyA := PowM64(pubB, privA, mod);
    keyB := PowM64(pubA, privB, mod);
    SharedKey(gen, privA, privB, mod);
  }

  lemma SharedKey(g: nat, a: nat, b: nat, m: nat)
    requires m > 0
    ensures 0 <= Power(g, a) % m && 0 <= Power(g, b) % m
    ensures Power(Power(g, b) % m, a) % m == Power(Power(g, a) % m, b) % m == Power(g, Times(a, b)) % m
  {
    hide Power, Times;
    ModCongruent(Power(g, a), m);
    ModCongruent(Power(g, b), m);
    PowerCongruent(Power(g, b) % m, Power(g, b), a, m);
    PowerCongruent(Power(g, a) % m, Power(g, a), b, m);
    PowerProduct(g, a, b);
    PowerProduct(g, b, a);
    TimesLaws(a, b, 1);
  }
}
