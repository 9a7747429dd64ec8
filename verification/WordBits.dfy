/** Exclusive or and trailing zeros of little-endian words, enough to read off where two
    blocks of bytes first differ. */
module WordBits {
  import opened Bytes
  import opened Arith

  /** The little-endian word in the `n` bytes at `p`. */
  function Load(s: seq<byte>, p: nat, n: nat): nat
    requires p + n <= |s|
    decreases n
  {
    if n == 0 then 0 else s[p] as nat + 256 * Load(s, p + 1, n - 1)
  }

  function Xor(a: nat, b: nat): nat {
    if a == 0 && b == 0 then 0
    else (if a % 2 != b % 2 then 1 else 0) + 2 * Xor(a / 2, b / 2)
  }

  function Or(a: nat, b: nat): nat {
    if a == 0 && b == 0 then 0
    else (if a % 2 == 1 || b % 2 == 1 then 1 else 0) + 2 * Or(a / 2, b / 2)
  }

  function And(a: nat, b: nat): nat {
    if a == 0 && b == 0 then 0
    else (if a % 2 == 1 && b % 2 == 1 then 1 else 0) + 2 * And(a / 2, b / 2)
  }

  /** A mask of low bits takes the remainder. */
  lemma {:induction false} AndMask(k: nat, a: nat)
    ensures And(a, Pow2(k) - 1) == a % Pow2(k)
  {
    if k == 0 {
      AndZero(a);
    } else {
      var p := Pow2(k - 1);
      AndMask(k - 1, a / 2);
      DivModDef(a / 2, p);
      DivNat(a / 2, p);
      MulAssoc(2, a / 2 / p, p);
      Swap(a / 2 / p, p);
      DivUnique(a, a / 2 / p, a % 2 + 2 * (a / 2 % p), 2 * p);
    }
  }

  lemma Swap(q: nat, p: nat)
    ensures q * (2 * p) == 2 * (q * p)
  {}

  lemma {:induction false} AndZero(a: nat)
    ensures And(a, 0) == 0
  {
    if a == 0 {
    } else {
      AndZero(a / 2);
    }
  }

  /** Bits put where only zeros are. */
  lemma {:induction false} OrSum(k: nat, m: nat, b: nat)
    requires b < Pow2(k)
    ensures Or(Pow2(k) * m, b) == Pow2(k) * m + b
  {
    if k == 0 {
      OrZero(m);
    } else {
      var p := Pow2(k - 1);
      Twice(p, m);
      Halve(0, p * m);
      OrSum(k - 1, m, b / 2);
    }
  }

  lemma {:induction false} OrZero(m: nat)
    ensures Or(m, 0) == m
  {
    if m == 0 {
    } else {
      OrZero(m / 2);
    }
  }

  function TrailingZeros(v: nat): nat
    requires v > 0
  {
    if v % 2 == 1 then 0 else 1 + TrailingZeros(v / 2)
  }

  lemma {:induction false} XorZero(a: nat, b: nat)
    ensures Xor(a, b) == 0 <==> a == b
  {
    if a != 0 || b != 0 { XorZero(a / 2, b / 2); }
  }

  lemma XorStep(a: nat, b: nat, x: nat, y: nat)
    ensures Xor(a + 2 * x, b + 2 * y) == (if a % 2 != b % 2 then 1 else 0) + 2 * Xor(a / 2 + x, b / 2 + y)
  {
    Halve(a, x);
    Halve(b, y);
  }

  lemma {:induction false} XorParts(k: nat, a: nat, b: nat, x: nat, y: nat)
    requires a < Pow2(k) && b < Pow2(k)
    ensures Xor(a + Pow2(k) * x, b + Pow2(k) * y) == Xor(a, b) + Pow2(k) * Xor(x, y)
  {
    hide Xor;
    if k == 0 {
      XorZero(0, 0);
    } else {
      var p := Pow2(k - 1);
      XorParts(k - 1, a / 2, b / 2, x, y);
      Twice(p, x);
      Twice(p, y);
      Twice(p, Xor(x, y));
      XorStep(a, b, p * x, p * y);
      XorStep(a, b, 0, 0);
    }
  }

  lemma Twice(p: nat, x: nat)
    ensures 2 * p * x == 2 * (p * x)
  {}

  lemma Halve(a: nat, z: nat)
    ensures (a + 2 * z) % 2 == a % 2 && (a + 2 * z) / 2 == a / 2 + z
  {}

  lemma {:induction false} TrailingZerosParts(k: nat, lo: nat, hi: nat)
    requires lo < Pow2(k) && lo + Pow2(k) * hi > 0
    ensures lo > 0 ==> TrailingZeros(lo + Pow2(k) * hi) < k
    ensures lo == 0 ==> hi > 0 && TrailingZeros(lo + Pow2(k) * hi) == k + TrailingZeros(hi)
  {
    if k == 0 {
      assert Pow2(0) == 1;
    } else {
      var p := Pow2(k - 1);
      var v := lo + Pow2(k) * hi;
      assert Pow2(k) == 2 * p;
      hide Pow2, TrailingZeros;
      Twice(p, hi);
      MulNonNegative(p, hi);
      Halve(lo, p * hi);
      TrailingStep(v);
      if v % 2 == 0 { TrailingZerosParts(k - 1, lo / 2, hi); }
    }
  }

  lemma TrailingStep(v: nat)
    requires v > 0
    ensures TrailingZeros(v) == if v % 2 == 1 then 0 else 1 + TrailingZeros(v / 2)
  {}

  lemma XorLoads(s: seq<byte>, a: nat, b: nat, n: nat)
    requires a + n <= |s| && b + n <= |s| && n > 0
    ensures Xor(Load(s, a, n), Load(s, b, n)) ==
            Xor(s[a], s[b]) + 256 * Xor(Load(s, a + 1, n - 1), Load(s, b + 1, n - 1))
  {
    assert Pow2(8) == 256;
    XorParts(8, s[a], s[b], Load(s, a + 1, n - 1), Load(s, b + 1, n - 1));
  }

  /** How many bytes the two blocks have in common before the first difference. */
  function Common(s: seq<byte>, a: nat, b: nat, n: nat): (k: nat)
    requires a + n <= |s| && b + n <= |s|
    ensures k <= n
    decreases n
  {
    if n == 0 || s[a] != s[b] then 0
    else Common(s, a + 1, b + 1, n - 1) + 1
  }

  lemma {:induction false} CommonAgrees(s: seq<byte>, a: nat, b: nat, n: nat)
    requires a + n <= |s| && b + n <= |s|
    ensures var k := Common(s, a, b, n);
            (forall j :: a <= j < a + k ==> s[j] == s[j - a + b]) && (k < n ==> s[a + k] != s[b + k])
    decreases n
  {
    if n == 0 || s[a] != s[b] {
    } else {
      CommonAgrees(s, a + 1, b + 1, n - 1);
    }
  }

  /** The exclusive or of two loaded words is zero exactly when all bytes agree; otherwise its trailing
      zeros, divided by eight, count the bytes before the first difference. */
  lemma {:induction false} FirstDifference(s: seq<byte>, a: nat, b: nat, n: nat)
    requires a + n <= |s| && b + n <= |s|
    ensures var v := Xor(Load(s, a, n), Load(s, b, n));
            Common(s, a, b, n) == (if v == 0 then n else TrailingZeros(v) / 8) && (v != 0 ==> Common(s, a, b, n) < n)
    decreases n
  {
    hide Xor, TrailingZeros, Pow2, Load;
    if n == 0 {
      NoBytes(s, a, b);
    } else {
      XorLoads(s, a, b, n);
      XorByte(s[a], s[b]);
      FirstDifference(s, a + 1, b + 1, n - 1);
      var lo, hi := Xor(s[a], s[b]), Xor(Load(s, a + 1, n - 1), Load(s, b + 1, n - 1));
      if lo + 256 * hi != 0 { ByteZeros(lo, hi); }
    }
  }

  lemma NoBytes(s: seq<byte>, a: nat, b: nat)
    requires a <= |s| && b <= |s|
    ensures Xor(Load(s, a, 0), Load(s, b, 0)) == 0
  {
    XorZero(0, 0);
  }

  lemma ByteZeros(lo: nat, hi: nat)
    requires lo < 256 && lo + 256 * hi > 0
    ensures lo > 0 ==> TrailingZeros(lo + 256 * hi) / 8 == 0
    ensures lo == 0 ==> hi > 0 && TrailingZeros(lo + 256 * hi) / 8 == 1 + TrailingZeros(hi) / 8
  {
    assert Pow2(8) == 256;
    TrailingZerosParts(8, lo, hi);
  }

  lemma XorByte(a: nat, b: nat)
    requires a < 256 && b < 256
    ensures Xor(a, b) < 256 && (Xor(a, b) == 0 <==> a == b)
  {
    assert Pow2(8) == 256;
    XorBelow(8, a, b);
    XorZero(a, b);
  }

  lemma {:induction false} XorBelow(k: nat, a: nat, b: nat)
    requires a < Pow2(k) && b < Pow2(k)
    ensures Xor(a, b) < Pow2(k)
  {
    if k == 0 {
    } else {
      XorBelow(k - 1, a / 2, b / 2);
    }
  }
}
