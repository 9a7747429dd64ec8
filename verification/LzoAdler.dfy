/** lzo_adler32, which puts off the reductions, against the definition that reduces after every byte. */
module LzoAdler {
  import opened Arith
  import opened Bytes

  const BASE := 65521
  const NMAX := 5552

  /** The two sums, each in 16 bits of a checksum. */
  datatype Sums = Sums(s1: nat, s2: nat)

  function Split(adler: nat): Sums { Sums(adler % 0x10000, adler / 0x10000 % 0x10000) }

  function Join(s: Sums): nat { s.s2 * 0x10000 + s.s1 }

  // ------------------------------------------------------------ section 8.2 of RFC 1950

  function OneByte(s: Sums, b: byte): Sums {
    var s1 := (s.s1 + b) % BASE;
    Sums(s1, (s.s2 + s1) % BASE)
  }

  function Checksum(s: Sums, data: seq<byte>): Sums {
    if data == [] then s else OneByte(Checksum(s, data[..|data| - 1]), data[|data| - 1])
  }

  /** Checksumming one piece after the other is checksumming both at once. */
  lemma {:induction false} ChecksumJoin(s: Sums, a: seq<byte>, b: seq<byte>)
    ensures Checksum(Checksum(s, a), b) == Checksum(s, a + b)
    decreases |b|
  {
    hide OneByte;
    if b == [] {
      assert a + b == a;
    } else {
      ChecksumJoin(s, a, b[..|b| - 1]);
      assert (a + b)[..|a + b| - 1] == a + b[..|b| - 1];
    }
  }

  lemma {:induction false} ChecksumSmall(s: Sums, data: seq<byte>)
    requires s.s1 < 0x10000 && s.s2 < 0x10000
    ensures Checksum(s, data).s1 < 0x10000 && Checksum(s, data).s2 < 0x10000
    ensures data != [] ==> Checksum(s, data).s1 < BASE && Checksum(s, data).s2 < BASE
  {
    if data == [] {
    } else {
      ChecksumSmall(s, data[..|data| - 1]);
    }
  }

  /** The sum of the bytes, and the sum of these sums. */
  function Total(data: seq<byte>): nat {
    if data == [] then 0 else Total(data[..|data| - 1]) + data[|data| - 1]
  }

  function Weighted(data: seq<byte>): nat {
    if data == [] then 0 else Weighted(data[..|data| - 1]) + Total(data)
  }

  /** Both sums in closed form, modulo the largest prime below 65536. */
  lemma {:induction false} ChecksumClosed(s: Sums, data: seq<byte>)
    ensures data != [] ==>
              Checksum(s, data) == Sums((s.s1 + Total(data)) % 65521, (s.s2 + |data| * s.s1 + Weighted(data)) % 65521)
  {
    hide OneByte;
    if data == [] {
    } else {
      var n: nat, init := |data| - 1, data[..|data| - 1];
      ChecksumClosed(s, init);
      MulDistr(n, 1, s.s1);
      if init != [] {
        MulNonNegative(n, s.s1);
        OneClosed(s.s1 + Total(init), s.s2 + n * s.s1 + Weighted(init), data[n]);
      } else {
        OneStarted(s, data[n]);
      }
    }
  }

  /** Reducing before adding makes no difference. */
  lemma OneClosed(x: nat, y: nat, b: byte)
    ensures OneByte(Sums(x % 65521, y % 65521), b) == Sums((x + b) % 65521, (y + (x + b)) % 65521)
  {
    hide Rest;
    RestIs(x);
    RestIs(y);
    RestIs(x + b);
    RestIs(y + (x + b));
    RestIs(Rest(x) + b);
    RestIs(Rest(y) + Rest(x + b));
    RestSum(x, b);
    RestSum(y, Rest(x + b));
    RestSum(x + b, y);
  }

  function Rest(x: nat): nat { x % 65521 }

  lemma RestIs(x: nat)
    ensures Rest(x) == x % 65521
  {}

  lemma RestSum(x: nat, y: nat)
    ensures Rest(Rest(x) + y) == Rest(x + y)
  {}

  lemma OneStarted(s: Sums, b: byte)
    ensures OneByte(s, b) == Sums((s.s1 + b) % 65521, (s.s2 + (s.s1 + b)) % 65521)
  {}

  lemma SplitJoin(s: Sums)
    requires s.s1 < 0x10000 && s.s2 < 0x10000
    ensures Split(Join(s)) == s && Join(s) < TWO32
  {}

  // ------------------------------------------------------------ deferred reduction

  /** The largest second sum `i` bytes after a reduction. */
  function Limit(i: nat): nat {
    if i == 0 then 0xffff else Limit(i - 1) + 0xffff + 255 * i
  }

  lemma {:induction false} LimitGrows(i: nat, j: nat)
    requires i <= j
    ensures Limit(i) <= Limit(j)
    decreases j
  {
    if i >= j {
    } else {
      LimitGrows(i, j - 1);
    }
  }

  lemma {:induction false} LimitClosed(i: nat)
    ensures 2 * Limit(i) == 2 * 0xffff * (i + 1) + 255 * i * (i + 1)
  {
    if i == 0 {
    } else {
      LimitClosed(i - 1);
    }
  }

  /** 5552 bytes fit: the second sum stays below 2^32. */
  lemma LimitFits(i: nat)
    requires i <= NMAX
    ensures Limit(i) < TWO32
  {
    LimitGrows(i, NMAX);
    LimitClosed(NMAX);
  }

  /** Sums not yet reduced, `i` bytes after the last reduction. */
  ghost predicate Deferred(s1: nat, s2: nat, i: nat, exact: Sums) {
    i <= NMAX && s1 <= 0xffff + 255 * i && s2 <= Limit(i) && s1 % BASE == exact.s1 % BASE &&
    s2 % BASE == exact.s2 % BASE
  }

  lemma DeferOne(s1: nat, s2: nat, i: nat, exact: Sums, b: byte)
    requires Deferred(s1, s2, i, exact) && i < NMAX
    ensures s1 + b < TWO32 && s2 + (s1 + b) < TWO32
    ensures Deferred(s1 + b, s2 + (s1 + b), i + 1, OneByte(exact, b))
  {
    LimitFits(i + 1);
    ModSum(s1, exact.s1, b, b);
    ModSum(s2, exact.s2, s1 + b, (exact.s1 + b) % BASE);
  }

  lemma ModSum(a: nat, a': nat, b: nat, b': nat)
    requires a % BASE == a' % BASE && b % BASE == b' % BASE
    ensures (a + b) % BASE == (a' + b') % BASE
  {
    ModParts(a, b);
    ModParts(a', b');
  }

  lemma ModParts(a: nat, b: nat)
    ensures (a + b) % BASE == (a % BASE + b % BASE) % BASE
  {}

  /** The loops: `n` bytes from `p` on. */
  method Take(buf: array<byte>, p: nat, n: nat, s1': nat, s2': nat, ghost start: Sums, ghost i: nat)
    returns (s1: nat, s2: nat)
    requires p + n <= buf.Length && i + n <= NMAX && Deferred(s1', s2', i, Checksum(start, buf[..p]))
    ensures Deferred(s1, s2, i + n, Checksum(start, buf[..p + n]))
  {
    hide Deferred, OneByte;
    s1, s2 := s1', s2';
    for k := 0 to n
      invariant Deferred(s1, s2, i + k, Checksum(start, buf[..p + k]))
    {
      DeferLimit(s1, s2, i + k, Checksum(start, buf[..p + k]));
      DeferOne(s1, s2, i + k, Checksum(start, buf[..p + k]), buf[p + k]);
      assert buf[..p + k + 1] == buf[..p + k] + [buf[p + k]];
      s1 := (s1 + buf[p + k]) % TWO32;
      s2 := (s2 + s1) % TWO32;
    }
  }

  lemma DeferLimit(s1: nat, s2: nat, i: nat, exact: Sums)
    requires Deferred(s1, s2, i, exact)
    ensures i <= NMAX
  {}

  /** lzo_adler32: for every start value the same as reducing after every byte. */
  method Adler32(adler: nat, buf: array?<byte>, len0: nat) returns (r: nat)
    requires adler < TWO32 && (buf != null ==> len0 <= buf.Length)
    ensures buf == null ==> r == 1
    ensures buf != null ==> r == Join(Checksum(Split(adler), buf[..len0])) && r < TWO32
  {
    hide OneByte, Checksum, Deferred;
    var s1: nat, s2: nat := adler % 0x10000, adler / 0x10000 % 0x10000;
    if buf == null { return 1; }
    ghost var start := Split(adler);
    var len: nat, p: nat := len0, 0;
    NothingYet(start, buf[..0]);
    while len > 0
      invariant p + len == len0
      invariant Sums(s1, s2) == Checksum(start, buf[..p])
      decreases len
    {
      var k: nat := if len < NMAX then len else NMAX;
      len := len - k;
      ghost var done: nat := 0;
      ChecksumSmall(start, buf[..p]);
      Fresh(s1, s2);
      while k >= 16
        invariant done + k <= NMAX && p + k + len == len0 && (done > 0 || k > 0)
        invariant Deferred(s1, s2, done, Checksum(start, buf[..p]))
        decreases k
      {
        s1, s2 := Take(buf, p, 16, s1, s2, start, done);
        p, k, done := p + 16, k - 16, done + 16;
      }
      s1, s2 := Take(buf, p, k, s1, s2, start, done);
      p, done := p + k, done + k;
      ChecksumSmall(start, buf[..p]);
      Reduce(s1, s2, done, Checksum(start, buf[..p]));
      s1, s2 := s1 % BASE, s2 % BASE;
    }
    ChecksumSmall(start, buf[..p]);
    SplitJoin(Sums(s1, s2));
    return s2 * 0x10000 + s1;
  }

  lemma NothingYet(start: Sums, none: seq<byte>)
    requires none == []
    ensures Checksum(start, none) == start
  {}

  lemma Fresh(s1: nat, s2: nat)
    requires s1 < 0x10000 && s2 < 0x10000
    ensures Deferred(s1, s2, 0, Sums(s1, s2))
  {}

  lemma Reduce(s1: nat, s2: nat, i: nat, exact: Sums)
    requires Deferred(s1, s2, i, exact) && exact.s1 < BASE && exact.s2 < BASE
    ensures Sums(s1 % BASE, s2 % BASE) == exact
  {}

  /** Two calls in a row give the checksum of the concatenation. */
  method Adler32Twice(adler: nat, a: array<byte>, b: array<byte>) returns (r: nat)
    requires adler < TWO32
    ensures r == Join(Checksum(Split(adler), a[..] + b[..]))
  {
    hide Checksum, Join, Split;
    var first := Adler32(adler, a, a.Length);
    ghost var sums := Checksum(Split(adler), a[..]);
    assert a[..a.Length] == a[..] && b[..b.Length] == b[..];
    SplitSmall(adler);
    ChecksumSmall(Split(adler), a[..]);
    SplitJoin(sums);
    r := Adler32(first, b, b.Length);
    ChecksumJoin(Split(adler), a[..], b[..]);
  }

  lemma SplitSmall(adler: nat)
    ensures Split(adler).s1 < 0x10000 && Split(adler).s2 < 0x10000
  {}
}
