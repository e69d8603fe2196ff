/** IPv4 addresses as integers, prefix blocks, and the helpers that jump from block to block
    (src/master/network.py, ip_to_int to before_interval).

    A block of prefix length `c` holds the 2^(32-c) addresses that agree on the first `c` bits; it is
    named by its first address.  `x` lies in the block named `a` exactly when `Align(x, c) == a`, and
    the whole theory of blocks is stated in that form. */
module Address {

  const ADDRESS_SPACE: int := 0x1_0000_0000

  /** "-1.-1.-1.-1", which is in no pool: the source's answer when there is no block before. */
  const NO_ADDRESS: int := -1

  function Pow2(n: nat): (r: nat)
    ensures r > 0
  {
    if n == 0 then 1 else 2 * Pow2(n - 1)
  }

  /** Number of addresses in a block of prefix length `c`. */
  function Size(c: int): (r: nat)
    requires c <= 32
    ensures r > 0
  {
    Pow2(32 - c)
  }

  /** `x & (-1 << k)`, bit by bit. */
  function ClearLow(x: int, k: nat): int
    decreases k
  {
    if k == 0 then x else 2 * ClearLow(x / 2, k - 1)
  }

  /** fix_ip: the first address of the block of prefix length `c` that holds `x`. */
  function Align(x: int, c: int): int
    requires c <= 32
  {
    ClearLow(x, 32 - c)
  }

  /** The number that is left after int_to_ip, which keeps 32 bits (see QuadOfInt). */
  function Wrap(n: int): int {
    if 0 <= n < ADDRESS_SPACE then n else n % ADDRESS_SPACE
  }

  /** next_interval, which wraps behind 255.255.255.255 */
  function NextInterval(x: int, c: int): int
    requires c <= 32
  {
    Wrap(Align(x, c) + Size(c))
  }

  /** before_interval */
  function BeforeInterval(x: int, c: int): int
    requires c <= 32
  {
    if Align(x, c) - Size(c) < 0 then NO_ADDRESS else Align(x, c) - Size(c)
  }

  // ----- dotted quads

  datatype Quad = Quad(a: int, b: int, c: int, d: int)

  ghost predicate IsOctet(x: int) { 0 <= x < 256 }

  function IpToInt(q: Quad): int {
    q.a * 0x100_0000 + q.b * 0x1_0000 + q.c * 0x100 + q.d
  }

  function IntToIp(n: int): Quad {
    Quad((n / 0x100_0000) % 256, (n / 0x1_0000) % 256, (n / 0x100) % 256, n % 256)
  }

  lemma Shift8(n: int)
    ensures n / 0x1_0000 == n / 0x100 / 0x100
  {
  }

  lemma Shift16(n: int)
    ensures n / 0x100_0000 == n / 0x1_0000 / 0x100
  {
  }

  lemma FourBytes(n: int, l: int, m: int, h: int)
    requires l == n / 0x100 && m == l / 0x100 && h == m / 0x100
    ensures n == ADDRESS_SPACE * (h / 256) + (h % 256 * 0x100_0000 + m % 256 * 0x1_0000 + l % 256 * 0x100 + n % 256)
  {
  }

  lemma WrapIs(n: int, q: int, r: int)
    requires n == ADDRESS_SPACE * q + r && 0 <= r < ADDRESS_SPACE
    ensures Wrap(n) == r
  {
  }

  lemma QuadOfInt(n: int)
    ensures IpToInt(IntToIp(n)) == Wrap(n)
  {
    var l, m, h := n / 0x100, n / 0x1_0000, n / 0x100_0000;
    Shift8(n);
    Shift16(n);
    FourBytes(n, l, m, h);
    assert 0 <= IpToInt(Quad(h % 256, m % 256, l % 256, n % 256)) < ADDRESS_SPACE;
    WrapIs(n, h / 256, IpToInt(Quad(h % 256, m % 256, l % 256, n % 256)));
  }

  lemma JoinBytes(high: int, low: int)
    requires IsOctet(low)
    ensures (high * 0x100 + low) / 0x100 == high && (high * 0x100 + low) % 256 == low
  {
  }

  lemma IntOfQuad(q: Quad)
    requires IsOctet(q.a) && IsOctet(q.b) && IsOctet(q.c) && IsOctet(q.d)
    ensures IntToIp(IpToInt(q)) == q
  {
    var two := q.a * 0x100 + q.b;
    var three := two * 0x100 + q.c;
    var v := three * 0x100 + q.d;
    assert v == IpToInt(q);
    Shift8(v);
    Shift16(v);
    JoinBytes(three, q.d);
    JoinBytes(two, q.c);
    JoinBytes(q.a, q.b);
  }

  /** The two conversions are inverse to each other, up to the 32 bits that a dotted quad can hold;
      hence different addresses have different names and the pools may hold either. */
  lemma QuadRoundTrip(q: Quad, n: int)
    requires IsOctet(q.a) && IsOctet(q.b) && IsOctet(q.c) && IsOctet(q.d)
    ensures 0 <= IpToInt(q) < ADDRESS_SPACE
    ensures IntToIp(IpToInt(q)) == q
    ensures IpToInt(IntToIp(n)) == Wrap(n)
  {
    QuadOfInt(n);
    IntOfQuad(q);
  }

  // ----- blocks

  lemma {:induction false} ClearLowBounds(x: int, k: nat)
    ensures ClearLow(x, k) <= x < ClearLow(x, k) + Pow2(k)
    decreases k
  {
    if k > 0 {
      ClearLowBounds(x / 2, k - 1);
    }
  }

  lemma {:induction false} ClearLowUnique(x: int, a: int, k: nat)
    requires ClearLow(a, k) == a <= x < a + Pow2(k)
    ensures ClearLow(x, k) == a
    decreases k
  {
    if k > 0 {
      assert a % 2 == 0;
      assert ClearLow(a / 2, k - 1) == a / 2;
      ClearLowUnique(x / 2, a / 2, k - 1);
    }
  }

  lemma {:induction false} ClearLowTwice(x: int, j: nat, k: nat)
    requires j <= k
    ensures ClearLow(ClearLow(x, j), k) == ClearLow(x, k)
    decreases k
  {
    if j > 0 {
      ClearLowTwice(x / 2, j - 1, k - 1);
      assert ClearLow(x, j) / 2 == ClearLow(x / 2, j - 1);
    }
  }

  lemma {:induction false} ClearLowHalf(x: int, k: nat)
    ensures ClearLow(x, k) == ClearLow(x, k + 1) || ClearLow(x, k) == ClearLow(x, k + 1) + Pow2(k)
    decreases k
  {
    if k > 0 {
      ClearLowHalf(x / 2, k - 1);
    }
  }

  lemma {:induction false} ClearLowShift(a: int, k: nat)
    requires ClearLow(a, k) == a
    ensures ClearLow(a + Pow2(k), k) == a + Pow2(k)
    ensures ClearLow(a - Pow2(k), k) == a - Pow2(k)
    decreases k
  {
    if k > 0 {
      assert ClearLow(a / 2, k - 1) == a / 2;
      ClearLowShift(a / 2, k - 1);
      assert (a + Pow2(k)) / 2 == a / 2 + Pow2(k - 1);
      assert (a - Pow2(k)) / 2 == a / 2 - Pow2(k - 1);
    }
  }

  lemma {:induction false} ClearLowZero(k: nat)
    ensures ClearLow(0, k) == 0
  {
    if k > 0 {
      ClearLowZero(k - 1);
    }
  }

  /** Masking is what arithmetic says it is. */
  lemma {:induction false} ClearLowIsRounding(x: int, k: nat)
    ensures ClearLow(x, k) == x - x % Pow2(k)
    decreases k
  {
    if k > 0 {
      ClearLowIsRounding(x / 2, k - 1);
      RemainderOfDouble(x, Pow2(k - 1));
    }
  }

  lemma RemainderOfDouble(x: int, p: int)
    requires p > 0
    ensures x % (2 * p) == 2 * (x / 2 % p) + x % 2
  {
    var h := x / 2;
    var q, r := h / p, h % p;
    DivisionIs(h, p);
    assert (2 * p) * q == 2 * (p * q);
    RemainderUnique(x, 2 * p, q, 2 * r + x % 2);
  }

  lemma DivisionIs(x: int, m: int)
    requires m > 0
    ensures x == m * (x / m) + x % m && 0 <= x % m < m
  {
  }

  lemma MultipleAtLeast(m: int, k: int)
    requires m > 0 && k >= 1
    ensures m * k >= m
  {
  }

  lemma RemainderUnique(x: int, m: int, q: int, r: int)
    requires x == m * q + r && 0 <= r < m
    ensures x % m == r
  {
    var q' := x / m;
    var r' := x % m;
    assert x == m * q' + r';
    assert m * (q - q') == r' - r;
    assert m * (q' - q) == r - r';
    if q - q' >= 1 {
      MultipleAtLeast(m, q - q');
    } else if q' - q >= 1 {
      MultipleAtLeast(m, q' - q);
    }
  }

  /** The block named `Align(x, c)` is the 2^(32-c) consecutive addresses that start there. */
  lemma BlockIsInterval(x: int, a: int, c: int)
    requires c <= 32 && Align(a, c) == a
    ensures Align(x, c) == a <==> a <= x < a + Size(c)
  {
    ClearLowBounds(x, 32 - c);
    if a <= x < a + Size(c) {
      ClearLowUnique(x, a, 32 - c);
    }
  }

  /** Blocks of different lengths are nested or disjoint: aligning twice is aligning to the larger. */
  lemma Nested(x: int, small: int, large: int)
    requires large <= small <= 32
    ensures Align(Align(x, small), large) == Align(x, large)
  {
    ClearLowTwice(x, 32 - small, 32 - large);
  }

  /** A block has two halves, and they are blocks. */
  lemma Halves(x: int, c: int)
    requires c <= 32
    ensures Size(c - 1) == 2 * Size(c)
    ensures Align(x, c) == Align(x, c - 1) || Align(x, c) == Align(x, c - 1) + Size(c)
  {
    ClearLowHalf(x, 32 - c);
  }

  /** The other half of the block one level up. */
  function Buddy(a: int, c: int): int
    requires c <= 32
  {
    if Align(a, c - 1) == a then a + Size(c) else a - Size(c)
  }

  lemma BuddyIsOtherHalf(a: int, c: int)
    requires c <= 32 && Align(a, c) == a
    ensures Align(Buddy(a, c), c) == Buddy(a, c) != a
    ensures Align(Buddy(a, c), c - 1) == Align(a, c - 1)
    ensures Buddy(Buddy(a, c), c) == a
    ensures forall x :: Align(x, c - 1) == Align(a, c - 1) ==> Align(x, c) == a || Align(x, c) == Buddy(a, c)
    ensures a == Align(a, c - 1) || a == Align(a, c - 1) + Size(c)
  {
    var p := Align(a, c - 1);
    Halves(a, c);
    Nested(a, c - 1, c - 1);
    ClearLowShift(p, 32 - c + 1);
    AlignedFiner(p, c - 1);
    ClearLowShift(p, 32 - c);
    BlockIsInterval(p + Size(c), p, c - 1);
    BlockIsInterval(p, p, c - 1);
    forall x | Align(x, c - 1) == p
      ensures Align(x, c) == p || Align(x, c) == p + Size(c)
    {
      Halves(x, c);
    }
  }

  /** An address that starts a block starts the smaller blocks inside it too. */
  lemma AlignedFiner(a: int, c: int)
    requires c < 32 && Align(a, c) == a
    ensures Align(a, c + 1) == a
  {
    Halves(a, c + 1);
    ClearLowBounds(a, 32 - c - 1);
  }

  lemma {:induction false} AlignedFinest(a: int, c: int, d: int)
    requires c <= d <= 32 && Align(a, c) == a
    ensures Align(a, d) == a
    decreases d - c
  {
    if c < d {
      AlignedFiner(a, c);
      AlignedFinest(a, c + 1, d);
    }
  }

  lemma NextIntervalAligned(u: int, c: int)
    requires 0 <= c <= 32 && 0 <= u < ADDRESS_SPACE && Align(u, c) == u
    ensures 0 <= NextInterval(u, c) < ADDRESS_SPACE && Align(NextInterval(u, c), c) == NextInterval(u, c)
    ensures NextInterval(u, c) == u + Size(c) || (NextInterval(u, c) == 0 && u + Size(c) == ADDRESS_SPACE)
  {
    NextIntervalExact(u, c);
    ClearLowShift(u, 32 - c);
    ClearLowZero(32 - c);
  }

  /** Jumping to the next block is an increment unless the block is the last of the address space. */
  lemma NextIntervalExact(x: int, c: int)
    requires 0 <= c <= 32 && 0 <= x < ADDRESS_SPACE
    ensures 0 <= Align(x, c) && Align(x, c) + Size(c) <= ADDRESS_SPACE
    ensures NextInterval(x, c) == Align(x, c) + Size(c) <==> Align(x, c) + Size(c) < ADDRESS_SPACE
    ensures NextInterval(x, c) == 0 <==> Align(x, c) + Size(c) == ADDRESS_SPACE
  {
    Nested(x, c, 0);
    Nested(x, c, c);
    AddressSpaceIsBlock();
    BlockIsInterval(x, 0, 0);
    BlockIsInterval(Align(x, c), 0, 0);
    LastAddress(Align(x, c), c, 0);
  }

  lemma AddressSpaceIsBlock()
    ensures Size(0) == ADDRESS_SPACE && Align(0, 0) == 0
  {
    assert Pow2(8) == 256;
    assert Pow2(16) == 0x1_0000 by {
      assert Pow2(12) == 0x1000;
    }
    assert Pow2(20) == 0x10_0000;
    assert Pow2(24) == 0x100_0000;
    assert Pow2(28) == 0x1000_0000;
    ClearLowZero(32);
  }

  /** A block inside a larger block ends no later than it. */
  lemma {:induction false} LastAddress(a: int, c: int, large: int)
    requires large <= c <= 32 && Align(a, c) == a
    ensures Align(a, large) <= a && a + Size(c) <= Align(a, large) + Size(large)
    decreases c - large
  {
    if large < c {
      Halves(a, c);
      var p := Align(a, c - 1);
      Nested(a, c - 1, c - 1);
      LastAddress(p, c - 1, large);
      Nested(a, c - 1, large);
    }
  }
}
