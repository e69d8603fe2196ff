/** From a vnode quota to the length of a user's block: groupModify and groupadd of
    src/master/userManager.py, create_cluster of src/master/vclustermgr.py. */
module Quota {
  import opened Address

  /** math.ceil(math.log(n, 2)), without floating point: the least k with n <= 2^k */
  function CeilLog2(n: int): (k: nat)
    requires n >= 1
    ensures n <= Pow2(k) && (k > 0 ==> Pow2(k - 1) < n)
    decreases n
  {
    if n == 1 then 0 else
      var k := CeilLog2((n + 1) / 2);
      k + 1
  }

  function Pow4(k: nat): (r: nat)
    ensures r > 0
  {
    if k == 0 then 1 else 4 * Pow4(k - 1)
  }

  function Square(n: int): int { n * n }

  /** round(math.log(n, 2)): the k with 2^(k - 1/2) < n < 2^(k + 1/2), compared after squaring.
      No n has a logarithm half way between two integers, so the rounding of ties does not matter. */
  ghost predicate IsRoundLog2(n: int, k: nat) {
    Pow4(k) < 2 * Square(n) < 4 * Pow4(k)
  }

  /** The prefix length that create_cluster asks for. */
  function PrefixFor(vnodes: int): int
    requires vnodes + 3 >= 1
  {
    32 - CeilLog2(vnodes + 3)
  }

  lemma {:induction false} Pow2Monotone(a: nat, b: nat)
    requires a < b
    ensures 2 * Pow2(a) <= Pow2(b)
    decreases b - a
  {
    if a + 1 < b {
      Pow2Monotone(a, b - 1);
    }
  }

  lemma {:induction false} Pow4Monotone(a: nat, b: nat)
    requires a < b
    ensures 4 * Pow4(a) <= Pow4(b)
    decreases b - a
  {
    if a + 1 < b {
      Pow4Monotone(a, b - 1);
    }
  }

  lemma SquareOfDouble(n: int)
    ensures Square(2 * n) == 4 * Square(n)
  {
  }

  lemma SquareOfOdd(n: int)
    requires n % 2 == 1
    ensures Square(n) % 2 == 1
  {
    var m := n / 2;
    assert n == 2 * m + 1;
    assert n * n == 2 * (2 * (m * m) + 2 * m) + 1;
  }

  lemma SquareMonotone(a: int, b: int)
    requires 0 <= a
    ensures a <= b ==> Square(a) <= Square(b)
    ensures a < b ==> Square(a) < Square(b)
  {
  }

  lemma {:induction false} Pow4IsSquare(k: nat)
    ensures Pow4(k) == Square(Pow2(k))
  {
    if k > 0 {
      Pow4IsSquare(k - 1);
      SquareOfDouble(Pow2(k - 1));
    }
  }

  /** A user's pool has at least as many addresses as the quota has vnodes, exactly as many for the quotas
      2^k - 3, and its block is never one of those that add_user cannot use. */
  lemma PoolMeetsQuota(vnodes: int)
    requires vnodes >= 0
    ensures PrefixFor(vnodes) <= 30
    ensures Size(PrefixFor(vnodes)) - 3 >= vnodes
    ensures Size(PrefixFor(vnodes)) - 3 == vnodes <==> exists k: nat :: vnodes == Pow2(k) - 3
    ensures forall c :: PrefixFor(vnodes) < c <= 32 ==> Size(c) - 3 < vnodes
  {
    var k := CeilLog2(vnodes + 3);
    assert 32 - PrefixFor(vnodes) == k;
    assert Size(PrefixFor(vnodes)) == Pow2(k);
    assert k > 1 by {
      assert Pow2(0) == 1 && Pow2(1) == 2;
    }
    ExactQuota(vnodes, k);
    SmallerPowers(vnodes + 3, k);
    assert forall c :: PrefixFor(vnodes) < c <= 32 ==> Size(c) == Pow2(32 - c);
  }

  /** The block of prefix length `c`, without its three special addresses, has room for the quota, and half of it has
      not. */
  ghost predicate IsFor(c: int, vnodes: int) {
    c <= 30 && Size(c) - 3 >= vnodes > Size(c + 1) - 3
  }

  lemma OnlyPrefix(vnodes: int)
    requires vnodes >= 0
    ensures forall c :: IsFor(c, vnodes) <==> c == PrefixFor(vnodes)
  {
    PoolMeetsQuota(vnodes);
    var p := PrefixFor(vnodes);
    forall c
      ensures IsFor(c, vnodes) <==> c == p
    {
      if c < p {
        Pow2Monotone(32 - p, 32 - c);
        if c + 1 < p {
          Pow2Monotone(32 - p, 31 - c);
        }
      }
    }
  }

  lemma ExactQuota(vnodes: int, k: nat)
    requires vnodes + 3 <= Pow2(k) && (k > 0 ==> Pow2(k - 1) < vnodes + 3)
    ensures Pow2(k) - 3 == vnodes <==> exists j: nat :: vnodes == Pow2(j) - 3
  {
    forall j: nat | vnodes == Pow2(j) - 3
      ensures j == k
    {
      LeastPower(j, k);
    }
  }

  lemma SmallerPowers(n: int, k: nat)
    requires k > 0 && Pow2(k - 1) < n
    ensures forall j: nat :: j < k ==> Pow2(j) < n
  {
    forall j: nat | j < k
      ensures Pow2(j) < n
    {
      if j < k - 1 {
        Pow2Monotone(j, k - 1);
      }
    }
  }

  lemma LeastPower(j: nat, k: nat)
    requires Pow2(j) <= Pow2(k) && (k > 0 ==> Pow2(k - 1) < Pow2(j))
    ensures j == k
  {
    if j < k {
      if j < k - 1 {
        Pow2Monotone(j, k - 1);
      }
    } else if k < j {
      Pow2Monotone(k, j);
    }
  }

  /** round(math.log(n, 2)), without floating point */
  function RoundLog2(n: int): nat
    requires n >= 1
  {
    var k := CeilLog2(n);
    if k > 0 && 2 * Square(n) < Pow4(k) then k - 1 else k
  }

  /** 2 n^2 is no power of four: no n has a logarithm half way between two integers. */
  lemma {:induction false} NoTie(n: int, k: nat)
    requires n >= 1
    ensures 2 * Square(n) != Pow4(k)
    decreases k
  {
    if k > 0 {
      if n % 2 == 1 {
        SquareOfOdd(n);
      } else {
        SquareOfDouble(n / 2);
        NoTie(n / 2, k - 1);
        assert n == 2 * (n / 2);
      }
    }
  }

  lemma RoundLog2Correct(n: int)
    requires n >= 1
    ensures IsRoundLog2(n, RoundLog2(n))
  {
    var k := CeilLog2(n);
    NoTie(n, k);
    Pow4IsSquare(k);
    SquareMonotone(n, Pow2(k));
    if k > 0 {
      Pow4IsSquare(k - 1);
      SquareMonotone(Pow2(k - 1), n);
    }
  }

  lemma RoundLog2Unique(n: int, k: nat, j: nat)
    requires IsRoundLog2(n, k) && IsRoundLog2(n, j)
    ensures k == j
  {
    if k < j {
      Pow4Monotone(k, j);
    } else if j < k {
      Pow4Monotone(j, k);
    }
  }

  /** The quota that groupModify and groupadd store. */
  function RoundQuota(vnodes: int): int
    requires vnodes + 3 >= 1
  {
    Pow2(RoundLog2(vnodes + 3)) - 3
  }

  lemma {:induction false} Pow2Injective(k: nat, j: nat)
    ensures Pow2(k) == Pow2(j) <==> k == j
  {
    if k < j {
      Pow2Monotone(k, j);
    } else if j < k {
      Pow2Monotone(j, k);
    }
  }

  lemma RoundLog2AtLeast2(n: int)
    requires n >= 3
    ensures RoundLog2(n) >= 2
  {
    RoundLog2Correct(n);
    SquareMonotone(3, n);
    assert Pow4(0) == 1 && Pow4(1) == 4 && Square(3) == 9;
  }

  lemma RoundLog2OfPower(k: nat)
    ensures RoundLog2(Pow2(k)) == k
  {
    Pow4IsSquare(k);
    RoundLog2Correct(Pow2(k));
    RoundLog2Unique(Pow2(k), k, RoundLog2(Pow2(k)));
  }

  /** Rounding goes to a nearest power of two on the logarithmic scale, does nothing the second time, and
      leaves a quota that the user's pool meets without an address to spare. */
  lemma RoundQuotaStable(vnodes: int)
    requires vnodes >= 0
    ensures RoundQuota(vnodes) >= 1
    ensures RoundQuota(RoundQuota(vnodes)) == RoundQuota(vnodes)
    ensures Size(PrefixFor(RoundQuota(vnodes))) - 3 == RoundQuota(vnodes)
    ensures forall k: nat :: IsRoundLog2(vnodes + 3, k) <==> RoundQuota(vnodes) == Pow2(k) - 3
  {
    var n := vnodes + 3;
    var k := RoundLog2(n);
    RoundLog2AtLeast2(n);
    AtLeast4(k);
    RoundLog2OfPower(k);
    PoolMeetsQuota(RoundQuota(vnodes));
    RoundLog2Correct(n);
    forall j: nat
      ensures IsRoundLog2(n, j) <==> Pow2(k) == Pow2(j)
    {
      Pow2Injective(k, j);
      if IsRoundLog2(n, j) {
        RoundLog2Unique(n, k, j);
      }
    }
  }

  lemma AtLeast4(k: nat)
    requires k >= 2
    ensures Pow2(k) >= 4
  {
    if k > 2 {
      Pow2Monotone(2, k);
    }
  }
}
