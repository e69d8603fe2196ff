/** IntervalPool of src/master/network.py: a buddy allocator over prefix blocks. */
module IntervalPools {
  import opened Address
  import opened FreeBlocks
  import opened Sequences

  lemma {:induction false} RemoveFirstSorted(s: seq<int>, x: int)
    requires Sorted(s)
    ensures Sorted(RemoveFirst(s, x))
    ensures forall y :: y in RemoveFirst(s, x) <==> y in s && y != x
    decreases |s|
  {
    if s != [] && s[0] != x {
      RemoveFirstSorted(s[1..], x);
      var r := RemoveFirst(s[1..], x);
      forall y
        ensures y in [s[0]] + r <==> y in s && y != x
      {
        assert y in s <==> y == s[0] || y in s[1..];
      }
      forall i, j | 0 <= i < j < |[s[0]] + r|
        ensures ([s[0]] + r)[i] < ([s[0]] + r)[j]
      {
        assert r[j - 1] in r;
      }
    }
  }

  /** list.append followed by list.sort, on a list that was sorted before */
  function AppendSort(s: seq<int>, x: int): seq<int> {
    if s == [] || x <= s[0] then [x] + s else [s[0]] + AppendSort(s[1..], x)
  }

  lemma {:induction false} AppendSortSorts(s: seq<int>, x: int)
    requires Sorted(s) && x !in s
    ensures Sorted(AppendSort(s, x))
    ensures forall y :: y in AppendSort(s, x) <==> y in s || y == x
    decreases |s|
  {
    if s != [] && x > s[0] {
      AppendSortSorts(s[1..], x);
      var r := AppendSort(s[1..], x);
      assert forall y :: y in s <==> y == s[0] || y in s[1..];
      forall i, j | 0 <= i < j < |[s[0]] + r|
        ensures ([s[0]] + r)[i] < ([s[0]] + r)[j]
      {
        assert r[j - 1] in r;
      }
    }
  }

  // ----- allocate

  /** Taking the first 2^(32-c) addresses out of the listed block `r` of length `up` leaves `r` unlisted and
      lists, for each length from `c` up to `up`, the second half of the block that starts at `r`. */
  ghost predicate IsSplit(p: Levels, q: Levels, up: int, r: int, c: int) {
    && q.Keys == p.Keys
    && up in p && up <= c <= 32
    && q[up] == RemoveFirst(p[up], r)
    && (forall d :: d in q && up < d <= c ==> q[d] == [r + Size(d)])
    && (forall d :: d in q && !(up <= d <= c) ==> q[d] == p[d])
  }

  lemma {:induction false} SecondHalf(x: int, r: int, up: int, c: int) returns (d: int)
    requires up <= c <= 32 && Align(r, up) == r && Align(x, up) == r
    requires Align(x, c) != r
    ensures up < d <= c && Align(x, d) == r + Size(d)
    decreases c - up
  {
    if Align(x, c - 1) == r {
      Halves(x, c);
      return c;
    }
    d := SecondHalf(x, r, up, c - 1);
  }

  lemma SecondHalfInside(r: int, up: int, d: int)
    requires up < d <= 32 && Align(r, up) == r
    ensures Align(r, d) == r && Buddy(r, d) == r + Size(d)
    ensures Align(r + Size(d), d) == r + Size(d)
    ensures forall e {:trigger Align(r + Size(d), e)} :: up <= e < d ==> Align(r + Size(d), e) == r
  {
    AlignedFinest(r, up, d);
    AlignedFinest(r, up, d - 1);
    BuddyIsOtherHalf(r, d);
    forall e {:trigger Align(r + Size(d), e)} | up <= e < d
      ensures Align(r + Size(d), e) == r
    {
      AlignedFinest(r, up, e);
      Nested(r + Size(d), d - 1, e);
    }
  }

  lemma SplitFree(p: Levels, q: Levels, base: int, bits: int, up: int, r: int, c: int, x: int)
    requires ValidLevels(p, base, bits) && Listed(p, up, r) && IsSplit(p, q, up, r, c)
    requires forall d :: up < d <= c ==> p[d] == []
    ensures IsFree(q, x) <==> IsFree(p, x) && Align(x, c) != r
  {
    RemoveFirstSorted(p[up], r);
    if IsFree(q, x) {
      var d :| FreeAt(q, d, x);
      if up < d <= c {
        SecondHalfInside(r, up, d);
        Nested(x, d, up);
        assert FreeAt(p, up, x);
        if Align(x, c) == r {
          AlignedFinest(r, up, d);
          Nested(x, c, d);
        }
      } else {
        assert FreeAt(p, d, x);
        if Align(x, c) == r {
          Nested(x, c, up);
          assert FreeAt(p, up, x);
          FreeOnce(p, base, bits, d, up, x);
        }
      }
    }
    if IsFree(p, x) && Align(x, c) != r {
      var e :| FreeAt(p, e, x);
      if e == up && Align(x, up) == r {
        var d := SecondHalf(x, r, up, c);
        assert FreeAt(q, d, x);
      } else {
        assert FreeAt(q, e, x);
      }
    }
  }

  lemma SplitListed(p: Levels, q: Levels, base: int, bits: int, up: int, r: int, c: int, d: int, a: int)
    requires ValidLevels(p, base, bits) && Listed(p, up, r) && IsSplit(p, q, up, r, c)
    requires forall d :: up < d <= c ==> p[d] == []
    requires Listed(q, d, a)
    ensures up < d <= c ==> a == r + Size(d) && Align(a, d) == a && Align(a, up) == r
    ensures !(up < d <= c) ==> Listed(p, d, a) && !(d == up && a == r)
  {
    RemoveFirstSorted(p[up], r);
    if up < d <= c {
      SecondHalfInside(r, up, d);
    }
  }

  lemma SplitValid(p: Levels, q: Levels, base: int, bits: int, up: int, r: int, c: int)
    requires ValidLevels(p, base, bits) && Listed(p, up, r) && IsSplit(p, q, up, r, c)
    requires forall d :: up < d <= c ==> p[d] == []
    ensures ValidLevels(q, base, bits)
  {
    RemoveFirstSorted(p[up], r);
    forall d, a | Listed(q, d, a)
      ensures bits <= d <= 32 && Align(a, d) == a && Align(a, bits) == base
    {
      SplitListed(p, q, base, bits, up, r, c, d, a);
      Nested(a, up, bits);
    }
    forall d, a, e, b | Listed(q, d, a) && Listed(q, e, b) && e < d <= 32
      ensures Align(a, e) != b
    {
      SplitListed(p, q, base, bits, up, r, c, d, a);
      SplitListed(p, q, base, bits, up, r, c, e, b);
      if up < d <= c {
        if up <= e {
          SecondHalfInside(r, up, d);
        } else {
          Nested(a, up, e);
        }
      } else if up < e <= c {
        Nested(a, e, up);
      }
    }
    forall d, a, b | Listed(q, d, a) && Listed(q, d, b) && bits < d <= 32
      ensures b != Buddy(a, d)
    {
      SplitListed(p, q, base, bits, up, r, c, d, a);
      SplitListed(p, q, base, bits, up, r, c, d, b);
      if up < d <= c {
        BuddyIsOtherHalf(a, d);
      }
    }
  }

  /** `r` starts the first of the smallest listed blocks that can hold a block of length `cidr`. */
  ghost predicate BestFit(p: Levels, cidr: int, r: int) {
    exists up :: Listed(p, up, r) && up <= cidr &&
      forall d, a :: Listed(p, d, a) && d <= cidr ==> d < up || (d == up && r <= a)
  }

  // ----- free

  /** The block `a`/`c` that is being given back is disjoint from the listed blocks. */
  ghost predicate Carried(p: Levels, base: int, bits: int, a: int, c: int) {
    && ValidLevels(p, base, bits)
    && bits <= c <= 32 && Align(a, c) == a && Align(a, bits) == base
    && Disjoint(p, a, c)
  }

  lemma RemoveListed(p: Levels, q: Levels, base: int, bits: int, a: int, c: int)
    requires ValidLevels(p, base, bits) && Listed(p, c, a)
    requires q == p[c := RemoveFirst(p[c], a)]
    ensures ValidLevels(q, base, bits)
    ensures Removed(p, q, a, c)
  {
    RemoveFirstSorted(p[c], a);
    forall d, b
      ensures Listed(q, d, b) <==> Listed(p, d, b) && !(d == c && b == a)
    {
    }
    forall x
      ensures IsFree(q, x) <==> IsFree(p, x) && Align(x, c) != a
    {
      if IsFree(q, x) {
        var d :| FreeAt(q, d, x);
        assert FreeAt(p, d, x);
        if Align(x, c) == a {
          assert FreeAt(p, c, x);
          FreeOnce(p, base, bits, c, d, x);
        }
      }
      if IsFree(p, x) && Align(x, c) != a {
        var d :| FreeAt(p, d, x);
        assert FreeAt(q, d, x);
      }
    }
  }

  /** The free addresses and the block `a`/`c` together are the same in both pools. */
  ghost predicate SameUnion(p: Levels, a: int, c: int, q: Levels, b: int, d: int)
    requires c <= 32 && d <= 32
  {
    forall x :: IsFree(p, x) || Align(x, c) == a <==> IsFree(q, x) || Align(x, d) == b
  }

  /** One turn of the merge loop: the carried block takes up its listed buddy. */
  lemma MergeBuddy(p: Levels, q: Levels, base: int, bits: int, a: int, c: int)
    requires Carried(p, base, bits, a, c) && bits < c
    requires Listed(p, c, Buddy(a, c))
    requires q == p[c := RemoveFirst(p[c], Buddy(a, c))]
    ensures Carried(q, base, bits, Align(a, c - 1), c - 1)
    ensures SameUnion(p, a, c, q, Align(a, c - 1), c - 1)
  {
    var b, up := Buddy(a, c), Align(a, c - 1);
    RemoveListed(p, q, base, bits, b, c);
    BuddyIsOtherHalf(a, c);
    Nested(a, c - 1, c - 1);
    Nested(a, c - 1, bits);
    forall x
      ensures Align(x, c - 1) == up <==> Align(x, c) == a || Align(x, c) == b
      ensures Align(x, c) == b ==> IsFree(p, x)
    {
      Nested(x, c, c - 1);
      if Align(x, c) == b {
        assert FreeAt(p, c, x);
      }
    }
  }

  /** The loop is left when the buddy is not listed; then listing the block keeps the pool valid. */
  lemma InsertBlock(p: Levels, q: Levels, base: int, bits: int, a: int, c: int)
    requires Carried(p, base, bits, a, c)
    requires bits < c ==> !Listed(p, c, Buddy(a, c))
    requires q == p[c := AppendSort(p[c], a)]
    ensures ValidLevels(q, base, bits)
    ensures Added(p, q, a, c)
  {
    assert a in p[c] ==> FreeAt(p, c, a);
    AppendSortSorts(p[c], a);
    forall d, b
      ensures Listed(q, d, b) <==> Listed(p, d, b) || (d == c && b == a)
    {
    }
    forall x
      ensures IsFree(q, x) <==> IsFree(p, x) || Align(x, c) == a
    {
      if d :| FreeAt(q, d, x) && Align(x, c) != a {
        assert FreeAt(p, d, x);
      }
      if d :| FreeAt(p, d, x) {
        assert FreeAt(q, d, x);
      }
      if Align(x, c) == a {
        assert FreeAt(q, c, x);
      }
    }
    forall d, b, e, f | Listed(q, d, b) && Listed(q, e, f) && e < d <= 32
      ensures Align(b, e) != f
    {
      if d == c && b == a {
        assert Align(a, e) == f ==> FreeAt(p, e, a);
      } else if e == c && f == a {
        assert Align(b, c) == a ==> FreeAt(p, d, b);
      }
    }
    forall d, b, f | Listed(q, d, b) && Listed(q, d, f) && bits < d <= 32
      ensures f != Buddy(b, d)
    {
      BuddyIsOtherHalf(b, d);
    }
  }

  // ----- overlap

  /** What `overlap` answers.  The second case needs a pool that ends at 255.255.255.255: there the jump
      to the next block wraps to 0.0.0.0 and finds any block of that length. */
  ghost predicate OverlapAnswer(p: Levels, bits: int, addr: int, cidr: int)
    requires 0 <= bits <= 32 && 0 <= cidr <= 32
  {
    && Align(addr, cidr) + Size(cidr) < ADDRESS_SPACE
    && (!Disjoint(p, Align(addr, cidr), cidr) || exists c :: bits <= c < cidr && WrapsAt(p, addr, c))
  }

  ghost predicate WrapsAt(p: Levels, addr: int, c: int)
    requires c <= 32
  {
    c in p && p[c] != [] && Align(addr, c) + Size(c) == ADDRESS_SPACE
  }

  lemma AlignedGap(a: int, b: int, c: int)
    requires c <= 32 && Align(a, c) == a && Align(b, c) == b && a < b
    ensures a + Size(c) <= b
  {
    BlockIsInterval(b, a, c);
  }

  /** The overlap test is right on every block of the pool exactly when the pool does not end at
      255.255.255.255: there it misses the last block of every length. */
  lemma OverlapExactIff(base: int, bits: int)
    requires 0 <= bits <= 32 && 0 <= base < ADDRESS_SPACE && Align(base, bits) == base
    ensures base + Size(bits) < ADDRESS_SPACE <==>
              forall p, addr, cidr :: ValidLevels(p, base, bits) && bits <= cidr <= 32 && Align(addr, bits) == base ==>
                (OverlapAnswer(p, bits, addr, cidr) <==> !Disjoint(p, Align(addr, cidr), cidr))
  {
    if base + Size(bits) < ADDRESS_SPACE {
      forall p, addr, cidr | ValidLevels(p, base, bits) && bits <= cidr <= 32 && Align(addr, bits) == base
        ensures OverlapAnswer(p, bits, addr, cidr) <==> !Disjoint(p, Align(addr, cidr), cidr)
      {
        OverlapExact(p, base, bits, addr, cidr);
      }
    } else {
      var p := NewLevels(base, bits, 32);
      NewLevelsValid(base, bits);
      Nested(base, bits, 0);
      NextIntervalExact(base, bits);
      assert IsFree(p, base);
      assert !Disjoint(p, base, bits) && !OverlapAnswer(p, bits, base, bits);
    }
  }

  lemma OverlapExact(p: Levels, base: int, bits: int, addr: int, cidr: int)
    requires ValidLevels(p, base, bits) && 0 <= bits <= cidr <= 32 && Align(addr, bits) == base
    requires base + Size(bits) < ADDRESS_SPACE
    ensures OverlapAnswer(p, bits, addr, cidr) <==> !Disjoint(p, Align(addr, cidr), cidr)
  {
    InsidePool(base, bits, addr, cidr);
    forall c | bits <= c < cidr
      ensures !WrapsAt(p, addr, c)
    {
      InsidePool(base, bits, addr, c);
    }
  }

  /** With 255.255.255.224/28 free, and nothing else of 255.255.255.192/26, the block 255.255.255.240/29 is taken for
      one that is free. */
  lemma OverlapExample(p: Levels)
    requires p == NewLevels(0xFFFF_FFC0, 26, 32)[26 := []][28 := [0xFFFF_FFE0]]
    ensures ValidLevels(p, 0xFFFF_FFC0, 26)
    ensures Disjoint(p, 0xFFFF_FFF0, 29) && OverlapAnswer(p, 26, 0xFFFF_FFF0, 29)
  {
    ExampleNumbers();
    OneBlockValid(p, 0xFFFF_FFC0, 26, 28, 0xFFFF_FFE0);
    forall x | Align(x, 29) == 0xFFFF_FFF0
      ensures !IsFree(p, x)
    {
      Nested(x, 29, 28);
    }
    assert WrapsAt(p, 0xFFFF_FFF0, 28);
  }

  lemma ExampleNumbers()
    ensures Align(0xFFFF_FFE0, 28) == 0xFFFF_FFE0 && Align(0xFFFF_FFE0, 26) == 0xFFFF_FFC0
    ensures Align(0xFFFF_FFF0, 29) == 0xFFFF_FFF0 == Align(0xFFFF_FFF0, 28)
    ensures Size(29) == 8 && Size(28) == 16
  {
    assert Pow2(3) == 8;
    assert Pow2(4) == 16;
    assert Pow2(6) == 64;
    ClearLowIsRounding(0xFFFF_FFE0, 4);
    ClearLowIsRounding(0xFFFF_FFE0, 6);
    ClearLowIsRounding(0xFFFF_FFF0, 3);
    ClearLowIsRounding(0xFFFF_FFF0, 4);
  }

  lemma OneBlockValid(p: Levels, base: int, bits: int, c: int, a: int)
    requires 0 <= bits <= c <= 32 && Align(a, c) == a && Align(a, bits) == base
    requires forall d :: d in p <==> bits <= d <= 32
    requires forall d :: d in p ==> p[d] == if d == c then [a] else []
    ensures ValidLevels(p, base, bits)
    ensures forall x :: IsFree(p, x) <==> Align(x, c) == a
  {
    assert forall d, b :: Listed(p, d, b) ==> d == c && b == a;
    forall x
      ensures IsFree(p, x) <==> Align(x, c) == a
    {
      assert Align(x, c) == a ==> FreeAt(p, c, x);
    }
    BuddyIsOtherHalf(a, c);
  }

  /** A block of the pool ends no later than the pool. */
  lemma InsidePool(base: int, bits: int, addr: int, cidr: int)
    requires bits <= cidr <= 32 && Align(addr, bits) == base
    ensures base <= Align(addr, cidr) && Align(addr, cidr) + Size(cidr) <= base + Size(bits)
    ensures Align(Align(addr, cidr), cidr) == Align(addr, cidr) && Align(Align(addr, cidr), bits) == base
  {
    Nested(addr, cidr, cidr);
    Nested(addr, cidr, bits);
    LastAddress(Align(addr, cidr), cidr, bits);
  }

  /** Inside the pool the jump from the first to the second half of a block never wraps. */
  lemma NextInPool(base: int, bits: int, a: int, c: int)
    requires 0 <= base && 0 <= bits < c <= 32 && base + Size(bits) <= ADDRESS_SPACE
    requires Align(a, c) == a && Align(a, c - 1) == a && Align(a, bits) == base
    ensures 0 <= a && a + Size(c) < ADDRESS_SPACE
    ensures NextInterval(a, c) == a + Size(c)
  {
    InsidePool(base, bits, a, c - 1);
    Halves(a, c);
  }

  function NewLevels(base: int, bits: int, last: int): (p: Levels)
    requires bits <= last
    ensures forall c :: c in p <==> bits <= c <= last
    ensures forall c :: c in p ==> p[c] == if c == bits then [base] else []
    decreases last - bits
  {
    if last == bits then map[bits := [base]] else NewLevels(base, bits, last - 1)[last := []]
  }

  lemma NewLevelsValid(base: int, bits: int)
    requires 0 <= bits <= 32 && Align(base, bits) == base
    ensures ValidLevels(NewLevels(base, bits, 32), base, bits)
    ensures forall x :: IsFree(NewLevels(base, bits, 32), x) <==> Align(x, bits) == base
  {
    OneBlockValid(NewLevels(base, bits, 32), base, bits, bits, base);
  }

  /** Whichever way the loop of free looks, it looks at the buddy. */
  lemma JumpsToBuddy(base: int, bits: int, a: int, c: int)
    requires 0 <= base && 0 <= bits < c <= 32 && base + Size(bits) <= ADDRESS_SPACE
    requires Align(a, c) == a && Align(a, bits) == base
    ensures a == Align(a, c - 1) ==> NextInterval(a, c) == Buddy(a, c)
    ensures a != Align(a, c - 1) ==> BeforeInterval(a, c) == Buddy(a, c) == Align(a, c - 1)
  {
    BuddyIsOtherHalf(a, c);
    InsidePool(base, bits, a, c - 1);
    if a == Align(a, c - 1) {
      Nested(Buddy(a, c), c - 1, bits);
      NextInPool(base, bits, a, c);
    }
  }

  /** An address of the carried block is free. */
  ghost predicate Clashing(p: Levels, base: int, bits: int, a: int, c: int)
    requires c <= 32
  {
    Shape(p, base, bits) && exists x, d :: Align(x, c) == a && FreeAt(p, d, x)
  }

  /** The merge loop of free, with the block `a`/`c` in hand. */
  ghost predicate Merging(was: Levels, start: int, length: int, p: Levels, base: int, bits: int, a: int, c: int) {
    && length <= 32 && bits <= c <= 32 && Shape(p, base, bits) && Align(a, c) == a && Align(a, bits) == base
    && (Disjoint(was, start, length) ==> Carried(p, base, bits, a, c) && SameUnion(was, start, length, p, a, c))
    && (!Disjoint(was, start, length) ==> Clashing(p, base, bits, a, c))
  }

  lemma MergeStarts(p: Levels, start: int, length: int, base: int, bits: int)
    requires ValidLevels(p, base, bits) && bits <= length <= 32 && Align(start, length) == start
    requires Align(start, bits) == base
    ensures Merging(p, start, length, p, base, bits, start, length)
  {
    if !Disjoint(p, start, length) {
      var x :| Align(x, length) == start && IsFree(p, x);
      var d :| FreeAt(p, d, x);
      assert Align(x, length) == start && FreeAt(p, d, x);
    }
  }

  lemma MergeGoesOn(was: Levels, start: int, length: int, p: Levels, q: Levels, base: int, bits: int, a: int, c: int)
    requires Merging(was, start, length, p, base, bits, a, c) && bits < c
    requires Listed(p, c, Buddy(a, c))
    requires q == p[c := RemoveFirst(p[c], Buddy(a, c))]
    ensures Merging(was, start, length, q, base, bits, Align(a, c - 1), c - 1)
  {
    Nested(a, c - 1, c - 1);
    Nested(a, c - 1, bits);
    RemoveFirstSorted(p[c], Buddy(a, c));
    assert forall e, b :: Listed(q, e, b) ==> Listed(p, e, b);
    if Disjoint(was, start, length) {
      MergeBuddy(p, q, base, bits, a, c);
    } else {
      BuddyIsOtherHalf(a, c);
      var x, d :| Align(x, c) == a && FreeAt(p, d, x);
      Nested(x, c, c - 1);
      assert Align(x, c - 1) == Align(a, c - 1) && FreeAt(q, d, x);
    }
  }

  lemma MergeEnds(was: Levels, start: int, length: int, p: Levels, base: int, bits: int, a: int, c: int)
    requires Merging(was, start, length, p, base, bits, a, c)
    requires bits < c ==> !Listed(p, c, Buddy(a, c))
    ensures var q := p[c := AppendSort(p[c], a)];
      && (ValidLevels(q, base, bits) <==> Disjoint(was, start, length))
      && (Disjoint(was, start, length) ==> Added(was, q, start, length))
  {
    var q := p[c := AppendSort(p[c], a)];
    if Disjoint(was, start, length) {
      InsertBlock(p, q, base, bits, a, c);
    } else if a in p[c] {
      AppendTwice(p[c], a);
      assert c in q && q[c] == AppendSort(p[c], a) && !Sorted(q[c]);
    } else {
      AppendSortSorts(p[c], a);
      var x, d :| Align(x, c) == a && FreeAt(p, d, x);
      assert FreeAt(q, d, x) && FreeAt(q, c, x);
      if ValidLevels(q, base, bits) {
        FreeOnce(q, base, bits, c, d, x);
      }
    }
  }

  lemma {:induction false} AppendTwice(s: seq<int>, x: int)
    requires x in s
    ensures !Sorted(AppendSort(s, x))
    decreases |s|
  {
    var t := AppendSort(s, x);
    if x <= s[0] {
      var i :| 0 <= i < |s| && s[i] == x;
      assert t[0] == x && t[i + 1] == x;
    } else {
      AppendTwice(s[1..], x);
      var r := AppendSort(s[1..], x);
      var i, j :| 0 <= i < j < |r| && r[i] >= r[j];
      assert t[i + 1] == r[i] && t[j + 1] == r[j];
    }
  }

  /** Nothing of the block is free at level `c`, and the enumeration does not wrap there. */
  ghost predicate Clear(p: Levels, addr: int, cidr: int, c: int)
    requires 0 <= cidr <= 32
  {
    c <= 32 ==>
      && (forall x :: Align(x, cidr) == Align(addr, cidr) ==> !FreeAt(p, c, x))
      && (c < cidr ==> !WrapsAt(p, addr, c))
  }

  /** How far the enumeration at level `cur` has got when it looks at `u`. */
  ghost predicate Enumerated(p: Levels, addr: int, cidr: int, cur: int, u: int)
    requires 0 <= cidr <= 32 && cur in p && cur <= 32
  {
    && 0 <= u < ADDRESS_SPACE && Align(u, cur) == u
    && if cidr <= cur then EnumeratedFine(p, addr, cidr, cur, u) else EnumeratedCoarse(p, addr, cur, u)
  }

  /** Looking at blocks no larger than the tested one: those before `u` are not listed. */
  ghost predicate EnumeratedFine(p: Levels, addr: int, cidr: int, cur: int, u: int)
    requires cidr <= 32 && cur in p && cur <= 32
  {
    && Align(addr, cidr) <= u <= Align(addr, cidr) + Size(cidr)
    && forall v :: Align(addr, cidr) <= v < u ==> Align(v, cur) !in p[cur]
  }

  /** Looking at larger blocks: only the first can hold the tested one. */
  ghost predicate EnumeratedCoarse(p: Levels, addr: int, cur: int, u: int)
    requires cur in p && cur <= 32
  {
    var first := Align(addr, cur);
    u != first ==> first !in p[cur] && (first + Size(cur) < ADDRESS_SPACE ==> u == first + Size(cur))
  }

  lemma ListedInSpace(p: Levels, base: int, bits: int, c: int, a: int)
    requires 0 <= base < ADDRESS_SPACE && Shape(p, base, bits) && Align(base, bits) == base && Listed(p, c, a)
    ensures 0 <= a && a + Size(c) <= ADDRESS_SPACE && Align(a, c) == a
  {
    InsidePool(base, bits, a, c);
    NextIntervalExact(base, bits);
  }

  lemma EnumerationStart(p: Levels, base: int, bits: int, addr: int, cidr: int, cur: int, target: int)
    requires 0 <= base < ADDRESS_SPACE && Shape(p, base, bits) && Align(base, bits) == base
    requires 0 <= addr < ADDRESS_SPACE && 0 <= cidr <= 32 && Listed(p, cur, target)
    ensures 0 <= target < ADDRESS_SPACE && Align(target, cur) == target
    ensures Enumerated(p, addr, cidr, cur, Align(addr, if cidr < cur then cidr else cur))
  {
    ListedInSpace(p, base, bits, cur, target);
    NextIntervalExact(addr, cidr);
    NextIntervalExact(addr, cur);
    Nested(addr, cidr, cidr);
    Nested(addr, cur, cur);
    if cidr <= cur {
      AlignedFinest(Align(addr, cidr), cidr, cur);
    }
  }

  lemma EnumerationStep(p: Levels, base: int, bits: int, addr: int, cidr: int, cur: int, u: int, target: int)
    requires 0 <= base < ADDRESS_SPACE && Shape(p, base, bits) && Align(base, bits) == base
    requires 0 <= addr < ADDRESS_SPACE && 0 <= cidr <= 32 && Listed(p, cur, target)
    requires Enumerated(p, addr, cidr, cur, u) && u < NextInterval(addr, cidr) && u !in p[cur]
    ensures Enumerated(p, addr, cidr, cur, NextInterval(u, cur))
    ensures || NextInterval(u, cur) == u + Size(cur) < ADDRESS_SPACE
            || (NextInterval(u, cur) == 0 && u + Size(cur) == ADDRESS_SPACE)
    ensures u < target ==> u + Size(cur) <= target
  {
    ListedInSpace(p, base, bits, cur, target);
    NextIntervalAligned(u, cur);
    if u < target {
      AlignedGap(u, target, cur);
    }
    if cidr <= cur {
      FineStep(p, addr, cidr, cur, u);
    } else {
      CoarseStep(p, addr, cidr, cur, u);
    }
  }

  lemma FineStep(p: Levels, addr: int, cidr: int, cur: int, u: int)
    requires 0 <= addr < ADDRESS_SPACE && 0 <= cidr <= cur <= 32 && cur in p
    requires Align(u, cur) == u && EnumeratedFine(p, addr, cidr, cur, u)
    requires u < NextInterval(addr, cidr) && u !in p[cur]
    ensures u + Size(cur) < ADDRESS_SPACE && EnumeratedFine(p, addr, cidr, cur, u + Size(cur))
  {
    NextIntervalExact(addr, cidr);
    Nested(addr, cidr, cidr);
    BlockIsInterval(u, Align(addr, cidr), cidr);
    LastAddress(u, cur, cidr);
    forall v | Align(addr, cidr) <= v < u + Size(cur)
      ensures Align(v, cur) !in p[cur]
    {
      BlockIsInterval(v, u, cur);
    }
  }

  lemma CoarseStep(p: Levels, addr: int, cidr: int, cur: int, u: int)
    requires 0 <= addr < ADDRESS_SPACE && 0 <= cur < cidr <= 32 && cur in p
    requires Align(u, cur) == u && EnumeratedCoarse(p, addr, cur, u)
    requires u < NextInterval(addr, cidr) && u !in p[cur]
    ensures EnumeratedCoarse(p, addr, cur, NextInterval(u, cur))
  {
    NextIntervalExact(addr, cidr);
    NextIntervalExact(addr, cur);
    Nested(addr, cidr, cidr);
    Nested(addr, cidr, cur);
    LastAddress(Align(addr, cidr), cidr, cur);
    Nested(addr, cur, cur);
  }

  lemma EnumerationHit(p: Levels, base: int, bits: int, addr: int, cidr: int, cur: int, u: int)
    requires 0 <= base < ADDRESS_SPACE && Shape(p, base, bits) && Align(base, bits) == base
    requires 0 <= addr < ADDRESS_SPACE && 0 <= cidr <= 32 && bits <= cur <= 32
    requires Enumerated(p, addr, cidr, cur, u) && u < NextInterval(addr, cidr) && u in p[cur]
    ensures OverlapAnswer(p, bits, addr, cidr)
  {
    NextIntervalExact(addr, cidr);
    Nested(addr, cidr, cidr);
    if cidr <= cur {
      BlockIsInterval(u, Align(addr, cidr), cidr);
      assert FreeAt(p, cur, u);
    } else if u == Align(addr, cur) {
      Nested(addr, cidr, cur);
      assert FreeAt(p, cur, Align(addr, cidr));
    } else {
      Nested(addr, cidr, cur);
      LastAddress(Align(addr, cidr), cidr, cur);
      NextIntervalExact(addr, cur);
      assert WrapsAt(p, addr, cur);
    }
  }

  lemma EnumerationEnd(p: Levels, base: int, bits: int, addr: int, cidr: int, cur: int, u: int)
    requires 0 <= base < ADDRESS_SPACE && Shape(p, base, bits) && Align(base, bits) == base
    requires 0 <= addr < ADDRESS_SPACE && 0 <= cidr <= 32 && bits <= cur <= 32
    requires Align(addr, cidr) + Size(cidr) < ADDRESS_SPACE
    requires Enumerated(p, addr, cidr, cur, u) && u >= NextInterval(addr, cidr)
    ensures Clear(p, addr, cidr, cur)
  {
    NextIntervalExact(addr, cidr);
    Nested(addr, cidr, cidr);
    if cidr <= cur {
      forall x | Align(x, cidr) == Align(addr, cidr)
        ensures !FreeAt(p, cur, x)
      {
        BlockIsInterval(x, Align(addr, cidr), cidr);
      }
    } else {
      Nested(addr, cidr, cur);
      ClearLowBounds(addr, 32 - cidr);
      ClearLowBounds(addr, 32 - cur);
      Nested(addr, cur, cur);
      if Align(addr, cur) + Size(cur) == ADDRESS_SPACE && u != Align(addr, cur) {
        AlignedGap(Align(addr, cur), u, cur);
      }
      forall x | Align(x, cidr) == Align(addr, cidr)
        ensures !FreeAt(p, cur, x)
      {
        Nested(x, cidr, cur);
      }
    }
  }

  lemma BlockInNetwork(base: int, bits: int, addr: int, cidr: int)
    requires bits <= 32 && cidr <= 32
    ensures cidr >= bits && Align(addr, bits) == base <==>
            forall x :: Align(x, cidr) == Align(addr, cidr) ==> Align(x, bits) == base
  {
    if cidr >= bits {
      forall x | Align(x, cidr) == Align(addr, cidr)
        ensures Align(x, bits) == Align(addr, bits)
      {
        Nested(x, cidr, bits);
        Nested(addr, cidr, bits);
      }
    } else {
      var a := Align(addr, cidr);
      Nested(addr, cidr, cidr);
      AlignedFiner(a, cidr);
      BuddyIsOtherHalf(a, cidr + 1);
      Nested(a, cidr + 1, cidr);
      Nested(Buddy(a, cidr + 1), cidr + 1, cidr);
      if Align(a, bits) == base && Align(Buddy(a, cidr + 1), bits) == base {
        Nested(a, bits, cidr + 1);
        Nested(Buddy(a, cidr + 1), bits, cidr + 1);
      }
    }
  }

  class IntervalPool {
    const base: int
    const bits: int
    var pool: Levels

    ghost predicate Valid()
      reads this
    {
      0 <= base && ValidLevels(pool, base, bits) && Align(base, bits) == base && base + Size(bits) <= ADDRESS_SPACE
    }

    constructor (addr: int, cidr: int)
      requires 0 <= addr < ADDRESS_SPACE && 0 <= cidr <= 32
      ensures Valid() && base == Align(addr, cidr) && bits == cidr
      ensures forall x :: IsFree(pool, x) <==> Align(x, bits) == base
    {
      base := Align(addr, cidr);
      bits := cidr;
      pool := map[cidr := [Align(addr, cidr)]];
      new;
      for i := cidr + 1 to 33
        invariant cidr + 1 <= i <= 33
        invariant pool == NewLevels(base, bits, i - 1)
      {
        pool := pool[i := []];
      }
      assert pool == NewLevels(base, bits, 32);
      NextIntervalExact(addr, cidr);
      Nested(addr, cidr, cidr);
      NewLevelsValid(base, bits);
    }

    /** The pool as it was saved by dump_center. */
    constructor Copy(base: int, bits: int, pool: Levels)
      requires 0 <= base && ValidLevels(pool, base, bits) && Align(base, bits) == base
      requires base + Size(bits) <= ADDRESS_SPACE
      ensures Valid() && this.base == base && this.bits == bits && this.pool == pool
    {
      this.base := base;
      this.bits := bits;
      this.pool := pool;
    }

    /** Fails exactly when the pool holds no aligned free block of that length; else hands out the start of
        the first of the smallest listed blocks that are large enough, and takes just that block's addresses. */
    method Allocate(cidr: int) returns (ok: bool, r: int)
      requires Valid()
      modifies this
      ensures Valid()
      ensures ok <==> bits <= cidr <= 32 && HasFreeBlock(old(pool), cidr)
      ensures !ok ==> pool == old(pool)
      ensures ok ==> Align(r, cidr) == r && WhollyFree(old(pool), r, cidr)
      ensures ok ==> Removed(old(pool), pool, r, cidr)
      ensures ok ==> BestFit(old(pool), cidr, r)
    {
      var up := cidr;
      while up in pool && pool[up] == []
        invariant up <= cidr && (up < cidr ==> cidr in pool)
        invariant cidr <= 32 ==> up >= bits - 1 || up == cidr
        invariant forall d :: up < d <= cidr ==> d in pool && pool[d] == []
        decreases up - bits + 1
      {
        up := up - 1;
      }
      if bits <= cidr <= 32 {
        FreeBlockExists(pool, base, bits, cidr);
      }
      if up !in pool {
        return false, 0;
      }
      r := pool[up][0];
      ghost var was := pool;
      assert Listed(was, up, r);
      ListedIsFree(was, base, bits, r, up, cidr);
      TakeBlock(up, r, cidr);
      SplitValid(was, pool, base, bits, up, r, cidr);
      forall x
        ensures IsFree(pool, x) <==> IsFree(was, x) && Align(x, cidr) != r
      {
        SplitFree(was, pool, base, bits, up, r, cidr, x);
      }
      ok := true;
    }

    /** Takes the listed block `r` off its list and puts back what is not handed out. */
    method TakeBlock(up: int, r: int, cidr: int)
      requires Valid() && Listed(pool, up, r) && up <= cidr <= 32
      requires forall d :: up < d <= cidr ==> pool[d] == []
      modifies this
      ensures IsSplit(old(pool), pool, up, r, cidr)
    {
      ghost var was := pool;
      pool := pool[up := RemoveFirst(pool[up], r)];
      var i := cidr;
      while i > up
        invariant up <= i <= cidr
        invariant pool.Keys == was.Keys && pool[up] == RemoveFirst(was[up], r)
        invariant forall d :: d in pool && i < d <= cidr ==> pool[d] == [r + Size(d)]
        invariant forall d :: d in pool && d != up && !(i < d <= cidr) ==> pool[d] == was[d]
      {
        SecondHalfInside(r, up, i);
        AlignedFinest(r, up, i - 1);
        NextInPool(base, bits, r, i);
        pool := pool[i := pool[i] + [NextInterval(r, i)]];
        i := i - 1;
      }
    }

    /** Whether the block meets the free addresses; ends for every pool, also where the jump wraps. */
    method Overlap(addr: int, cidr: int) returns (r: bool)
      requires 0 <= base < ADDRESS_SPACE && Shape(pool, base, bits) && Align(base, bits) == base
      requires 0 <= addr < ADDRESS_SPACE && 0 <= cidr <= 32
      ensures r <==> OverlapAnswer(pool, bits, addr, cidr)
    {
      ghost var end := Align(addr, cidr) + Size(cidr);
      NextIntervalExact(addr, cidr);
      for cur := bits to 33
        invariant end < ADDRESS_SPACE ==> forall d :: bits <= d < cur ==> Clear(pool, addr, cidr, d)
      {
        if pool[cur] != [] {
          var hit := OverlapLevel(addr, cidr, cur);
          if hit {
            return true;
          }
        }
      }
      if end < ADDRESS_SPACE {
        forall x | Align(x, cidr) == Align(addr, cidr)
          ensures !IsFree(pool, x)
        {
          forall d
            ensures !FreeAt(pool, d, x)
          {
            assert d in pool && d <= 32 ==> Clear(pool, addr, cidr, d);
          }
        }
        forall c | bits <= c < cidr
          ensures !WrapsAt(pool, addr, c)
        {
          assert Clear(pool, addr, cidr, c);
        }
      }
      r := false;
    }

    /** The enumeration at one level, which holds at least one block. */
    method OverlapLevel(addr: int, cidr: int, cur: int) returns (hit: bool)
      requires 0 <= base < ADDRESS_SPACE && Shape(pool, base, bits) && Align(base, bits) == base
      requires 0 <= addr < ADDRESS_SPACE && 0 <= cidr <= 32 && bits <= cur <= 32 && pool[cur] != []
      ensures hit ==> OverlapAnswer(pool, bits, addr, cidr)
      ensures !hit && Align(addr, cidr) + Size(cidr) < ADDRESS_SPACE ==> Clear(pool, addr, cidr, cur)
    {
      var start := Align(addr, if cidr < cur then cidr else cur);
      var curAddr := start;
      var lastAddr := NextInterval(addr, cidr);
      ghost var target := pool[cur][0];
      assert Listed(pool, cur, target);
      EnumerationStart(pool, base, bits, addr, cidr, cur, target);
      while curAddr < lastAddr
        invariant Enumerated(pool, addr, cidr, cur, curAddr)
        decreases if curAddr <= target then target - curAddr else target - curAddr + ADDRESS_SPACE
      {
        if curAddr in pool[cur] {
          EnumerationHit(pool, base, bits, addr, cidr, cur, curAddr);
          return true;
        }
        EnumerationStep(pool, base, bits, addr, cidr, cur, curAddr, target);
        curAddr := NextInterval(curAddr, cur);
      }
      if Align(addr, cidr) + Size(cidr) < ADDRESS_SPACE {
        EnumerationEnd(pool, base, bits, addr, cidr, cur, curAddr);
      }
      hit := false;
    }

    /** Whether every address of the block is in the network. */
    method InRange(addr: int, cidr: int) returns (r: bool)
      requires Valid()
      ensures r <==> cidr >= bits && Align(addr, bits) == base
      ensures cidr <= 32 ==> (r <==> forall x :: Align(x, cidr) == Align(addr, cidr) ==> Align(x, bits) == base)
    {
      if cidr <= 32 {
        BlockInNetwork(base, bits, addr, cidr);
      }
      r := cidr >= bits && Align(addr, bits) == base;
    }

    /** Succeeds exactly for a block of the pool that overlap finds disjoint from the free addresses, and then adds just
        the block's addresses.  In a pool that ends at 255.255.255.255 overlap may be wrong: then a disjoint block is
        refused, or one that is not is accepted and spoils the pool.  A length above 32 is refused (the source raises an
        exception or returns False). */
    method Free(addr: int, cidr: int) returns (ok: bool)
      requires Valid() && 0 <= addr < ADDRESS_SPACE
      modifies this`pool
      ensures ok <==> bits <= cidr <= 32 && Align(addr, bits) == base && !OverlapAnswer(old(pool), bits, addr, cidr)
      ensures base + Size(bits) < ADDRESS_SPACE ==>
                (ok <==> bits <= cidr <= 32 && Align(addr, bits) == base &&
                         Disjoint(old(pool), Align(addr, cidr), cidr))
      ensures Valid() <==> (ok ==> Disjoint(old(pool), Align(addr, cidr), cidr))
      ensures !ok ==> pool == old(pool)
      ensures ok && Disjoint(old(pool), Align(addr, cidr), cidr) ==> Added(old(pool), pool, Align(addr, cidr), cidr)
    {
      var inRange := InRange(addr, cidr);
      if !inRange || cidr > 32 {
        return false;
      }
      var overlaps := Overlap(addr, cidr);
      if base + Size(bits) < ADDRESS_SPACE {
        OverlapExact(pool, base, bits, addr, cidr);
      }
      if overlaps {
        return false;
      }
      InsidePool(base, bits, addr, cidr);
      MergeUp(Align(addr, cidr), cidr);
      ok := true;
    }

    /** The merge loop of free. */
    method MergeUp(start: int, length: int)
      requires Valid() && bits <= length <= 32 && Align(start, length) == start && Align(start, bits) == base
      modifies this`pool
      ensures Valid() <==> Disjoint(old(pool), start, length)
      ensures Disjoint(old(pool), start, length) ==> Added(old(pool), pool, start, length)
    {
      ghost var was := pool;
      var addr, cidr := start, length;
      MergeStarts(was, start, length, base, bits);
      while cidr - 1 in pool
        invariant Merging(was, start, length, pool, base, bits, addr, cidr)
        decreases cidr - bits
      {
        ghost var before, a := pool, addr;
        JumpsToBuddy(base, bits, addr, cidr);
        if addr == Align(addr, cidr - 1) {
          if NextInterval(addr, cidr) !in pool[cidr] {
            break;
          }
          pool := pool[cidr := RemoveFirst(pool[cidr], NextInterval(addr, cidr))];
        } else {
          if BeforeInterval(addr, cidr) !in pool[cidr] {
            break;
          }
          addr := BeforeInterval(addr, cidr);
          pool := pool[cidr := RemoveFirst(pool[cidr], addr)];
        }
        MergeGoesOn(was, start, length, before, pool, base, bits, a, cidr);
        cidr := cidr - 1;
      }
      MergeEnds(was, start, length, pool, base, bits, addr, cidr);
      pool := pool[cidr := AppendSort(pool[cidr], addr)];
    }
  }
}
