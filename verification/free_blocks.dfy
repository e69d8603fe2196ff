/** What the lists of an IntervalPool mean, independently of how allocate and free change them. */
module FreeBlocks {
  import opened Address

  /** Prefix length to the addresses of the free blocks of that length. */
  type Levels = map<int, seq<int>>

  ghost predicate Sorted(s: seq<int>) {
    forall i, j :: 0 <= i < j < |s| ==> s[i] < s[j]
  }

  ghost predicate Listed(p: Levels, c: int, a: int) {
    c in p && a in p[c]
  }

  /** `x` is inside a free block of prefix length `c`. */
  ghost predicate FreeAt(p: Levels, c: int, x: int) {
    c in p && c <= 32 && Align(x, c) in p[c]
  }

  /** `x` is a free address. */
  ghost predicate IsFree(p: Levels, x: int) {
    exists c :: FreeAt(p, c, x)
  }

  ghost predicate WhollyFree(p: Levels, a: int, c: int)
    requires c <= 32
  {
    forall x :: Align(x, c) == a ==> IsFree(p, x)
  }

  /** No address of the block is free. */
  ghost predicate Disjoint(p: Levels, a: int, c: int)
    requires c <= 32
  {
    forall x :: Align(x, c) == a ==> !IsFree(p, x)
  }

  ghost predicate HasFreeBlock(p: Levels, c: int)
    requires c <= 32
  {
    exists a :: Align(a, c) == a && WhollyFree(p, a, c)
  }

  /** One list for each prefix length from the pool's own to 32; the lists are sorted and hold blocks of
      the pool. */
  ghost predicate Shape(p: Levels, base: int, bits: int) {
    && 0 <= bits <= 32
    && (forall c :: c in p <==> bits <= c <= 32)
    && (forall c :: c in p ==> Sorted(p[c]))
    && (forall c, a :: Listed(p, c, a) ==> bits <= c <= 32 && Align(a, c) == a && Align(a, bits) == base)
  }

  ghost predicate NoOverlap(p: Levels) {
    forall c, a, d, b :: Listed(p, c, a) && Listed(p, d, b) && d < c <= 32 ==> Align(a, d) != b
  }

  ghost predicate NoBuddies(p: Levels, bits: int) {
    forall c, a, b :: Listed(p, c, a) && Listed(p, c, b) && bits < c <= 32 ==> b != Buddy(a, c)
  }

  ghost predicate ValidLevels(p: Levels, base: int, bits: int) {
    Shape(p, base, bits) && NoOverlap(p) && NoBuddies(p, bits)
  }

  /** Every free address lies in exactly one listed block, so blocks of any two lengths are disjoint. */
  lemma FreeOnce(p: Levels, base: int, bits: int, c: int, d: int, x: int)
    requires Shape(p, base, bits) && NoOverlap(p)
    requires FreeAt(p, c, x) && FreeAt(p, d, x)
    ensures c == d
  {
    if d < c {
      Nested(x, c, d);
      assert Listed(p, c, Align(x, c)) && Listed(p, d, Align(x, d));
    } else if c < d {
      Nested(x, d, c);
      assert Listed(p, c, Align(x, c)) && Listed(p, d, Align(x, d));
    }
  }

  lemma FreeInPool(p: Levels, base: int, bits: int, x: int)
    requires Shape(p, base, bits) && IsFree(p, x)
    ensures Align(x, bits) == base
  {
    var c :| FreeAt(p, c, x);
    assert Listed(p, c, Align(x, c));
    Nested(x, c, bits);
  }

  /** Merging is complete: an aligned block all of whose addresses are free lies inside one listed block. */
  lemma {:induction false} FreeBlockIsInOneListedBlock(p: Levels, base: int, bits: int, a: int, c: int) returns (d: int)
    requires ValidLevels(p, base, bits)
    requires bits <= c <= 32 && Align(a, c) == a && WhollyFree(p, a, c)
    ensures bits <= d <= c && FreeAt(p, d, a)
    decreases 32 - c
  {
    var e :| FreeAt(p, e, a);
    assert Listed(p, e, Align(a, e));
    if e <= c {
      return e;
    }
    AlignedFiner(a, c);
    var right := Buddy(a, c + 1);
    BuddyIsOtherHalf(a, c + 1);
    forall x | Align(x, c + 1) == a || Align(x, c + 1) == right
      ensures IsFree(p, x)
    {
      Nested(x, c + 1, c);
    }
    d := FreeBlockIsInOneListedBlock(p, base, bits, a, c + 1);
    var d' := FreeBlockIsInOneListedBlock(p, base, bits, right, c + 1);
    if d > c {
      if d' > c {
        assert Listed(p, c + 1, a) && Listed(p, c + 1, right);
        assert false;
      } else {
        Nested(a, c + 1, d');
        Nested(right, c + 1, d');
        Nested(a, c, d');
        Nested(right, c, d');
        assert FreeAt(p, d', a);
        FreeOnce(p, base, bits, d, d', a);
      }
    }
  }

  /** So a free block of a given size exists exactly when some list of that level or above is not empty. */
  lemma FreeBlockExists(p: Levels, base: int, bits: int, c: int)
    requires ValidLevels(p, base, bits) && bits <= c <= 32
    ensures HasFreeBlock(p, c) <==> exists d :: bits <= d <= c && p[d] != []
  {
    if HasFreeBlock(p, c) {
      var a :| Align(a, c) == a && WhollyFree(p, a, c);
      var d := FreeBlockIsInOneListedBlock(p, base, bits, a, c);
      assert p[d] != [];
    }
    if d :| bits <= d <= c && p[d] != [] {
      var a := p[d][0];
      assert Listed(p, d, a);
      ListedIsFree(p, base, bits, a, d, c);
    }
  }

  /** The first smaller block inside a listed block is free. */
  lemma ListedIsFree(p: Levels, base: int, bits: int, a: int, d: int, c: int)
    requires Shape(p, base, bits) && Listed(p, d, a) && d <= c <= 32
    ensures Align(a, c) == a && WhollyFree(p, a, c)
  {
    AlignedFinest(a, d, c);
    forall x | Align(x, c) == a
      ensures IsFree(p, x)
    {
      Nested(x, c, d);
      assert FreeAt(p, d, x);
    }
  }

  // ----- the lists are a canonical form of the set of free addresses

  lemma ListedInBoth(p: Levels, q: Levels, base: int, bits: int, c: int, a: int)
    requires ValidLevels(p, base, bits) && ValidLevels(q, base, bits)
    requires forall x :: IsFree(p, x) <==> IsFree(q, x)
    requires Listed(p, c, a)
    ensures Listed(q, c, a)
  {
    ListedIsFree(p, base, bits, a, c, c);
    var d := FreeBlockIsInOneListedBlock(q, base, bits, a, c);
    var a' := Align(a, d);
    assert Listed(q, d, a');
    ListedIsFree(q, base, bits, a', d, d);
    var e := FreeBlockIsInOneListedBlock(p, base, bits, a', d);
    Nested(a, d, e);
    assert FreeAt(p, e, a) && FreeAt(p, c, a);
    FreeOnce(p, base, bits, e, c, a);
  }

  lemma {:induction false} SortedUnique(s: seq<int>, t: seq<int>)
    requires Sorted(s) && Sorted(t)
    requires forall x :: x in s <==> x in t
    ensures s == t
    decreases |s|
  {
    assert s != [] ==> s[0] in s;
    assert t != [] ==> t[0] in t;
    if s == [] {
      assert t == [];
    } else {
      assert s[0] == t[0];
      forall x
        ensures x in s[1..] <==> x in t[1..]
      {
        assert x in s[1..] <==> x in s && x != s[0];
        assert x in t[1..] <==> x in t && x != t[0];
      }
      SortedUnique(s[1..], t[1..]);
      assert s == [s[0]] + s[1..] && t == [t[0]] + t[1..];
    }
  }

  /** Two reachable pools with the same free addresses are the same pool, list by list. */
  lemma Canonical(p: Levels, q: Levels, base: int, bits: int)
    requires ValidLevels(p, base, bits) && ValidLevels(q, base, bits)
    requires forall x :: IsFree(p, x) <==> IsFree(q, x)
    ensures p == q
  {
    forall c | c in p
      ensures p[c] == q[c]
    {
      forall x
        ensures x in p[c] <==> x in q[c]
      {
        if x in p[c] {
          assert Listed(p, c, x);
          ListedInBoth(p, q, base, bits, c, x);
        }
        if x in q[c] {
          assert Listed(q, c, x);
          ListedInBoth(q, p, base, bits, c, x);
        }
      }
      SortedUnique(p[c], q[c]);
    }
    assert forall c :: c in p <==> c in q;
    assert p.Keys == q.Keys;
  }

  // ----- taking a block and giving it back

  /** `q` has the free addresses of `p` without the block. */
  ghost predicate Removed(p: Levels, q: Levels, a: int, c: int)
    requires c <= 32
  {
    forall x :: IsFree(q, x) <==> IsFree(p, x) && Align(x, c) != a
  }

  /** `q` has the free addresses of `p` and the block. */
  ghost predicate Added(p: Levels, q: Levels, a: int, c: int)
    requires c <= 32
  {
    forall x :: IsFree(q, x) <==> IsFree(p, x) || Align(x, c) == a
  }

  /** Freeing what was allocated undoes the allocation, list by list, whatever was split and merged. */
  lemma FreeUndoesAllocate(p: Levels, q: Levels, r: Levels, base: int, bits: int, a: int, c: int)
    requires ValidLevels(p, base, bits) && ValidLevels(q, base, bits) && ValidLevels(r, base, bits)
    requires c <= 32 && WhollyFree(p, a, c) && Removed(p, q, a, c) && Added(q, r, a, c)
    ensures Disjoint(q, a, c)
    ensures r == p
  {
    Canonical(p, r, base, bits);
  }

  /** Frees commute: the order in which blocks come back leaves no trace in the lists. */
  lemma FreesCommute(p: Levels, q: Levels, r: Levels, q': Levels, r': Levels, base: int, bits: int, a: int, c: int,
                     b: int, d: int)
    requires ValidLevels(r, base, bits) && ValidLevels(r', base, bits) && c <= 32 && d <= 32
    requires Added(p, q, a, c) && Added(q, r, b, d)
    requires Added(p, q', b, d) && Added(q', r', a, c)
    ensures r == r'
  {
    Canonical(r, r', base, bits);
  }
}
