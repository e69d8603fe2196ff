/** The memory share-out of smart_control_forever (meter/intra/smart.py).  Containers are numbered by their position
    in `live`; scores and shares are exact, not floating point. */
module Smart {

  /** The sum of the first n. */
  function Total(alloc: seq<int>, n: nat): int
    requires n <= |alloc|
  {
    if n == 0 then 0 else Total(alloc, n - 1) + alloc[n - 1]
  }

  function TotalReal(score: seq<real>, n: nat): real
    requires n <= |score|
  {
    if n == 0 then 0.0 else TotalReal(score, n - 1) + score[n - 1]
  }

  /** The whole part of a container's share of the memory. */
  function Share(free: real, score: real, total: real): int
    requires total > 0.0
  {
    (free * score / total).Floor
  }

  function ShareOfEach(free: real, score: seq<real>, total: real): seq<int>
    requires total > 0.0
  {
    seq(|score|, i requires 0 <= i < |score| => Share(free, score[i], total))
  }

  /** A container's part of the memory, by its score. */
  ghost function Part(memory: real, score: seq<real>, i: nat): real
    requires i < |score| && TotalReal(score, |score|) > 0.0
  {
    memory * score[i] / TotalReal(score, |score|)
  }

  /** The parts in whole numbers. */
  ghost predicate IsRounded(share: seq<int>, memory: real, score: seq<real>)
    requires TotalReal(score, |score|) > 0.0
  {
    && |share| == |score|
    && forall i :: 0 <= i < |share| ==> share[i] as real <= Part(memory, score, i) < share[i] as real + 1.0
  }

  lemma SharesAreRounded(memory: real, score: seq<real>)
    requires TotalReal(score, |score|) > 0.0
    ensures IsRounded(ShareOfEach(memory, score, TotalReal(score, |score|)), memory, score)
  {
  }

  /** A list of containers, in order, as the loops keep it. */
  ghost predicate Lists(list: seq<nat>, names: set<nat>, n: nat) {
    && |list| == |names|
    && (forall k :: 0 <= k < |list| ==> list[k] < n && list[k] in names)
    && (forall j, k :: 0 <= j < k < |list| ==> list[j] < list[k])
  }

  /** The sum over the first k of the list. */
  function Sum(share: seq<int>, list: seq<nat>, k: nat): int
    requires k <= |list| && forall k :: 0 <= k < |list| ==> list[k] < |share|
  {
    if k == 0 then 0 else Sum(share, list, k - 1) + share[list[k - 1]]
  }

  function SumReal(score: seq<real>, list: seq<nat>, k: nat): real
    requires k <= |list| && forall k :: 0 <= k < |list| ==> list[k] < |score|
  {
    if k == 0 then 0.0 else SumReal(score, list, k - 1) + score[list[k - 1]]
  }

  ghost predicate Positive(score: seq<real>) {
    forall i :: 0 <= i < |score| ==> score[i] > 0.0
  }

  lemma {:induction false} TotalUpdate(alloc: seq<int>, i: nat, v: int, n: nat)
    requires i < |alloc| && n <= |alloc|
    ensures Total(alloc[i := v], n) == Total(alloc, n) + if i < n then v - alloc[i] else 0
  {
    if n > 0 {
      TotalUpdate(alloc, i, v, n - 1);
    }
  }

  /** The shares before they are rounded down. */
  function ExactShares(free: real, score: seq<real>, total: real): seq<real>
    requires total > 0.0
  {
    seq(|score|, i requires 0 <= i < |score| => free * score[i] / total)
  }

  lemma {:induction false} RoundedSum(free: real, score: seq<real>, total: real, list: seq<nat>, k: nat)
    requires total > 0.0 && k <= |list| && forall k :: 0 <= k < |list| ==> list[k] < |score|
    ensures Sum(ShareOfEach(free, score, total), list, k) as real <= SumReal(ExactShares(free, score, total), list, k)
  {
    if k > 0 {
      RoundedSum(free, score, total, list, k - 1);
    }
  }

  lemma {:induction false} RoundedTotal(free: real, score: seq<real>, total: real, n: nat)
    requires total > 0.0 && n <= |score|
    ensures Total(ShareOfEach(free, score, total), n) as real <= TotalReal(ExactShares(free, score, total), n)
  {
    if n > 0 {
      RoundedTotal(free, score, total, n - 1);
    }
  }

  lemma {:induction false} RoundedBelow(free: real, score: seq<real>, total: real, n: nat)
    requires total > 0.0 && n <= |score|
    ensures Total(ShareOfEach(free, score, total), n) as real >=
            TotalReal(ExactShares(free, score, total), n) - n as real
    ensures n > 0 ==>
      Total(ShareOfEach(free, score, total), n) as real > TotalReal(ExactShares(free, score, total), n) - n as real
  {
    if n > 0 {
      RoundedBelow(free, score, total, n - 1);
    }
  }

  lemma {:induction false} ExactTotal(free: real, score: seq<real>, total: real, n: nat)
    requires total > 0.0 && n <= |score|
    ensures TotalReal(ExactShares(free, score, total), n) == free * TotalReal(score, n) / total
  {
    if n > 0 {
      ExactTotal(free, score, total, n - 1);
      AddPortions(free, TotalReal(score, n - 1), score[n - 1], total);
    }
  }

  lemma AddPortions(free: real, a: real, b: real, total: real)
    requires total > 0.0
    ensures free * (a + b) / total == free * a / total + free * b / total
  {
    assert free * (a + b) == free * a + free * b;
  }

  lemma WholePortion(free: real, total: real)
    requires total > 0.0
    ensures free * total / total == free
  {
  }

  lemma PortionIsNotNegative(free: real, s: real, total: real)
    requires free >= 0.0 && s > 0.0 && total > 0.0
    ensures free * s / total >= 0.0
  {
    assert free * s >= 0.0;
  }

  /** A part of the numbers has at most the whole sum. */
  lemma {:induction false} PartOfWhole(score: seq<real>, list: seq<nat>, k: nat, n: nat)
    requires (forall i :: 0 <= i < |score| ==> score[i] >= 0.0) && k <= |list| && n <= |score|
    requires forall j :: 0 <= j < |list| ==> list[j] < |score|
    requires forall i, j :: 0 <= i < j < |list| ==> list[i] < list[j]
    requires k > 0 ==> list[k - 1] < n
    ensures SumReal(score, list, k) <= TotalReal(score, n)
    decreases n
  {
    if n > 0 {
      if k > 0 && list[k - 1] == n - 1 {
        PartOfWhole(score, list, k - 1, n - 1);
      } else {
        PartOfWhole(score, list, k, n - 1);
      }
    }
  }

  lemma ShareIsMonotone(free: real, s: real, s': real, total: real)
    requires total > 0.0 && free >= 0.0 && s <= s'
    ensures Share(free, s, total) <= Share(free, s', total)
  {
    assert free * s <= free * s';
    assert free * s / total <= free * s' / total;
  }

  lemma ShareIsNotNegative(free: real, s: real, total: real)
    requires total > 0.0 && free >= 0.0 && s >= 0.0
    ensures Share(free, s, total) >= 0
  {
    assert free * s >= 0.0;
    assert free * s / total >= 0.0;
  }

  function Min(a: int, b: int): int {
    if a <= b then a else b
  }

  /** The containers of `done` have got their share, up to their usage; `left` are those that use all they have. */
  ghost predicate Served(usage: seq<nat>, share: seq<int>, alloc: seq<int>, after: seq<int>, done: set<nat>,
                         left: set<nat>)
    requires |usage| == |share| == |alloc|
  {
    && |after| == |alloc|
    && (forall i :: 0 <= i < |alloc| ==> after[i] == if i in done then Min(usage[i], alloc[i] + share[i]) else alloc[i])
    && (forall i :: 0 <= i < |alloc| ==> (i in left <==> i in done && after[i] < usage[i]))
  }

  lemma ServeOne(usage: seq<nat>, share: seq<int>, alloc: seq<int>, after: seq<int>, done: set<nat>, left: set<nat>,
                 i: nat)
    requires |usage| == |share| == |alloc| && Served(usage, share, alloc, after, done, left) && i < |alloc|
    requires i !in done
    ensures var given := after[i] + share[i];
      if given >= usage[i] then Served(usage, share, alloc, after[i := usage[i]], done + {i}, left)
      else Served(usage, share, alloc, after[i := given], done + {i}, left + {i})
  {
  }

  /** The first k of the list. */
  ghost predicate DoneTo(list: seq<nat>, names: set<nat>, done: set<nat>, k: nat) {
    done <= names && |done| == k && forall i, j :: i in done && k <= j < |list| ==> i < list[j]
  }

  lemma AllListed(list: seq<nat>, names: set<nat>, n: nat)
    requires Lists(list, names, n)
    ensures forall i :: i in names ==> i < n
  {
    ghost var all: set<nat> := {};
    for k := 0 to |list|
      invariant DoneTo(list, names, all, k) && forall i :: i in all ==> i < n
    {
      DoneMore(list, names, all, k, n);
      all := all + {list[k]};
    }
    SameSize(all, names);
  }

  lemma DoneMore(list: seq<nat>, names: set<nat>, done: set<nat>, k: nat, n: nat)
    requires Lists(list, names, n) && DoneTo(list, names, done, k) && k < |list|
    ensures list[k] !in done && DoneTo(list, names, done + {list[k]}, k + 1)
  {
  }

  lemma ListMore(list: seq<nat>, names: set<nat>, n: nat, i: nat)
    requires Lists(list, names, n) && i < n && forall m :: m in names ==> m < i
    ensures Lists(list + [i], names + {i}, n)
  {
  }

  lemma ServedIsGiven(usage: seq<nat>, share: seq<int>, alloc: seq<int>, after: seq<int>, names: set<nat>,
                      left: set<nat>)
    requires |usage| == |share| == |alloc| && Served(usage, share, alloc, after, names, left)
    requires left <= names && forall i :: i in names ==> i < |alloc|
    ensures after == Given(usage, share, alloc, names) && left == Hungry(usage, after, names)
  {
  }

  lemma BookOne(usage: seq<nat>, share: seq<int>, alloc: seq<int>, after: seq<int>, done: set<nat>, i: nat)
    requires |usage| == |share| == |alloc| == |after| && i < |alloc| && i !in done && after[i] == alloc[i]
    ensures var n, given := |alloc|, alloc[i] + share[i];
      var over := if given >= usage[i] then given - usage[i] else 0;
      && Excess(usage, share, alloc, done + {i}, n) == Excess(usage, share, alloc, done, n) + over
      && Total(after[i := Min(usage[i], given)], n) + over == Total(after, n) + share[i]
  {
    ExcessMore(usage, share, alloc, done, i, |alloc|);
    TotalUpdate(after, i, Min(usage[i], alloc[i] + share[i]), |alloc|);
  }

  lemma SameSize(part: set<nat>, whole: set<nat>)
    requires part <= whole && |part| == |whole|
    ensures part == whole
  {
    assert |whole - part| == |whole| - |part|;
  }

  // ----- the passes, over values

  /** Each container of `names` gets its share, up to its usage. */
  function Given(usage: seq<nat>, share: seq<int>, alloc: seq<int>, names: set<nat>): seq<int>
    requires |usage| == |share| == |alloc|
  {
    seq(|alloc|, i requires 0 <= i < |alloc| => GivenTo(usage[i], share[i], alloc[i], i in names))
  }

  function GivenTo(usage: nat, share: int, alloc: int, served: bool): int {
    if served then Min(usage, alloc + share) else alloc
  }

  /** Those of `names` that would use more. */
  ghost function Hungry(usage: seq<nat>, after: seq<int>, names: set<nat>): set<nat>
    requires |usage| == |after|
  {
    set i | i in names && i < |usage| && after[i] < usage[i]
  }

  /** What the first n containers are offered beyond their usage. */
  function Excess(usage: seq<nat>, share: seq<int>, alloc: seq<int>, names: set<nat>, n: nat): int
    requires |usage| == |share| == |alloc| && n <= |alloc|
  {
    if n == 0 then 0
    else Excess(usage, share, alloc, names, n - 1) +
         if n - 1 in names && alloc[n - 1] + share[n - 1] > usage[n - 1] then alloc[n - 1] + share[n - 1] - usage[n - 1]
         else 0
  }

  lemma {:induction false} ExcessMore(usage: seq<nat>, share: seq<int>, alloc: seq<int>, names: set<nat>, i: nat,
                                      n: nat)
    requires |usage| == |share| == |alloc| && n <= |alloc| && i < |alloc| && i !in names
    ensures Excess(usage, share, alloc, names + {i}, n) == Excess(usage, share, alloc, names, n) +
              if i < n && alloc[i] + share[i] > usage[i] then alloc[i] + share[i] - usage[i] else 0
  {
    if n > 0 {
      ExcessMore(usage, share, alloc, names, i, n - 1);
    }
  }

  lemma {:induction false} NoExcess(usage: seq<nat>, share: seq<int>, alloc: seq<int>, names: set<nat>, n: nat)
    requires |usage| == |share| == |alloc| && n <= |alloc|
    requires forall i :: i in names && i < |alloc| ==> alloc[i] + share[i] <= usage[i]
    ensures Excess(usage, share, alloc, names, n) == 0
  {
    if n > 0 {
      NoExcess(usage, share, alloc, names, n - 1);
    }
  }

  /** Each pass drops a container or leaves no excess. */
  lemma PassShrinks(usage: seq<nat>, share: seq<int>, alloc: seq<int>, names: set<nat>)
    requires |usage| == |share| == |alloc|
    ensures var left := Hungry(usage, Given(usage, share, alloc, names), names);
      left <= names && (|left| < |names| || (left == names && Excess(usage, share, alloc, names, |alloc|) == 0))
  {
    var left := Hungry(usage, Given(usage, share, alloc, names), names);
    assert |names - left| == |names| - |left|;
    if names - left == {} {
      assert left == names;
      NoExcess(usage, share, alloc, names, |alloc|);
    }
  }

  /** The passes, from what the containers have and the memory that is free to the end. */
  ghost function Passes(usage: seq<nat>, score: seq<real>, total: real, free: real, alloc: seq<int>,
                        names: set<nat>): (r: (seq<int>, real))
    requires |usage| == |score| == |alloc| && total > 0.0
    ensures |r.0| == |alloc|
    decreases |names| + if free > 0.0 then 1 else 0
  {
    if free <= 0.0 || names == {} then (alloc, free)
    else
      var share := ShareOfEach(free, score, total);
      PassShrinks(usage, share, alloc, names);
      var after := Given(usage, share, alloc, names);
      Passes(usage, score, total, Excess(usage, share, alloc, names, |alloc|) as real, after,
             Hungry(usage, after, names))
  }

  /** What the containers have before a pass, who is served in it, and the memory for it. */
  datatype Round = Round(alloc: seq<int>, names: set<nat>, free: real)

  /** In a pass each container that is served gets its part, in whole numbers, up to its usage; it is served again if it
      is still below; the excess is the memory for the next pass. */
  ghost predicate IsPass(usage: seq<nat>, score: seq<real>, r: Round, s: Round)
    requires TotalReal(score, |score|) > 0.0
  {
    && |usage| == |score| == |r.alloc| && r.free > 0.0 && r.names != {}
    && exists share :: IsRounded(share, r.free, score) && IsServed(usage, share, r, s)
  }

  ghost predicate IsServed(usage: seq<nat>, share: seq<int>, r: Round, s: Round)
    requires |usage| == |share| == |r.alloc|
  {
    && |s.alloc| == |r.alloc|
    && s.alloc == Given(usage, share, r.alloc, r.names) && s.names == Hungry(usage, s.alloc, r.names)
    && s.free == Excess(usage, share, r.alloc, r.names, |r.alloc|) as real
  }

  /** The passes so far. */
  ghost predicate Traced(usage: seq<nat>, score: seq<real>, memory: real, rounds: seq<Round>, now: Round)
    requires TotalReal(score, |score|) > 0.0
  {
    && rounds != [] && rounds[0] == Round(Zeros(|usage|), Below(|usage|), memory) && rounds[|rounds| - 1] == now
    && (forall k :: 0 <= k < |rounds| - 1 ==> IsPass(usage, score, rounds[k], rounds[k + 1]))
  }

  /** All the passes: from nothing given out to nothing left, or nobody to serve. */
  ghost predicate ArePasses(usage: seq<nat>, score: seq<real>, memory: real, rounds: seq<Round>)
    requires TotalReal(score, |score|) > 0.0
  {
    && rounds != [] && Traced(usage, score, memory, rounds, rounds[|rounds| - 1])
    && (rounds[|rounds| - 1].free <= 0.0 || rounds[|rounds| - 1].names == {})
  }

  lemma TracedMore(usage: seq<nat>, score: seq<real>, memory: real, rounds: seq<Round>, r: Round,
                   share: seq<int>, s: Round)
    requires TotalReal(score, |score|) > 0.0 && Traced(usage, score, memory, rounds, r)
    requires share == ShareOfEach(r.free, score, TotalReal(score, |score|))
    requires |usage| == |score| == |r.alloc| && r.free > 0.0 && r.names != {} && IsServed(usage, share, r, s)
    ensures Traced(usage, score, memory, rounds + [s], s)
  {
    SharesAreRounded(r.free, score);
    assert IsPass(usage, score, r, s);
  }

  /** What a pass adds to a container that is served is its part of the memory for that pass, but for rounding, or all
      that it uses; what it adds to the others is nothing. */
  lemma PassAdds(usage: seq<nat>, score: seq<real>, r: Round, s: Round, i: nat)
    requires TotalReal(score, |score|) > 0.0 && IsPass(usage, score, r, s) && i < |usage|
    ensures |s.alloc| == |r.alloc| == |usage|
    ensures i !in r.names ==> s.alloc[i] == r.alloc[i] && i !in s.names
    ensures i in r.names ==>
              if r.alloc[i] as real + Part(r.free, score, i) >= usage[i] as real then
                s.alloc[i] == usage[i] && i !in s.names
              else
                && i in s.names
                && s.alloc[i] as real <= r.alloc[i] as real + Part(r.free, score, i) < s.alloc[i] as real + 1.0
  {
  }

  function Zeros(n: nat): (r: seq<int>)
    ensures |r| == n && forall i :: 0 <= i < n ==> r[i] == 0
  {
    seq(n, i => 0)
  }

  function Plus(a: seq<int>, b: seq<int>): (r: seq<int>)
    requires |a| == |b|
    ensures |r| == |a| && forall i :: 0 <= i < |a| ==> r[i] == a[i] + b[i]
  {
    seq(|a|, i requires 0 <= i < |a| => a[i] + b[i])
  }

  /** The limits that are set. */
  ghost function Limits(usage: seq<nat>, score: seq<real>, memory: real): seq<int>
    requires |usage| == |score| && Positive(score)
  {
    if |usage| == 0 then []
    else
      TotalIsPositive(score, |score|);
      var total := TotalReal(score, |score|);
      var r := Passes(usage, score, total, memory, Zeros(|usage|), Below(|usage|));
      Plus(r.0, ShareOfEach(r.1, score, total))
  }

  // ----- the loops

  /** One pass of the while loop: each container of `local` gets its share, up to its usage; what it does not use
      is the excess, and it is only served again if it uses all. */
  method Pass(usage: seq<nat>, share: seq<int>, local: seq<nat>, alloc: seq<int>, ghost names: set<nat>)
    returns (after: seq<int>, next: seq<nat>, excess: int, ghost left: set<nat>)
    requires |usage| == |share| == |alloc| && Lists(local, names, |alloc|)
    ensures Served(usage, share, alloc, after, names, left) && Lists(next, left, |alloc|)
    ensures after == Given(usage, share, alloc, names) && left == Hungry(usage, after, names)
    ensures excess == Excess(usage, share, alloc, names, |alloc|)
    ensures excess >= 0 && Total(after, |alloc|) + excess == Total(alloc, |alloc|) + Sum(share, local, |local|)
    ensures |next| < |local| || (|next| == |local| && excess == 0)
  {
    after, next, excess, left := alloc, [], 0, {};
    ghost var done: set<nat> := {};
    NoExcess(usage, share, alloc, done, |alloc|);
    for k := 0 to |local|
      invariant DoneTo(local, names, done, k)
      invariant left <= done && Lists(next, left, |alloc|)
      invariant Served(usage, share, alloc, after, done, left)
      invariant excess >= 0 && excess == Excess(usage, share, alloc, done, |alloc|)
      invariant Total(after, |alloc|) + excess == Total(alloc, |alloc|) + Sum(share, local, k)
    {
      var i := local[k];
      assert forall m :: m in left ==> m < i;
      DoneMore(local, names, done, k, |alloc|);
      ServeOne(usage, share, alloc, after, done, left, i);
      BookOne(usage, share, alloc, after, done, i);
      var given := after[i] + share[i];
      if given >= usage[i] {
        excess := excess + (given - usage[i]);
        after := after[i := usage[i]];
      } else {
        after := after[i := given];
        ListMore(next, left, |alloc|, i);
        next, left := next + [i], left + {i};
      }
      done := done + {i};
    }
    SameSize(done, names);
    AllListed(local, names, |alloc|);
    ServedIsGiven(usage, share, alloc, after, names, left);
    PassShrinks(usage, share, alloc, names);
  }

  // ----- what every pass keeps

  /** No container has more than its usage, and each outside `left` has all of it; each got its share of the whole
      memory, if it uses that much; and none gets less than one with a lower score, unless it has all it uses. */
  ghost predicate Fair(usage: seq<nat>, score: seq<real>, share: seq<int>, alloc: seq<int>, left: set<nat>)
    requires |usage| == |score| == |share|
  {
    && |alloc| == |usage|
    && (forall i :: 0 <= i < |usage| ==> 0 <= alloc[i] <= usage[i] && (i !in left ==> alloc[i] == usage[i]))
    && (forall i :: 0 <= i < |usage| ==> alloc[i] >= Min(usage[i], share[i]))
    && Ranked(usage, score, alloc)
  }

  ghost predicate Ranked(usage: seq<nat>, score: seq<real>, alloc: seq<int>)
    requires |usage| == |score| == |alloc|
  {
    forall i, j :: 0 <= i < |usage| && 0 <= j < |usage| && score[i] <= score[j] ==>
      alloc[j] >= usage[j] || alloc[j] >= alloc[i]
  }

  ghost predicate GoodShares(score: seq<real>, share: seq<int>) {
    && |share| == |score|
    && (forall i :: 0 <= i < |share| ==> share[i] >= 0)
    && (forall i, j :: 0 <= i < |share| && 0 <= j < |share| && score[i] <= score[j] ==> share[i] <= share[j])
  }

  lemma SharesAreGood(free: real, score: seq<real>, total: real)
    requires total > 0.0 && free >= 0.0 && Positive(score)
    ensures GoodShares(score, ShareOfEach(free, score, total))
  {
    var share := ShareOfEach(free, score, total);
    forall i | 0 <= i < |share|
      ensures share[i] >= 0
    {
      ShareIsNotNegative(free, score[i], total);
    }
    forall i, j | 0 <= i < |share| && 0 <= j < |share| && score[i] <= score[j]
      ensures share[i] <= share[j]
    {
      ShareIsMonotone(free, score[i], score[j], total);
    }
  }

  lemma FirstPass(usage: seq<nat>, score: seq<real>, share: seq<int>, alloc: seq<int>, after: seq<int>, names: set<nat>,
                  left: set<nat>)
    requires |usage| == |score| == |alloc| && GoodShares(score, share)
    requires Served(usage, share, alloc, after, names, left)
    requires forall i :: 0 <= i < |usage| ==> i in names && alloc[i] == 0
    ensures Fair(usage, score, share, after, left)
  {
  }

  lemma PassKeeps(usage: seq<nat>, score: seq<real>, first: seq<int>, share: seq<int>, alloc: seq<int>, after: seq<int>,
                  names: set<nat>, left: set<nat>)
    requires |usage| == |score| == |first| && GoodShares(score, share)
    requires Fair(usage, score, first, alloc, names) && Served(usage, share, alloc, after, names, left)
    ensures Fair(usage, score, first, after, left)
  {
  }

  /** Nothing has been given out yet, or what was is fair. */
  ghost predicate Begun(start: bool, usage: seq<nat>, score: seq<real>, first: seq<int>, alloc: seq<int>,
                        left: set<nat>)
    requires |usage| == |score| == |first|
  {
    || (start && |alloc| == |usage| && forall i :: 0 <= i < |alloc| ==> i in left && alloc[i] == 0)
    || Fair(usage, score, first, alloc, left)
  }

  lemma BegunKeeps(start: bool, usage: seq<nat>, score: seq<real>, first: seq<int>, share: seq<int>, alloc: seq<int>,
                   after: seq<int>, names: set<nat>, left: set<nat>)
    requires |usage| == |score| == |first| == |share| && GoodShares(score, share) && (start ==> share == first)
    requires Begun(start, usage, score, first, alloc, names) && |alloc| == |usage|
    requires Served(usage, share, alloc, after, names, left)
    ensures Fair(usage, score, first, after, left)
  {
    if Fair(usage, score, first, alloc, names) {
      PassKeeps(usage, score, first, share, alloc, after, names, left);
    } else {
      FirstPass(usage, score, share, alloc, after, names, left);
    }
  }

  lemma BegunPass(start: bool, usage: seq<nat>, score: seq<real>, first: seq<int>, free: real, alloc: seq<int>,
                  after: seq<int>, names: set<nat>, left: set<nat>)
    requires |usage| == |score| == |first| && Positive(score) && TotalReal(score, |score|) > 0.0 && free >= 0.0
    requires start ==> ShareOfEach(free, score, TotalReal(score, |score|)) == first
    requires Begun(start, usage, score, first, alloc, names) && |alloc| == |usage|
    requires Served(usage, ShareOfEach(free, score, TotalReal(score, |score|)), alloc, after, names, left)
    ensures Fair(usage, score, first, after, left)
  {
    SharesAreGood(free, score, TotalReal(score, |score|));
    BegunKeeps(start, usage, score, first, ShareOfEach(free, score, TotalReal(score, |score|)), alloc, after, names,
               left);
  }

  lemma {:induction false} TotalIsPositive(score: seq<real>, n: nat)
    requires Positive(score) && 0 < n <= |score|
    ensures TotalReal(score, n) > 0.0
  {
    if n > 1 {
      TotalIsPositive(score, n - 1);
    }
  }

  /** The shares of a part of the containers are at most the memory. */
  lemma SharesFit(free: real, score: seq<real>, list: seq<nat>, names: set<nat>)
    requires free >= 0.0 && Positive(score) && score != [] && Lists(list, names, |score|)
    requires TotalReal(score, |score|) > 0.0
    ensures Sum(ShareOfEach(free, score, TotalReal(score, |score|)), list, |list|) as real <= free
  {
    var total := TotalReal(score, |score|);
    RoundedSum(free, score, total, list, |list|);
    ExactIsNotNegative(free, score, total);
    PartOfWhole(ExactShares(free, score, total), list, |list|, |score|);
    ExactIsAll(free, score);
  }

  lemma ExactIsNotNegative(free: real, score: seq<real>, total: real)
    requires free >= 0.0 && Positive(score) && total > 0.0
    ensures forall i :: 0 <= i < |score| ==> ExactShares(free, score, total)[i] >= 0.0
  {
    forall i | 0 <= i < |score|
      ensures ExactShares(free, score, total)[i] >= 0.0
    {
      PortionIsNotNegative(free, score[i], total);
    }
  }

  lemma ExactIsAll(free: real, score: seq<real>)
    requires TotalReal(score, |score|) > 0.0
    ensures TotalReal(ExactShares(free, score, TotalReal(score, |score|)), |score|) == free
  {
    ExactTotal(free, score, TotalReal(score, |score|), |score|);
    WholePortion(free, TotalReal(score, |score|));
  }

  lemma AllSharesFit(free: real, score: seq<real>)
    requires TotalReal(score, |score|) > 0.0
    ensures Total(ShareOfEach(free, score, TotalReal(score, |score|)), |score|) as real <= free
  {
    RoundedTotal(free, score, TotalReal(score, |score|), |score|);
    ExactIsAll(free, score);
  }

  lemma {:induction false} TotalOfSums(a: seq<int>, b: seq<int>, c: seq<int>, n: nat)
    requires n <= |a| == |b| == |c| && forall i :: 0 <= i < |a| ==> c[i] == a[i] + b[i]
    ensures Total(c, n) == Total(a, n) + Total(b, n)
  {
    if n > 0 {
      TotalOfSums(a, b, c, n - 1);
    }
  }

  lemma {:induction false} TotalOfZeros(a: seq<int>, n: nat)
    requires n <= |a| && forall i :: 0 <= i < |a| ==> a[i] == 0
    ensures Total(a, n) == 0
  {
    if n > 0 {
      TotalOfZeros(a, n - 1);
    }
  }

  ghost function Below(n: nat): set<nat> {
    if n == 0 then {} else Below(n - 1) + {n - 1}
  }

  lemma {:induction false} BelowFacts(n: nat)
    ensures |Below(n)| == n && forall i: nat :: i in Below(n) <==> i < n
  {
    if n > 0 {
      BelowFacts(n - 1);
    }
  }

  /** The while loop of the share-out. */
  method Distribute(usage: seq<nat>, score: seq<real>, memory: real)
    returns (alloc: seq<int>, free: real, ghost left: set<nat>, ghost rounds: seq<Round>)
    requires |usage| == |score| > 0 && Positive(score) && TotalReal(score, |score|) > 0.0
    ensures (alloc, free) == Passes(usage, score, TotalReal(score, |score|), memory, Zeros(|usage|), Below(|usage|))
    ensures Distributed(usage, score, memory, alloc, free)
    ensures Traced(usage, score, memory, rounds, Round(alloc, left, free)) && (free <= 0.0 || left == {})
  {
    var total := TotalReal(score, |score|);
    ghost var first := ShareOfEach(memory, score, total);
    alloc, free := Zeros(|usage|), memory;
    var local: seq<nat> := seq(|usage|, i => i);
    left := Below(|usage|);
    BelowFacts(|usage|);
    ghost var whole := Passes(usage, score, total, free, alloc, left);
    TotalOfZeros(alloc, |alloc|);
    rounds := [Round(alloc, left, free)];
    while free > 0.0 && |local| > 0
      invariant |alloc| == |usage| && Total(alloc, |alloc|) as real + free <= memory
      invariant Passes(usage, score, total, free, alloc, left) == whole
      invariant memory > 0.0 ==> free >= 0.0
      invariant Lists(local, left, |alloc|)
      invariant Traced(usage, score, memory, rounds, Round(alloc, left, free))
      invariant Begun(free == memory, usage, score, first, alloc, left)
      invariant memory <= 0.0 ==> free == memory && forall i :: 0 <= i < |alloc| ==> alloc[i] == 0
      decreases |local|, free > 0.0
    {
      alloc, local, free, left, rounds := ServeAll(usage, score, memory, first, alloc, local, free, left, rounds);
    }
  }

  /** An iteration of the while loop; `first` are the shares of the first one. */
  method ServeAll(usage: seq<nat>, score: seq<real>, ghost memory: real, ghost first: seq<int>, alloc: seq<int>,
                  local: seq<nat>, free: real, ghost left: set<nat>, ghost rounds: seq<Round>)
    returns (after: seq<int>, next: seq<nat>, rest: real, ghost left': set<nat>, ghost rounds': seq<Round>)
    requires |usage| == |score| == |alloc| == |first| && Positive(score) && TotalReal(score, |score|) > 0.0
    requires free > 0.0 && local != [] && Lists(local, left, |alloc|)
    requires free == memory ==> ShareOfEach(free, score, TotalReal(score, |score|)) == first
    requires Begun(free == memory, usage, score, first, alloc, left)
    requires Traced(usage, score, memory, rounds, Round(alloc, left, free))
    ensures |after| == |alloc| && Lists(next, left', |alloc|) && rest >= 0.0
    ensures Fair(usage, score, first, after, left')
    ensures Traced(usage, score, memory, rounds', Round(after, left', rest))
    ensures Total(after, |after|) as real + rest <= Total(alloc, |alloc|) as real + free
    ensures Passes(usage, score, TotalReal(score, |score|), free, alloc, left) ==
            Passes(usage, score, TotalReal(score, |score|), rest, after, left')
    ensures |next| < |local| || (|next| == |local| && rest == 0.0)
  {
    var share := ShareOfEach(free, score, TotalReal(score, |score|));
    SharesFit(free, score, local, left);
    var excess;
    after, next, excess, left' := Pass(usage, share, local, alloc, left);
    rest := excess as real;
    BegunPass(free == memory, usage, score, first, free, alloc, after, left, left');
    TracedMore(usage, score, memory, rounds, Round(alloc, left, free), share, Round(after, left', rest));
    rounds' := rounds + [Round(after, left', rest)];
  }

  /** Each limit is what the passes gave and a part of what they left, in whole numbers. */
  ghost predicate IsLeftOver(score: seq<real>, last: Round, limit: seq<int>)
    requires TotalReal(score, |score|) > 0.0
  {
    && |limit| == |last.alloc| == |score|
    && forall i :: 0 <= i < |limit| ==>
      (limit[i] - last.alloc[i]) as real <= Part(last.free, score, i) < (limit[i] - last.alloc[i]) as real + 1.0
  }

  lemma LeftOverIs(score: seq<real>, last: Round, limit: seq<int>)
    requires TotalReal(score, |score|) > 0.0 && |last.alloc| == |score|
    requires limit == Plus(last.alloc, ShareOfEach(last.free, score, TotalReal(score, |score|)))
    ensures IsLeftOver(score, last, limit)
  {
    SharesAreRounded(last.free, score);
  }

  /** The whole share-out.  The limits never sum to more than the memory; no container gets more than it uses unless
      each gets at least what it uses; each gets its part of the memory, if it uses that much; and the higher
      score gets no less.  If there is plenty, all the memory is handed out, but for rounding.  `rounds` are the passes;
      what the last one leaves is shared out by score. */
  method ShareOut(usage: seq<nat>, score: seq<real>, memory: real)
    returns (limit: seq<int>, ghost rounds: seq<Round>)
    requires |usage| == |score| && Positive(score)
    ensures limit == Limits(usage, score, memory) && |limit| == |usage|
    ensures |limit| > 0 ==> Total(limit, |limit|) as real <= memory
    ensures || (forall i :: 0 <= i < |limit| ==> limit[i] <= usage[i])
            || (forall i :: 0 <= i < |limit| ==> limit[i] >= usage[i])
    ensures |limit| > 0 ==> TotalReal(score, |score|) > 0.0
    ensures memory > 0.0 && |limit| > 0 ==> Ranked(usage, score, limit) && EachItsPart(usage, score, memory, limit)
    ensures memory > 0.0 && |limit| > 0 && Plenty(usage, score, memory) ==>
              Total(limit, |limit|) as real > memory - 2.0 * |limit| as real
    ensures |limit| > 0 ==> ArePasses(usage, score, memory, rounds) && IsLeftOver(score, rounds[|rounds| - 1], limit)
  {
    if |usage| == 0 {
      return [], [];
    }
    var total := TotalReal(score, |score|);
    TotalIsPositive(score, |score|);
    var alloc, free;
    ghost var left;
    alloc, free, left, rounds := Distribute(usage, score, memory);
    var share := ShareOfEach(free, score, total);
    limit := Plus(alloc, share);
    LimitsAreFair(usage, score, memory, alloc, free, limit);
    LeftOverIs(score, rounds[|rounds| - 1], limit);
    PlentyIsHandedOut(usage, score, memory);
  }

  /** What the while loop leaves for the last loop. */
  ghost predicate Distributed(usage: seq<nat>, score: seq<real>, memory: real, alloc: seq<int>, free: real)
    requires |usage| == |score| && TotalReal(score, |score|) > 0.0
  {
    && |alloc| == |usage| && Total(alloc, |alloc|) as real + free <= memory
    && (memory <= 0.0 ==> free == memory && forall i :: 0 <= i < |alloc| ==> alloc[i] == 0)
    && (memory > 0.0 ==> free >= 0.0)
    && (memory > 0.0 ==> FairlyLeft(usage, score, ShareOfEach(memory, score, TotalReal(score, |score|)), alloc, free))
  }

  ghost predicate FairlyLeft(usage: seq<nat>, score: seq<real>, first: seq<int>, alloc: seq<int>, free: real)
    requires |usage| == |score| == |first|
  {
    exists left :: (free > 0.0 ==> left == {}) && Fair(usage, score, first, alloc, left)
  }

  lemma LimitsAreFair(usage: seq<nat>, score: seq<real>, memory: real, alloc: seq<int>, free: real, limit: seq<int>)
    requires |usage| == |score| && Positive(score) && TotalReal(score, |score|) > 0.0
    requires Distributed(usage, score, memory, alloc, free)
    requires limit == Plus(alloc, ShareOfEach(free, score, TotalReal(score, |score|)))
    ensures Total(limit, |limit|) as real <= memory
    ensures || (forall i :: 0 <= i < |limit| ==> limit[i] <= usage[i])
            || (forall i :: 0 <= i < |limit| ==> limit[i] >= usage[i])
    ensures memory > 0.0 ==> Ranked(usage, score, limit) && EachItsPart(usage, score, memory, limit)
  {
    var total := TotalReal(score, |score|);
    var share := ShareOfEach(free, score, total);
    AllSharesFit(free, score);
    TotalOfSums(alloc, share, limit, |limit|);
    if memory > 0.0 {
      SharesAreGood(free, score, total);
      var first := ShareOfEach(memory, score, total);
      var left :| (free > 0.0 ==> left == {}) && Fair(usage, score, first, alloc, left);
      if free == 0.0 {
        NegativeShares(free, score, total);
      }
      LastShares(usage, score, first, alloc, share, limit, left, free == 0.0);
      EachGetsPart(usage, score, memory, limit);
    } else {
      NegativeShares(free, score, total);
    }
  }

  /** Each container gets what it uses, or its part of the memory but for rounding. */
  ghost predicate EachItsPart(usage: seq<nat>, score: seq<real>, memory: real, limit: seq<int>)
    requires |usage| == |score| == |limit| && TotalReal(score, |score|) > 0.0
  {
    forall i :: 0 <= i < |limit| ==> limit[i] >= usage[i] || limit[i] as real > Part(memory, score, i) - 1.0
  }

  lemma EachGetsPart(usage: seq<nat>, score: seq<real>, memory: real, limit: seq<int>)
    requires |usage| == |score| == |limit| && TotalReal(score, |score|) > 0.0
    requires EachItsShare(usage, ShareOfEach(memory, score, TotalReal(score, |score|)), limit)
    ensures EachItsPart(usage, score, memory, limit)
  {
    SharesAreRounded(memory, score);
  }

  /** Everybody's part reaches what is used. */
  ghost predicate Plenty(usage: seq<nat>, score: seq<real>, memory: real)
    requires |usage| == |score| && TotalReal(score, |score|) > 0.0
  {
    forall i :: 0 <= i < |usage| ==> Part(memory, score, i) >= usage[i] as real
  }

  lemma {:induction false} PlentyIs(usage: seq<nat>, score: seq<real>, memory: real, n: nat)
    requires |usage| == |score| && TotalReal(score, |score|) > 0.0 && Plenty(usage, score, memory) && n <= |usage|
    ensures Reaches(ShareOfEach(memory, score, TotalReal(score, |score|)), usage, n)
  {
    if n > 0 {
      PlentyIs(usage, score, memory, n - 1);
      SharesAreRounded(memory, score);
      WholeReaches(ShareOfEach(memory, score, TotalReal(score, |score|))[n - 1], Part(memory, score, n - 1),
                   usage[n - 1]);
    }
  }

  lemma WholeReaches(whole: int, x: real, n: int)
    requires x >= n as real && x < whole as real + 1.0
    ensures whole >= n
  {
  }

  /** The first n shares reach what is used. */
  ghost predicate Reaches(share: seq<int>, usage: seq<nat>, n: nat) {
    |share| == |usage| && n <= |usage| && (n == 0 || (share[n - 1] >= usage[n - 1] && Reaches(share, usage, n - 1)))
  }

  lemma {:induction false} ReachesAll(share: seq<int>, usage: seq<nat>, n: nat)
    requires Reaches(share, usage, n)
    ensures forall i :: 0 <= i < n ==> share[i] >= usage[i]
  {
    if n > 0 {
      ReachesAll(share, usage, n - 1);
    }
  }

  /** Then what is left is handed out as well, and only rounding loses memory, twice. */
  lemma PlentyIsHandedOut(usage: seq<nat>, score: seq<real>, memory: real)
    requires |usage| == |score| > 0 && Positive(score) && TotalReal(score, |score|) > 0.0
    ensures memory > 0.0 && Plenty(usage, score, memory) ==>
              Total(Limits(usage, score, memory), |usage|) as real > memory - 2.0 * |usage| as real
  {
    if memory > 0.0 && Plenty(usage, score, memory) {
      PlentyIs(usage, score, memory, |usage|);
      OnePass(usage, ShareOfEach(memory, score, TotalReal(score, |score|)));
      AllIsHandedOut(usage, score, memory);
    }
  }

  lemma AllIsHandedOut(usage: seq<nat>, score: seq<real>, memory: real)
    requires |usage| == |score| > 0 && Positive(score) && memory > 0.0 && TotalReal(score, |score|) > 0.0
    requires GivesAll(usage, ShareOfEach(memory, score, TotalReal(score, |score|)))
    ensures Total(Limits(usage, score, memory), |usage|) as real > memory - 2.0 * |usage| as real
  {
    var total := TotalReal(score, |score|);
    var zeros, names, share := Zeros(|usage|), Below(|usage|), ShareOfEach(memory, score, total);
    AfterOnePass(usage, score, total, memory, zeros, names, share);
    LimitsOfOnePass(usage, score, memory, Excess(usage, share, zeros, names, |usage|));
  }

  lemma LimitsOfOnePass(usage: seq<nat>, score: seq<real>, memory: real, free: int)
    requires |usage| == |score| > 0 && Positive(score) && TotalReal(score, |score|) > 0.0
    requires Passes(usage, score, TotalReal(score, |score|), memory, Zeros(|usage|), Below(|usage|)) ==
             (usage, free as real)
    requires free == Total(ShareOfEach(memory, score, TotalReal(score, |score|)), |usage|) - Total(usage, |usage|)
    ensures Total(Limits(usage, score, memory), |usage|) as real > memory - 2.0 * |usage| as real
  {
    var n := |usage|;
    var rest := ShareOfEach(free as real, score, TotalReal(score, n));
    LimitsAre(usage, score, memory, usage, free as real);
    PlusTotal(usage, rest);
    LittleIsLost(memory, score);
    LittleIsLost(free as real, score);
  }

  lemma PlusTotal(a: seq<int>, b: seq<int>)
    requires |a| == |b|
    ensures Total(Plus(a, b), |a|) == Total(a, |a|) + Total(b, |a|)
  {
    TotalOfSums(a, b, Plus(a, b), |a|);
  }

  lemma LimitsAre(usage: seq<nat>, score: seq<real>, memory: real, alloc: seq<int>, free: real)
    requires |usage| == |score| > 0 && Positive(score) && TotalReal(score, |score|) > 0.0 && |alloc| == |usage|
    requires Passes(usage, score, TotalReal(score, |score|), memory, Zeros(|usage|), Below(|usage|)) == (alloc, free)
    ensures Limits(usage, score, memory) == Plus(alloc, ShareOfEach(free, score, TotalReal(score, |score|)))
  {
  }

  /** Rounding loses less than one for each container. */
  lemma LittleIsLost(free: real, score: seq<real>)
    requires score != [] && TotalReal(score, |score|) > 0.0
    ensures Total(ShareOfEach(free, score, TotalReal(score, |score|)), |score|) as real > free - |score| as real
  {
    RoundedBelow(free, score, TotalReal(score, |score|), |score|);
    ExactIsAll(free, score);
  }

  ghost predicate GivesAll(usage: seq<nat>, share: seq<int>) {
    var n, names, zeros := |usage|, Below(|usage|), Zeros(|usage|);
    && |share| == |usage| && names != {}
    && Given(usage, share, zeros, names) == usage && Hungry(usage, usage, names) == {}
    && Excess(usage, share, zeros, names, n) == Total(share, n) - Total(usage, n)
  }

  /** A pass that gives everybody what is used. */
  lemma OnePass(usage: seq<nat>, share: seq<int>)
    requires usage != [] && Reaches(share, usage, |usage|)
    ensures GivesAll(usage, share)
  {
    var n, names, zeros := |usage|, Below(|usage|), Zeros(|usage|);
    BelowFacts(n);
    assert 0 in names;
    ReachesAll(share, usage, n);
    AllReached(usage, share, zeros, names);
    NobodyIsHungry(usage, names);
    ExcessOfAll(usage, share, zeros, names, n);
  }

  lemma AfterOnePass(usage: seq<nat>, score: seq<real>, total: real, memory: real, alloc: seq<int>, names: set<nat>,
                     share: seq<int>)
    requires |usage| == |score| == |alloc| && memory > 0.0 && total > 0.0 && names != {}
    requires share == ShareOfEach(memory, score, total)
    requires Given(usage, share, alloc, names) == usage && Hungry(usage, usage, names) == {}
    ensures Passes(usage, score, total, memory, alloc, names) ==
            (usage, Excess(usage, share, alloc, names, |alloc|) as real)
  {
  }

  lemma AllReached(usage: seq<nat>, share: seq<int>, zeros: seq<int>, names: set<nat>)
    requires |share| == |zeros| == |usage| && forall i :: 0 <= i < |usage| ==> share[i] >= usage[i]
    requires forall i: nat :: i < |usage| ==> i in names && zeros[i] == 0
    ensures Given(usage, share, zeros, names) == usage
  {
    forall i: nat | i < |usage|
      ensures Given(usage, share, zeros, names)[i] == usage[i]
    {
      assert share[i] >= usage[i];
    }
  }

  lemma NobodyIsHungry(usage: seq<nat>, names: set<nat>)
    ensures Hungry(usage, usage, names) == {}
  {
  }

  lemma {:induction false} ExcessOfAll(usage: seq<nat>, share: seq<int>, alloc: seq<int>, names: set<nat>, n: nat)
    requires |usage| == |share| == |alloc| && n <= |alloc|
    requires forall i: nat :: i < |alloc| ==> i in names && alloc[i] == 0 && share[i] >= usage[i]
    ensures Excess(usage, share, alloc, names, n) == Total(share, n) - Total(usage, n)
  {
    if n > 0 {
      ExcessOfAll(usage, share, alloc, names, n - 1);
    }
  }

  ghost predicate EachItsShare(usage: seq<nat>, share: seq<int>, limit: seq<int>)
    requires |usage| == |share| == |limit|
  {
    forall i :: 0 <= i < |limit| ==> limit[i] >= Min(usage[i], share[i])
  }

  /** What is left at the end is shared out among containers that have all they use. */
  lemma LastShares(usage: seq<nat>, score: seq<real>, first: seq<int>, alloc: seq<int>, share: seq<int>,
                   limit: seq<int>,
                   left: set<nat>, nothing: bool)
    requires |usage| == |score| == |first| == |alloc| == |limit| && GoodShares(score, share)
    requires if nothing then forall i :: 0 <= i < |share| ==> share[i] <= 0 else left == {}
    requires Fair(usage, score, first, alloc, left)
    requires forall i :: 0 <= i < |limit| ==> limit[i] == alloc[i] + share[i]
    ensures Ranked(usage, score, limit) && EachItsShare(usage, first, limit)
    ensures || (forall i :: 0 <= i < |limit| ==> limit[i] <= usage[i])
            || (forall i :: 0 <= i < |limit| ==> limit[i] >= usage[i])
  {
    if nothing {
      assert limit == alloc;
    }
  }

  lemma NegativeShares(free: real, score: seq<real>, total: real)
    requires total > 0.0 && free <= 0.0 && Positive(score)
    ensures forall i :: 0 <= i < |score| ==> ShareOfEach(free, score, total)[i] <= 0
  {
    forall i | 0 <= i < |score|
      ensures ShareOfEach(free, score, total)[i] <= 0
    {
      assert free * score[i] <= 0.0;
      assert free * score[i] / total <= 0.0;
    }
  }
}
