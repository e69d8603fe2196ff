/** UserPool and NetworkMgr of src/master/network.py. */
module Networks {
  import opened Address
  import opened FreeBlocks
  import opened IntervalPools
  import opened Sequences

  datatype Block = Block(addr: int, bits: int)

  ghost predicate In(x: int, b: Block)
  {
    b.bits <= 32 && Align(x, b.bits) == b.addr
  }

  // ----- the cluster network is divided up

  /** Who has a block: the system pool, a user, or nobody (a block lost by add_user). */
  datatype Holder = System | User(name: string) | Lost(block: Block)

  type Holdings = map<Holder, Block>

  ghost predicate Holds(held: Holdings, h: Holder, x: int) {
    h in held && In(x, held[h])
  }

  ghost predicate SomebodyHolds(held: Holdings, x: int) {
    exists h :: Holds(held, h, x)
  }

  ghost predicate InNetwork(x: int, base: int, bits: int) {
    bits <= 32 && Align(x, bits) == base
  }

  ghost predicate GoodBlock(b: Block, base: int, bits: int) {
    bits <= b.bits <= 32 && Align(b.addr, b.bits) == b.addr && InNetwork(b.addr, base, bits)
  }

  /** Every address of the network is free or in exactly one held block. */
  ghost predicate Partition(p: Levels, base: int, bits: int, held: Holdings) {
    && (forall h :: h in held ==> GoodBlock(held[h], base, bits))
    && (forall h, x :: Holds(held, h, x) ==> !IsFree(p, x))
    && (forall h, k, x :: Holds(held, h, x) && Holds(held, k, x) ==> h == k)
    && (forall x :: InNetwork(x, base, bits) ==> IsFree(p, x) || SomebodyHolds(held, x))
  }

  lemma Take(p: Levels, q: Levels, base: int, bits: int, held: Holdings, h: Holder, b: Block)
    requires Shape(p, base, bits) && Partition(p, base, bits, held) && h !in held
    requires bits <= b.bits <= 32 && Align(b.addr, b.bits) == b.addr && WhollyFree(p, b.addr, b.bits)
    requires Removed(p, q, b.addr, b.bits)
    ensures Partition(q, base, bits, held[h := b])
  {
    FreeInPool(p, base, bits, b.addr);
    var held' := held[h := b];
    forall k, x
      ensures Holds(held', k, x) <==> Holds(held, k, x) || (k == h && In(x, b))
      ensures In(x, b) ==> IsFree(p, x)
    {
    }
    forall x | InNetwork(x, base, bits)
      ensures IsFree(q, x) || SomebodyHolds(held', x)
    {
      if SomebodyHolds(held, x) {
        var k :| Holds(held, k, x);
        assert Holds(held', k, x);
      }
      assert In(x, b) ==> Holds(held', h, x);
    }
  }

  /** A held block is always accepted back. */
  lemma GiveBack(p: Levels, q: Levels, base: int, bits: int, held: Holdings, h: Holder)
    requires Partition(p, base, bits, held) && h in held && held[h].bits <= 32
    ensures Disjoint(p, held[h].addr, held[h].bits)
    ensures Added(p, q, held[h].addr, held[h].bits) ==> Partition(q, base, bits, held - {h})
  {
    var held' := held - {h};
    forall k, x
      ensures Holds(held', k, x) <==> Holds(held, k, x) && k != h
    {
    }
    forall x | Align(x, held[h].bits) == held[h].addr
      ensures !IsFree(p, x)
    {
      assert Holds(held, h, x);
    }
    if Added(p, q, held[h].addr, held[h].bits) {
      forall k, x | Holds(held', k, x)
        ensures !IsFree(q, x)
      {
        assert Align(x, held[h].bits) == held[h].addr ==> Holds(held, h, x);
      }
      forall x | InNetwork(x, base, bits)
        ensures IsFree(q, x) || SomebodyHolds(held', x)
      {
        if SomebodyHolds(held, x) {
          var k :| Holds(held, k, x);
          assert k != h ==> Holds(held', k, x);
        }
      }
    }
  }

  // ----- the addresses of one user

  /** What dump_user writes for a user. */
  datatype UserData = UserData(addr: int, bits: int, gateway: int, pool: seq<int>)

  /** Can be handed to a container: not the network address, the gateway or the broadcast address. */
  ghost predicate Assignable(d: UserData, ip: int)
    requires d.bits <= 32
  {
    d.addr + 2 <= ip <= d.addr + Size(d.bits) - 2
  }

  ghost predicate GoodUser(d: UserData) {
    && d.bits <= 30 && Align(d.addr, d.bits) == d.addr && d.gateway == d.addr + 1
    && NoRepeats(d.pool)
    && forall ip :: ip in d.pool ==> Assignable(d, ip)
  }

  /** Assignable are the addresses of the block but three. */
  lemma AssignableIsInside(d: UserData, ip: int)
    requires d.bits <= 30 && Align(d.addr, d.bits) == d.addr
    ensures Assignable(d, ip) <==>
            In(ip, Block(d.addr, d.bits)) && ip != d.addr && ip != d.addr + 1 && ip != d.addr + Size(d.bits) - 1
  {
    BlockIsInterval(ip, d.addr, d.bits);
  }

  lemma DistinctConcat(s: seq<int>, t: seq<int>)
    requires forall x :: x in t ==> x !in s
    ensures NoRepeats(s + t) <==> NoRepeats(s) && NoRepeats(t)
  {
    if NoRepeats(s + t) {
      forall i, j | 0 <= i < j < |s|
        ensures s[i] != s[j]
      {
        assert (s + t)[i] != (s + t)[j];
      }
      forall i, j | 0 <= i < j < |t|
        ensures t[i] != t[j]
      {
        assert (s + t)[|s| + i] != (s + t)[|s| + j];
      }
    }
    if NoRepeats(s) && NoRepeats(t) {
      forall i, j | 0 <= i < j < |s + t|
        ensures (s + t)[i] != (s + t)[j]
      {
        if i < |s| <= j {
          assert t[j - |s|] in t;
        }
      }
    }
  }

  lemma AcquiredSplits(was: seq<int>, rest: seq<int>, result: seq<int>)
    requires NoRepeats(was) && |was| == |rest| + |result| && rest == was[..|rest|]
    requires forall k :: 0 <= k < |result| ==> result[k] == was[|was| - 1 - k]
    ensures NoRepeats(rest) && NoRepeats(result)
    ensures forall ip :: ip in was <==> ip in rest || ip in result
    ensures forall ip :: ip in result ==> ip !in rest
  {
    forall ip | ip in was
      ensures ip in rest || ip in result
    {
      var i :| 0 <= i < |was| && was[i] == ip;
      assert i >= |rest| ==> result[|was| - 1 - i] == ip;
      assert i < |rest| ==> rest[i] == ip;
    }
  }

  class UserPool {
    const addr: int
    const bits: int
    var gateway: int
    var pool: seq<int>

    function Data(): UserData
      reads this
    {
      UserData(addr, bits, gateway, pool)
    }

    /** All addresses of the block but the first and the last; the lowest becomes the gateway. */
    constructor (addr: int, cidr: int)
      requires cidr <= 30 && Align(addr, cidr) == addr
      ensures GoodUser(Data()) && this.addr == addr && this.bits == cidr
      ensures forall ip :: ip in pool <==> Assignable(Data(), ip)
      ensures |pool| == Size(cidr) - 3
    {
      this.addr := addr;
      this.bits := cidr;
      this.pool := [];
      this.gateway := 0;
      new;
      assert Size(cidr) == 2 * Size(cidr + 1) && Size(cidr + 1) == 2 * Size(cidr + 2);
      for i := 1 to Size(cidr) - 1
        invariant |pool| == i - 1
        invariant forall k :: 0 <= k < i - 1 ==> pool[k] == addr + 1 + k
      {
        pool := pool + [addr + i];
      }
      ghost var all := pool;
      gateway := pool[0];
      pool := pool[1..];
      forall ip
        ensures ip in pool <==> Assignable(Data(), ip)
      {
        assert Assignable(Data(), ip) ==> pool[ip - addr - 2] == ip;
      }
    }

    /** The pool as it was saved by dump_user. */
    constructor Copy(d: UserData)
      ensures Data() == d
    {
      addr := d.addr;
      bits := d.bits;
      gateway := d.gateway;
      pool := d.pool;
    }

    /** Hands out addresses from the end of the list, last first; all that were asked for or none. */
    method Acquire(num: int) returns (ok: bool, result: seq<int>)
      modifies this`pool
      ensures ok <==> num <= |old(pool)|
      ensures !ok ==> pool == old(pool) && result == []
      ensures ok ==> |result| == if num < 0 then 0 else num
      ensures ok ==> |pool| + |result| == |old(pool)| && pool == old(pool)[..|pool|]
      ensures ok ==> forall k :: 0 <= k < |result| ==> result[k] == old(pool)[|old(pool)| - 1 - k]
    {
      result := [];
      if num > |pool| {
        return false, result;
      }
      ghost var was := pool;
      var i := 0;
      while i < num
        invariant 0 <= i && (i <= num || i == 0) && |result| == i
        invariant |pool| == |was| - i && pool == was[..|pool|]
        invariant forall k :: 0 <= k < i ==> result[k] == was[|was| - 1 - k]
      {
        result := result + [pool[|pool| - 1]];
        pool := pool[..|pool| - 1];
        i := i + 1;
      }
      ok := true;
    }

    /** Whether the address is in the block and not the network address, the gateway or the broadcast address. */
    method InRange(ip: int) returns (r: bool)
      requires bits <= 30
      ensures r <==> Assignable(Data(), ip)
      ensures Align(addr, bits) == addr ==>
                (r <==> In(ip, Block(addr, bits)) && ip != addr && ip != addr + 1 && ip != addr + Size(bits) - 1)
    {
      if Align(addr, bits) == addr {
        AssignableIsInside(Data(), ip);
      }
      r := addr + 2 <= ip <= addr + Size(bits) - 2;
    }

    /** Takes addresses back if every one of them is missing from the list and may be in it. */
    method Release(ips: seq<int>) returns (ok: bool)
      requires bits <= 30
      modifies this`pool
      ensures ok <==> forall ip :: ip in ips ==> ip !in old(pool) && Assignable(old(Data()), ip)
      ensures pool == if ok then old(pool) + ips else old(pool)
    {
      for i := 0 to |ips|
        invariant pool == old(pool)
        invariant forall ip :: ip in ips[..i] ==> ip !in pool && Assignable(Data(), ip)
      {
        var inRange := InRange(ips[i]);
        if ips[i] in pool || !inRange {
          assert ips[i] in ips;
          return false;
        }
      }
      ghost var was := pool;
      for i := 0 to |ips|
        invariant pool == was + ips[..i]
      {
        pool := pool + [ips[i]];
      }
      ok := true;
    }
  }

  // ----- NetworkMgr

  /** A network of its own free blocks has room for a smaller block. */
  lemma NewPoolHasRoom(p: Levels, base: int, bits: int, c: int)
    requires ValidLevels(p, base, bits) && Align(base, bits) == base && bits <= c <= 32
    requires forall x :: IsFree(p, x) <==> Align(x, bits) == base
    ensures HasFreeBlock(p, c)
  {
    AlignedFinest(base, bits, c);
    forall x | Align(x, c) == base
      ensures IsFree(p, x)
    {
      Nested(x, c, bits);
    }
    assert WhollyFree(p, base, c);
  }

  /** The state of the network manager, with the blocks that add_user lost and who has which block. */
  datatype State = State(base: int, bits: int, pool: Levels, system: int, users: map<string, UserData>,
                         lost: set<Block>, held: Holdings)
  {
    ghost predicate IsHolder(h: Holder) {
      match h
      case System => true
      case User(u) => u in users
      case Lost(b) => b in lost
    }

    ghost predicate HasBlock(h: Holder, b: Block) {
      match h
      case System => b == Block(system, SYSTEM_BITS)
      case User(u) => u in users && b == Block(users[u].addr, users[u].bits)
      case Lost(l) => b == l
    }

    /** The free blocks, the system's /27, the blocks of the users and the lost blocks partition the network. */
    ghost predicate Inv() {
      && ValidLevels(pool, base, bits)
      && Partition(pool, base, bits, held)
      && Recorded()
    }

    /** `held` says who has which block in the state. */
    ghost predicate Recorded() {
      && (forall h :: h in held <==> IsHolder(h))
      && (forall h :: h in held ==> HasBlock(h, held[h]))
      && (forall u :: u in users ==> GoodUser(users[u]))
    }
  }

  const SYSTEM_BITS: int := 27

  lemma RecordUser(s: State, q: Levels, name: string, d: UserData)
    requires s.Recorded() && GoodUser(d) && d.bits <= 32
    ensures s.(pool := q, users := s.users[name := d], held := s.held[User(name) := Block(d.addr, d.bits)]).Recorded()
  {
    var t := s.(pool := q, users := s.users[name := d], held := s.held[User(name) := Block(d.addr, d.bits)]);
    assert forall h :: t.IsHolder(h) <==> s.IsHolder(h) || h == User(name);
    assert forall h, b :: h != User(name) ==> (t.HasBlock(h, b) <==> s.HasBlock(h, b));
  }

  lemma RecordLost(s: State, q: Levels, b: Block)
    requires s.Recorded()
    ensures s.(pool := q, lost := s.lost + {b}, held := s.held[Lost(b) := b]).Recorded()
  {
    var t := s.(pool := q, lost := s.lost + {b}, held := s.held[Lost(b) := b]);
    assert forall h :: t.IsHolder(h) <==> s.IsHolder(h) || h == Lost(b);
    assert forall h, b :: t.HasBlock(h, b) <==> s.HasBlock(h, b);
  }

  lemma RecordGone(s: State, q: Levels, name: string)
    requires s.Recorded()
    ensures s.(pool := q, users := s.users - {name}, held := s.held - {User(name)}).Recorded()
  {
    var t := s.(pool := q, users := s.users - {name}, held := s.held - {User(name)});
    assert forall h :: t.IsHolder(h) <==> s.IsHolder(h) && h != User(name);
    assert forall h, b :: h != User(name) ==> (t.HasBlock(h, b) <==> s.HasBlock(h, b));
  }

  lemma UserIsHolder(s: State, name: string)
    requires s.Recorded() && name in s.users
    ensures User(name) in s.held && s.held[User(name)] == Block(s.users[name].addr, s.users[name].bits)
    ensures GoodUser(s.users[name])
  {
    assert s.IsHolder(User(name));
  }

  lemma TakeForUser(s: State, q: Levels, name: string, d: UserData)
    requires s.Inv() && name !in s.users && GoodUser(d) && s.bits <= d.bits
    requires WhollyFree(s.pool, d.addr, d.bits) && ValidLevels(q, s.base, s.bits) && Removed(s.pool, q, d.addr, d.bits)
    ensures s.(pool := q, users := s.users[name := d], held := s.held[User(name) := Block(d.addr, d.bits)]).Inv()
  {
    assert !s.IsHolder(User(name));
    RecordUser(s, q, name, d);
    Take(s.pool, q, s.base, s.bits, s.held, User(name), Block(d.addr, d.bits));
  }

  lemma TakeAndLose(s: State, q: Levels, b: Block)
    requires s.Inv() && s.bits <= b.bits <= 32 && Align(b.addr, b.bits) == b.addr
    requires WhollyFree(s.pool, b.addr, b.bits) && ValidLevels(q, s.base, s.bits) && Removed(s.pool, q, b.addr, b.bits)
    ensures b !in s.lost
    ensures s.(pool := q, lost := s.lost + {b}, held := s.held[Lost(b) := b]).Inv()
  {
    assert IsFree(s.pool, b.addr);
    assert s.IsHolder(Lost(b)) ==> Holds(s.held, Lost(b), b.addr);
    RecordLost(s, q, b);
    Take(s.pool, q, s.base, s.bits, s.held, Lost(b), b);
  }

  lemma TakeBack(s: State, q: Levels, name: string)
    requires s.Inv() && name in s.users
    ensures var d := s.users[name];
      && GoodUser(d) && GoodBlock(Block(d.addr, d.bits), s.base, s.bits)
      && Disjoint(s.pool, d.addr, d.bits)
      && (ValidLevels(q, s.base, s.bits) && Added(s.pool, q, d.addr, d.bits) ==>
          s.(pool := q, users := s.users - {name}, held := s.held - {User(name)}).Inv())
  {
    UserIsHolder(s, name);
    RecordGone(s, q, name);
    GiveBack(s.pool, q, s.base, s.bits, s.held, User(name));
  }

  /** The center takes the user's block, which is not free, for one that is. */
  ghost predicate Refused(s: State, name: string) {
    && name in s.users && 0 <= s.bits <= 32 && 0 <= s.users[name].bits <= 32
    && OverlapAnswer(s.pool, s.bits, s.users[name].addr, s.users[name].bits)
  }

  /** The state without the user; `q` are the free blocks if the center takes the block back, else it is lost. */
  ghost function Deleted(s: State, name: string, q: Levels): State {
    if name !in s.users then s
    else
      var b := Block(s.users[name].addr, s.users[name].bits);
      if Refused(s, name) then
        s.(users := s.users - {name}, lost := s.lost + {b}, held := (s.held - {User(name)})[Lost(b) := b])
      else s.(pool := q, users := s.users - {name}, held := s.held - {User(name)})
  }

  lemma BlockComesBack(s: State, name: string)
    requires s.Inv() && name in s.users
    ensures var d := s.users[name];
      && d.bits <= 30 && GoodBlock(Block(d.addr, d.bits), s.base, s.bits) && Disjoint(s.pool, d.addr, d.bits)
      && Align(d.addr, d.bits) == d.addr
  {
    TakeBack(s, s.pool, name);
  }

  lemma DeletedKeeps(s: State, name: string, q: Levels)
    requires s.Inv() && name in s.users && s.users[name].bits <= 32
    requires if Refused(s, name) then q == s.pool
             else ValidLevels(q, s.base, s.bits) && Added(s.pool, q, s.users[name].addr, s.users[name].bits)
    ensures Deleted(s, name, q).Inv() && Deleted(s, name, q).pool == q
    ensures s.base + Size(s.bits) < ADDRESS_SPACE ==> !Refused(s, name)
  {
    BlockComesBack(s, name);
    if s.base + Size(s.bits) < ADDRESS_SPACE {
      OverlapExact(s.pool, s.base, s.bits, s.users[name].addr, s.users[name].bits);
    }
    if Refused(s, name) {
      LoseBlock(s, name);
    } else {
      TakeBack(s, q, name);
    }
  }

  /** A block that is not taken back stays held by nobody. */
  lemma LoseBlock(s: State, name: string)
    requires s.Inv() && name in s.users
    ensures var b := Block(s.users[name].addr, s.users[name].bits);
      b !in s.lost &&
      s.(users := s.users - {name}, lost := s.lost + {b}, held := (s.held - {User(name)})[Lost(b) := b]).Inv()
  {
    UserIsHolder(s, name);
    var b := Block(s.users[name].addr, s.users[name].bits);
    assert In(b.addr, b) && Holds(s.held, User(name), b.addr);
    assert s.IsHolder(Lost(b)) ==> Holds(s.held, Lost(b), b.addr);
    RecordGone(s, s.pool, name);
    var gone := s.(users := s.users - {name}, held := s.held - {User(name)});
    assert gone.Recorded() by {
      assert gone == s.(pool := s.pool, users := s.users - {name}, held := s.held - {User(name)});
    }
    RecordLost(gone, s.pool, b);
    HolderChanges(s.pool, s.base, s.bits, s.held, User(name), Lost(b));
  }

  /** A block may change hands. */
  lemma HolderChanges(p: Levels, base: int, bits: int, held: Holdings, h: Holder, k: Holder)
    requires Partition(p, base, bits, held) && h in held && k !in held
    ensures Partition(p, base, bits, (held - {h})[k := held[h]])
  {
    var held' := (held - {h})[k := held[h]];
    SameHolders(held, held', h, k);
    assert forall l :: l in held' ==> held'[l] == if l == k then held[h] else held[l];
    forall l, m, x | Holds(held', l, x) && Holds(held', m, x)
      ensures l == m
    {
      assert Holds(held, if l == k then h else l, x) && Holds(held, if m == k then h else m, x);
    }
    forall l, x | Holds(held', l, x)
      ensures !IsFree(p, x)
    {
      assert Holds(held, if l == k then h else l, x);
    }
  }

  lemma SameHolders(held: Holdings, held': Holdings, h: Holder, k: Holder)
    requires h in held && k !in held && held' == (held - {h})[k := held[h]]
    ensures forall l, x :: Holds(held', l, x) <==> if l == k then Holds(held, h, x) else l != h && Holds(held, l, x)
    ensures forall x :: SomebodyHolds(held, x) ==> SomebodyHolds(held', x)
  {
    forall x | SomebodyHolds(held, x)
      ensures SomebodyHolds(held', x)
    {
      var l :| Holds(held, l, x);
      assert Holds(held', if l == h then k else l, x);
    }
  }

  lemma ChangePool(s: State, name: string, pool: seq<int>)
    requires s.Inv() && name in s.users
    ensures s.(users := s.users[name := s.users[name].(pool := pool)]).Inv() <==> GoodUser(s.users[name].(pool := pool))
  {
    ChangeRecorded(s, name, pool);
  }

  lemma ChangeRecorded(s: State, name: string, pool: seq<int>)
    requires s.Recorded() && name in s.users
    ensures s.(users := s.users[name := s.users[name].(pool := pool)]).Recorded() <==>
              GoodUser(s.users[name].(pool := pool))
  {
    var t := s.(users := s.users[name := s.users[name].(pool := pool)]);
    assert forall h, b :: t.HasBlock(h, b) <==> s.HasBlock(h, b);
    assert forall h :: t.IsHolder(h) <==> s.IsHolder(h);
    assert t.users[name] == s.users[name].(pool := pool);
  }

  lemma InitialState(p: Levels, q: Levels, base: int, bits: int, sys: int)
    requires ValidLevels(p, base, bits) && ValidLevels(q, base, bits) && bits <= SYSTEM_BITS
    requires forall x :: IsFree(p, x) <==> Align(x, bits) == base
    requires Align(sys, SYSTEM_BITS) == sys && WhollyFree(p, sys, SYSTEM_BITS) && Removed(p, q, sys, SYSTEM_BITS)
    ensures State(base, bits, q, sys, map[], {}, map[System := Block(sys, SYSTEM_BITS)]).Inv()
  {
    Take(p, q, base, bits, map[], System, Block(sys, SYSTEM_BITS));
  }

  /** No address is in the blocks of two users, and none in a user's block is free. */
  lemma UsersNeverMeet(s: State, u: string, v: string, x: int)
    requires s.Inv() && u in s.users && v in s.users
    requires In(x, Block(s.users[u].addr, s.users[u].bits)) && In(x, Block(s.users[v].addr, s.users[v].bits))
    ensures u == v
    ensures !IsFree(s.pool, x) && !In(x, Block(s.system, SYSTEM_BITS))
  {
    assert User(u) in s.held && User(v) in s.held && System in s.held;
    assert Holds(s.held, User(u), x) && Holds(s.held, User(v), x);
    assert In(x, Block(s.system, SYSTEM_BITS)) ==> Holds(s.held, System, x);
  }

  class NetworkMgr {
    var center: IntervalPool
    const system: int
    /** etcd: what dump_center and dump_user have written */
    var savedCenter: Levels
    var users: map<string, UserData>
    /** the same in one value, with the blocks that were lost and who holds which */
    ghost var now: State

    ghost predicate Valid()
      reads this, center
    {
      && center.Valid() && savedCenter == center.pool
      && now == State(center.base, center.bits, center.pool, system, users, now.lost, now.held) && now.Inv()
    }

    /** mode 'new'; a network with no room for the system's /27 makes the source exit. */
    constructor (addr: int, cidr: int)
      requires 0 <= addr < ADDRESS_SPACE && 0 <= cidr <= SYSTEM_BITS
      ensures Valid() && fresh(center)
      ensures users == map[] && now.lost == {}
      ensures center.base == Align(addr, cidr) && center.bits == cidr
    {
      var c := new IntervalPool(addr, cidr);
      ghost var all := c.pool;
      NewPoolHasRoom(c.pool, c.base, cidr, SYSTEM_BITS);
      var ok, sys := c.Allocate(SYSTEM_BITS);
      InitialState(all, c.pool, c.base, c.bits, sys);
      center, system, savedCenter, users := c, sys, c.pool, map[];
      now := State(c.base, c.bits, c.pool, sys, map[], {}, map[System := Block(sys, SYSTEM_BITS)]);
    }

    /** mode 'recovery': the manager read back from etcd is the manager as it was. */
    constructor Recover(was: NetworkMgr)
      requires was.Valid()
      ensures Valid() && fresh(center)
      ensures now == was.now
    {
      center := new IntervalPool.Copy(was.center.base, was.center.bits, was.savedCenter);
      system, savedCenter, users := was.system, was.savedCenter, was.users;
      now := was.now;
    }

    /** Gives a new user a block of the asked length.  For the lengths 31 and 32 a free block is taken and
        then lost: building the user's pool raises, and nothing gives the block back. */
    method AddUser(name: string, cidr: int) returns (ok: bool)
      requires Valid()
      modifies this, center
      ensures Valid() && center == old(center) && center.bits == old(center.bits)
      ensures ok <==> name !in old(users) && center.bits <= cidr <= 30 && HasFreeBlock(old(center.pool), cidr)
      ensures ok ==> name in users && users == old(users)[name := users[name]]
      ensures !ok ==> users == old(users)
      ensures ok ==> users[name].bits == cidr && |users[name].pool| == Size(cidr) - 3
      ensures ok ==> WhollyFree(old(center.pool), users[name].addr, cidr)
      ensures ok ==> Removed(old(center.pool), center.pool, users[name].addr, cidr)
      ensures ok ==> forall ip :: ip in users[name].pool <==> Assignable(users[name], ip)
      ensures now.lost != old(now.lost) <==>
                name !in old(users) && 31 <= cidr <= 32 && center.bits <= cidr && HasFreeBlock(old(center.pool), cidr)
      ensures old(now.lost) <= now.lost
    {
      if name in users {
        return false;
      }
      var got, addr := center.Allocate(cidr);
      savedCenter := center.pool;
      if !got {
        return false;
      }
      ghost var b := Block(addr, cidr);
      if cidr > 30 {
        TakeAndLose(now, center.pool, b);
        now := now.(pool := center.pool, lost := now.lost + {b}, held := now.held[Lost(b) := b]);
        return false;
      }
      var user := new UserPool(addr, cidr);
      TakeForUser(now, center.pool, name, user.Data());
      users := users[name := user.Data()];
      now := now.(pool := center.pool, users := users, held := now.held[User(name) := b]);
      ok := true;
    }

    /** Takes the user's block back.  The source does not check that the free succeeds: it does, except in a network
        that ends at 255.255.255.255, where overlap may find a larger block that is not there and the block is lost. */
    method DelUser(name: string) returns (ok: bool)
      requires Valid()
      modifies this, center`pool
      ensures Valid() && center == old(center)
      ensures ok <==> name in old(users)
      ensures now == if ok then Deleted(old(now), name, center.pool) else old(now)
      ensures users == old(users) - {name}
      ensures ok && !Refused(old(now), name) ==>
                Added(old(center.pool), center.pool, old(users)[name].addr, old(users)[name].bits)
      ensures center.base + Size(center.bits) < ADDRESS_SPACE ==> now.lost == old(now.lost)
    {
      if name !in users {
        return false;
      }
      var d := users[name];
      BlockComesBack(now, name);
      AddressInSpace(now.base, now.bits, d.addr);
      var freed := center.Free(d.addr, d.bits);
      DeletedKeeps(now, name, center.pool);
      now := Deleted(now, name, center.pool);
      savedCenter, users := center.pool, users - {name};
      ok := true;
    }

    method AcquireUserIps(name: string, num: int) returns (ok: bool, result: seq<int>)
      requires Valid()
      modifies this`users, this`now
      ensures now.lost == old(now.lost)
      ensures Valid()
      ensures ok <==> name in old(users) && num <= |old(users)[name].pool|
      ensures !ok ==> users == old(users) && result == []
      ensures ok ==> |result| == if num < 0 then 0 else num
      ensures ok ==> name in users && users[name].bits <= 30
      ensures ok ==> users == old(users)[name := old(users)[name].(pool := users[name].pool)]
      ensures ok ==> NoRepeats(result) && forall ip :: ip in result ==>
                ip in old(users)[name].pool && ip !in users[name].pool && Assignable(users[name], ip)
      ensures ok ==> forall ip :: ip in old(users)[name].pool <==> ip in users[name].pool || ip in result
    {
      result := [];
      if name !in users {
        return false, result;
      }
      var user := new UserPool.Copy(users[name]);
      ok, result := user.Acquire(num);
      if ok {
        AcquiredSplits(users[name].pool, user.pool, result);
      }
      ChangePool(now, name, user.pool);
      users := users[name := user.Data()];
      now := now.(users := users);
    }

    /** The test for addresses already in the list comes before all of the appends, so a list that names an
        address twice would leave it in the pool twice; nothing else can spoil the pool. */
    method ReleaseUserIps(name: string, ips: seq<int>) returns (ok: bool)
      requires Valid()
      modifies this`users, this`now
      ensures now.lost == old(now.lost)
      ensures Valid() <==> !ok || NoRepeats(ips)
      ensures name in old(users) ==> old(users)[name].bits <= 30
      ensures ok <==> name in old(users) && forall ip :: ip in ips ==>
                ip !in old(users)[name].pool && Assignable(old(users)[name], ip)
      ensures users == if ok then old(users)[name := old(users)[name].(pool := old(users)[name].pool + ips)]
                       else old(users)
    {
      if name !in users {
        return false;
      }
      var user := new UserPool.Copy(users[name]);
      ok := user.Release(ips);
      if ok {
        DistinctConcat(users[name].pool, ips);
      }
      ChangePool(now, name, user.pool);
      users := users[name := user.Data()];
      now := now.(users := users);
    }
  }

  lemma AddressInSpace(base: int, bits: int, x: int)
    requires 0 <= base && 0 <= bits <= 32 && base + Size(bits) <= ADDRESS_SPACE && Align(x, bits) == base
    requires Align(base, bits) == base
    ensures 0 <= x < ADDRESS_SPACE
  {
    BlockIsInterval(x, base, bits);
  }
}
