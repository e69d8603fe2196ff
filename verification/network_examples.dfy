/** Inputs at which NetworkMgr of src/master/network.py loses a block, or gets an address twice. */
module NetworkExamples {
  import opened Address
  import opened FreeBlocks
  import opened IntervalPools
  import opened Networks
  import opened Sequences

  /** Without users, a network has room beside the system's block. */
  lemma RoomInNewNetwork(s: State, c: int)
    requires s.Inv() && s.users == map[] && s.lost == {} && s.bits < SYSTEM_BITS <= c <= 32
    ensures HasFreeBlock(s.pool, c)
  {
    assert s.IsHolder(System) && s.HasBlock(System, s.held[System]);
    var b := Buddy(s.system, SYSTEM_BITS);
    BuddyIsOtherHalf(s.system, SYSTEM_BITS);
    AlignedFinest(b, SYSTEM_BITS, c);
    assert GoodBlock(s.held[System], s.base, s.bits);
    forall x | Align(x, c) == b
      ensures IsFree(s.pool, x)
    {
      Nested(x, c, SYSTEM_BITS);
      Nested(x, SYSTEM_BITS, SYSTEM_BITS - 1);
      Nested(x, SYSTEM_BITS - 1, s.bits);
      Nested(s.system, SYSTEM_BITS - 1, s.bits);
      Nested(b, SYSTEM_BITS - 1, s.bits);
      OnlySystemHolds(s, x);
    }
    assert WhollyFree(s.pool, b, c);
  }

  lemma OnlySystemHolds(s: State, x: int)
    requires s.Inv() && s.users == map[] && s.lost == {}
    ensures SomebodyHolds(s.held, x) ==> Align(x, SYSTEM_BITS) == s.system
  {
    forall h | Holds(s.held, h, x)
      ensures Align(x, SYSTEM_BITS) == s.system
    {
      assert s.IsHolder(h) && s.HasBlock(h, s.held[h]);
    }
  }

  /** The first user of 10.0.0.0/24 asks for a /31. */
  method AddUserLosesBlock() returns (net: NetworkMgr, ok: bool)
    ensures fresh(net) && net.Valid() && !ok && net.now.lost != {}
  {
    net := new NetworkMgr(0x0A00_0000, 24);
    RoomInNewNetwork(net.now, 31);
    ok := net.AddUser("user", 31);
  }

  /** An address that is given back twice in one call is in the pool twice. */
  method ReleasedTwice() returns (net: NetworkMgr, ok: bool)
    ensures fresh(net) && ok && "user" in net.users && !NoRepeats(net.users["user"].pool)
  {
    net := new NetworkMgr(0x0A00_0000, 24);
    RoomInNewNetwork(net.now, 29);
    assert Pow2(3) == 8;
    var added := net.AddUser("user", 29);
    var got, ips := net.AcquireUserIps("user", 1);
    ghost var rest := net.users["user"].pool;
    ok := net.ReleaseUserIps("user", [ips[0], ips[0]]);
    ghost var pool := net.users["user"].pool;
    assert pool[|rest|] == pool[|rest| + 1] == ips[0];
  }

  // ----- a block that is not taken back

  function UserOf(addr: int, bits: int): UserData {
    UserData(addr, bits, addr + 1, [])
  }

  function Users(): map<string, UserData> {
    map["a" := UserOf(0xFFFF_FFF0, 29), "b" := UserOf(0xFFFF_FFF8, 29)]
  }

  function Held(): Holdings {
    map[System := Block(0xFFFF_FFC0, 27), User("a") := Block(0xFFFF_FFF0, 29), User("b") := Block(0xFFFF_FFF8, 29)]
  }

  /** 255.255.255.192/26 with two users; of the blocks, 255.255.255.224/28 alone is free. */
  function FullNetwork(): State {
    var free := NewLevels(0xFFFF_FFC0, 26, 32)[26 := []][28 := [0xFFFF_FFE0]];
    State(0xFFFF_FFC0, 26, free, 0xFFFF_FFC0, Users(), {}, Held())
  }

  lemma Sizes()
    ensures Size(26) == 64 && Size(27) == 32 && Size(28) == 16 && Size(29) == 8
  {
    assert Pow2(3) == 8;
    assert Pow2(4) == 16;
    assert Pow2(5) == 32;
    assert Pow2(6) == 64;
  }

  lemma AlignedBy(a: int, c: int)
    requires c <= 32 && a % Size(c) == 0
    ensures Align(a, c) == a
  {
    ClearLowIsRounding(a, 32 - c);
  }

  lemma BlocksAreAligned()
    ensures Align(0xFFFF_FFC0, 26) == 0xFFFF_FFC0 && Align(0xFFFF_FFE0, 28) == 0xFFFF_FFE0
    ensures forall h :: h in Held() ==> Align(Held()[h].addr, Held()[h].bits) == Held()[h].addr
  {
    Sizes();
    AlignedBy(0xFFFF_FFC0, 26);
    AlignedBy(0xFFFF_FFC0, 27);
    AlignedBy(0xFFFF_FFE0, 28);
    AlignedBy(0xFFFF_FFF0, 29);
    AlignedBy(0xFFFF_FFF8, 29);
  }

  /** The blocks as intervals. */
  lemma HeldIsInterval(h: Holder, x: int)
    requires h in Held()
    ensures Holds(Held(), h, x) <==> Held()[h].addr <= x < Held()[h].addr + Size(Held()[h].bits)
  {
    BlocksAreAligned();
    BlockIsInterval(x, Held()[h].addr, Held()[h].bits);
  }

  lemma FreeIsInterval(x: int)
    ensures IsFree(FullNetwork().pool, x) <==> 0xFFFF_FFE0 <= x < 0xFFFF_FFF0
    ensures InNetwork(x, 0xFFFF_FFC0, 26) <==> 0xFFFF_FFC0 <= x < 0x1_0000_0000
  {
    BlocksAreAligned();
    Sizes();
    ExampleNumbers();
    OneBlockValid(FullNetwork().pool, 0xFFFF_FFC0, 26, 28, 0xFFFF_FFE0);
    BlockIsInterval(x, 0xFFFF_FFE0, 28);
    BlockIsInterval(x, 0xFFFF_FFC0, 26);
  }

  /** Who has an address that is not free. */
  function HolderOf(x: int): Holder {
    if x < 0xFFFF_FFE0 then System else if x < 0xFFFF_FFF8 then User("a") else User("b")
  }

  lemma HolderIs(h: Holder, x: int)
    ensures Holds(Held(), h, x) ==> h == HolderOf(x) && !IsFree(FullNetwork().pool, x)
  {
    if h in Held() {
      Sizes();
      FreeIsInterval(x);
      HeldIsInterval(h, x);
    }
  }

  lemma HolderHolds(x: int)
    requires InNetwork(x, 0xFFFF_FFC0, 26) && !IsFree(FullNetwork().pool, x)
    ensures Holds(Held(), HolderOf(x), x)
  {
    Sizes();
    FreeIsInterval(x);
    HeldIsInterval(HolderOf(x), x);
  }

  lemma NetworkIsDivided()
    ensures Partition(FullNetwork().pool, 0xFFFF_FFC0, 26, Held())
  {
    BlocksAreAligned();
    forall h | h in Held()
      ensures GoodBlock(Held()[h], 0xFFFF_FFC0, 26)
    {
      FreeIsInterval(Held()[h].addr);
    }
    forall h, x
      ensures Holds(Held(), h, x) ==> h == HolderOf(x) && !IsFree(FullNetwork().pool, x)
    {
      HolderIs(h, x);
    }
    forall x | InNetwork(x, 0xFFFF_FFC0, 26)
      ensures IsFree(FullNetwork().pool, x) || SomebodyHolds(Held(), x)
    {
      if !IsFree(FullNetwork().pool, x) {
        HolderHolds(x);
      }
    }
  }

  lemma HoldersAreRecorded()
    ensures FullNetwork().Recorded()
  {
    UsersAreGood();
    assert forall h :: h in Held() <==> FullNetwork().IsHolder(h);
  }

  lemma UsersAreGood()
    ensures forall u :: u in Users() ==> GoodUser(Users()[u])
  {
    BlocksAreAligned();
    assert forall u :: u in Users() ==> User(u) in Held();
  }

  /** In a state that keeps the invariant, user a's block is not taken back. */
  lemma DelUserLosesBlock()
    ensures FullNetwork().Inv() && Refused(FullNetwork(), "a")
    ensures Deleted(FullNetwork(), "a", FullNetwork().pool).lost == {Block(0xFFFF_FFF0, 29)}
  {
    OverlapExample(FullNetwork().pool);
    NetworkIsDivided();
    HoldersAreRecorded();
  }
}
