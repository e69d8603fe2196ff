/** The part of TaskMgr (src/master/taskmgr.py) that gives every batch task a subnet. */
module TaskNets {
  import opened Address
  import opened Sequences

  /** `task_cidr`: how many bits of a batch address number the addresses of one task */
  function TaskBits(wanted: int, batchBits: int): (b: int)
    ensures 2 <= b && (batchBits <= 30 ==> b <= 32 - batchBits)
  {
    var b := if wanted < 31 - batchBits then wanted else 31 - batchBits;
    if b > 2 then b else 2
  }

  /** How many subnets the batch network is cut into. */
  function NetCount(taskBits: int, batchBits: int): nat
    requires batchBits <= 30 ==> taskBits <= 32 - batchBits
  {
    if batchBits <= 30 then Pow2(32 - batchBits - taskBits) else if batchBits == 31 then 1 else 0
  }

  /** Subnets inside the batch network that do not overlap. */
  ghost predicate Spaced(nets: set<int>, size: int, total: int) {
    && (forall a :: a in nets ==> 0 <= a && a + size <= total)
    && (forall a, b :: a in nets && b in nets && a < b ==> a + size <= b)
  }

  /** The free subnets and the subnets of the tasks are the initial ones, each of them once. */
  ghost predicate Dealt(initial: set<int>, free: seq<int>, held: map<int, int>) {
    && NoRepeats(free)
    && (forall t :: t in held ==> held[t] !in free)
    && (forall t, u :: t in held && u in held && held[t] == held[u] ==> t == u)
    && (forall n :: n in initial <==> n in free || IsHeld(held, n))
  }

  ghost predicate IsHeld(held: map<int, int>, n: int) {
    exists t :: t in held && held[t] == n
  }

  lemma Deal(initial: set<int>, free: seq<int>, held: map<int, int>, t: int)
    requires Dealt(initial, free, held) && free != [] && t !in held
    ensures Dealt(initial, free[1..], held[t := free[0]])
  {
    var free', held' := free[1..], held[t := free[0]];
    forall n
      ensures IsHeld(held', n) <==> IsHeld(held, n) || n == free[0]
      ensures n in free <==> n in free' || n == free[0]
    {
      if IsHeld(held, n) {
        var u :| u in held && held[u] == n;
        assert u in held' && held'[u] == n;
      }
      assert held'[t] == free[0];
    }
  }

  lemma TakeBack(initial: set<int>, free: seq<int>, held: map<int, int>, t: int)
    requires Dealt(initial, free, held) && t in held
    ensures Dealt(initial, free + [held[t]], held - {t})
  {
    var free', held' := free + [held[t]], held - {t};
    forall n
      ensures IsHeld(held, n) <==> IsHeld(held', n) || n == held[t]
    {
      if IsHeld(held, n) && n != held[t] {
        var u :| u in held && held[u] == n;
        assert u in held' && held'[u] == n;
      }
    }
  }

  class TaskNets {
    const baseIp: int
    const batchBits: int
    const taskBits: int
    var freeNets: seq<int>
    /** task_base_ip of the tasks that have one */
    var held: map<int, int>
    ghost const initial: set<int>

    ghost predicate Valid()
      reads this
    {
      && 0 <= batchBits <= 32 && 2 <= taskBits
      && Spaced(initial, Pow2(taskBits), Pow2(32 - batchBits))
      && Dealt(initial, freeNets, held)
    }

    /** A batch network of prefix length 31 is smaller than the one subnet that it gets; one of length 32 gets none. */
    constructor (baseIp: int, batchBits: int, wanted: int)
      requires 0 <= batchBits <= 32
      ensures Valid() <==> batchBits != 31
      ensures held == map[] && this.baseIp == baseIp && this.batchBits == batchBits
      ensures 2 <= wanted <= 31 - batchBits ==> taskBits == wanted
      ensures wanted >= 31 - batchBits >= 2 ==> taskBits == 31 - batchBits
      ensures wanted <= 2 || 31 - batchBits <= 2 ==> taskBits == 2
      ensures |freeNets| == NetCount(taskBits, batchBits)
      ensures forall j :: 0 <= j < |freeNets| ==> freeNets[j] == Multiple(j, Pow2(taskBits))
    {
      this.baseIp, this.batchBits, this.taskBits := baseIp, batchBits, TaskBits(wanted, batchBits);
      var nets := AllNets(TaskBits(wanted, batchBits), batchBits);
      freeNets, held := nets, map[];
      initial := set n | n in nets;
      new;
      if batchBits == 31 {
        assert freeNets[0] in initial && Pow2(taskBits) == 2 * Pow2(taskBits - 1) && Pow2(1) == 2;
        assert Pow2(taskBits - 1) == 2 * Pow2(taskBits - 2);
      }
    }

    /** The loop of the constructor. */
    static method AllNets(taskBits: int, batchBits: int) returns (nets: seq<int>)
      requires 0 <= batchBits <= 32 && 2 <= taskBits && (batchBits <= 30 ==> taskBits <= 32 - batchBits)
      ensures |nets| == NetCount(taskBits, batchBits)
      ensures forall j :: 0 <= j < |nets| ==> nets[j] == Multiple(j, Pow2(taskBits))
      ensures NoRepeats(nets)
      ensures batchBits != 31 ==> Spaced((set n | n in nets), Pow2(taskBits), Pow2(32 - batchBits))
    {
      var size, total := Pow2(taskBits), Pow2(32 - batchBits);
      ghost var m := NetCount(taskBits, batchBits);
      nets := [];
      var i := 0;
      NetsGoOn(taskBits, batchBits, 0);
      while i < total - 1
        invariant i == Multiple(|nets|, size) && |nets| <= m && (i < total - 1 <==> |nets| < m)
        invariant forall j :: 0 <= j < |nets| ==> nets[j] == Multiple(j, size)
        decreases m - |nets|
      {
        nets := nets + [i];
        i := i + size;
        NetsGoOn(taskBits, batchBits, |nets|);
      }
      MultiplesSpaced(nets, m, size, total);
    }

    /** acquire_task_ips; with no subnet left the source raises. */
    method Acquire(task: int) returns (ok: bool, net: int)
      requires Valid()
      modifies this
      ensures Valid()
      ensures ok <==> task in old(held) || old(freeNets) != []
      ensures ok ==> net in initial && held == old(held)[task := net]
      ensures task in old(held) || !ok ==> held == old(held) && freeNets == old(freeNets)
      ensures task !in old(held) && ok ==> freeNets == old(freeNets)[1..] && net == old(freeNets)[0]
    {
      if task !in held {
        if freeNets == [] {
          return false, 0;
        }
        Deal(initial, freeNets, held, task);
        held := held[task := freeNets[0]];
        freeNets := freeNets[1..];
      }
      assert IsHeld(held, held[task]);
      return true, held[task];
    }

    /** release_task_ips, which does nothing for a task without a subnet. */
    method Release(task: int)
      requires Valid()
      modifies this
      ensures Valid()
      ensures held == old(held) - {task}
      ensures freeNets == if task in old(held) then old(freeNets) + [old(held)[task]] else old(freeNets)
    {
      if task !in held {
        return;
      }
      TakeBack(initial, freeNets, held, task);
      freeNets := freeNets + [held[task]];
      held := held - {task};
    }

    /** `max_size`: how many vnodes a task may have */
    function MaxSize(): int
      requires taskBits >= 0
    {
      Pow2(taskBits) - 2
    }

    /** setup_tasknet's gateway (k == -1) and gen_ips_from_base's address of vnode `k` */
    function AddressOf(net: int, k: int): int {
      baseIp + net + k + 2
    }

    /** gen_ips_from_base, for a task with the subnet `net` */
    method GenIps(net: int) returns (ips: seq<int>)
      requires Valid()
      ensures |ips| == MaxSize() && forall k :: 0 <= k < |ips| ==> ips[k] == AddressOf(net, k)
    {
      assert Pow2(taskBits) == 2 * Pow2(taskBits - 1);
      ips := [];
      for k := 0 to MaxSize()
        invariant |ips| == k && forall j :: 0 <= j < k ==> ips[j] == AddressOf(net, j)
      {
        ips := ips + [baseIp + net + k + 2];
      }
    }

    /** The gateway has the first address of the subnet but one, and the vnodes have the others, in order and without
        gaps, up to the last. */
    lemma AddressesInOrder(net: int)
      requires Valid()
      ensures AddressOf(net, -1) == baseIp + net + 1
      ensures forall k, l :: -1 <= k < l < MaxSize() ==> AddressOf(net, k) < AddressOf(net, l)
      ensures forall x :: baseIp + net < x < baseIp + net + Pow2(taskBits) <==> IsAddress(net, x)
    {
      forall x | baseIp + net < x < baseIp + net + Pow2(taskBits)
        ensures IsAddress(net, x)
      {
        assert AddressOf(net, x - baseIp - net - 2) == x;
      }
    }

    ghost predicate IsAddress(net: int, x: int)
      requires taskBits >= 0
    {
      exists k :: -1 <= k < MaxSize() && AddressOf(net, k) == x
    }

    /** The gateway and the vnodes of all tasks that have a subnet have different addresses, in their own
        subnet and in the batch network. */
    lemma AddressesDistinct(t: int, k: int, u: int, l: int)
      requires Valid() && t in held && u in held
      requires -1 <= k < MaxSize() && -1 <= l < MaxSize()
      ensures AddressOf(held[t], k) == AddressOf(held[u], l) ==> t == u && k == l
      ensures baseIp + held[t] < AddressOf(held[t], k) < baseIp + held[t] + Pow2(taskBits)
      ensures baseIp <= AddressOf(held[t], k) < baseIp + Pow2(32 - batchBits)
    {
      assert IsHeld(held, held[t]) && IsHeld(held, held[u]);
    }

    /** A task with as many vnodes as it may have gives the last of them the broadcast address of its subnet;
        a task with fewer vnodes gives it to none. */
    lemma BroadcastGivenAway(net: int, vnodes: int)
      requires Valid() && 0 <= vnodes <= MaxSize()
      ensures (exists k :: 0 <= k < vnodes && AddressOf(net, k) == baseIp + net + Pow2(taskBits) - 1) <==>
                vnodes == MaxSize()
    {
      assert AddressOf(net, MaxSize() - 1) == baseIp + net + Pow2(taskBits) - 1;
      assert Pow2(taskBits) == 2 * Pow2(taskBits - 1);
    }
  }

  /** j * size */
  function Multiple(j: nat, size: int): int {
    if j == 0 then 0 else Multiple(j - 1, size) + size
  }

  lemma {:induction false} MultiplesApart(j: nat, m: nat, size: int)
    requires j <= m && size >= 2
    ensures j < m ==> Multiple(j, size) + size <= Multiple(m, size)
    ensures 0 <= Multiple(j, size)
    decreases m, j
  {
    if j < m {
      MultiplesApart(j, m - 1, size);
    } else if j > 0 {
      MultiplesApart(j - 1, m, size);
    }
  }

  lemma {:induction false} MultipleOfDouble(j: nat, size: int)
    ensures Multiple(2 * j, size) == Multiple(j, 2 * size)
  {
    if j > 0 {
      MultipleOfDouble(j - 1, size);
      assert Multiple(2 * j, size) == Multiple(2 * j - 1, size) + size == Multiple(2 * (j - 1), size) + 2 * size;
    }
  }

  lemma {:induction false} Pow2Multiple(a: nat, b: nat)
    ensures Multiple(Pow2(b), Pow2(a)) == Pow2(a + b)
    decreases b
  {
    if b == 0 {
      assert Multiple(1, Pow2(a)) == Multiple(0, Pow2(a)) + Pow2(a);
    } else {
      MultipleOfDouble(Pow2(b - 1), Pow2(a));
      Pow2Multiple(a + 1, b - 1);
    }
  }

  lemma NetsGoOn(taskBits: int, batchBits: int, n: nat)
    requires 0 <= batchBits <= 32 && 2 <= taskBits && (batchBits <= 30 ==> taskBits <= 32 - batchBits)
    requires n <= NetCount(taskBits, batchBits)
    ensures Multiple(n, Pow2(taskBits)) < Pow2(32 - batchBits) - 1 <==> n < NetCount(taskBits, batchBits)
    ensures Pow2(taskBits) >= 2
    ensures batchBits != 31 ==> Multiple(NetCount(taskBits, batchBits), Pow2(taskBits)) <= Pow2(32 - batchBits)
  {
    var size := Pow2(taskBits);
    assert size == 2 * Pow2(taskBits - 1);
    MultiplesApart(n, NetCount(taskBits, batchBits), size);
    if batchBits <= 30 {
      Pow2Multiple(taskBits, 32 - batchBits - taskBits);
    } else {
      assert Pow2(0) == 1 && Pow2(1) == 2;
    }
  }

  lemma MultiplesSpaced(nets: seq<int>, m: nat, size: int, total: int)
    requires |nets| == m && size >= 2 && forall j :: 0 <= j < |nets| ==> nets[j] == Multiple(j, size)
    ensures NoRepeats(nets)
    ensures Multiple(m, size) <= total ==> Spaced((set n | n in nets), size, total)
  {
    forall i, j | 0 <= i < j < |nets|
      ensures nets[i] + size <= nets[j]
    {
      MultiplesApart(i, j, size);
    }
    forall j | 0 <= j < |nets|
      ensures 0 <= nets[j] && nets[j] + size <= Multiple(m, size)
    {
      MultiplesApart(j, m, size);
    }
  }
}
