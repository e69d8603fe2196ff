/** The users of the address pools: create, scale out, scale in and delete of src/master/vclustermgr.py.
    What the workers and the gateways answer is given to the methods. */
module VClusters {
  import opened Address
  import opened FreeBlocks
  import opened IntervalPools
  import opened Networks
  import opened Sequences
  import Quota

  datatype Key = Key(user: string, cluster: string)

  /** A container is named by user, cluster id and `cid`. */
  datatype Container = Container(cid: nat, ip: int)

  datatype Cluster = Cluster(containers: seq<Container>, nextcid: nat)

  type Clusters = map<Key, Cluster>

  /** The record in place `i` of cluster `k` has this address. */
  ghost predicate At(cs: Clusters, k: Key, i: int, ip: int) {
    k in cs && 0 <= i < |cs[k].containers| && cs[k].containers[i].ip == ip
  }

  /** Container names are not used twice: that is what nextcid is for. */
  ghost predicate FreshIds(c: Cluster) {
    && (forall i :: 0 <= i < |c.containers| ==> c.containers[i].cid < c.nextcid)
    && (forall i, j :: 0 <= i < j < |c.containers| ==> c.containers[i].cid != c.containers[j].cid)
  }

  /** Recorded addresses are in use: missing from the pool of their user and in one record only. */
  ghost predicate Recorded(users: map<string, UserData>, cs: Clusters) {
    && (forall k :: k in cs ==> k.user in users && FreshIds(cs[k]))
    && (forall k, i, ip :: At(cs, k, i, ip) ==> InUse(users, k.user, ip))
    && (forall k, i, l, j, ip :: At(cs, k, i, ip) && At(cs, l, j, ip) && k.user == l.user ==> k == l && i == j)
  }

  ghost predicate InUse(users: map<string, UserData>, user: string, ip: int) {
    user in users && users[user].bits <= 30 && ip !in users[user].pool && Assignable(users[user], ip)
  }

  /** No two recorded containers of any users share an address, and every one has an address of its owner's
      block that is not the network address, the gateway or the broadcast address. */
  lemma AddressesAreUnique(s: State, cs: Clusters, k: Key, i: int, l: Key, j: int, ip: int)
    requires s.Inv() && Recorded(s.users, cs)
    requires At(cs, k, i, ip) && At(cs, l, j, ip)
    ensures k == l && i == j
    ensures var d := s.users[k.user];
      In(ip, Block(d.addr, d.bits)) && ip != d.addr && ip != d.gateway && ip != d.addr + Size(d.bits) - 1
    ensures !IsFree(s.pool, ip)
  {
    InUseIsInside(s, k.user, ip);
    InUseIsInside(s, l.user, ip);
    UsersNeverMeet(s, k.user, l.user, ip);
  }

  lemma InUseIsInside(s: State, user: string, ip: int)
    requires s.Inv() && InUse(s.users, user, ip)
    ensures var d := s.users[user];
      In(ip, Block(d.addr, d.bits)) && ip != d.addr && ip != d.gateway && ip != d.addr + Size(d.bits) - 1
  {
    UserIsHolder(s, user);
    AssignableIsInside(s.users[user], ip);
  }

  function Ips(cs: seq<Container>): (r: seq<int>)
    ensures |r| == |cs|
    ensures forall i :: 0 <= i < |cs| ==> r[i] == cs[i].ip
  {
    seq(|cs|, i requires 0 <= i < |cs| => cs[i].ip)
  }

  /** The cluster with a container more, under the next number. */
  function Grown(c: Cluster, ip: int): Cluster {
    Cluster(c.containers + [Container(c.nextcid, ip)], c.nextcid + 1)
  }

  /** The pool `was` is now the pool `rest` and these addresses. */
  ghost predicate Split(was: seq<int>, rest: seq<int>, ips: seq<int>) {
    forall ip :: ip in was <==> ip in rest || ip in ips
  }

  ghost predicate OthersStay(before: map<string, UserData>, users: map<string, UserData>, user: string) {
    forall u :: u in before && u != user ==> u in users && users[u] == before[u]
  }

  /** These addresses, each once, are those that the user's pool does not have any more; a new user had all. */
  ghost predicate AreOut(before: map<string, UserData>, users: map<string, UserData>, user: string, ips: seq<int>) {
    && NoRepeats(ips)
    && (user !in users ==> ips == [])
    && (user in users ==> users[user].bits <= 30 && forall ip :: ip in ips ==> ip !in users[user].pool)
    && (user in users && user in before ==> Split(before[user].pool, users[user].pool, ips))
    && (user in users && user !in before ==>
        forall ip :: Assignable(users[user], ip) <==> ip in users[user].pool || ip in ips)
  }

  /** All the addresses stay out, or all but one. */
  ghost predicate Stranded(before: UserData, now: UserData, ips: seq<int>, lost: seq<int>) {
    || (lost == ips && now == before)
    || exists i :: 0 <= i < |ips| && lost == ips[..i] + ips[i + 1..] && now == before.(pool := before.pool + [ips[i]])
  }

  lemma StrandedAreOut(before: map<string, UserData>, taken: map<string, UserData>, users: map<string, UserData>,
                       user: string, ips: seq<int>, lost: seq<int>)
    requires AreOut(before, taken, user, ips) && user in taken && user in users
    requires Stranded(taken[user], users[user], ips, lost)
    ensures AreOut(before, users, user, lost) && |ips| - 1 <= |lost| <= |ips|
  {
    if users[user] != taken[user] || lost != ips {
      var i :| 0 <= i < |ips| && lost == ips[..i] + ips[i + 1..] &&
        users[user] == taken[user].(pool := taken[user].pool + [ips[i]]);
      AllButOne(ips, i, lost);
    }
  }

  lemma AllButOne(ips: seq<int>, i: nat, rest: seq<int>)
    requires NoRepeats(ips) && i < |ips| && rest == ips[..i] + ips[i + 1..]
    ensures NoRepeats(rest) && forall ip :: ip in rest <==> ip in ips && ip != ips[i]
  {
    assert ips == ips[..i] + ([ips[i]] + ips[i + 1..]);
    assert forall j :: 0 <= j < |rest| ==> rest[j] == if j < i then ips[j] else ips[j + 1];
    forall ip | ip in ips && ip != ips[i]
      ensures ip in rest
    {
      assert ip in ips[..i] || ip in ips[i + 1..];
    }
  }

  lemma OutTogether(before: map<string, UserData>, start: map<string, UserData>, users: map<string, UserData>,
                    user: string, ips: seq<int>)
    requires AreOut(before, start, user, []) && user in start && user in users && (user in before ==> start == before)
    requires users[user] == start[user].(pool := users[user].pool) && Split(start[user].pool, users[user].pool, ips)
    requires NoRepeats(ips) && forall ip :: ip in ips ==> ip !in users[user].pool
    ensures AreOut(before, users, user, ips)
  {
  }

  /** The addresses of a cluster can all be released in one call. */
  lemma ClusterReleasable(users: map<string, UserData>, cs: Clusters, k: Key)
    requires Recorded(users, cs) && k in cs
    ensures NoRepeats(Ips(cs[k].containers))
    ensures forall ip :: ip in Ips(cs[k].containers) ==> InUse(users, k.user, ip)
  {
    var r := Ips(cs[k].containers);
    assert forall i :: 0 <= i < |r| ==> At(cs, k, i, r[i]);
  }

  /** These addresses were handed out and are not (yet) recorded. */
  ghost predicate HandedOut(users: map<string, UserData>, cs: Clusters, user: string, ips: seq<int>) {
    && NoRepeats(ips)
    && (forall ip :: ip in ips ==> InUse(users, user, ip))
    && (forall k, i, ip :: At(cs, k, i, ip) && k.user == user ==> ip !in ips)
  }

  lemma AfterAddUser(before: map<string, UserData>, users: map<string, UserData>, cs: Clusters, user: string)
    requires Recorded(before, cs) && user !in before
    requires users == before || (user in users && users == before[user := users[user]])
    ensures Recorded(users, cs)
  {
    forall k, i, ip | At(cs, k, i, ip)
      ensures InUse(users, k.user, ip)
    {
      assert InUse(before, k.user, ip);
    }
  }

  lemma AfterAcquire(before: map<string, UserData>, users: map<string, UserData>, cs: Clusters, user: string,
                     ips: seq<int>)
    requires Recorded(before, cs) && user in before && user in users && before[user].bits <= 30
    requires users == before[user := before[user].(pool := users[user].pool)]
    requires NoRepeats(ips)
    requires forall ip :: ip in ips ==>
              ip in before[user].pool && ip !in users[user].pool && Assignable(before[user], ip)
    requires forall ip :: ip in users[user].pool ==> ip in before[user].pool
    ensures Recorded(users, cs) && HandedOut(users, cs, user, ips)
  {
    forall k, i, ip | At(cs, k, i, ip)
      ensures InUse(users, k.user, ip)
    {
      assert InUse(before, k.user, ip);
    }
  }

  lemma AfterRelease(before: map<string, UserData>, users: map<string, UserData>, cs: Clusters, user: string,
                     ips: seq<int>)
    requires Recorded(before, cs) && user in before && HandedOut(before, cs, user, ips)
    requires users == before[user := before[user].(pool := before[user].pool + ips)]
    ensures Recorded(users, cs)
  {
    forall k, i, ip | At(cs, k, i, ip)
      ensures InUse(users, k.user, ip)
    {
      assert InUse(before, k.user, ip);
    }
  }

  lemma AfterRecord(users: map<string, UserData>, cs: Clusters, k: Key, old_: Cluster, new_: Cluster, ips: seq<int>)
    requires Recorded(users, cs) && k.user in users && HandedOut(users, cs, k.user, ips)
    requires if k in cs then old_ == cs[k] else old_.containers == []
    requires FreshIds(new_) && Ips(new_.containers) == Ips(old_.containers) + ips
    ensures Recorded(users, cs[k := new_])
  {
    var cs' := cs[k := new_];
    var n := |old_.containers|;
    forall l, i, ip | At(cs', l, i, ip)
      ensures (l == k && i >= n && ip == ips[i - n] && ip in ips) || (At(cs, l, i, ip) && (l == k ==> i < n))
    {
      if l == k {
        assert Ips(new_.containers)[i] == ip;
      }
    }
  }

  /** Dropping records, with nothing released, keeps the rest in use. */
  lemma AfterDrop(users: map<string, UserData>, cs: Clusters, k: Key, c: Cluster, keep: seq<nat>)
    requires Recorded(users, cs) && k in cs && FreshIds(c)
    requires |keep| == |c.containers|
    requires forall i :: 0 <= i < |keep| ==>
              keep[i] < |cs[k].containers| && c.containers[i] == cs[k].containers[keep[i]]
    requires forall i, j :: 0 <= i < j < |keep| ==> keep[i] != keep[j]
    ensures Recorded(users, cs[k := c])
  {
    var cs' := cs[k := c];
    forall l, i, ip | At(cs', l, i, ip)
      ensures At(cs, l, if l == k then keep[i] else i, ip)
    {
    }
    forall l, i, m, j, ip | At(cs', l, i, ip) && At(cs', m, j, ip) && l.user == m.user
      ensures l == m && i == j
    {
      assert At(cs, l, if l == k then keep[i] else i, ip);
      assert At(cs, m, if m == k then keep[j] else j, ip);
    }
  }

  lemma AfterDelete(users: map<string, UserData>, cs: Clusters, cs': Clusters, k: Key, ips: seq<int>)
    requires Recorded(users, cs) && k in cs && cs' == cs - {k} && ips == Ips(cs[k].containers)
    ensures Recorded(users, cs') && HandedOut(users, cs', k.user, ips)
  {
    ClusterReleasable(users, cs, k);
    forall l, i, ip | At(cs', l, i, ip)
      ensures At(cs, l, i, ip) && l != k
    {
    }
    forall l, i, ip | At(cs', l, i, ip) && l.user == k.user
      ensures ip !in ips
    {
      assert forall j :: 0 <= j < |ips| ==> At(cs, k, j, ips[j]);
    }
  }

  lemma AfterDelUser(before: map<string, UserData>, users: map<string, UserData>, cs: Clusters, user: string)
    requires Recorded(before, cs) && users == before - {user}
    requires forall k :: k in cs ==> k.user != user
    ensures Recorded(users, cs)
  {
    forall k, i, ip | At(cs, k, i, ip)
      ensures InUse(users, k.user, ip)
    {
      assert InUse(before, k.user, ip);
    }
  }

  /** The containers with the number (`with`) or the others, in order. */
  function Select(cs: seq<Container>, cid: nat, with: bool): seq<Container> {
    if cs == [] then []
    else (if (cs[0].cid == cid) == with then [cs[0]] else []) + Select(cs[1..], cid, with)
  }

  lemma {:induction false} SelectAllOrNone(cs: seq<Container>, cid: nat, with: bool)
    requires forall i :: 0 <= i < |cs| ==> cs[i].cid != cid
    ensures Select(cs, cid, with) == if with then [] else cs
  {
    if cs != [] {
      SelectAllOrNone(cs[1..], cid, with);
    }
  }

  lemma {:induction false} SelectOne(cs: seq<Container>, cid: nat, i: nat, with: bool)
    requires i < |cs| && cs[i].cid == cid
    requires forall j :: 0 <= j < |cs| && j != i ==> cs[j].cid != cid
    ensures Select(cs, cid, with) == if with then [cs[i]] else cs[..i] + cs[i + 1..]
    decreases |cs|
  {
    if i == 0 {
      SelectAllOrNone(cs[1..], cid, with);
    } else {
      SelectOne(cs[1..], cid, i - 1, with);
      assert cs[..i] + cs[i + 1..] == [cs[0]] + (cs[1..][..i - 1] + cs[1..][i..]);
    }
  }

  /** What becomes of a container: something before it fails, the worker fails, or it is there. */
  datatype Making = NotTried | NotMade | Made

  datatype Answer = Existed | ChecksFailed | NotSetUp | NoAddresses | NotAllMade | Created

  /** A user with a block goes on; another one needs, without gateways of its own, a block and a gateway. */
  ghost predicate IsSetUp(before: map<string, UserData>, users: map<string, UserData>, user: string, vnodes: int,
                          distributedGw: bool, gateway: bool)
  {
    user in before || (vnodes >= -2 && (distributedGw || (user in users && gateway)))
  }

  /** All of its addresses are in the user's pool. */
  ghost predicate IsWhole(d: UserData) {
    d.bits <= 30 && |d.pool| == Size(d.bits) - 3
  }

  /** The pool has room for the quota, with no address to spare exactly for the quotas 2^k - 3; half the block has not.
      */
  ghost predicate MeetsQuota(d: UserData, vnodes: int) {
    && d.bits <= 30 && |d.pool| >= vnodes > Size(d.bits + 1) - 3
    && (|d.pool| == vnodes <==> exists k: nat :: vnodes == Pow2(k) - 3)
  }

  ghost predicate RoomForQuota(p: Levels, bits: int, vnodes: int) {
    exists c :: bits <= c && Quota.IsFor(c, vnodes) && HasFreeBlock(p, c)
  }

  /** The pool, or the whole block of a new user, has that many addresses. */
  ghost predicate HasRoom(before: map<string, UserData>, users: map<string, UserData>, user: string, size: nat) {
    if user in before then size <= |before[user].pool|
    else user in users && users[user].bits <= 30 && size <= Size(users[user].bits) - 3
  }

  /** The containers are numbered from 0, and the next number is their number. */
  ghost predicate IsNewCluster(c: Cluster, size: nat) {
    |c.containers| == size == c.nextcid && forall i :: 0 <= i < size ==> c.containers[i].cid == i
  }

  /** A container more, under the next number, with an address that has left the pool. */
  ghost predicate OneMore(c: Cluster, d: Cluster, was: seq<int>, now: seq<int>) {
    && |d.containers| == |c.containers| + 1 && d.containers[..|c.containers|] == c.containers
    && d.containers[|c.containers|].cid == c.nextcid && d.nextcid == c.nextcid + 1
    && Split(was, now, [d.containers[|c.containers|].ip])
  }

  class VClusterMgr {
    const net: NetworkMgr
    /** the database */
    var clusters: Clusters
    const distributedGw: bool

    ghost predicate Valid()
      reads this, net, net.center
    {
      net.Valid() && Recorded(net.users, clusters)
    }

    constructor (net: NetworkMgr, distributedGw: bool)
      requires net.Valid()
      ensures Valid() && this.net == net && clusters == map[]
    {
      this.net := net;
      this.distributedGw := distributedGw;
      clusters := map[];
    }

    /** create_cluster up to the addresses: a user without a block gets one for the quota, if there is one.  `gateway`:
        the user's gateway can be set up. */
    method EnsureUser(user: string, vnodes: int, gateway: bool) returns (ok: bool)
      requires Valid()
      modifies net, net.center
      ensures Valid() && net.center == old(net.center)
      ensures vnodes >= 0 ==> net.now.lost == old(net.now.lost)
      ensures user in old(net.users) ==> net.users == old(net.users)
      ensures OthersStay(old(net.users), net.users, user)
      ensures AreOut(old(net.users), net.users, user, [])
      ensures ok <==> IsSetUp(old(net.users), net.users, user, vnodes, distributedGw, gateway)
      ensures user !in old(net.users) && user in net.users ==> IsWhole(net.users[user])
      ensures user !in old(net.users) && vnodes >= 0 && user in net.users ==> MeetsQuota(net.users[user], vnodes)
      ensures user !in old(net.users) && vnodes >= 0 ==>
                (user in net.users <==> RoomForQuota(old(net.center.pool), old(net.center.bits), vnodes))
    {
      if user in net.users {
        return true;
      }
      if vnodes + 3 < 1 {
        return false;
      }
      if vnodes >= 0 {
        Quota.PoolMeetsQuota(vnodes);
        Quota.OnlyPrefix(vnodes);
      }
      ghost var before := net.users;
      var added := net.AddUser(user, Quota.PrefixFor(vnodes));
      AfterAddUser(before, net.users, clusters, user);
      ok := distributedGw || (user in net.users && gateway);
    }

    /** A new cluster, or no change of the records.  When a container fails, all the addresses but its own stay out of
        the pool; when something else does, all of them: `lost`.  `checks`: what is asked for before the user's block is
        looked at is there; `made` says what becomes of the containers. */
    method CreateCluster(user: string, cluster: string, size: nat, vnodes: int, checks: bool, gateway: bool,
                         made: nat -> Making)
      returns (answer: Answer, ghost lost: seq<int>)
      requires Valid()
      modifies this`clusters, net, net.center
      ensures Valid() && net.center == old(net.center)
      ensures answer == Existed <==> Key(user, cluster) in old(clusters)
      ensures Key(user, cluster) !in old(clusters) ==> (answer == ChecksFailed <==> !checks)
      ensures answer in {NotSetUp, NoAddresses, NotAllMade, Created} ==>
                (answer == NotSetUp <==> !IsSetUp(old(net.users), net.users, user, vnodes, distributedGw, gateway))
      ensures answer in {NoAddresses, NotAllMade, Created} ==>
                (answer == NoAddresses <==> !HasRoom(old(net.users), net.users, user, size))
      ensures answer in {NotAllMade, Created} ==> (answer == Created <==> forall i: nat :: i < size ==> made(i) == Made)
      ensures answer == Created ==> Key(user, cluster) in clusters && IsNewCluster(clusters[Key(user, cluster)], size)
      ensures answer == Created ==> clusters == old(clusters)[Key(user, cluster) := clusters[Key(user, cluster)]]
      ensures answer == Created ==> lost == []
      ensures answer != Created ==> clusters == old(clusters)
      ensures vnodes >= 0 ==> net.now.lost == old(net.now.lost)
      ensures OthersStay(old(net.users), net.users, user)
      ensures user in old(net.users) ==> user in net.users
      ensures user !in old(net.users) && user in net.users && 0 <= vnodes && size <= vnodes ==> answer != NoAddresses
      ensures answer == Created ==>
                AreOut(old(net.users), net.users, user, Ips(clusters[Key(user, cluster)].containers))
      ensures answer != Created ==>
                AreOut(old(net.users), net.users, user, lost) && (lost == [] || size - 1 <= |lost| <= size)
    {
      lost := [];
      if Key(user, cluster) in clusters {
        return Existed, [];
      }
      if !checks {
        return ChecksFailed, [];
      }
      var ok := EnsureUser(user, vnodes, gateway);
      if !ok {
        return NotSetUp, [];
      }
      ghost var start := net.users;
      var ips;
      ok, ips := TakeIps(user, size);
      if !ok {
        return NoAddresses, [];
      }
      OutTogether(old(net.users), start, net.users, user, ips);
      ghost var taken := net.users;
      ok, lost := MakeCluster(Key(user, cluster), ips, made);
      if !ok {
        StrandedAreOut(old(net.users), taken, net.users, user, ips, lost);
      }
      answer := if ok then Created else NotAllMade;
    }

    /** create_cluster, when the addresses are there. */
    method MakeCluster(key: Key, ips: seq<int>, made: nat -> Making) returns (ok: bool, ghost lost: seq<int>)
      requires Valid() && key !in clusters && key.user in net.users && HandedOut(net.users, clusters, key.user, ips)
      modifies this`clusters, net`users, net`now
      ensures net.now.lost == old(net.now.lost)
      ensures Valid() && key.user in net.users && OthersStay(old(net.users), net.users, key.user)
      ensures ok <==> forall i: nat :: i < |ips| ==> made(i) == Made
      ensures ok ==> net.users == old(net.users) && lost == []
      ensures ok ==> key in clusters && clusters == old(clusters)[key := clusters[key]]
      ensures ok ==> IsNewCluster(clusters[key], |ips|) && Ips(clusters[key].containers) == ips
      ensures !ok ==> clusters == old(clusters) && Stranded(old(net.users)[key.user], net.users[key.user], ips, lost)
    {
      var containers;
      ok, containers, lost := CreateContainers(key.user, ips, made);
      if ok {
        assert Ips(containers) == ips;
        RecordCluster(key, Cluster(containers, |ips|), ips);
      }
    }

    /** The loop of create_cluster: the first container that fails ends it, and gives at most its own address back. */
    method CreateContainers(user: string, ips: seq<int>, made: nat -> Making)
      returns (ok: bool, containers: seq<Container>, ghost lost: seq<int>)
      requires Valid() && user in net.users && HandedOut(net.users, clusters, user, ips)
      modifies net`users, net`now
      ensures net.now.lost == old(net.now.lost)
      ensures Valid() && user in net.users && OthersStay(old(net.users), net.users, user)
      ensures ok <==> forall i: nat :: i < |ips| ==> made(i) == Made
      ensures ok ==> net.users == old(net.users) && |containers| == |ips| && lost == []
      ensures ok ==> forall j :: 0 <= j < |ips| ==> containers[j] == Container(j, ips[j])
      ensures !ok ==> Stranded(old(net.users)[user], net.users[user], ips, lost)
    {
      containers, lost := [], [];
      for i := 0 to |ips|
        invariant |containers| == i
        invariant forall j :: 0 <= j < i ==> containers[j] == Container(j, ips[j]) && made(j) == Made
      {
        if made(i) == NotTried {
          return false, containers, ips;
        }
        if made(i) == NotMade {
          var released := ReleaseOne(user, ips, ips[i]);
          return false, containers, ips[..i] + ips[i + 1..];
        }
        containers := containers + [Container(i, ips[i])];
      }
      ok := true;
    }

    /** Gives back one handed-out address that no record has; the pool accepts it. */
    method ReleaseOne(user: string, ghost ips: seq<int>, ip: int) returns (ok: bool)
      requires Valid() && HandedOut(net.users, clusters, user, ips) && ip in ips
      modifies net`users, net`now
      ensures net.now.lost == old(net.now.lost)
      ensures ok && Valid()
      ensures user in old(net.users)
      ensures net.users == old(net.users)[user := old(net.users)[user].(pool := old(net.users)[user].pool + [ip])]
    {
      ghost var before := net.users;
      assert InUse(before, user, ip);
      ok := net.ReleaseUserIps(user, [ip]);
      AfterRelease(before, net.users, clusters, user, [ip]);
    }

    /** `checks`: what is asked for before the address is there; `made`: the worker makes the container. */
    method ScaleOut(user: string, cluster: string, checks: bool, made: bool) returns (ok: bool)
      requires Valid()
      modifies this`clusters, net`users, net`now
      ensures Valid() && OthersStay(old(net.users), net.users, user)
      ensures user in old(net.users) ==> user in net.users
      ensures !ok ==> clusters == old(clusters)
      ensures !ok && user in old(net.users) ==> Split(old(net.users)[user].pool, net.users[user].pool, [])
      ensures Key(user, cluster) in old(clusters) ==> user in old(net.users)
      ensures ok <==> Key(user, cluster) in old(clusters) && checks && made && old(net.users)[user].pool != []
      ensures ok ==> Key(user, cluster) in clusters && user in net.users
      ensures ok ==> clusters == old(clusters)[Key(user, cluster) := clusters[Key(user, cluster)]]
      ensures ok ==> OneMore(old(clusters)[Key(user, cluster)], clusters[Key(user, cluster)],
                             old(net.users)[user].pool, net.users[user].pool)
    {
      if Key(user, cluster) !in clusters || !checks {
        return false;
      }
      var ips;
      ok, ips := TakeIps(user, 1);
      if !ok {
        return;
      }
      assert ips == [ips[0]];
      ok := made;
      if ok {
        AddContainer(Key(user, cluster), ips);
      } else {
        var released := ReleaseOne(user, ips, ips[0]);
      }
    }

    method AddContainer(key: Key, ips: seq<int>)
      requires Valid() && key in clusters && |ips| == 1 && HandedOut(net.users, clusters, key.user, ips)
      modifies this`clusters
      ensures Valid() && clusters == old(clusters)[key := Grown(old(clusters)[key], ips[0])]
    {
      assert key.user in net.users;
      var c := Grown(clusters[key], ips[0]);
      assert Ips(c.containers) == Ips(clusters[key].containers) + ips;
      RecordCluster(key, c, ips);
    }

    /** acquire_userips_cidr: the addresses are in use and in no record. */
    method TakeIps(user: string, num: nat) returns (ok: bool, ips: seq<int>)
      requires Valid()
      modifies net`users, net`now
      ensures net.now.lost == old(net.now.lost)
      ensures Valid() && OthersStay(old(net.users), net.users, user)
      ensures ok <==> user in old(net.users) && num <= |old(net.users)[user].pool|
      ensures !ok ==> net.users == old(net.users)
      ensures ok ==>
                user in old(net.users) && user in net.users && |ips| == num && HandedOut(net.users, clusters, user, ips)
      ensures ok ==> Split(old(net.users)[user].pool, net.users[user].pool, ips)
      ensures ok ==> net.users[user] == old(net.users)[user].(pool := net.users[user].pool)
    {
      ghost var before := net.users;
      ok, ips := net.AcquireUserIps(user, num);
      if ok {
        AfterAcquire(before, net.users, clusters, user, ips);
      }
    }

    method RecordCluster(key: Key, c: Cluster, ghost ips: seq<int>)
      requires Valid() && key.user in net.users && HandedOut(net.users, clusters, key.user, ips) && FreshIds(c)
      requires Ips(c.containers) == (if key in clusters then Ips(clusters[key].containers) else []) + ips
      modifies this`clusters
      ensures Valid() && clusters == old(clusters)[key := c]
    {
      AfterRecord(net.users, clusters, key, if key in clusters then clusters[key] else Cluster([], 0), c, ips);
      clusters := clusters[key := c];
    }

    /** Deletes the container with this number, if there is one, and gives its address back: `removed`.  The answer is
        also no when a port mapping of the container then cannot be deleted.  `worker`: the container's worker is there;
        `ports`: its port mappings can be deleted. */
    method ScaleIn(user: string, cluster: string, cid: nat, worker: bool, ports: bool)
      returns (ok: bool, ghost removed: bool)
      requires Valid()
      modifies this`clusters, net`users, net`now
      ensures Valid() && (ok <==> removed && ports)
      ensures removed <==> Key(user, cluster) in old(clusters) &&
                           (worker || Select(old(clusters)[Key(user, cluster)].containers, cid, true) == [])
      ensures !removed ==> clusters == old(clusters) && net.users == old(net.users)
      ensures removed ==> Key(user, cluster) in old(clusters) && user in old(net.users)
      ensures removed ==> var c := old(clusters)[Key(user, cluster)];
        clusters == old(clusters)[Key(user, cluster) := c.(containers := Select(c.containers, cid, false))]
      ensures removed ==>
                var d, gone := old(net.users)[user], Select(old(clusters)[Key(user, cluster)].containers, cid, true);
                net.users == old(net.users)[user := d.(pool := d.pool + Ips(gone))]
    {
      var key := Key(user, cluster);
      if key !in clusters {
        return false, false;
      }
      var i := FindContainer(clusters[key].containers, cid);
      ghost var cs := clusters[key].containers;
      if i == |clusters[key].containers| {
        SelectAllOrNone(cs, cid, true);
        SelectAllOrNone(cs, cid, false);
        assert net.users[user].pool + Ips([]) == net.users[user].pool;
      } else {
        SelectOne(cs, cid, i, true);
        if !worker {
          return false, false;
        }
        SelectOne(cs, cid, i, false);
        assert Ips([cs[i]]) == [cs[i].ip];
        DeleteRecord(key, i);
      }
      ok, removed := ports, true;
    }

    /** The loop over the containers; names are not used twice, so it finds one at most. */
    method FindContainer(cs: seq<Container>, cid: nat) returns (i: nat)
      ensures i <= |cs| && (i < |cs| ==> cs[i].cid == cid)
      ensures forall j :: 0 <= j < i ==> cs[j].cid != cid
    {
      i := 0;
      while i < |cs| && cs[i].cid != cid
        invariant i <= |cs|
        invariant forall j :: 0 <= j < i ==> cs[j].cid != cid
      {
        i := i + 1;
      }
    }

    /** Takes record `i` out of the cluster and releases its address; the pool accepts it. */
    method DeleteRecord(key: Key, i: nat)
      requires Valid() && key in clusters && i < |clusters[key].containers|
      modifies this`clusters, net`users, net`now
      ensures Valid()
      ensures var c := old(clusters)[key].containers;
        clusters == old(clusters)[key := old(clusters)[key].(containers := c[..i] + c[i + 1..])]
      ensures key.user in old(net.users)
      ensures net.users == old(net.users)[key.user := old(net.users)[key.user].(
                pool := old(net.users)[key.user].pool + [old(clusters)[key].containers[i].ip])]
    {
      var c := clusters[key];
      var ip := c.containers[i].ip;
      var c' := c.(containers := c.containers[..i] + c.containers[i + 1..]);
      assert At(clusters, key, i, ip);
      var keep := seq(|c'.containers|, j requires 0 <= j < |c'.containers| => if j < i then j else j + 1);
      AfterDrop(net.users, clusters, key, c', keep);
      ghost var before, was := net.users, clusters;
      clusters := clusters[key := c'];
      forall l, j, x | At(clusters, l, j, x) && l.user == key.user
        ensures x !in [ip]
      {
        assert At(was, l, if l == key then keep[j] else j, x);
      }
      var released := net.ReleaseUserIps(key.user, [ip]);
      assert InUse(before, key.user, ip) && released;
      AfterRelease(before, net.users, clusters, key.user, [ip]);
    }

    method DropPrefix(key: Key, n: nat)
      requires Valid() && key in clusters && n <= |clusters[key].containers|
      modifies this`clusters
      ensures Valid()
      ensures clusters == old(clusters)[key := old(clusters)[key].(containers := old(clusters)[key].containers[n..])]
    {
      var c := clusters[key].(containers := clusters[key].containers[n..]);
      AfterDrop(net.users, clusters, key, c, seq(|c.containers|, j requires 0 <= j < |c.containers| => j + n));
      clusters := clusters[key := c];
    }

    /** Deletes the cluster, releases its addresses in one call that succeeds, and gives the user's block
        back with the last cluster.  When a worker is missing the deletes that are already queued in the
        session may still be written by a later commit. */
    method DeleteCluster(user: string, cluster: string, running: bool, present: nat -> bool) returns (ok: bool)
      requires Valid()
      modifies this`clusters, net, net.center
      ensures Valid() && net.center == old(net.center)
      ensures ok <==> Key(user, cluster) in old(clusters) && !running &&
                      forall i: nat :: i < |old(clusters)[Key(user, cluster)].containers| ==> present(i)
      ensures ok ==> clusters == old(clusters) - {Key(user, cluster)}
      ensures ok ==> (user in net.users <==> exists k :: k in clusters && k.user == user)
      ensures ok && user in net.users ==> user in old(net.users)
      ensures ok && user in net.users ==>
                net.users[user].pool == old(net.users)[user].pool + Ips(old(clusters)[Key(user, cluster)].containers)
      ensures !ok ==> net.users == old(net.users) && clusters.Keys == old(clusters).Keys
      ensures forall k :: k in old(clusters) && k != Key(user, cluster) ==>
                k in clusters && clusters[k] == old(clusters)[k]
      ensures net.center.base + Size(net.center.bits) < ADDRESS_SPACE ==> net.now.lost == old(net.now.lost)
    {
      var key := Key(user, cluster);
      if key !in clusters || running {
        return false;
      }
      var deleted, ips := DeleteContainers(clusters[key], present);
      assert clusters[key].containers[..|clusters[key].containers|] == clusters[key].containers;
      if deleted < |clusters[key].containers| {
        if * {
          DropPrefix(key, deleted);
        }
        return false;
      }
      RemoveCluster(key, ips);
      DropUserWithoutClusters(user);
      ok := true;
    }

    method DropUserWithoutClusters(user: string)
      requires Valid()
      modifies net, net.center
      ensures Valid() && net.center == old(net.center)
      ensures net.center.base + Size(net.center.bits) < ADDRESS_SPACE ==> net.now.lost == old(net.now.lost)
      ensures net.users == if exists k :: k in clusters && k.user == user then old(net.users)
                           else old(net.users) - {user}
    {
      if forall k :: k in clusters ==> k.user != user {
        ghost var before := net.users;
        var gone := net.DelUser(user);
        AfterDelUser(before, net.users, clusters, user);
      }
    }

    /** Has the workers delete the containers, in order, until a worker is missing. */
    method DeleteContainers(c: Cluster, present: nat -> bool) returns (deleted: nat, ips: seq<int>)
      ensures deleted <= |c.containers| && ips == Ips(c.containers[..deleted])
      ensures deleted == |c.containers| <==> forall i: nat :: i < |c.containers| ==> present(i)
    {
      deleted, ips := 0, [];
      while deleted < |c.containers|
        invariant deleted <= |c.containers| && ips == Ips(c.containers[..deleted])
        invariant forall i: nat :: i < deleted ==> present(i)
      {
        if !present(deleted) {
          return;
        }
        assert c.containers[..deleted + 1] == c.containers[..deleted] + [c.containers[deleted]];
        ips := ips + [c.containers[deleted].ip];
        deleted := deleted + 1;
      }
    }

    method RemoveCluster(key: Key, ips: seq<int>)
      requires Valid() && key in clusters && ips == Ips(clusters[key].containers)
      modifies this`clusters, net`users, net`now
      ensures net.now.lost == old(net.now.lost)
      ensures Valid() && clusters == old(clusters) - {key}
      ensures key.user in old(net.users)
      ensures net.users == old(net.users)[key.user := old(net.users)[key.user].(
                pool := old(net.users)[key.user].pool + ips)]
    {
      ghost var before, was := net.users, clusters;
      clusters := clusters - {key};
      AfterDelete(before, was, clusters, key, ips);
      var released := net.ReleaseUserIps(key.user, ips);
      assert forall ip :: ip in ips ==> InUse(before, key.user, ip);
      AfterRelease(before, net.users, clusters, key.user, ips);
    }
  }
}
