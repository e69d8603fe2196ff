/** The host ports mapped to containers: portcontrol (src/utils/nettools.py), with what replaying recorded mappings does
    (recover_port_mapping of src/master/vclustermgr.py). */
module Ports {
  import opened Sequences

  const PORTS: int := 65536

  /** A name or an address, of which only matters whether it is empty and which it is. */
  datatype Text = Empty | Named(id: nat)

  /** A port of a container. */
  datatype Key = Key(container: Text, port: Text)

  /** The host ports. */
  type Table = map<Key, int>

  /** allocated_ports */
  type Nested = map<Text, map<Text, int>>

  predicate IsIn(n: Nested, k: Key) {
    k.container in n && k.port in n[k.container]
  }

  ghost predicate IsTable(n: Nested, t: Table) {
    forall k {:trigger IsIn(n, k)} ::
      (IsIn(n, k) <==> k in t) && (k in t && IsIn(n, k) ==> n[k.container][k.port] == t[k])
  }

  predicate IsEmpty(k: Key, ip: Text) {
    k.container == Empty || ip == Empty || k.port == Empty
  }

  ghost predicate Clash(t: Table, k: Key, m: Key) {
    k in t && m in t && k != m && t[k] == t[m]
  }

  /** The mapped ports are of the pool, and none is mapped twice. */
  ghost predicate Conserved(t: Table, pool: set<int>) {
    && (forall k, m :: !Clash(t, k, m))
    && (forall k :: k in t ==> t[k] in pool)
    && (forall i :: i in pool ==> 1 <= i < PORTS)
  }

  /** The other ports of the pool are free. */
  ghost predicate IsFree(i: int, t: Table, pool: set<int>) {
    i in pool && i !in t.Values
  }

  lemma PutValues(t: Table, k: Key, host: int)
    requires k !in t
    ensures t[k := host].Values == t.Values + {host}
  {
    var u := t[k := host];
    assert u[k] == host && forall m :: m in t ==> u[m] == t[m];
  }

  lemma DropValues(t: Table, k: Key)
    requires k in t && forall m :: !Clash(t, k, m)
    ensures (t - {k}).Values == t.Values - {t[k]}
  {
    var u := t - {k};
    assert forall m :: m in t && m != k ==> t[m] != t[k] by {
      forall m | m in t && m != k
        ensures t[m] != t[k]
      {
        assert !Clash(t, k, m);
      }
    }
    assert forall m :: m in t && m != k ==> m in u && u[m] == t[m];
  }

  /** Mapping a new container port to a host port keeps the ports conserved exactly if the host port is in the pool
      and not mapped yet. */
  lemma PutConserves(t: Table, pool: set<int>, k: Key, host: int)
    requires Conserved(t, pool) && k !in t
    ensures Conserved(t[k := host], pool) <==> IsFree(host, t, pool)
    ensures forall i :: IsFree(i, t[k := host], pool) <==> IsFree(i, t, pool) && i != host
  {
    PutValues(t, k, host);
    var u := t[k := host];
    assert k in u && u[k] == host;
    if host in t.Values {
      var m :| m in t && t[m] == host;
      assert Clash(u, k, m);
    } else {
      forall m, l
        ensures !Clash(u, m, l)
      {
        assert !Clash(t, m, l);
      }
    }
  }

  /** Dropping a mapping frees its port, which was not free before. */
  lemma DropConserves(t: Table, pool: set<int>, k: Key)
    requires Conserved(t, pool) && k in t
    ensures Conserved(t - {k}, pool) && t[k] in pool && !IsFree(t[k], t, pool)
    ensures forall i :: IsFree(i, t - {k}, pool) <==> IsFree(i, t, pool) || i == t[k]
  {
    DropValues(t, k);
    forall m, l
      ensures !Clash(t - {k}, m, l)
    {
      assert !Clash(t, m, l);
    }
  }

  /** `Raises`: there is no such port, and the table of free ports has no place for it. */
  datatype Acquired = Mapped(host: int) | NotSet(host: int) | AlreadyMapped | EmptyName | NoFreePort | Raises

  datatype Released = Gone | Unknown | Missing | StillSet

  function Chosen(r: Acquired): Option<int> {
    match r
    case Mapped(host) => Some(host)
    case NotSet(host) => Some(host)
    case _ => None
  }

  /** The lowest port of the pool that is not mapped. */
  ghost predicate IsLowest(host: int, t: Table, pool: set<int>) {
    IsFree(host, t, pool) && forall i :: IsFree(i, t, pool) ==> host <= i
  }

  /** The place of a port in the table of free ports; a negative index counts from the end. */
  function Slot(host: int): int {
    if host < 0 then host + PORTS else host
  }

  datatype Range = Range(start: int, end: int)

  ghost predicate Legal(r: Range) {
    1 <= r.start <= r.end <= 65535
  }

  predicate InRange(i: int, r: Range) {
    r.start <= i <= r.end
  }

  function PortsOf(r: Range): set<int> {
    set i | 1 <= i <= 65535 && InRange(i, r)
  }

  function Covered(ranges: seq<Range>, n: nat): set<int>
    requires n <= |ranges|
  {
    if n == 0 then {} else Covered(ranges, n - 1) + PortsOf(ranges[n - 1])
  }

  /** How many ranges there are before the first illegal one. */
  ghost function LegalPrefix(ranges: seq<Range>): (n: nat)
    ensures n <= |ranges|
  {
    if ranges == [] || !Legal(ranges[0]) then 0 else 1 + LegalPrefix(ranges[1..])
  }

  lemma {:induction false} LegalPrefixIs(ranges: seq<Range>, n: nat)
    requires n <= |ranges| && (forall m :: 0 <= m < n ==> Legal(ranges[m])) && (n < |ranges| ==> !Legal(ranges[n]))
    ensures LegalPrefix(ranges) == n
    decreases n
  {
    if n > 0 {
      assert forall m :: 0 <= m < n - 1 ==> ranges[1..][m] == ranges[m + 1];
      assert n < |ranges| ==> ranges[1..][n - 1] == ranges[n];
      LegalPrefixIs(ranges[1..], n - 1);
    }
  }

  // ----- recovery

  /** A PortMapping of a cluster. */
  datatype Record = Record(cluster: int, key: Key, ip: Text, host: int)

  function Replay(t: Table, records: seq<Record>): Table
    decreases |records|
  {
    if records == [] then t else Replay(t[records[0].key := records[0].host], records[1..])
  }

  /** What recover_port_mapping leaves of the table, and whether it reached the end: it stops at the first record that
      is not mapped, and at the first for which iptables fails, which is mapped. */
  function Recovered(t: Table, records: seq<Record>, iptables: seq<bool>): (Table, bool)
    requires |iptables| == |records|
    decreases |records|
  {
    if records == [] then (t, true)
    else
      var r := records[0];
      if r.key in t || IsEmpty(r.key, r.ip) || !(-PORTS <= r.host < PORTS) then (t, false)
      else if !iptables[0] then (t[r.key := r.host], false)
      else Recovered(t[r.key := r.host], records[1..], iptables[1..])
  }

  /** Every record that is mapped then has a port of the pool that is free. */
  ghost predicate IsSafe(t: Table, records: seq<Record>, iptables: seq<bool>, pool: set<int>)
    requires |iptables| == |records|
    decreases |records|
  {
    records == [] || (
      var r := records[0];
      || r.key in t || IsEmpty(r.key, r.ip) || !(-PORTS <= r.host < PORTS)
      || (IsFree(r.host, t, pool) && (iptables[0] ==> IsSafe(t[r.key := r.host], records[1..], iptables[1..], pool))))
  }

  lemma {:induction false} ReplayableIsSafe(t: Table, records: seq<Record>, iptables: seq<bool>, pool: set<int>)
    requires |iptables| == |records| && Replayable(t, records, pool)
    ensures IsSafe(t, records, iptables, pool)
    decreases |records|
  {
    if records != [] {
      ReplayableIsSafe(t[records[0].key := records[0].host], records[1..], iptables[1..], pool);
    }
  }

  /** What is wrong with a table stays wrong. */
  lemma {:induction false} RecoveredConserved(t: Table, records: seq<Record>, iptables: seq<bool>, pool: set<int>)
    requires |iptables| == |records| && Conserved(Recovered(t, records, iptables).0, pool)
    ensures Conserved(t, pool)
    decreases |records|
  {
    if records != [] {
      var r := records[0];
      if r.key !in t && !IsEmpty(r.key, r.ip) && -PORTS <= r.host < PORTS {
        var u := t[r.key := r.host];
        if iptables[0] {
          RecoveredConserved(u, records[1..], iptables[1..], pool);
        }
        ConservedBefore(t, r.key, r.host, pool);
      }
    }
  }

  lemma ConservedBefore(t: Table, k: Key, host: int, pool: set<int>)
    requires k !in t && Conserved(t[k := host], pool)
    ensures Conserved(t, pool)
  {
    var u := t[k := host];
    forall l, m
      ensures !Clash(t, l, m)
    {
      assert !Clash(u, l, m);
    }
    forall m | m in t
      ensures t[m] in pool
    {
      assert u[m] == t[m];
    }
  }

  /** Each record can be put in the table, one after the other. */
  ghost predicate Replayable(t: Table, records: seq<Record>, pool: set<int>)
    decreases |records|
  {
    records == [] || (
      var r := records[0];
      && r.key !in t && !IsEmpty(r.key, r.ip) && IsFree(r.host, t, pool)
      && Replayable(t[r.key := r.host], records[1..], pool))
  }

  ghost function Keys(records: seq<Record>): set<Key> {
    if records == [] then {} else {records[0].key} + Keys(records[1..])
  }

  ghost predicate DistinctKeys(records: seq<Record>) {
    records == [] || (records[0].key !in Keys(records[1..]) && DistinctKeys(records[1..]))
  }

  /** Every record is of a mapping in the table. */
  ghost predicate AgreeWith(records: seq<Record>, t: Table) {
    records == [] || (
      var r := records[0];
      r.key in t && t[r.key] == r.host && !IsEmpty(r.key, r.ip) && AgreeWith(records[1..], t))
  }

  /** The mappings of `a` are mappings of `t`. */
  ghost predicate PartOf(a: Table, t: Table) {
    forall k :: k in a ==> k in t && a[k] == t[k]
  }

  /** Records of mappings that the table `t` had are accepted by a table that has others of them, and give just these
      mappings back; an iptables failure stops the replay, which then has given back some of them. */
  lemma {:induction false} ReplayGivesBack(t: Table, a: Table, records: seq<Record>, iptables: seq<bool>,
                                           pool: set<int>)
    requires Conserved(t, pool) && PartOf(a, t)
    requires AgreeWith(records, t) && DistinctKeys(records) && Keys(records) !! a.Keys
    requires |iptables| == |records|
    ensures Replayable(a, records, pool) && PartOf(Replay(a, records), t)
    ensures Replay(a, records).Keys == a.Keys + Keys(records)
    ensures var r := Recovered(a, records, iptables);
      && PartOf(r.0, t) && r.0.Keys <= a.Keys + Keys(records)
      && (r.1 <==> false !in iptables) && (r.1 ==> r.0 == Replay(a, records))
    decreases |records|
  {
    if records != [] {
      var r := records[0];
      forall k | k in a
        ensures a[k] != r.host
      {
        assert !Clash(t, k, r.key);
      }
      ReplayGivesBack(t, a[r.key := r.host], records[1..], iptables[1..], pool);
      assert iptables == [iptables[0]] + iptables[1..];
    }
  }

  lemma {:induction false} AgreeingKeys(records: seq<Record>, t: Table)
    requires AgreeWith(records, t)
    ensures Keys(records) <= t.Keys
  {
    if records != [] {
      AgreeingKeys(records[1..], t);
    }
  }

  /** Replaying the records after a restart gives the mappings that had a record; so it rebuilds the table exactly when
      every mapping had one. */
  lemma ReplayRebuildsIff(t: Table, records: seq<Record>, pool: set<int>)
    requires Conserved(t, pool) && AgreeWith(records, t) && DistinctKeys(records)
    ensures Replayable(map[], records, pool) && PartOf(Replay(map[], records), t)
    ensures Replay(map[], records) == t <==> t.Keys == Keys(records)
  {
    ReplayGivesBack(t, map[], records, seq(|records|, i => true), pool);
  }

  /** When a mapping is made and no record of it is written, no records of what was mapped before rebuild the table. */
  lemma OrphanIsLost(t: Table, records: seq<Record>, pool: set<int>, k: Key, host: int)
    requires Conserved(t, pool) && AgreeWith(records, t) && DistinctKeys(records) && k !in t
    ensures Replay(map[], records) != t[k := host]
  {
    ReplayRebuildsIff(t, records, pool);
    assert k !in Replay(map[], records);
  }

  /** The first request for the only port of the pool, and iptables fails: the port is mapped, nothing is recorded. */
  lemma OrphanExample()
    ensures var t := map[Key(Named(1), Named(80)) := 10000];
      Conserved(t, {10000}) && !IsFree(10000, t, {10000}) && Replay(map[], []) != t
  {
    var t: Table := map[];
    PutConserves(t, {10000}, Key(Named(1), Named(80)), 10000);
  }

  class PortControl {
    const free: array<bool>
    var mapped: Nested
    /** `mapped`, by container and port */
    ghost var table: Table
    /** the ports of ALLOCATED_PORTS */
    ghost var pool: set<int>

    /** What holds in every state, whatever was recovered. */
    ghost predicate Sound()
      reads this
    {
      free.Length == PORTS && IsTable(mapped, table) && forall k :: k in table ==> -PORTS <= table[k] < PORTS
    }

    ghost predicate Valid()
      reads this, free
    {
      && Sound() && Conserved(table, pool)
      && forall i :: 0 <= i < PORTS ==> (free[i] <==> IsFree(i, table, pool))
    }

    constructor ()
      ensures Valid() && fresh(free) && mapped == map[] && table == map[] && pool == {}
    {
      free := new bool[PORTS](_ => false);
      mapped, table, pool := map[], map[], {};
    }

    /** init_new, before any port is mapped: an illegal range leaves the ranges before it in force. */
    method InitNew(ranges: seq<Range>) returns (ok: bool)
      requires Valid() && table == map[]
      modifies this`pool, free
      ensures Valid() && pool == old(pool) + Covered(ranges, LegalPrefix(ranges))
      ensures ok <==> forall n :: 0 <= n < |ranges| ==> Legal(ranges[n])
    {
      for n := 0 to |ranges|
        invariant Valid() && pool == old(pool) + Covered(ranges, n)
        invariant forall m :: 0 <= m < n ==> Legal(ranges[m])
      {
        if ranges[n].end < ranges[n].start || ranges[n].end > 65535 || ranges[n].start < 1 {
          LegalPrefixIs(ranges, n);
          return false;
        }
        ghost var before := free[..];
        for i := ranges[n].start to ranges[n].end + 1
          invariant pool == old(pool) + Covered(ranges, n)
          invariant forall j :: 0 <= j < PORTS ==> (free[j] <==> before[j] || ranges[n].start <= j < i)
        {
          free[i] := true;
        }
        assert forall j :: j in PortsOf(ranges[n]) <==> ranges[n].start <= j <= ranges[n].end;
        pool := pool + PortsOf(ranges[n]);
      }
      LegalPrefixIs(ranges, |ranges|);
      return true;
    }

    /** The scan for a free port. */
    method LowestFree() returns (host: int)
      requires free.Length == PORTS
      ensures 1 <= host <= PORTS && (host < PORTS ==> free[host])
      ensures forall i :: 1 <= i < host ==> !free[i]
    {
      host := 1;
      while host <= 65535
        invariant 1 <= host <= PORTS && forall i :: 1 <= i < host ==> !free[i]
      {
        if free[host] {
          break;
        }
        host := host + 1;
      }
    }

    /** acquire_port_mapping.  The mapping stands even when iptables fails, and a port to recover is not checked. */
    method Acquire(k: Key, ip: Text, recover: Option<int>, iptables: bool) returns (r: Acquired)
      requires Sound()
      modifies this`mapped, this`table, free
      ensures Sound() && mapped.Keys == old(mapped).Keys + {k.container}
      ensures table == if Chosen(r).Some? then old(table)[k := Chosen(r).value] else old(table)
      ensures r == AlreadyMapped <==> k in old(table)
      ensures r == EmptyName <==> k !in old(table) && IsEmpty(k, ip)
      ensures r == Raises ==> recover.Some?
      ensures r == NoFreePort ==> recover == None && (old(Valid()) ==> forall i :: !IsFree(i, old(table), pool))
      ensures k !in old(table) && !IsEmpty(k, ip) && recover.Some? ==>
                (r == Raises <==> !(-PORTS <= recover.value < PORTS)) && (r != Raises ==> Chosen(r) == recover)
      ensures old(Valid()) && Chosen(r).Some? && recover.None? ==> IsLowest(Chosen(r).value, old(table), pool)
      ensures Chosen(r).Some? ==> r == if iptables then Mapped(Chosen(r).value) else NotSet(Chosen(r).value)
      ensures old(Valid()) ==>
                (Valid() <==> (Chosen(r).Some? && recover.Some? ==> IsFree(recover.value, old(table), pool)))
    {
      ghost var before := mapped;
      assert IsIn(mapped, k) <==> k in table;
      if k.container !in mapped {
        mapped := mapped[k.container := map[]];
      } else if k.port in mapped[k.container] {
        return AlreadyMapped;
      }
      assert forall m :: IsIn(mapped, m) <==> IsIn(before, m);
      if k.container == Empty || ip == Empty || k.port == Empty {
        return EmptyName;
      }
      var host;
      if recover.Some? {
        host := recover.value;
        if host < -PORTS || host >= PORTS {
          return Raises;
        }
      } else {
        host := LowestFree();
        if host == PORTS {
          return NoFreePort;
        }
      }
      Book(k, host);
      r := if iptables then Mapped(host) else NotSet(host);
    }

    /** The two assignments of acquire_port_mapping. */
    method Book(k: Key, host: int)
      requires Sound() && k !in table && k.container in mapped && -PORTS <= host < PORTS
      modifies this`mapped, this`table, free
      ensures Sound() && table == old(table)[k := host] && mapped.Keys == old(mapped).Keys
      ensures old(Valid()) ==> (Valid() <==> IsFree(host, old(table), pool))
    {
      if Valid() {
        PutConserves(table, pool, k, host);
      }
      ghost var before := mapped;
      free[Slot(host)] := false;
      mapped := mapped[k.container := mapped[k.container][k.port := host]];
      table := table[k := host];
      assert forall m :: IsIn(mapped, m) <==> IsIn(before, m) || m == k;
    }

    /** release_port_mapping */
    method Release(k: Key, iptables: bool) returns (r: Released)
      requires Sound()
      modifies this`mapped, this`table, free
      ensures Sound() && mapped.Keys == old(mapped).Keys
      ensures r == Unknown <==> k.container !in old(mapped)
      ensures r == Missing <==> k.container in old(mapped) && k !in old(table)
      ensures r == Gone <==> k in old(table) && iptables
      ensures k in old(table) ==> r == if iptables then Gone else StillSet
      ensures table == if r == Gone then old(table) - {k} else old(table)
      ensures old(Valid()) ==> Valid() && (r == Gone ==> IsFree(old(table)[k], table, pool))
    {
      assert IsIn(mapped, k) <==> k in table;
      if k.container !in mapped {
        return Unknown;
      } else if k.port !in mapped[k.container] {
        return Missing;
      } else if !iptables {
        return StillSet;
      }
      Unbook(k);
      return Gone;
    }

    /** The two assignments of release_port_mapping. */
    method Unbook(k: Key)
      requires Sound() && k in table && IsIn(mapped, k)
      modifies this`mapped, this`table, free
      ensures Sound() && table == old(table) - {k} && mapped.Keys == old(mapped).Keys
      ensures old(Valid()) ==> Valid() && IsFree(old(table)[k], table, pool)
    {
      if Valid() {
        DropConserves(table, pool, k);
      }
      ghost var before := mapped;
      free[Slot(mapped[k.container][k.port])] := true;
      mapped := mapped[k.container := mapped[k.container] - {k.port}];
      table := table - {k};
      assert forall m :: IsIn(mapped, m) <==> IsIn(before, m) && m != k;
    }

    /** recover_port_mapping.  The ports stay conserved exactly if every record that it maps has a free port of the
        pool. */
    method Recover(records: seq<Record>, iptables: seq<bool>) returns (ok: bool)
      requires Sound() && |iptables| == |records|
      modifies this`mapped, this`table, free
      ensures Sound() && (table, ok) == Recovered(old(table), records, iptables)
      ensures old(Valid()) ==> (Valid() <==> IsSafe(old(table), records, iptables, pool))
    {
      for n := 0 to |records|
        invariant Sound() && Recovered(table, records[n..], iptables[n..]) == Recovered(old(table), records, iptables)
        invariant old(Valid()) ==> (Valid() <==> Conserved(table, pool))
        invariant old(Valid()) ==> (Valid() && IsSafe(table, records[n..], iptables[n..], pool) <==>
                                    IsSafe(old(table), records, iptables, pool))
      {
        var rec := records[n];
        assert records[n..][0] == rec && records[n..][1..] == records[n + 1..];
        assert iptables[n..][0] == iptables[n] && iptables[n..][1..] == iptables[n + 1..];
        ghost var t, valid := table, Valid();
        if valid && rec.key !in t {
          PutConserves(t, pool, rec.key, rec.host);
        }
        var r := Acquire(rec.key, rec.ip, Some(rec.host), iptables[n]);
        if old(Valid()) && !valid && Chosen(r).Some? && Conserved(table, pool) {
          ConservedBefore(t, rec.key, rec.host, pool);
        }
        if !r.Mapped? {
          return false;
        }
      }
      ok := true;
    }
  }
}
