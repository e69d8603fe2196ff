/** The port mappings that are recorded for the clusters (src/master/vclustermgr.py), beside the table of the gateway
    that maps them, and which clusters a restart recovers: what it gives back. */
module PortRecords {
  import opened Ports
  import opened Sequences

  function OfClusters(records: seq<Record>, clusters: set<int>): seq<Record> {
    if records == [] then []
    else if records[0].cluster in clusters then [records[0]] + OfClusters(records[1..], clusters)
    else OfClusters(records[1..], clusters)
  }

  function WithoutKeys(records: seq<Record>, drop: set<Key>): seq<Record> {
    if records == [] then []
    else if records[0].key in drop then WithoutKeys(records[1..], drop)
    else [records[0]] + WithoutKeys(records[1..], drop)
  }

  /** Every record is of a mapping; there are other mappings exactly when iptables calls failed. */
  ghost predicate Good(t: Table, records: seq<Record>, orphans: set<Key>, failures: nat) {
    && DistinctKeys(records) && AgreeWith(records, t)
    && t.Keys == Keys(records) + orphans && Keys(records) !! orphans && (orphans == {} <==> failures == 0)
  }

  /** Only the mappings of the records matter. */
  lemma {:induction false} AgreeElsewhere(records: seq<Record>, t: Table, u: Table)
    requires AgreeWith(records, t)
    requires forall k :: k in Keys(records) && k in t ==> k in u && u[k] == t[k]
    ensures AgreeWith(records, u)
  {
    if records != [] {
      assert records[0].key in Keys(records);
      AgreeElsewhere(records[1..], t, u);
    }
  }

  lemma {:induction false} OneMoreRecord(records: seq<Record>, t: Table, r: Record)
    requires DistinctKeys(records) && AgreeWith(records, t) && r.key !in Keys(records)
    requires r.key in t && t[r.key] == r.host && !IsEmpty(r.key, r.ip)
    ensures var more := records + [r];
      Keys(more) == Keys(records) + {r.key} && DistinctKeys(more) && AgreeWith(more, t)
    decreases |records|
  {
    if records == [] {
      assert ([] + [r])[1..] == [];
    } else {
      assert (records + [r])[1..] == records[1..] + [r];
      OneMoreRecord(records[1..], t, r);
    }
  }

  lemma {:induction false} WithoutFacts(records: seq<Record>, drop: set<Key>, t: Table)
    requires DistinctKeys(records) && AgreeWith(records, t)
    ensures var rest := WithoutKeys(records, drop);
      Keys(rest) == Keys(records) - drop && DistinctKeys(rest) && AgreeWith(rest, t)
  {
    if records != [] {
      WithoutFacts(records[1..], drop, t);
    }
  }

  lemma {:induction false} WithoutNone(records: seq<Record>, drop: set<Key>)
    requires Keys(records) !! drop
    ensures WithoutKeys(records, drop) == records
  {
    if records != [] {
      WithoutNone(records[1..], drop);
    }
  }

  lemma {:induction false} RemoveOne(records: seq<Record>, i: nat)
    requires DistinctKeys(records) && i < |records|
    ensures records[i].key in Keys(records)
    ensures records[..i] + records[i + 1..] == WithoutKeys(records, {records[i].key})
    decreases |records|
  {
    if i == 0 {
      WithoutNone(records[1..], {records[0].key});
    } else {
      RemoveOne(records[1..], i - 1);
      assert records[1..][..i - 1] == records[1..i] && records[1..][i..] == records[i + 1..];
      assert records[..i] + records[i + 1..] == [records[0]] + (records[1..i] + records[i + 1..]);
    }
  }

  // ----- a table and its records

  lemma MappedAndRecorded(t: Table, records: seq<Record>, orphans: set<Key>, failures: nat, r: Record)
    requires Good(t, records, orphans, failures) && r.key !in t && !IsEmpty(r.key, r.ip)
    ensures Good(t[r.key := r.host], records + [r], orphans, failures)
  {
    AgreeElsewhere(records, t, t[r.key := r.host]);
    OneMoreRecord(records, t[r.key := r.host], r);
  }

  lemma MappedOnly(t: Table, records: seq<Record>, orphans: set<Key>, failures: nat, k: Key, host: int)
    requires Good(t, records, orphans, failures) && k !in t
    ensures k !in orphans && Good(t[k := host], records, orphans + {k}, failures + 1)
  {
    AgreeElsewhere(records, t, t[k := host]);
  }

  lemma RecordDropped(t: Table, records: seq<Record>, orphans: set<Key>, failures: nat, k: Key)
    requires Good(t, records, orphans, failures) && k in Keys(records)
    ensures k in t && k !in orphans && Good(t, WithoutKeys(records, {k}), orphans + {k}, failures + 1)
  {
    WithoutFacts(records, {k}, t);
  }

  /** Mappings go with their records. */
  lemma BothDropped(t: Table, records: seq<Record>, orphans: set<Key>, failures: nat, gone: set<Key>)
    requires Good(t, records, orphans, failures) && gone <= Keys(records)
    ensures Good(t - gone, WithoutKeys(records, gone), orphans, failures)
  {
    WithoutFacts(records, gone, t);
    AgreeElsewhere(WithoutKeys(records, gone), t, t - gone);
  }

  // ----- delete_all_port_mapping

  /** What iptables answers for the records. */
  type Answers = Record -> bool

  predicate IsOf(r: Record, cluster: int, nodes: set<Text>) {
    r.cluster == cluster && r.key.container in nodes
  }

  /** The mappings of these containers of the cluster that iptables lets go. */
  ghost function LetGo(records: seq<Record>, cluster: int, nodes: set<Text>, answers: Answers): set<Key> {
    if records == [] then {}
    else (if IsOf(records[0], cluster, nodes) && answers(records[0]) then {records[0].key} else {}) +
         LetGo(records[1..], cluster, nodes, answers)
  }

  ghost predicate AnyFails(records: seq<Record>, cluster: int, nodes: set<Text>, answers: Answers) {
    records != [] &&
    ((IsOf(records[0], cluster, nodes) && !answers(records[0])) || AnyFails(records[1..], cluster, nodes, answers))
  }

  /** The loop of delete_all_port_mapping before record i. */
  ghost predicate LeftToLetGo(records: seq<Record>, i: nat, gone: set<Key>, failed: bool, cluster: int,
                              nodes: set<Text>,
                              answers: Answers)
    requires i <= |records|
  {
    && gone + LetGo(records[i..], cluster, nodes, answers) == LetGo(records, cluster, nodes, answers)
    && gone + Keys(records[i..]) <= Keys(records) && gone !! Keys(records[i..]) && DistinctKeys(records[i..])
    && (failed || AnyFails(records[i..], cluster, nodes, answers) <==> AnyFails(records, cluster, nodes, answers))
  }

  lemma LeftAfter(records: seq<Record>, i: nat, gone: set<Key>, failed: bool, cluster: int, nodes: set<Text>,
                  answers: Answers)
    requires i < |records| && LeftToLetGo(records, i, gone, failed, cluster, nodes, answers)
    ensures var r := records[i];
      && r.key in Keys(records) && r.key !in gone
      && if !IsOf(r, cluster, nodes) then LeftToLetGo(records, i + 1, gone, failed, cluster, nodes, answers)
         else if answers(r) then LeftToLetGo(records, i + 1, gone + {r.key}, failed, cluster, nodes, answers)
         else LeftToLetGo(records, i + 1, gone, true, cluster, nodes, answers)
  {
    assert records[i..][0] == records[i] && records[i..][1..] == records[i + 1..];
  }

  lemma {:induction false} LetGoIsKeys(records: seq<Record>, cluster: int, nodes: set<Text>, answers: Answers)
    ensures LetGo(records, cluster, nodes, answers) <= Keys(records)
  {
    if records != [] {
      LetGoIsKeys(records[1..], cluster, nodes, answers);
    }
  }

  lemma {:induction false} LetGoNone(records: seq<Record>, cluster: int, answers: Answers)
    ensures LetGo(records, cluster, {}, answers) == {}
  {
    if records != [] {
      LetGoNone(records[1..], cluster, answers);
    }
  }

  lemma {:induction false} LetGoWithout(records: seq<Record>, drop: set<Key>, cluster: int, nodes: set<Text>,
                                        answers: Answers)
    ensures LetGo(WithoutKeys(records, drop), cluster, nodes, answers) == LetGo(records, cluster, nodes, answers) - drop
  {
    if records != [] {
      LetGoWithout(records[1..], drop, cluster, nodes, answers);
    }
  }

  lemma {:induction false} LetGoBoth(records: seq<Record>, cluster: int, nodes: set<Text>, node: Text, answers: Answers)
    ensures LetGo(records, cluster, nodes + {node}, answers) ==
            LetGo(records, cluster, nodes, answers) + LetGo(records, cluster, {node}, answers)
  {
    if records != [] {
      LetGoBoth(records[1..], cluster, nodes, node, answers);
    }
  }

  lemma {:induction false} WithoutTwice(records: seq<Record>, drop: set<Key>, more: set<Key>)
    ensures WithoutKeys(WithoutKeys(records, drop), more) == WithoutKeys(records, drop + more)
  {
    if records != [] {
      WithoutTwice(records[1..], drop, more);
    }
  }

  /** One container after the other. */
  lemma LetGoMore(records: seq<Record>, cluster: int, nodes: set<Text>, node: Text, answers: Answers)
    ensures var gone := LetGo(records, cluster, nodes, answers);
      var rest := WithoutKeys(records, gone);
      && gone + LetGo(rest, cluster, {node}, answers) == LetGo(records, cluster, nodes + {node}, answers)
      && WithoutKeys(rest, LetGo(rest, cluster, {node}, answers)) ==
         WithoutKeys(records, LetGo(records, cluster, nodes + {node}, answers))
  {
    var gone := LetGo(records, cluster, nodes, answers);
    LetGoWithout(records, gone, cluster, {node}, answers);
    LetGoBoth(records, cluster, nodes, node, answers);
    var more := LetGo(WithoutKeys(records, gone), cluster, {node}, answers);
    WithoutTwice(records, gone, more);
    assert gone + more == LetGo(records, cluster, nodes + {node}, answers);
  }

  // ----- which records a restart comes to

  /** The keys of the records of other clusters. */
  ghost function Outside(records: seq<Record>, live: set<int>): set<Key> {
    if records == [] then {}
    else if records[0].cluster in live then Outside(records[1..], live)
    else {records[0].key} + Outside(records[1..], live)
  }

  ghost function KeysOf(records: seq<Record>, c: int): set<Key> {
    Keys(OfClusters(records, {c}))
  }

  /** The records of a cluster that stay when these containers of it are stopped. */
  ghost function Stays(records: seq<Record>, c: int, nodes: set<Text>, answers: Answers): set<Key> {
    if records == [] then {}
    else
      var r := records[0];
      (if r.cluster == c && !(IsOf(r, c, nodes) && answers(r)) then {r.key} else {}) +
      Stays(records[1..], c, nodes, answers)
  }

  lemma {:induction false} StaysIs(records: seq<Record>, c: int, nodes: set<Text>, answers: Answers, more: set<Key>)
    requires DistinctKeys(records) && more !! Keys(records)
    ensures var gone := LetGo(records, c, nodes, answers);
      KeysOf(WithoutKeys(records, gone + more), c) == Stays(records, c, nodes, answers)
    decreases records
  {
    if records != [] {
      var r := records[0];
      var gone, rest := LetGo(records, c, nodes, answers), LetGo(records[1..], c, nodes, answers);
      LetGoIsKeys(records[1..], c, nodes, answers);
      if r.key in gone {
        assert gone + more == rest + (more + {r.key});
        StaysIs(records[1..], c, nodes, answers, more + {r.key});
      } else {
        assert gone == rest;
        StaysIs(records[1..], c, nodes, answers, more);
      }
    }
  }

  /** None stays exactly when every mapping that is recorded for the cluster is of one of the containers and is let go.
      */
  lemma {:induction false} NoneStaysIff(records: seq<Record>, c: int, nodes: set<Text>, answers: Answers)
    ensures Stays(records, c, nodes, answers) == {} <==>
            forall i :: 0 <= i < |records| && records[i].cluster == c ==>
              records[i].key.container in nodes && answers(records[i])
  {
    if records != [] {
      var rest := records[1..];
      NoneStaysIff(rest, c, nodes, answers);
      assert forall i :: 0 <= i < |rest| ==> rest[i] == records[i + 1];
      assert forall i :: 0 < i < |records| ==> records[i] == rest[i - 1];
    }
  }

  lemma {:induction false} OutsideMore(records: seq<Record>, r: Record, live: set<int>)
    ensures Outside(records + [r], live) == Outside(records, live) + if r.cluster in live then {} else {r.key}
    decreases |records|
  {
    if records == [] {
      assert ([] + [r])[1..] == [];
    } else {
      assert (records + [r])[1..] == records[1..] + [r];
      OutsideMore(records[1..], r, live);
    }
  }

  lemma {:induction false} OutsideWithout(records: seq<Record>, drop: set<Key>, live: set<int>)
    ensures Outside(WithoutKeys(records, drop), live) == Outside(records, live) - drop
  {
    if records != [] {
      OutsideWithout(records[1..], drop, live);
    }
  }

  /** A cluster that is not recovered any more leaves its records behind. */
  lemma {:induction false} OutsideLeaves(records: seq<Record>, live: set<int>, c: int)
    ensures Outside(records, live - {c}) == Outside(records, live) + KeysOf(records, c)
  {
    if records != [] {
      OutsideLeaves(records[1..], live, c);
    }
  }

  lemma {:induction false} OutsideReturns(records: seq<Record>, live: set<int>, c: int)
    requires DistinctKeys(records)
    ensures Outside(records, live + {c}) == Outside(records, live) - KeysOf(records, c)
    ensures Outside(records, live) + KeysOf(records, c) <= Keys(records)
  {
    if records != [] {
      OutsideReturns(records[1..], live, c);
    }
  }

  /** Each record is of a recovered cluster or of another. */
  lemma {:induction false} OutsideAndInside(records: seq<Record>, live: set<int>)
    requires DistinctKeys(records)
    ensures Keys(OfClusters(records, live)) == Keys(records) - Outside(records, live)
    ensures Outside(records, live) <= Keys(records)
  {
    if records != [] {
      OutsideAndInside(records[1..], live);
    }
  }

  lemma {:induction false} OfClustersFacts(records: seq<Record>, clusters: set<int>, t: Table)
    requires DistinctKeys(records) && AgreeWith(records, t)
    ensures var part := OfClusters(records, clusters);
      Keys(part) <= Keys(records) && DistinctKeys(part) && AgreeWith(part, t)
  {
    if records != [] {
      OfClustersFacts(records[1..], clusters, t);
    }
  }

  lemma {:induction false} OneMoreCluster(records: seq<Record>, clusters: set<int>, c: int)
    requires DistinctKeys(records) && c !in clusters
    ensures Keys(OfClusters(records, clusters + {c})) == Keys(OfClusters(records, clusters)) + KeysOf(records, c)
    ensures Keys(OfClusters(records, clusters)) !! KeysOf(records, c)
    ensures Keys(OfClusters(records, clusters)) <= Keys(records) && KeysOf(records, c) <= Keys(records)
  {
    if records != [] {
      OneMoreCluster(records[1..], clusters, c);
    }
  }

  lemma {:induction false} OfFewer(records: seq<Record>, few: set<int>, all: set<int>)
    requires few <= all
    ensures Keys(OfClusters(records, few)) <= Keys(OfClusters(records, all))
  {
    if records != [] {
      OfFewer(records[1..], few, all);
    }
  }

  lemma {:induction false} NoClusters(records: seq<Record>)
    ensures OfClusters(records, {}) == []
  {
    if records != [] {
      NoClusters(records[1..]);
    }
  }

  function AnswersFor(records: seq<Record>, answers: Answers): seq<bool> {
    seq(|records|, i requires 0 <= i < |records| => answers(records[i]))
  }

  ghost predicate AllSet(records: seq<Record>, answers: Answers) {
    records == [] || (answers(records[0]) && AllSet(records[1..], answers))
  }

  lemma {:induction false} AllSetIs(records: seq<Record>, answers: Answers)
    ensures AllSet(records, answers) <==> false !in AnswersFor(records, answers)
  {
    if records != [] {
      AllSetIs(records[1..], answers);
      assert AnswersFor(records, answers) == [answers(records[0])] + AnswersFor(records[1..], answers);
    }
  }

  lemma {:induction false} AllSetClusters(records: seq<Record>, clusters: set<int>, c: int, answers: Answers)
    ensures AllSet(OfClusters(records, clusters + {c}), answers) <==>
              AllSet(OfClusters(records, clusters), answers) && AllSet(OfClusters(records, {c}), answers)
  {
    if records != [] {
      AllSetClusters(records[1..], clusters, c, answers);
    }
  }

  /** The table after recover_port_mapping for the clusters of `done`. */
  ghost predicate Restored(records: seq<Record>, done: set<int>, t: Table, a: Table, ok: bool, answers: Answers) {
    && PartOf(a, t) && a.Keys <= Keys(OfClusters(records, done))
    && (ok <==> AllSet(OfClusters(records, done), answers))
    && (ok ==> a.Keys == Keys(OfClusters(records, done)))
  }

  lemma RestoredMore(records: seq<Record>, done: set<int>, c: int, t: Table, a: Table, ok: bool, answers: Answers,
                     pool: set<int>)
    requires Conserved(t, pool)
    requires DistinctKeys(records) && AgreeWith(records, t) && c !in done && Restored(records, done, t, a, ok, answers)
    ensures var list := OfClusters(records, {c});
      var r := Recovered(a, list, AnswersFor(list, answers));
      Replayable(a, list, pool) && Restored(records, done + {c}, t, r.0, ok && r.1, answers)
  {
    var list := OfClusters(records, {c});
    OneMoreCluster(records, done, c);
    OfClustersFacts(records, {c}, t);
    AllSetIs(list, answers);
    AllSetClusters(records, done, c, answers);
    ReplayGivesBack(t, a, list, AnswersFor(list, answers), pool);
  }

  lemma AlreadyThere(t: Table, records: seq<Record>, iptables: seq<bool>)
    requires AgreeWith(records, t) && |iptables| == |records|
    ensures Recovered(t, records, iptables) == (t, records == [])
    ensures forall pool :: IsSafe(t, records, iptables, pool)
  {
  }

  // ----- the books of a run

  /** `orphans`: the mappings without a record; each came from an iptables failure, and `failures` counts these since
      the last restart.  `stayed`: the records that stayed when their cluster was stopped or, in status 'error',
      deleted, and that no restart comes to. */
  datatype Book = Book(orphans: set<Key>, failures: nat, stayed: set<Key>)

  ghost predicate InStep(t: Table, records: seq<Record>, live: set<int>, b: Book) {
    Good(t, records, b.orphans, b.failures) && b.stayed == Outside(records, live)
  }

  /** The mappings that a restart gives back, if nothing goes wrong then, are all that there are exactly when no
      iptables call failed that made or kept a mapping without a record, and no record stayed behind its cluster. */
  lemma RestartGivesAllIff(t: Table, records: seq<Record>, live: set<int>, b: Book, pool: set<int>)
    requires Conserved(t, pool) && InStep(t, records, live, b)
    ensures var part := OfClusters(records, live);
      && Replayable(map[], part, pool) && PartOf(Replay(map[], part), t)
      && Replay(map[], part).Keys == Keys(records) - b.stayed
      && (Replay(map[], part) == t <==> b.failures == 0 && b.stayed == {})
  {
    var part := OfClusters(records, live);
    OfClustersFacts(records, live, t);
    OutsideAndInside(records, live);
    ReplayGivesBack(t, map[], part, seq(|part|, i => true), pool);
  }

  /** One mapping of a cluster, which is stopped while iptables does not let the mapping go: mapping and record stay, no
      failure is counted, and the next restart does not come to the record. */
  lemma StoppedExample(r: Record, t: Table, answers: Answers)
    requires !IsEmpty(r.key, r.ip) && t == map[r.key := r.host] && !answers(r) && 1 <= r.host < PORTS
    ensures Conserved(t, {r.host}) && InStep(t, [r], {r.cluster}, Book({}, 0, {}))
    ensures LetGo([r], r.cluster, {r.key.container}, answers) == {}
    ensures InStep(t, [r], {}, Book({}, 0, {r.key}))
    ensures Replay(map[], OfClusters([r], {})) != t
  {
    assert [r][1..] == [];
    assert r.key in t;
  }

  ghost predicate IsRecorded(t: Table, records: seq<Record>, pool: set<int>) {
    Conserved(t, pool) && DistinctKeys(records) && AgreeWith(records, t)
  }

  /** The table `a` after a restart from the table `t`: what is mapped was mapped, and is recorded for a recovered
      cluster; if nothing went wrong, all of that is. */
  ghost predicate IsRestarted(t: Table, a: Table, records: seq<Record>, live: set<int>, b: Book, ok: bool) {
    && PartOf(a, t) && a.Keys <= Keys(OfClusters(records, live))
    && (a == t <==> a.Keys == Keys(records) && b.failures == 0)
    && (ok ==> a == Replay(map[], OfClusters(records, live)))
    && (ok ==> (a.Keys == Keys(records) <==> b.stayed == {}))
    && (ok ==> (a == t <==> b.failures == 0 && b.stayed == {}))
  }

  lemma AfterRestart(t: Table, a: Table, records: seq<Record>, live: set<int>, b: Book, pool: set<int>)
    requires Conserved(t, pool) && InStep(t, records, live, b)
    requires PartOf(a, t) && a.Keys <= Keys(OfClusters(records, live))
    ensures Good(a, records, {}, 0) <==> a.Keys == Keys(records)
    ensures a.Keys == Keys(OfClusters(records, live)) ==>
              a == Replay(map[], OfClusters(records, live)) && (a.Keys == Keys(records) <==> b.stayed == {})
    ensures a == t <==> a.Keys == Keys(records) && b.failures == 0
  {
    RestartGivesAllIff(t, records, live, b, pool);
    OutsideAndInside(records, live);
    if a.Keys == Keys(records) {
      AgreeElsewhere(records, t, a);
    }
  }

  // ----- the turns, over values

  lemma TurnOfAdd(t: Table, records: seq<Record>, live: set<int>, b: Book, r: Record)
    requires InStep(t, records, live, b) && r.key !in t && !IsEmpty(r.key, r.ip) && r.cluster in live
    ensures InStep(t[r.key := r.host], records + [r], live, b)
    ensures InStep(t[r.key := r.host], records, live, Failed(b, r.key))
  {
    MappedAndRecorded(t, records, b.orphans, b.failures, r);
    MappedOnly(t, records, b.orphans, b.failures, r.key, r.host);
    OutsideMore(records, r, live);
  }

  /** A mapping without a record more. */
  ghost function Failed(b: Book, k: Key): Book {
    b.(orphans := b.orphans + {k}, failures := b.failures + 1)
  }

  /** These records are gone. */
  ghost function Cleared(b: Book, gone: set<Key>): Book {
    b.(stayed := b.stayed - gone)
  }

  ghost function AfterDelete(b: Book, k: Key, released: bool): Book {
    if released then Cleared(b, {k}) else Failed(Cleared(b, {k}), k)
  }

  lemma TurnOfDelete(t: Table, records: seq<Record>, live: set<int>, b: Book, k: Key)
    requires InStep(t, records, live, b) && k in Keys(records)
    ensures k in t
    ensures InStep(t - {k}, WithoutKeys(records, {k}), live, AfterDelete(b, k, true))
    ensures InStep(t, WithoutKeys(records, {k}), live, AfterDelete(b, k, false))
  {
    BothDropped(t, records, b.orphans, b.failures, {k});
    RecordDropped(t, records, b.orphans, b.failures, k);
    OutsideWithout(records, {k}, live);
  }

  lemma TurnOfDeleteAll(t: Table, records: seq<Record>, live: set<int>, b: Book, gone: set<Key>)
    requires InStep(t, records, live, b) && gone <= Keys(records)
    ensures InStep(t - gone, WithoutKeys(records, gone), live, Cleared(b, gone))
  {
    BothDropped(t, records, b.orphans, b.failures, gone);
    OutsideWithout(records, gone, live);
  }

  lemma TurnOfLeaving(t: Table, records: seq<Record>, live: set<int>, b: Book, c: int)
    requires InStep(t, records, live, b)
    ensures InStep(t, records, live - {c}, b.(stayed := b.stayed + KeysOf(records, c)))
  {
    OutsideLeaves(records, live, c);
  }

  lemma KeysOfStop(records: seq<Record>, c: int, nodes: set<Text>, answers: Answers)
    requires DistinctKeys(records)
    ensures var gone := LetGo(records, c, nodes, answers);
      KeysOf(WithoutKeys(records, gone), c) == Stays(records, c, nodes, answers)
  {
    StaysIs(records, c, nodes, answers, {});
    assert LetGo(records, c, nodes, answers) + {} == LetGo(records, c, nodes, answers);
  }

  lemma TurnOfReturning(t: Table, records: seq<Record>, live: set<int>, b: Book, c: int)
    requires InStep(t, records, live, b)
    ensures InStep(t, records, live + {c}, b.(stayed := b.stayed - KeysOf(records, c)))
  {
    OutsideReturns(records, live, c);
  }

  // ----- the clusters behind one gateway

  datatype Status = Running | Error | Stopped

  /** The clusters that a restart recovers. */
  function Live(clusters: map<int, Status>): set<int> {
    set c | c in clusters && clusters[c] != Stopped
  }

  ghost function Names(nodes: seq<Text>): set<Text> {
    set n | n in nodes
  }

  class PortMappings {
    var ports: PortControl
    /** ALLOCATED_PORTS */
    const ranges: seq<Range>
    /** the database */
    var clusters: map<int, Status>
    var records: seq<Record>
    ghost var book: Book

    ghost predicate Valid()
      reads this, ports, ports.free
    {
      && ports.Valid() && ports.pool == Covered(ranges, LegalPrefix(ranges))
      && InStep(ports.table, records, Live(clusters), book)
    }

    /** The mappings that a restart gives back, if nothing goes wrong then, are all that there are exactly when no
        iptables call failed that made or kept a mapping without a record, and no record stayed behind its cluster. */
    lemma GivesAllIff()
      requires Valid()
      ensures Replay(map[], OfClusters(records, Live(clusters))) == ports.table <==>
                book.failures == 0 && book.stayed == {}
      ensures PartOf(Replay(map[], OfClusters(records, Live(clusters))), ports.table)
      ensures book.orphans == {} <==> book.failures == 0
    {
      RestartGivesAllIff(ports.table, records, Live(clusters), book, ports.pool);
    }

    constructor (ranges: seq<Range>)
      ensures Valid() && fresh(ports) && fresh(ports.free)
      ensures this.ranges == ranges && records == [] && clusters == map[] && book == Book({}, 0, {})
    {
      var p := new PortControl();
      var legal := p.InitNew(ranges);
      ports, this.ranges, clusters, records, book := p, ranges, map[], [], Book({}, 0, {});
    }

    /** create_cluster, under a new number */
    method Create(c: int)
      requires ports.Sound() && c !in clusters
      modifies this`clusters
      ensures clusters == old(clusters)[c := Stopped] && (old(Valid()) ==> Valid())
    {
      clusters := clusters[c := Stopped];
      assert Live(clusters) == Live(old(clusters));
    }

    /** start_cluster: the cluster runs, or nothing changes.  The port mappings are not looked at. */
    method Start(c: int) returns (ok: bool)
      requires ports.Sound()
      modifies this`clusters, this`book
      ensures ok ==> c in old(clusters) && old(clusters)[c] != Running && clusters == old(clusters)[c := Running]
      ensures ok ==> book == old(book).(stayed := old(book.stayed) - KeysOf(records, c))
      ensures !ok ==> clusters == old(clusters) && book == old(book)
      ensures old(Valid()) ==> Valid()
    {
      if c !in clusters || clusters[c] == Running {
        return false;
      }
      if * {
        return false;
      }
      if Valid() {
        TurnOfReturning(ports.table, records, Live(clusters), book, c);
      }
      clusters := clusters[c := Running];
      book := book.(stayed := book.stayed - KeysOf(records, c));
      assert Live(clusters) == Live(old(clusters)) + {c};
      return true;
    }

    /** add_port_mapping; beyond the quota, or for a cluster that is stopped, nothing is asked for. */
    method Add(cluster: int, k: Key, ip: Text, iptables: bool) returns (r: Option<Acquired>)
      requires ports.Sound()
      modifies this`records, this`book, ports`mapped, ports`table, ports.free
      ensures ports == old(ports) && ports.Sound() && (old(Valid()) ==> Valid())
      ensures cluster !in Live(clusters) ==> r == None
      ensures records == if r.Some? && r.value.Mapped? then old(records) + [Record(cluster, k, ip, r.value.host)]
                         else old(records)
      ensures book == if r.Some? && r.value.NotSet? then Failed(old(book), k) else old(book)
      ensures ports.table == if r.Some? && Chosen(r.value).Some? then old(ports.table)[k := Chosen(r.value).value]
                             else old(ports.table)
    {
      if cluster !in clusters || clusters[cluster] == Stopped {
        return None;
      }
      if * {
        return None;
      }
      ghost var valid, t := Valid(), ports.table;
      var a := ports.Acquire(k, ip, Option.None, iptables);
      if valid && Chosen(a).Some? {
        TurnOfAdd(t, records, Live(clusters), book, Record(cluster, k, ip, Chosen(a).value));
      }
      match a {
        case Mapped(host) => records := records + [Record(cluster, k, ip, host)];
        case NotSet(_) => book := Failed(book, k);
        case _ =>
      }
      r := Some(a);
    }

    /** delete_port_mapping: the record goes, whether or not the mapping does; a record without a mapping makes the
        source raise and stays. */
    method Delete(cluster: int, k: Key, iptables: bool) returns (found: bool, r: Released)
      requires ports.Sound()
      modifies this`records, this`book, ports`mapped, ports`table, ports.free
      ensures ports == old(ports) && ports.Sound() && (old(Valid()) ==> Valid())
      ensures found <==> cluster in clusters && exists i ::
                0 <= i < |old(records)| && old(records)[i].cluster == cluster && old(records)[i].key == k
      ensures !found ==> records == old(records) && book == old(book) && ports.table == old(ports.table)
      ensures ports.table == if found && r == Gone then old(ports.table) - {k} else old(ports.table)
      ensures found && old(Valid()) ==> records == WithoutKeys(old(records), {k})
      ensures found && old(Valid()) ==> r == (if iptables then Gone else StillSet)
      ensures found && old(Valid()) ==> book == AfterDelete(old(book), k, iptables)
    {
      var i := FindRecord(cluster, k);
      if cluster !in clusters || i == |records| {
        return false, Unknown;
      }
      r := DeleteRecord(i, iptables);
      return true, r;
    }

    /** Releases the mapping of the record and deletes the record. */
    method DeleteRecord(i: nat, iptables: bool) returns (r: Released)
      requires ports.Sound() && i < |records|
      modifies this`records, this`book, ports`mapped, ports`table, ports.free
      ensures ports.Sound() && (old(Valid()) ==> Valid())
      ensures ports.table == if r == Gone then old(ports.table) - {old(records)[i].key} else old(ports.table)
      ensures old(Valid()) ==> r == if iptables then Gone else StillSet
      ensures old(Valid()) ==> records == WithoutKeys(old(records), {old(records)[i].key})
      ensures old(Valid()) ==> book == AfterDelete(old(book), old(records)[i].key, iptables)
    {
      var k := records[i].key;
      if Valid() {
        RemoveOne(records, i);
        TurnOfDelete(ports.table, records, Live(clusters), book, k);
      }
      r := ports.Release(k, iptables);
      if r != Missing {
        records, book := records[..i] + records[i + 1..], AfterDelete(book, k, r == Gone);
      }
    }

    method FindRecord(cluster: int, k: Key) returns (i: nat)
      ensures i <= |records| && (i < |records| ==> records[i].cluster == cluster && records[i].key == k)
      ensures forall j :: 0 <= j < i ==> !(records[j].cluster == cluster && records[j].key == k)
    {
      i := 0;
      while i < |records| && !(records[i].cluster == cluster && records[i].key == k)
        invariant i <= |records| && forall j :: 0 <= j < i ==> !(records[j].cluster == cluster && records[j].key == k)
      {
        i := i + 1;
      }
    }

    /** delete_all_port_mapping: the records go whose mappings did.  The answer is yes when there was no failure, but
        also when there was nothing else.  A record without a mapping makes the source raise. */
    method DeleteAll(cluster: int, node: Text, answers: Answers) returns (ok: bool, raised: bool)
      requires ports.Sound()
      modifies this`records, this`book, ports`mapped, ports`table, ports.free
      ensures ports == old(ports) && ports.Sound() && (old(Valid()) ==> Valid() && !raised)
      ensures old(Valid()) ==> var gone := LetGo(old(records), cluster, {node}, answers);
        && records == WithoutKeys(old(records), gone) && book == Cleared(old(book), gone)
        && ports.table == old(ports.table) - gone
        && (ok <==> gone == {} || !AnyFails(old(records), cluster, {node}, answers))
    {
      ghost var valid, t := Valid(), ports.table;
      if valid {
        AgreeingKeys(records, ports.table);
        LetGoIsKeys(records, cluster, {node}, answers);
        TurnOfDeleteAll(ports.table, records, Live(clusters), book, LetGo(records, cluster, {node}, answers));
      }
      var gone, failed;
      gone, failed, raised := ReleaseEach(cluster, node, answers);
      if raised {
        return false, true;
      }
      records, book := WithoutKeys(records, gone), Cleared(book, gone);
      ok := gone == {} || !failed;
    }

    /** The loop of delete_all_port_mapping. */
    method ReleaseEach(cluster: int, node: Text, answers: Answers) returns (gone: set<Key>, failed: bool, raised: bool)
      requires ports.Sound()
      modifies ports`mapped, ports`table, ports.free
      ensures ports.Sound() && (old(ports.Valid()) ==> ports.Valid())
      ensures DistinctKeys(records) && Keys(records) <= old(ports.table).Keys ==>
                && !raised && ports.table == old(ports.table) - gone
                && gone == LetGo(records, cluster, {node}, answers)
                && failed == AnyFails(records, cluster, {node}, answers)
    {
      gone, failed, raised := {}, false, false;
      ghost var inStep := DistinctKeys(records) && Keys(records) <= ports.table.Keys;
      assert records[0..] == records;
      for i := 0 to |records|
        invariant ports.Sound() && (old(ports.Valid()) ==> ports.Valid()) && !raised
        invariant inStep ==> ports.table == old(ports.table) - gone
        invariant inStep ==> LeftToLetGo(records, i, gone, failed, cluster, {node}, answers)
      {
        var r := records[i];
        if inStep {
          LeftAfter(records, i, gone, failed, cluster, {node}, answers);
        }
        if IsOf(r, cluster, {node}) {
          var released := ports.Release(r.key, answers(r));
          if released == Missing {
            raised := true;
            return;
          } else if released == Gone {
            gone := gone + {r.key};
          } else {
            failed := true;
          }
        }
      }
    }

    /** stop_cluster, up to the status: the mappings of the containers, whatever delete_all_port_mapping answers.  When
        a worker is missing, or delete_all_port_mapping raises, the rest is left. */
    method StopContainers(c: int, nodes: seq<Text>, answers: Answers) returns (done: nat)
      requires ports.Sound()
      modifies this`records, this`book, ports`mapped, ports`table, ports.free
      ensures ports == old(ports) && ports.Sound() && (old(Valid()) ==> Valid()) && done <= |nodes|
      ensures old(Valid()) ==>
                SomeStopped(old(records), old(book), old(ports.table), c, nodes, answers, records, book, ports.table)
      ensures old(Valid()) && done == |nodes| ==>
                IsStopped(old(records), old(book), old(ports.table), c, nodes, answers, records, book, ports.table)
    {
      done := 0;
      LetGoNone(records, c, answers);
      WithoutNone(records, {});
      assert Names(nodes[..0]) == {};
      assert old(Valid()) ==>
          IsStopped(old(records), old(book), old(ports.table), c, nodes[..0], answers, records, book, ports.table);
      assert nodes[..|nodes|] == nodes;
      while done < |nodes|
        invariant done <= |nodes| && ports == old(ports) && ports.Sound() && (old(Valid()) ==> Valid())
        invariant old(Valid()) ==>
          IsStopped(old(records), old(book), old(ports.table), c, nodes[..done], answers, records, book, ports.table)
      {
        ghost var records0, book0, t0 := records, book, ports.table;
        var ok, raised := DeleteAll(c, nodes[done], answers);
        if old(Valid()) {
          StoppedMore(old(records), old(book), old(ports.table), c, nodes, done, answers, records0, book0, t0);
        }
        if raised {
          return;
        }
        if * {
          return;
        }
        done := done + 1;
      }
    }

    /** stop_cluster.  The records that are left are those of other containers, and those whose mapping iptables does
        not let go; they stay behind. */
    method Stop(c: int, nodes: seq<Text>, answers: Answers) returns (ok: bool)
      requires ports.Sound()
      modifies this`clusters, this`records, this`book, ports`mapped, ports`table, ports.free
      ensures ports == old(ports) && ports.Sound() && (old(Valid()) ==> Valid())
      ensures ok ==> c in old(Live(clusters)) && clusters == old(clusters)[c := Stopped]
      ensures !ok ==> clusters == old(clusters)
      ensures ok && old(Valid()) ==> var gone := LetGo(old(records), c, Names(nodes), answers);
        && records == WithoutKeys(old(records), gone) && ports.table == old(ports.table) - gone
        && book == old(book).(stayed := (old(book.stayed) - gone) + Stays(old(records), c, Names(nodes), answers))
    {
      if c !in clusters || clusters[c] == Stopped {
        return false;
      }
      var done := StopContainers(c, nodes, answers);
      if done < |nodes| {
        return false;
      }
      if Valid() {
        TurnOfLeaving(ports.table, records, Live(clusters), book, c);
      }
      if old(Valid()) {
        KeysOfStop(old(records), c, Names(nodes), answers);
      }
      book := book.(stayed := book.stayed + KeysOf(records, c));
      clusters := clusters[c := Stopped];
      assert Live(clusters) == Live(old(clusters)) - {c};
      return true;
    }

    /** delete_cluster, for a cluster that does not run.  The port mappings are not looked at: a cluster in status
        'error' leaves all its records behind. */
    method DeleteCluster(c: int) returns (ok: bool)
      requires ports.Sound()
      modifies this`clusters, this`book
      ensures old(Valid()) ==> Valid()
      ensures ok ==> c in old(clusters) && old(clusters)[c] != Running && clusters == old(clusters) - {c}
      ensures !ok ==> clusters == old(clusters)
      ensures book == if ok then old(book).(stayed := old(book.stayed) + KeysOf(records, c)) else old(book)
    {
      if c !in clusters || clusters[c] == Running {
        return false;
      }
      if * {
        return false;
      }
      if Valid() {
        TurnOfLeaving(ports.table, records, Live(clusters), book, c);
      }
      book := book.(stayed := book.stayed + KeysOf(records, c));
      clusters := clusters - {c};
      assert Live(clusters) == Live(old(clusters)) - {c};
      return true;
    }

    /** The master starts again: a new table, and recover_port_mapping for the clusters that run or are in status
        'error', if their recovery gets that far.  What is mapped then was mapped and recorded.  If nothing goes wrong,
        the mappings recorded for these clusters are back; and they are all there were exactly when no call had failed
        and no record had stayed behind. */
    method Restart(order: seq<int>, reached: int -> bool, answers: Answers) returns (ok: bool)
      requires ports.Sound() && NoRepeats(order) && forall c :: c in order <==> c in Live(clusters)
      modifies this`ports, this`clusters, this`book
      ensures fresh(ports) && fresh(ports.free) && ports.Sound() && Live(clusters) == Live(old(clusters))
      ensures book == Book({}, 0, old(book.stayed))
      ensures old(Valid()) ==> IsRestarted(old(ports.table), ports.table, records, Live(clusters), old(book), ok)
      ensures old(Valid()) ==> ports.Valid() && (Valid() <==> ports.table.Keys == Keys(records))
      ensures old(Valid()) ==>
                (ok <==>
                 (forall c :: c in order ==> reached(c)) && AllSet(OfClusters(records, Live(clusters)), answers))
    {
      ghost var valid := Valid();
      var p, legal := NewPorts();
      ok := RecoverAll(p, order, reached, answers, ports.table);
      if valid {
        AfterRestart(ports.table, p.table, records, Live(clusters), book, ports.pool);
      }
      ports, book := p, Book({}, 0, book.stayed);
    }

    /** recover_clusters, on a new table; `t` is the table before. */
    method RecoverAll(p: PortControl, order: seq<int>, reached: int -> bool, answers: Answers, ghost t: Table)
      returns (ok: bool)
      requires p.Valid() && p.table == map[]
      requires NoRepeats(order) && forall c :: c in order <==> c in Live(clusters)
      modifies this`clusters, p`mapped, p`table, p.free
      ensures p.Sound() && Live(clusters) == Live(old(clusters))
      ensures IsRecorded(t, records, p.pool) ==>
                && p.Valid() && PartOf(p.table, t) && p.table.Keys <= Keys(OfClusters(records, Live(clusters)))
                && (ok ==> p.table.Keys == Keys(OfClusters(records, Live(clusters))))
                && (ok <==>
                    (forall c :: c in order ==> reached(c)) && AllSet(OfClusters(records, Live(clusters)), answers))
    {
      ghost var done: set<int>, allSet, live := {}, true, Live(clusters);
      ok := true;
      assert forall c :: c in order <==> c in live;
      NoClusters(records);
      for n := 0 to |order|
        invariant p.Sound() && Live(clusters) == live
        invariant IsRecorded(t, records, p.pool) ==> p.Valid() && Restored(records, done, t, p.table, allSet, answers)
        invariant IsRecorded(t, records, p.pool) ==> (ok <==> allSet && forall c :: c in order[..n] ==> reached(c))
        invariant done == set c | c in order[..n] && reached(c)
      {
        var c := order[n];
        assert order[..n + 1] == order[..n] + [c];
        assert c in order && c !in order[..n];
        if !reached(c) {
          ok := false;
          clusters := clusters[c := Error];
          continue;
        }
        if IsRecorded(t, records, p.pool) {
          RestoredMore(records, done, c, t, p.table, allSet, answers, p.pool);
        }
        var list := OfClusters(records, {c});
        if IsRecorded(t, records, p.pool) {
          ReplayableIsSafe(p.table, list, AnswersFor(list, answers), p.pool);
        }
        var recovered := p.Recover(list, AnswersFor(list, answers));
        ok, allSet := ok && recovered, allSet && recovered;
        done := done + {c};
        clusters := clusters[c := if recovered then Running else Error];
      }
      assert order[..|order|] == order;
      if IsRecorded(t, records, p.pool) {
        OfFewer(records, done, live);
        if forall c :: c in order ==> reached(c) {
          assert done == live;
        }
      }
    }

    /** recover_cluster_on, for one cluster: the master has not started again, and a cluster with a recorded mapping is
        put in status 'error', because the mapping is there. */
    method RecoverLive(c: int, answers: Answers) returns (ok: bool)
      requires ports.Sound() && c in Live(clusters)
      modifies this`clusters, ports`mapped, ports`table, ports.free
      ensures ports == old(ports) && ports.Sound() && clusters == old(clusters)[c := if ok then Running else Error]
      ensures old(Valid()) ==> Valid() && ports.table == old(ports.table) && (ok <==> OfClusters(records, {c}) == [])
    {
      var list := OfClusters(records, {c});
      if Valid() {
        OfClustersFacts(records, {c}, ports.table);
        AlreadyThere(ports.table, list, AnswersFor(list, answers));
      }
      ok := ports.Recover(list, AnswersFor(list, answers));
      clusters := clusters[c := if ok then Running else Error];
      assert Live(clusters) == Live(old(clusters));
    }

    method NewPorts() returns (p: PortControl, legal: bool)
      ensures fresh(p) && fresh(p.free) && p.Valid() && p.table == map[]
      ensures p.pool == Covered(ranges, LegalPrefix(ranges))
    {
      p := new PortControl();
      legal := p.InitNew(ranges);
    }
  }

  /** These containers of the cluster have been stopped. */
  ghost predicate IsStopped(records: seq<Record>, b: Book, t: Table, c: int, nodes: seq<Text>, answers: Answers,
                            records': seq<Record>, b': Book, t': Table)
  {
    var gone := LetGo(records, c, Names(nodes), answers);
    records' == WithoutKeys(records, gone) && b' == Cleared(b, gone) && t' == t - gone
  }

  ghost predicate SomeStopped(records: seq<Record>, b: Book, t: Table, c: int, nodes: seq<Text>, answers: Answers,
                              records': seq<Record>, b': Book, t': Table)
  {
    exists n :: 0 <= n <= |nodes| && IsStopped(records, b, t, c, nodes[..n], answers, records', b', t')
  }

  lemma StoppedMore(records: seq<Record>, b: Book, t: Table, c: int, nodes: seq<Text>, i: nat, answers: Answers,
                    records': seq<Record>, b': Book, t': Table)
    requires i < |nodes| && IsStopped(records, b, t, c, nodes[..i], answers, records', b', t')
    ensures var more := LetGo(records', c, {nodes[i]}, answers);
      IsStopped(records, b, t, c, nodes[..i + 1], answers, WithoutKeys(records', more), Cleared(b', more), t' - more)
  {
    var before := Names(nodes[..i]);
    assert nodes[..i + 1] == nodes[..i] + [nodes[i]];
    assert Names(nodes[..i + 1]) == before + {nodes[i]};
    LetGoMore(records, c, before, nodes[i], answers);
    var gone, more := LetGo(records, c, before, answers), LetGo(records', c, {nodes[i]}, answers);
    assert b.stayed - gone - more == b.stayed - (gone + more);
    assert t - gone - more == t - (gone + more);
  }
}
