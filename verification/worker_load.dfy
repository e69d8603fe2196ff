/** The part of TaskMgr (src/master/taskmgr.py) that places vnodes on workers and keeps `cpu_usage` and
    `gpu_usage`.  Which task is placed when, and what the workers answer, is left open. */
module WorkerLoads {
  import opened Sequences

  datatype Kind = Cpu | Gpu

  const NO_WORKER: int := -1

  /** gpu_preference None or 'null' */
  const NO_PREFERENCE: int := 0

  datatype Needs = Needs(cpu: nat, memory: nat, disk: nat, gpu: nat)

  /** The vnode of a subtask. */
  datatype Vnode = Vnode(needs: Needs, gpuPreference: int, waiting: bool, worker: int, started: bool)

  /** What get_worker_resource_info reports of a worker. */
  datatype Info = Info(cpu: int, memory: int, disk: int, gpu: int, gpuName: int)

  datatype Capacity = Capacity(cpu: int, gpu: int)

  function Need(v: Vnode, k: Kind): nat {
    if k == Cpu then v.needs.cpu else v.needs.gpu
  }

  function Has(c: Capacity, k: Kind): int {
    if k == Cpu then c.cpu else c.gpu
  }

  function Left(i: Info, k: Kind): int {
    if k == Cpu then i.cpu else i.gpu
  }

  // ----- the load of a worker

  /** What vnode `i` counts for on worker `w`: it runs there, or its start there has been decided. */
  ghost function Share(vs: seq<Vnode>, decided: set<int>, i: int, w: int, k: Kind): nat
    requires 0 <= i < |vs|
  {
    if (vs[i].started || i in decided) && vs[i].worker == w then Need(vs[i], k) else 0
  }

  ghost function LoadUpTo(vs: seq<Vnode>, decided: set<int>, n: nat, w: int, k: Kind): nat
    requires n <= |vs|
  {
    if n == 0 then 0 else LoadUpTo(vs, decided, n - 1, w, k) + Share(vs, decided, n - 1, w, k)
  }

  ghost function Load(vs: seq<Vnode>, decided: set<int>, w: int, k: Kind): nat {
    LoadUpTo(vs, decided, |vs|, w, k)
  }

  /** Changing one vnode, or the decision about it, changes the load by what that vnode counts for. */
  lemma {:induction false} LoadChange(vs: seq<Vnode>, decided: set<int>, us: seq<Vnode>, decided': set<int>, i: nat,
                                      n: nat, w: int, k: Kind)
    requires |vs| == |us| && i < |vs| && n <= |vs|
    requires forall j :: 0 <= j < |vs| && j != i ==> us[j] == vs[j] && (j in decided <==> j in decided')
    ensures LoadUpTo(us, decided', n, w, k) == LoadUpTo(vs, decided, n, w, k) +
              if i < n then Share(us, decided', i, w, k) - Share(vs, decided, i, w, k) else 0
    decreases n
  {
    if n > 0 {
      LoadChange(vs, decided, us, decided', i, n - 1, w, k);
    }
  }

  /** Vnodes without a worker count for nothing. */
  lemma {:induction false} LoadExtend(vs: seq<Vnode>, more: seq<Vnode>, decided: set<int>, n: nat, w: int, k: Kind)
    requires n <= |vs + more| && w != NO_WORKER
    requires forall v :: v in more ==> v.worker == NO_WORKER
    ensures LoadUpTo(vs + more, decided, n, w, k) == LoadUpTo(vs, decided, if n <= |vs| then n else |vs|, w, k)
    decreases n
  {
    if n > 0 {
      LoadExtend(vs, more, decided, n - 1, w, k);
      if n > |vs| {
        assert (vs + more)[n - 1] in more;
      }
    }
  }

  /** The usage tables say how much of each worker is in use. */
  ghost predicate Accounted(vs: seq<Vnode>, usage: map<int, int>, k: Kind) {
    && (forall w :: w in usage ==> usage[w] == Load(vs, {}, w, k))
    && (forall i :: 0 <= i < |vs| && vs[i].started ==> vs[i].worker in usage)
  }

  ghost predicate WithinCapacity(vs: seq<Vnode>, decided: set<int>, capacity: map<int, Capacity>, k: Kind) {
    forall w :: w in capacity ==> Load(vs, decided, w, k) <= Has(capacity[w], k)
  }

  // ----- placement

  function UsageOf(usage: map<int, int>, w: int): int {
    if w in usage then usage[w] else 0
  }

  /** The tests of find_proper_workers on one worker. */
  predicate Fits(v: Vnode, cpuUsage: int, gpuUsage: int, info: Info) {
    && !(v.needs.gpu > 0 && v.gpuPreference != NO_PREFERENCE && v.gpuPreference != info.gpuName)
    && v.needs.cpu + cpuUsage <= info.cpu
    && v.needs.memory <= info.memory
    && v.needs.disk <= info.disk
    && v.needs.gpu + gpuUsage <= info.gpu
  }

  function Minus(info: Info, n: Needs): Info {
    info.(cpu := info.cpu - n.cpu, memory := info.memory - n.memory,
          disk := info.disk - n.disk, gpu := info.gpu - n.gpu)
  }

  /** The first worker of the list on which the vnode fits. */
  function FirstFit(v: Vnode, nodes: seq<int>, infos: map<int, Info>, cpuUsage: map<int, int>,
                    gpuUsage: map<int, int>): Option<int>
    requires forall w :: w in nodes ==> w in infos
  {
    if nodes == [] then None
    else if Fits(v, UsageOf(cpuUsage, nodes[0]), UsageOf(gpuUsage, nodes[0]), infos[nodes[0]]) then Some(nodes[0])
    else FirstFit(v, nodes[1..], infos, cpuUsage, gpuUsage)
  }

  predicate Indices(list: seq<nat>, n: nat) {
    forall j :: 0 <= j < |list| ==> list[j] < n
  }

  function Prepend(w: int, r: Option<seq<int>>): Option<seq<int>> {
    match r
    case None => None
    case Some(ws) => Some([w] + ws)
  }

  /** A running vnode stays where it is. */
  predicate Stays(v: Vnode) {
    v.started && v.worker != NO_WORKER
  }

  /** The worker of the next vnode: its own if it stays, else the first that has room. */
  function Next(v: Vnode, nodes: seq<int>, infos: map<int, Info>, cpuUsage: map<int, int>,
                gpuUsage: map<int, int>): Option<int>
    requires forall w :: w in nodes ==> w in infos
  {
    if Stays(v) then Some(v.worker) else FirstFit(v, nodes, infos, cpuUsage, gpuUsage)
  }

  /** What the workers have left for the others. */
  function LeftBy(v: Vnode, w: int, infos: map<int, Info>): (r: map<int, Info>)
    ensures r.Keys == infos.Keys
  {
    if Stays(v) || w !in infos then infos else infos[w := Minus(infos[w], v.needs)]
  }

  /** Workers for the vnodes of the list, one after the other, beside those placed before. */
  function Place(vs: seq<Vnode>, list: seq<nat>, nodes: seq<int>, infos: map<int, Info>, cpuUsage: map<int, int>,
                 gpuUsage: map<int, int>): Option<seq<int>>
    requires forall w :: w in nodes ==> w in infos
    requires Indices(list, |vs|)
    decreases |list|
  {
    if list == [] then Some([]) else
      var v := vs[list[0]];
      match Next(v, nodes, infos, cpuUsage, gpuUsage)
      case None => None
      case Some(w) => Prepend(w, Place(vs, list[1..], nodes, LeftBy(v, w, infos), cpuUsage, gpuUsage))
  }

  /** The subtasks and the tables as an iteration of find_proper_workers reads them. */
  datatype Reading = Reading(vs: seq<Vnode>, cpuUsage: map<int, int>, gpuUsage: map<int, int>)

  ghost predicate Readings(seen: seq<Reading>, list: seq<nat>) {
    |seen| == |list| && forall j :: 0 <= j < |list| ==> list[j] < |seen[j].vs|
  }

  /** The same with a reading of its own for each vnode. */
  ghost function PlaceAmid(seen: seq<Reading>, list: seq<nat>, nodes: seq<int>, infos: map<int, Info>): Option<seq<int>>
    requires (forall w :: w in nodes ==> w in infos) && Readings(seen, list)
    decreases |list|
  {
    if list == [] then Some([]) else
      var r, v := seen[0], seen[0].vs[list[0]];
      match Next(v, nodes, infos, r.cpuUsage, r.gpuUsage)
      case None => None
      case Some(w) => Prepend(w, PlaceAmid(seen[1..], list[1..], nodes, LeftBy(v, w, infos)))
  }

  /** If nothing changes meanwhile, it is the placement on one reading. */
  lemma {:induction false} PlaceUndisturbed(r: Reading, seen: seq<Reading>, list: seq<nat>, nodes: seq<int>,
                                            infos: map<int, Info>)
    requires (forall w :: w in nodes ==> w in infos) && Indices(list, |r.vs|)
    requires |seen| == |list| && forall j :: 0 <= j < |seen| ==> seen[j] == r
    ensures PlaceAmid(seen, list, nodes, infos) == Place(r.vs, list, nodes, infos, r.cpuUsage, r.gpuUsage)
    decreases |list|
  {
    if list != [] {
      var v := r.vs[list[0]];
      var next := Next(v, nodes, infos, r.cpuUsage, r.gpuUsage);
      if next.Some? {
        PlaceUndisturbed(r, seen[1..], list[1..], nodes, LeftBy(v, next.value, infos));
      }
    }
  }

  lemma {:induction false} FirstFitFits(v: Vnode, nodes: seq<int>, infos: map<int, Info>, cpuUsage: map<int, int>,
                                        gpuUsage: map<int, int>)
    requires forall w :: w in nodes ==> w in infos
    ensures var r := FirstFit(v, nodes, infos, cpuUsage, gpuUsage);
      match r
      case Some(w) => w in nodes && w in infos && Fits(v, UsageOf(cpuUsage, w), UsageOf(gpuUsage, w), infos[w])
      case None => forall w :: w in nodes ==> !Fits(v, UsageOf(cpuUsage, w), UsageOf(gpuUsage, w), infos[w])
    decreases |nodes|
  {
    if nodes != [] {
      FirstFitFits(v, nodes[1..], infos, cpuUsage, gpuUsage);
      assert forall w :: w in nodes <==> w == nodes[0] || w in nodes[1..];
    }
  }

  /** The scheduler writes the workers into the subtasks. */
  function Assign(vs: seq<Vnode>, list: seq<nat>, ws: seq<int>): (us: seq<Vnode>)
    requires |list| == |ws| && Indices(list, |vs|)
    ensures |us| == |vs|
    decreases |list|
  {
    if list == [] then vs else Assign(vs[list[0] := vs[list[0]].(worker := ws[0])], list[1..], ws[1..])
  }

  ghost function Members(list: seq<nat>): set<int> {
    if list == [] then {} else {list[0] as int} + Members(list[1..])
  }

  ghost predicate Distinct(list: seq<nat>) {
    if list == [] then true else (list[0] as int) !in Members(list[1..]) && Distinct(list[1..])
  }

  lemma {:induction false} InMembers(list: seq<nat>, i: nat)
    ensures i in list <==> (i as int) in Members(list)
    decreases |list|
  {
    if list != [] {
      InMembers(list[1..], i);
      assert i in list <==> i == list[0] || i in list[1..];
    }
  }

  lemma {:induction false} DistinctElements(list: seq<nat>)
    requires Distinct(list)
    ensures forall j, k :: 0 <= j < k < |list| ==> list[j] != list[k]
    decreases |list|
  {
    if list != [] {
      var rest := list[1..];
      DistinctElements(rest);
      InMembers(rest, list[0]);
      forall j, k | 0 <= j < k < |list|
        ensures list[j] != list[k]
      {
        assert list[k] == rest[k - 1] && rest[k - 1] in rest;
        assert j > 0 ==> list[j] == rest[j - 1];
      }
    }
  }

  lemma DistinctRest(list: seq<nat>, n: nat)
    requires Distinct(list) && n < |list|
    ensures forall j :: 0 <= j < n ==> list[j] != list[n]
    ensures Members(list[n..]) - {list[n] as int} == Members(list[n + 1..])
    ensures (list[n] as int) in Members(list[n..])
  {
    DistinctElements(list);
    assert list[n..][1..] == list[n + 1..];
    InMembers(list[n + 1..], list[n]);
  }

  /** What is left of each worker's capacity after the placements so far. */
  ghost predicate Budget(us: seq<Vnode>, decided: set<int>, infos: map<int, Info>, capacity: map<int, Capacity>,
                         usage: map<int, int>, k: Kind) {
    forall w :: w in capacity ==>
      && w in infos && w != NO_WORKER
      && Left(infos[w], k) == Has(capacity[w], k) - (Load(us, decided, w, k) - UsageOf(usage, w))
  }

  ghost predicate AtLeast(bound: map<int, Capacity>, capacity: map<int, Capacity>) {
    bound.Keys == capacity.Keys && forall w, k :: w in capacity ==> Has(bound[w], k) >= Has(capacity[w], k)
  }

  /** Placing one more vnode where it fits keeps the budget. */
  lemma BudgetStep(us: seq<Vnode>, decided: set<int>, infos: map<int, Info>, capacity: map<int, Capacity>,
                   bound: map<int, Capacity>, usage: map<int, int>, k: Kind, i: nat, w: int)
    requires Budget(us, decided, infos, capacity, usage, k) && w in capacity && AtLeast(bound, capacity)
    requires WithinCapacity(us, decided, bound, k)
    requires i < |us| && !us[i].started && i !in decided
    requires Need(us[i], k) + UsageOf(usage, w) <= Left(infos[w], k)
    ensures var us' := us[i := us[i].(worker := w)];
      && Budget(us', decided + {i}, infos[w := Minus(infos[w], us[i].needs)], capacity, usage, k)
      && WithinCapacity(us', decided + {i}, bound, k)
  {
    var us', decided' := us[i := us[i].(worker := w)], decided + {i};
    forall x | x in capacity
      ensures Load(us', decided', x, k) == Load(us, decided, x, k) + if x == w then Need(us[i], k) else 0
    {
      LoadChange(us, decided, us', decided', i, |us|, x, k);
    }
    assert Has(bound[w], k) >= Has(capacity[w], k);
  }

  /** A vnode that runs already has its share in the usage. */
  lemma StayCounts(us: seq<Vnode>, decided: set<int>, w: int, k: Kind, i: nat)
    requires i < |us| && us[i].started
    ensures Load(us, decided + {i}, w, k) == Load(us, decided, w, k)
  {
    LoadChange(us, decided, us, decided + {i}, i, |us|, w, k);
  }

  lemma BudgetStay(us: seq<Vnode>, decided: set<int>, infos: map<int, Info>, capacity: map<int, Capacity>,
                   bound: map<int, Capacity>, usage: map<int, int>, k: Kind, i: nat)
    requires Budget(us, decided, infos, capacity, usage, k) && i < |us| && us[i].started
    requires WithinCapacity(us, decided, bound, k)
    ensures Budget(us, decided + {i}, infos, capacity, usage, k) && WithinCapacity(us, decided + {i}, bound, k)
  {
    forall x
      ensures Load(us, decided + {i}, x, k) == Load(us, decided, x, k)
    {
      StayCounts(us, decided, x, k, i);
    }
  }

  /** A vnode that stops takes its share with it: the budget is right for the others, also for those after it if it was
      passed as staying where it is. */
  lemma BudgetStop(us: seq<Vnode>, decided: set<int>, infos: map<int, Info>, capacity: map<int, Capacity>,
                   bound: map<int, Capacity>, usage: map<int, int>, k: Kind, i: nat)
    requires Budget(us, decided, infos, capacity, usage, k) && i < |us| && us[i].started && us[i].worker in usage
    requires WithinCapacity(us, decided, bound, k)
    ensures var w, us' := us[i].worker, us[i := us[i].(started := false)];
      && Budget(us', decided - {i}, infos, capacity, usage[w := usage[w] - Need(us[i], k)], k)
      && WithinCapacity(us', decided - {i}, bound, k)
  {
    var us' := us[i := us[i].(started := false)];
    forall x
      ensures Load(us', decided - {i}, x, k) == Load(us, decided, x, k) -
                                                if x == us[i].worker then Need(us[i], k) else 0
    {
      LoadChange(us, decided, us', decided - {i}, i, |us|, x, k);
    }
  }

  /** What these vnodes need on the worker. */
  ghost function NeedsUpTo(us: seq<Vnode>, some: set<int>, n: nat, w: int, k: Kind): nat
    requires n <= |us|
  {
    if n == 0 then 0
    else NeedsUpTo(us, some, n - 1, w, k) + if n - 1 in some && us[n - 1].worker == w then Need(us[n - 1], k) else 0
  }

  ghost function NeedsOf(us: seq<Vnode>, some: set<int>, w: int, k: Kind): nat {
    NeedsUpTo(us, some, |us|, w, k)
  }

  /** Vnodes that do not run, and are decided on all the same, add just what they need. */
  lemma {:induction false} LoadSplit(us: seq<Vnode>, counted: set<int>, stopped: set<int>, n: nat, w: int, k: Kind)
    requires n <= |us| && counted !! stopped && forall i :: 0 <= i < |us| && i in stopped ==> !us[i].started
    ensures LoadUpTo(us, counted + stopped, n, w, k) == LoadUpTo(us, counted, n, w, k) + NeedsUpTo(us, stopped, n, w, k)
  {
    if n > 0 {
      LoadSplit(us, counted, stopped, n - 1, w, k);
    }
  }

  lemma {:induction false} NothingNeeded(us: seq<Vnode>, some: set<int>, n: nat, w: int, k: Kind)
    requires n <= |us| && forall i :: 0 <= i < |us| && i in some ==> Need(us[i], k) == 0
    ensures NeedsUpTo(us, some, n, w, k) == 0
  {
    if n > 0 {
      NothingNeeded(us, some, n - 1, w, k);
    }
  }

  /** The bounds, raised by what these vnodes need. */
  ghost function Raised(bound: map<int, Capacity>, us: seq<Vnode>, some: set<int>): map<int, Capacity> {
    map w | w in bound :: Capacity(bound[w].cpu + NeedsOf(us, some, w, Cpu), bound[w].gpu + NeedsOf(us, some, w, Gpu))
  }

  /** What the workers have, or what is asked of them now if that is more. */
  ghost function AtMostNow(vs: seq<Vnode>, capacity: map<int, Capacity>): map<int, Capacity> {
    map w | w in capacity ::
      Capacity(Max(capacity[w].cpu, Load(vs, {}, w, Cpu)), Max(capacity[w].gpu, Load(vs, {}, w, Gpu)))
  }

  function Max(a: int, b: int): int {
    if a < b then b else a
  }

  lemma NowIsBound(vs: seq<Vnode>, capacity: map<int, Capacity>)
    ensures var bound := AtMostNow(vs, capacity);
      && AtLeast(bound, capacity) && WithinCapacity(vs, {}, bound, Cpu) && WithinCapacity(vs, {}, bound, Gpu)
      && (bound == capacity <==> WithinCapacity(vs, {}, capacity, Cpu) && WithinCapacity(vs, {}, capacity, Gpu))
  {
  }

  lemma RaisedIsBound(us: seq<Vnode>, counted: set<int>, stopped: set<int>, bound: map<int, Capacity>, k: Kind)
    requires WithinCapacity(us, counted, bound, k) && counted !! stopped
    requires forall i :: 0 <= i < |us| && i in stopped ==> !us[i].started
    ensures WithinCapacity(us, counted + stopped, Raised(bound, us, stopped), k)
    ensures forall w :: Load(us, counted + stopped, w, k) == Load(us, counted, w, k) + NeedsOf(us, stopped, w, k)
  {
    forall w
      ensures Load(us, counted + stopped, w, k) == Load(us, counted, w, k) + NeedsOf(us, stopped, w, k)
    {
      LoadSplit(us, counted, stopped, |us|, w, k);
    }
  }

  lemma RaisedByNothing(bound: map<int, Capacity>, us: seq<Vnode>, some: set<int>)
    requires forall i :: 0 <= i < |us| && i in some ==> us[i].needs.cpu == 0 && us[i].needs.gpu == 0
    ensures Raised(bound, us, some) == bound
  {
    forall w | w in bound
      ensures NeedsOf(us, some, w, Cpu) == 0 && NeedsOf(us, some, w, Gpu) == 0
    {
      NothingNeeded(us, some, |us|, w, Cpu);
      NothingNeeded(us, some, |us|, w, Gpu);
    }
  }

  /** Nothing less would do: after the stop of any passed vnode that needs something, a vnode that needs just what the
      tables leave of its worker fits there, and the worker is asked for more than it has, by what the stopped needs. */
  lemma StopThenTooMuch(us: seq<Vnode>, counted: set<int>, infos: map<int, Info>, capacity: map<int, Capacity>,
                        usage: map<int, int>, k: Kind, i: nat, j: nat)
    requires Budget(us, counted, infos, capacity, usage, k) && i < |us| && j < |us| && i != j
    requires i !in counted && !us[i].started && us[i].worker in capacity && Need(us[i], k) > 0
    requires j !in counted && !us[j].started && us[j].worker == NO_WORKER
    requires Need(us[j], k) + UsageOf(usage, us[i].worker) == Left(infos[us[i].worker], k)
    ensures var w := us[i].worker;
      && Load(us[j := us[j].(worker := w)], counted + {i, j}, w, k) == Has(capacity[w], k) + Need(us[i], k)
      && Has(capacity[w], k) + Need(us[i], k) > Has(capacity[w], k)
  {
    var w := us[i].worker;
    var us' := us[j := us[j].(worker := w)];
    LoadChange(us, counted, us, counted + {i}, i, |us|, w, k);
    LoadChange(us, counted + {i}, us', counted + {i} + {j}, j, |us|, w, k);
    assert counted + {i} + {j} == counted + {i, j};
  }

  /** A placement that find_proper_workers returns never asks more of a worker than it has, counting the
      vnodes that run there and the new ones together. */
  lemma {:induction false} PlaceWithinCapacity(vs: seq<Vnode>, us: seq<Vnode>, decided: set<int>, list: seq<nat>,
                                               nodes: seq<int>, infos: map<int, Info>, capacity: map<int, Capacity>,
                                               cpuUsage: map<int, int>, gpuUsage: map<int, int>)
    requires forall w :: w in nodes ==> w in infos && w in capacity
    requires |us| == |vs| && Indices(list, |vs|) && (forall j :: 0 <= j < |list| ==> us[list[j]] == vs[list[j]])
    requires Distinct(list)
    requires decided !! Members(list)
    requires forall j :: 0 <= j < |list| && vs[list[j]].started ==> vs[list[j]].worker != NO_WORKER
    requires Budget(us, decided, infos, capacity, cpuUsage, Cpu) && Budget(us, decided, infos, capacity, gpuUsage, Gpu)
    requires WithinCapacity(us, decided, capacity, Cpu) && WithinCapacity(us, decided, capacity, Gpu)
    requires Place(vs, list, nodes, infos, cpuUsage, gpuUsage).Some?
    ensures var ws := Place(vs, list, nodes, infos, cpuUsage, gpuUsage).value;
      && |ws| == |list|
      && WithinCapacity(Assign(us, list, ws), decided + Members(list), capacity, Cpu)
      && WithinCapacity(Assign(us, list, ws), decided + Members(list), capacity, Gpu)
    decreases |list|
  {
    if list == [] {
      assert decided + Members(list) == decided;
    } else {
      var i, rest, v := list[0], list[1..], vs[list[0]];
      assert decided + Members(list) == (decided + {i}) + Members(rest);
      forall j | 0 <= j < |rest|
        ensures rest[j] == list[j + 1] && rest[j] != i
      {
        InMembers(rest, rest[j]);
      }
      if v.started {
        assert us[i := us[i].(worker := v.worker)] == us;
        BudgetStay(us, decided, infos, capacity, capacity, cpuUsage, Cpu, i);
        BudgetStay(us, decided, infos, capacity, capacity, gpuUsage, Gpu, i);
        PlaceWithinCapacity(vs, us, decided + {i}, rest, nodes, infos, capacity, cpuUsage, gpuUsage);
      } else {
        FirstFitFits(v, nodes, infos, cpuUsage, gpuUsage);
        var w := FirstFit(v, nodes, infos, cpuUsage, gpuUsage).value;
        BudgetStep(us, decided, infos, capacity, capacity, cpuUsage, Cpu, i, w);
        BudgetStep(us, decided, infos, capacity, capacity, gpuUsage, Gpu, i, w);
        var left := infos[w := Minus(infos[w], v.needs)];
        PlaceWithinCapacity(vs, us[i := us[i].(worker := w)], decided + {i}, rest, nodes, left, capacity,
                            cpuUsage, gpuUsage);
      }
    }
  }

  /** A vnode that needs one core. */
  function OneCore(worker: int, started: bool): Vnode {
    Vnode(Needs(1, 0, 0, 0), NO_PREFERENCE, !started, worker, started)
  }

  /** Each worker has one core. */
  function OneCoreEach(): map<int, Info> {
    map[7 := Info(1, 0, 0, 0, 0), 8 := Info(1, 0, 0, 0, 0)]
  }

  /** Of a parallel task of two vnodes, the first runs on worker 7 and the second, which has failed, waits for worker 8,
      where another task runs. */
  function Before(): Reading {
    Reading([OneCore(7, true), OneCore(NO_WORKER, false), OneCore(8, true)], map[7 := 1, 8 := 1], map[7 := 0, 8 := 0])
  }

  /** The first one has stopped. */
  function Stopped(): Reading {
    Reading([OneCore(7, true).(started := false), OneCore(NO_WORKER, false), OneCore(8, true)],
            map[7 := 0, 8 := 1], map[7 := 0, 8 := 0])
  }

  /** The task is accepted, for on idle workers both vnodes have room. */
  lemma TaskIsAccepted()
    ensures var vs := [OneCore(NO_WORKER, false), OneCore(NO_WORKER, false)];
      Place(vs, [0, 1], [7, 8], OneCoreEach(), map[], map[]) == Some([7, 8])
  {
    var r := Reading([OneCore(NO_WORKER, false), OneCore(NO_WORKER, false)], map[], map[]);
    var infos := OneCoreEach();
    PlaceOne(r, 0, [7, 8], infos);
    var left := LeftBy(r.vs[0], 7, infos);
    assert FirstFit(r.vs[0], [7, 8], infos, map[], map[]) == Some(7);
    FirstFitFits(r.vs[1], [7, 8], left, map[], map[]);
    PlaceOneMore([r], [0], [7, 8], infos, [7], r, 1);
    assert [r] + [r] == [r, r] && [0] + [1 as nat] == [0, 1] && [7] + [8] == [7, 8];
    PlaceUndisturbed(r, [r, r], [0, 1], [7, 8], infos);
  }

  lemma LoadOfThree(vs: seq<Vnode>, decided: set<int>, w: int, k: Kind)
    requires |vs| == 3
    ensures Load(vs, decided, w, k) ==
            Share(vs, decided, 0, w, k) + Share(vs, decided, 1, w, k) + Share(vs, decided, 2, w, k)
  {
    assert LoadUpTo(vs, decided, 1, w, k) == Share(vs, decided, 0, w, k);
    assert LoadUpTo(vs, decided, 2, w, k) == Share(vs, decided, 0, w, k) + Share(vs, decided, 1, w, k);
  }

  /** An input where it happens.  Undisturbed, no worker is found; if the first vnode stops after it was passed, the
      second is given its worker as well. */
  lemma PassedThenStopped()
    ensures Place(Before().vs, [0, 1], [7, 8], OneCoreEach(), Before().cpuUsage, Before().gpuUsage) == None
    ensures PlaceAmid([Before(), Stopped()], [0, 1], [7, 8], OneCoreEach()) == Some([7, 7])
    ensures forall w :: w in Before().cpuUsage ==> Load(Before().vs, {}, w, Cpu) == Before().cpuUsage[w] == 1
    ensures Load(Assign(Stopped().vs, [0, 1], [7, 7]), {0, 1}, 7, Cpu) == 2
  {
    NoRoomUndisturbed();
    RoomAmid();
    forall w | w in Before().cpuUsage
      ensures Load(Before().vs, {}, w, Cpu) == 1
    {
      LoadOfThree(Before().vs, {}, w, Cpu);
    }
    var vs := Stopped().vs;
    var one := vs[0 := vs[0].(worker := 7)];
    assert [0, 1][1..] == [1] && [7, 7][1..] == [7];
    assert Assign(one, [1], [7]) == one[1 := one[1].(worker := 7)];
    LoadOfThree(one[1 := one[1].(worker := 7)], {0, 1}, 7, Cpu);
  }

  lemma NoRoomUndisturbed()
    ensures Place(Before().vs, [0, 1], [7, 8], OneCoreEach(), Before().cpuUsage, Before().gpuUsage) == None
  {
    var r, infos := Before(), OneCoreEach();
    assert [0, 1][1..] == [1];
    FirstFitFits(r.vs[1], [7, 8], infos, r.cpuUsage, r.gpuUsage);
    assert Place(r.vs, [1], [7, 8], infos, r.cpuUsage, r.gpuUsage) == None;
  }

  lemma RoomAmid()
    ensures PlaceAmid([Before(), Stopped()], [0, 1], [7, 8], OneCoreEach()) == Some([7, 7])
  {
    var r, infos := Stopped(), OneCoreEach();
    PlaceOne(Before(), 0, [7, 8], infos);
    assert FirstFit(r.vs[1], [7, 8], infos, r.cpuUsage, r.gpuUsage) == Some(7);
    PlaceOneMore([Before()], [0], [7, 8], infos, [7], r, 1);
    assert [Before()] + [r] == [Before(), r] && [0] + [1 as nat] == [0, 1] && [7] + [7] == [7, 7];
  }

  // ----- what a placement is, without the loops

  datatype Resource = Cores | Memory | Disk | Gpus

  function Amount(n: Needs, r: Resource): nat {
    match r
    case Cores => n.cpu
    case Memory => n.memory
    case Disk => n.disk
    case Gpus => n.gpu
  }

  function Offered(info: Info, r: Resource): int {
    match r
    case Cores => info.cpu
    case Memory => info.memory
    case Disk => info.disk
    case Gpus => info.gpu
  }

  /** What the tables say is in use; memory and disk are not in any table. */
  ghost function InTables(seen: Reading, w: int, r: Resource): int {
    match r
    case Cores => UsageOf(seen.cpuUsage, w)
    case Gpus => UsageOf(seen.gpuUsage, w)
    case Memory => 0
    case Disk => 0
  }

  ghost predicate AreRead(seen: seq<Reading>, list: seq<nat>) {
    |seen| <= |list| && forall j :: 0 <= j < |seen| ==> list[j] < |seen[j].vs|
  }

  /** What the vnodes that do not stay where they are need on the worker, of the first n. */
  ghost function Given(seen: seq<Reading>, list: seq<nat>, ws: seq<int>, n: nat, w: int, r: Resource): nat
    requires AreRead(seen, list) && n <= |seen| && n <= |ws|
  {
    if n == 0 then 0
    else
      var v := seen[n - 1].vs[list[n - 1]];
      Given(seen, list, ws, n - 1, w, r) + if ws[n - 1] == w && !Stays(v) then Amount(v.needs, r) else 0
  }

  /** The worker has enough left for vnode j of the list. */
  ghost predicate HasEnough(seen: seq<Reading>, list: seq<nat>, ws: seq<int>, j: nat, w: int, info: Info, r: Resource)
    requires AreRead(seen, list) && j < |seen| && j <= |ws|
  {
    Amount(seen[j].vs[list[j]].needs, r) + InTables(seen[j], w, r) + Given(seen, list, ws, j, w, r) <= Offered(info, r)
  }

  /** It has enough of everything, and GPUs of the right kind. */
  ghost predicate HasRoom(seen: seq<Reading>, list: seq<nat>, ws: seq<int>, j: nat, w: int, info: Info)
    requires AreRead(seen, list) && j < |seen| && j <= |ws|
  {
    var v := seen[j].vs[list[j]];
    && (forall r :: HasEnough(seen, list, ws, j, w, info, r))
    && (v.needs.gpu > 0 && v.gpuPreference != NO_PREFERENCE ==> v.gpuPreference == info.gpuName)
  }

  /** A vnode that runs stays; another goes to the first worker that has room. */
  ghost predicate GoesTo(seen: seq<Reading>, list: seq<nat>, ws: seq<int>, j: nat, nodes: seq<int>,
                         infos: map<int, Info>)
    requires AreRead(seen, list) && j < |seen| && j < |ws| && forall w :: w in nodes ==> w in infos
  {
    var v := seen[j].vs[list[j]];
    if v.started && v.worker != NO_WORKER then ws[j] == v.worker
    else exists i :: 0 <= i < |nodes| && nodes[i] == ws[j] && IsFirst(seen, list, ws, j, nodes, infos, i)
  }

  ghost predicate IsFirst(seen: seq<Reading>, list: seq<nat>, ws: seq<int>, j: nat, nodes: seq<int>,
                          infos: map<int, Info>, i: nat)
    requires AreRead(seen, list) && j < |seen| && j <= |ws| && i < |nodes| && forall w :: w in nodes ==> w in infos
  {
    && HasRoom(seen, list, ws, j, nodes[i], infos[nodes[i]])
    && forall k :: 0 <= k < i ==> !HasRoom(seen, list, ws, j, nodes[k], infos[nodes[k]])
  }

  /** The first n vnodes of the list go to these workers. */
  ghost predicate GoTo(seen: seq<Reading>, list: seq<nat>, ws: seq<int>, n: nat, nodes: seq<int>, infos: map<int, Info>)
    requires AreRead(seen, list) && n <= |seen| && n <= |ws| && forall w :: w in nodes ==> w in infos
  {
    forall j :: 0 <= j < n ==> GoesTo(seen, list, ws, j, nodes, infos)
  }

  /** Vnode n of the list does not run, and no worker has room for it. */
  ghost predicate NoRoom(seen: seq<Reading>, list: seq<nat>, ws: seq<int>, n: nat, nodes: seq<int>,
                         infos: map<int, Info>)
    requires AreRead(seen, list) && n < |seen| && n <= |ws| && forall w :: w in nodes ==> w in infos
  {
    var v := seen[n].vs[list[n]];
    !(v.started && v.worker != NO_WORKER) && forall w :: w in nodes ==> !HasRoom(seen, list, ws, n, w, infos[w])
  }

  /** Of memory and disk, which no table has, the vnodes that a placement puts on a worker need no more in all than the
      worker reported; and a vnode that prefers a kind of GPU, and needs one, gets a worker with that kind. */
  lemma {:induction false} PlacementFits(seen: seq<Reading>, list: seq<nat>, ws: seq<int>, n: nat, nodes: seq<int>,
                                         infos: map<int, Info>, w: int)
    requires AreRead(seen, list) && n <= |seen| && n <= |ws| && (forall w :: w in nodes ==> w in infos)
    requires GoTo(seen, list, ws, n, nodes, infos)
    ensures forall r :: (r == Memory || r == Disk) && Given(seen, list, ws, n, w, r) > 0 ==>
              w in nodes && Given(seen, list, ws, n, w, r) <= Offered(infos[w], r)
    ensures forall j :: 0 <= j < n && !Stays(seen[j].vs[list[j]]) ==>
              && ws[j] in nodes
              && var v := seen[j].vs[list[j]];
                 v.needs.gpu > 0 && v.gpuPreference != NO_PREFERENCE ==> infos[ws[j]].gpuName == v.gpuPreference
    decreases n
  {
    if n > 0 {
      PlacementFits(seen, list, ws, n - 1, nodes, infos, w);
      assert GoesTo(seen, list, ws, n - 1, nodes, infos);
      if !Stays(seen[n - 1].vs[list[n - 1]]) {
        var i :| 0 <= i < |nodes| && nodes[i] == ws[n - 1] && IsFirst(seen, list, ws, n - 1, nodes, infos, i);
        assert HasEnough(seen, list, ws, n - 1, nodes[i], infos[nodes[i]], Memory);
        assert HasEnough(seen, list, ws, n - 1, nodes[i], infos[nodes[i]], Disk);
      }
    }
  }

  // ----- and with them

  /** What the first n left of the workers. */
  ghost predicate LeftIs(seen: seq<Reading>, list: seq<nat>, ws: seq<int>, n: nat, infos: map<int, Info>,
                         left: map<int, Info>)
    requires AreRead(seen, list) && n <= |seen| && n <= |ws|
  {
    && left.Keys == infos.Keys
    && forall w :: w in infos ==>
      && left[w].gpuName == infos[w].gpuName
      && forall r :: Offered(left[w], r) == Offered(infos[w], r) - Given(seen, list, ws, n, w, r)
  }

  lemma FitsIsRoom(seen: seq<Reading>, list: seq<nat>, ws: seq<int>, j: nat, infos: map<int, Info>,
                   left: map<int, Info>, w: int)
    requires AreRead(seen, list) && j < |seen| && j <= |ws| && LeftIs(seen, list, ws, j, infos, left) && w in infos
    ensures Fits(seen[j].vs[list[j]], UsageOf(seen[j].cpuUsage, w), UsageOf(seen[j].gpuUsage, w), left[w]) <==>
            HasRoom(seen, list, ws, j, w, infos[w])
  {
    var v := seen[j].vs[list[j]];
    forall r: Resource
      ensures HasEnough(seen, list, ws, j, w, infos[w], r) <==>
              Amount(v.needs, r) + InTables(seen[j], w, r) <= Offered(left[w], r)
    {
      assert Offered(left[w], r) == Offered(infos[w], r) - Given(seen, list, ws, j, w, r);
    }
    var all := HasEnough(seen, list, ws, j, w, infos[w], Cores) && HasEnough(seen, list, ws, j, w, infos[w], Memory) &&
      HasEnough(seen, list, ws, j, w, infos[w], Disk) && HasEnough(seen, list, ws, j, w, infos[w], Gpus);
    forall r: Resource | all
      ensures HasEnough(seen, list, ws, j, w, infos[w], r)
    {
      match r
      case Cores =>
      case Memory =>
      case Disk =>
      case Gpus =>
    }
  }

  lemma {:induction false} FirstFitIs(seen: seq<Reading>, list: seq<nat>, ws: seq<int>, j: nat, nodes: seq<int>,
                                      infos: map<int, Info>, left: map<int, Info>, n: nat)
    requires AreRead(seen, list) && j < |seen| && j <= |ws| && LeftIs(seen, list, ws, j, infos, left)
    requires (forall w :: w in nodes ==> w in infos) && n <= |nodes|
    requires forall k :: 0 <= k < n ==> !HasRoom(seen, list, ws, j, nodes[k], infos[nodes[k]])
    ensures match FirstFit(seen[j].vs[list[j]], nodes[n..], left, seen[j].cpuUsage, seen[j].gpuUsage)
            case Some(w) => exists i :: 0 <= i < |nodes| && nodes[i] == w && IsFirst(seen, list, ws, j, nodes, infos, i)
            case None => forall w :: w in nodes ==> !HasRoom(seen, list, ws, j, w, infos[w])
    decreases |nodes| - n
  {
    if n < |nodes| {
      var w := nodes[n];
      assert nodes[n..][0] == w && nodes[n..][1..] == nodes[n + 1..];
      FitsIsRoom(seen, list, ws, j, infos, left, w);
      if HasRoom(seen, list, ws, j, w, infos[w]) {
        assert IsFirst(seen, list, ws, j, nodes, infos, n);
      } else {
        FirstFitIs(seen, list, ws, j, nodes, infos, left, n + 1);
      }
    }
  }

  method FindFirstFit(v: Vnode, nodes: seq<int>, infos: map<int, Info>, cpuUsage: map<int, int>,
                      gpuUsage: map<int, int>) returns (r: Option<int>)
    requires forall w :: w in nodes ==> w in infos
    ensures r == FirstFit(v, nodes, infos, cpuUsage, gpuUsage)
  {
    for n := 0 to |nodes|
      invariant FirstFit(v, nodes, infos, cpuUsage, gpuUsage) == FirstFit(v, nodes[n..], infos, cpuUsage, gpuUsage)
    {
      var w := nodes[n];
      assert nodes[n..][1..] == nodes[n + 1..];
      if Fits(v, UsageOf(cpuUsage, w), UsageOf(gpuUsage, w), infos[w]) {
        return Some(w);
      }
    }
    r := None;
  }

  function After(ws: seq<int>, r: Option<seq<int>>): Option<seq<int>> {
    match r
    case None => None
    case Some(rest) => Some(ws + rest)
  }

  lemma AfterOne(ws: seq<int>, w: int, r: Option<seq<int>>)
    ensures After(ws, Prepend(w, r)) == After(ws + [w], r)
  {
    if r.Some? {
      assert ws + ([w] + r.value) == (ws + [w]) + r.value;
    }
  }

  /** One iteration of find_proper_workers. */
  method FindNext(v: Vnode, nodes: seq<int>, infos: map<int, Info>, cpuUsage: map<int, int>, gpuUsage: map<int, int>)
    returns (worker: Option<int>, left: map<int, Info>)
    requires forall w :: w in nodes ==> w in infos
    ensures worker == Next(v, nodes, infos, cpuUsage, gpuUsage)
    ensures left == if worker.Some? then LeftBy(v, worker.value, infos) else infos
  {
    left := infos;
    if v.worker != NO_WORKER && v.started {
      return Some(v.worker), left;
    }
    worker := FindFirstFit(v, nodes, infos, cpuUsage, gpuUsage);
    FirstFitFits(v, nodes, infos, cpuUsage, gpuUsage);
    if worker.Some? {
      left := infos[worker.value := Minus(infos[worker.value], v.needs)];
    }
  }

  function Same(r: Reading, n: nat): (seen: seq<Reading>)
    ensures |seen| == n && forall j :: 0 <= j < n ==> seen[j] == r
  {
    seq(n, i => r)
  }

  /** Where the vnodes of the list go, if one of them waits and there is room for all; else nothing. */
  ghost predicate IsAnswer(r: Reading, list: seq<nat>, nodes: seq<int>, infos: map<int, Info>, workers: seq<int>)
    requires Indices(list, |r.vs|) && forall w :: w in nodes ==> w in infos
  {
    var seen := Same(r, |list|);
    if workers != [] then
      && (exists j :: 0 <= j < |list| && r.vs[list[j]].waiting)
      && |workers| == |list| && GoTo(seen, list, workers, |list|, nodes, infos)
    else
      || (forall j :: 0 <= j < |list| ==> !r.vs[list[j]].waiting)
      || exists n :: 0 <= n < |list| && StopsAt(seen, list, nodes, infos, n)
  }

  lemma AnswerIs(r: Reading, list: seq<nat>, nodes: seq<int>, infos: map<int, Info>)
    requires Indices(list, |r.vs|) && forall w :: w in nodes ==> w in infos
    ensures match Place(r.vs, list, nodes, infos, r.cpuUsage, r.gpuUsage)
            case Some(ws) =>
              |ws| == |list| && GoTo(Same(r, |list|), list, ws, |list|, nodes, infos)
            case None => exists n :: 0 <= n < |list| && StopsAt(Same(r, |list|), list, nodes, infos, n)
  {
    var seen, n := Same(r, |list|), |list|;
    PlaceUndisturbed(r, seen, list, nodes, infos);
    PlaceEnds(seen, list, nodes, infos, n);
    assert seen[..n] == seen && list[..n] == list;
  }

  /** The loops end with a placement, or where it stops. */
  lemma {:induction false} PlaceEnds(seen: seq<Reading>, list: seq<nat>, nodes: seq<int>, infos: map<int, Info>, n: nat)
    requires Readings(seen, list) && n <= |list| && forall w :: w in nodes ==> w in infos
    ensures Readings(seen[..n], list[..n])
    ensures match PlaceAmid(seen[..n], list[..n], nodes, infos)
            case Some(ws) => |ws| == n && GoTo(seen, list, ws, n, nodes, infos)
            case None => exists m :: 0 <= m < n && StopsAt(seen, list, nodes, infos, m)
  {
    if n > 0 {
      var m := n - 1;
      assert seen[..n] == seen[..m] + [seen[m]] && list[..n] == list[..m] + [list[m]];
      PlaceEnds(seen, list, nodes, infos, m);
      var before := PlaceAmid(seen[..m], list[..m], nodes, infos);
      if before.Some? {
        PlaceMeans(seen, list, nodes, infos, before.value, m);
        PlaceOneMore(seen[..m], list[..m], nodes, infos, before.value, seen[m], list[m]);
        PlacedNext(seen, list, nodes, infos, before.value, LeftAfter(seen[..m], list[..m], before.value, infos), m);
        assert NoRoom(seen, list, before.value, m, nodes, infos) ==> StopsAt(seen, list, nodes, infos, m);
      } else if PlaceAmid(seen[..n], list[..n], nodes, infos).Some? {
        PlaceBefore(seen[..m], list[..m], nodes, infos, seen[m], list[m]);
      }
    }
  }

  /** find_proper_workers, undisturbed: the placement, or nothing if there is none or if no vnode of the list waits. */
  method FindProperWorkers(vs: seq<Vnode>, list: seq<nat>, nodes: seq<int>, infos0: map<int, Info>,
                           cpuUsage: map<int, int>, gpuUsage: map<int, int>)
    returns (workers: seq<int>)
    requires forall w :: w in nodes ==> w in infos0
    requires Indices(list, |vs|)
    ensures workers == match Place(vs, list, nodes, infos0, cpuUsage, gpuUsage)
                       case Some(ws) => if exists j :: 0 <= j < |list| && vs[list[j]].waiting then ws else []
                       case None => []
    ensures IsAnswer(Reading(vs, cpuUsage, gpuUsage), list, nodes, infos0, workers)
  {
    AnswerIs(Reading(vs, cpuUsage, gpuUsage), list, nodes, infos0);
    var infos := infos0;
    var hasWaiting := false;
    workers := [];
    ghost var whole := Place(vs, list, nodes, infos0, cpuUsage, gpuUsage);
    assert list[0..] == list && (whole.Some? ==> [] + whole.value == whole.value);
    for n := 0 to |list|
      invariant infos.Keys == infos0.Keys
      invariant whole == After(workers, Place(vs, list[n..], nodes, infos, cpuUsage, gpuUsage))
      invariant hasWaiting <==> exists j :: 0 <= j < n && vs[list[j]].waiting
    {
      var v := vs[list[n]];
      assert list[n..][1..] == list[n + 1..];
      if v.waiting {
        hasWaiting := true;
      }
      var worker;
      worker, infos := FindNext(v, nodes, infos, cpuUsage, gpuUsage);
      if worker == None {
        return [];
      }
      AfterOne(workers, worker.value, Place(vs, list[n + 1..], nodes, infos, cpuUsage, gpuUsage));
      workers := workers + [worker.value];
    }
    if !hasWaiting {
      workers := [];
    }
  }

  // ----- starting and stopping

  lemma UsageIsLoad(vs: seq<Vnode>, usage: map<int, int>, w: int, k: Kind)
    requires Accounted(vs, usage, k)
    ensures UsageOf(usage, w) == Load(vs, {}, w, k)
  {
    if w !in usage {
      NothingStarted(vs, |vs|, w, k);
    }
  }

  /** Booking 0 for a worker that is not in the table. */
  lemma ZeroAccounted(vs: seq<Vnode>, usage: map<int, int>, w: int, k: Kind)
    requires Accounted(vs, usage, k) && w !in usage
    ensures Accounted(vs, usage[w := 0], k)
  {
    UsageIsLoad(vs, usage, w, k);
  }

  lemma {:induction false} NothingStarted(vs: seq<Vnode>, n: nat, w: int, k: Kind)
    requires n <= |vs| && forall i :: 0 <= i < |vs| && vs[i].started ==> vs[i].worker != w
    ensures LoadUpTo(vs, {}, n, w, k) == 0
    decreases n
  {
    if n > 0 {
      NothingStarted(vs, n - 1, w, k);
    }
  }

  lemma StartAccounted(vs: seq<Vnode>, usage: map<int, int>, i: nat, k: Kind)
    requires Accounted(vs, usage, k) && i < |vs| && !vs[i].started && vs[i].worker in usage
    ensures Accounted(vs[i := vs[i].(started := true)], usage[vs[i].worker := usage[vs[i].worker] + Need(vs[i], k)], k)
  {
    var us := vs[i := vs[i].(started := true)];
    forall w | w in usage
      ensures Load(us, {}, w, k) == Load(vs, {}, w, k) + if w == vs[i].worker then Need(vs[i], k) else 0
    {
      LoadChange(vs, {}, us, {}, i, |vs|, w, k);
    }
  }

  lemma StopAccounted(vs: seq<Vnode>, usage: map<int, int>, i: nat, k: Kind)
    requires Accounted(vs, usage, k) && i < |vs| && vs[i].started
    ensures Accounted(vs[i := vs[i].(started := false)], usage[vs[i].worker := usage[vs[i].worker] - Need(vs[i], k)], k)
  {
    var us := vs[i := vs[i].(started := false)];
    forall w | w in usage
      ensures Load(us, {}, w, k) == Load(vs, {}, w, k) - if w == vs[i].worker then Need(vs[i], k) else 0
    {
      LoadChange(vs, {}, us, {}, i, |vs|, w, k);
    }
  }

  /** Dropping a decision, stopping a vnode or taking its worker away never adds to a load; starting a vnode
      whose start was decided does not either. */
  lemma NoMoreLoad(vs: seq<Vnode>, decided: set<int>, us: seq<Vnode>, decided': set<int>, i: nat,
                   capacity: map<int, Capacity>, k: Kind)
    requires WithinCapacity(vs, decided, capacity, k) && |us| == |vs| && i < |vs|
    requires forall j :: 0 <= j < |vs| && j != i ==> us[j] == vs[j] && (j in decided <==> j in decided')
    requires forall w :: w in capacity ==> Share(us, decided', i, w, k) <= Share(vs, decided, i, w, k)
    ensures WithinCapacity(us, decided', capacity, k)
  {
    forall w | w in capacity
      ensures Load(us, decided', w, k) <= Load(vs, decided, w, k)
    {
      LoadChange(vs, decided, us, decided', i, |vs|, w, k);
    }
  }

  /** Every running vnode, and every vnode whose start is decided, has a worker of the cluster. */
  ghost predicate OnWorkers(vs: seq<Vnode>, decided: set<int>, capacity: map<int, Capacity>, usage: map<int, int>) {
    && NO_WORKER !in capacity && usage.Keys <= capacity.Keys
    && (forall i :: 0 <= i < |vs| && vs[i].started ==> vs[i].worker in capacity)
    && (forall i :: i in decided ==> 0 <= i < |vs| && vs[i].worker in usage)
  }

  /** Vnodes may have stopped and others may have come, but none was started, moved or changed. */
  ghost predicate OnlyStops(vs: seq<Vnode>, us: seq<Vnode>) {
    && |us| >= |vs|
    && forall i :: 0 <= i < |vs| ==>
      us[i].worker == vs[i].worker && us[i].needs == vs[i].needs && (us[i].started ==> vs[i].started)
  }

  lemma OnlyStopsOn(vs: seq<Vnode>, us: seq<Vnode>, ts: seq<Vnode>)
    requires OnlyStops(vs, us) && OnlyStops(us, ts)
    ensures OnlyStops(vs, ts)
  {
  }

  ghost predicate OtherWorkersStay(vs: seq<Vnode>, us: seq<Vnode>, i: nat) {
    |us| >= |vs| && forall j :: 0 <= j < |vs| && j != i ==> us[j].worker == vs[j].worker
  }

  /** The first n vnodes of the list keep their worker or have lost it; the others keep it. */
  ghost predicate Processed(vs: seq<Vnode>, us: seq<Vnode>, list: seq<nat>, n: nat)
    requires n <= |list| && Indices(list, |vs|)
  {
    && |us| >= |vs|
    && (forall j :: 0 <= j < n ==> us[list[j]].worker == vs[list[j]].worker || us[list[j]].worker == NO_WORKER)
    && (forall i :: 0 <= i < |vs| && i !in list[..n] ==> us[i].worker == vs[i].worker)
  }

  lemma ProcessedMore(was: seq<Vnode>, vs: seq<Vnode>, us: seq<Vnode>, list: seq<nat>, n: nat)
    requires n < |list| && Indices(list, |was|) && Processed(was, vs, list, n)
    requires forall j :: 0 <= j < n ==> list[j] != list[n]
    requires OtherWorkersStay(vs, us, list[n]) && us[list[n]].worker in {vs[list[n]].worker, NO_WORKER}
    ensures Processed(was, us, list, n + 1)
    ensures forall j :: 0 <= j < n ==> us[list[j]].worker == vs[list[j]].worker
  {
    assert list[..n + 1] == list[..n] + [list[n]];
  }

  class WorkerLoad {
    var vnodes: seq<Vnode>
    var cpuUsage: map<int, int>
    var gpuUsage: map<int, int>
    const capacity: map<int, Capacity>
    /** the capacity, raised by the needs of the vnodes that stopped while others were placed beside them; see Settle */
    ghost var bound: map<int, Capacity>
    /** the vnodes that task_scheduler has placed and task_processor has not reached */
    ghost var decided: set<int>

    /** The tables are right, and no worker is asked for more than the bound, also by the starts to come. */
    ghost predicate Valid()
      reads this
    {
      && Accounted(vnodes, cpuUsage, Cpu) && Accounted(vnodes, gpuUsage, Gpu)
      && WithinCapacity(vnodes, decided, bound, Cpu) && WithinCapacity(vnodes, decided, bound, Gpu)
      && AtLeast(bound, capacity)
      && cpuUsage.Keys == gpuUsage.Keys
      && OnWorkers(vnodes, decided, capacity, cpuUsage)
    }

    /** So what the tables say is the sum over the running vnodes, and never exceeds the worker's capacity but by what
        vnodes needed that stopped while others were placed beside them. */
    lemma UsageWithinCapacity(w: int)
      requires Valid() && w in capacity
      ensures w in bound
      ensures UsageOf(cpuUsage, w) == Load(vnodes, {}, w, Cpu) <= bound[w].cpu
      ensures UsageOf(gpuUsage, w) == Load(vnodes, {}, w, Gpu) <= bound[w].gpu
    {
      UsageIsLoad(vnodes, cpuUsage, w, Cpu);
      UsageIsLoad(vnodes, gpuUsage, w, Gpu);
      FewerDecided(vnodes, decided, |vnodes|, w, Cpu);
      FewerDecided(vnodes, decided, |vnodes|, w, Gpu);
    }

    constructor (capacity: map<int, Capacity>)
      requires NO_WORKER !in capacity
      requires forall w :: w in capacity ==> capacity[w].cpu >= 0 && capacity[w].gpu >= 0
      ensures Valid() && vnodes == [] && decided == {} && this.capacity == capacity && bound == capacity
    {
      this.capacity, bound, vnodes, cpuUsage, gpuUsage, decided := capacity, capacity, [], map[], map[], {};
    }

    /** add_task: new vnodes without a worker. */
    method AddVnodes(more: seq<Vnode>)
      requires Valid() && forall v :: v in more ==> v.worker == NO_WORKER && !v.started
      modifies this`vnodes
      ensures Valid() && vnodes == old(vnodes) + more
    {
      AddedKeep(vnodes, more, decided, bound, cpuUsage, Cpu);
      AddedKeep(vnodes, more, decided, bound, gpuUsage, Gpu);
      vnodes := vnodes + more;
    }

    /** The worker accepts or does not answer as it should; then nothing is booked. */
    method StartVnode(i: nat) returns (ok: bool)
      requires Valid() && i < |vnodes| && !vnodes[i].started && i in decided
      modifies this`vnodes, this`cpuUsage, this`gpuUsage
      ensures Valid()
      ensures vnodes == if ok then old(vnodes)[i := old(vnodes)[i].(started := true)] else old(vnodes)
      ensures !ok ==> cpuUsage == old(cpuUsage) && gpuUsage == old(gpuUsage)
    {
      ok := *;
      if ok {
        var v := vnodes[i];
        ghost var us := vnodes[i := v.(started := true)];
        StartAccounted(vnodes, cpuUsage, i, Cpu);
        StartAccounted(vnodes, gpuUsage, i, Gpu);
        NoMoreLoad(vnodes, decided, us, decided, i, bound, Cpu);
        NoMoreLoad(vnodes, decided, us, decided, i, bound, Gpu);
        vnodes := vnodes[i := v.(started := true)];
        cpuUsage := cpuUsage[v.worker := cpuUsage[v.worker] + v.needs.cpu];
        gpuUsage := gpuUsage[v.worker := gpuUsage[v.worker] + v.needs.gpu];
      }
    }

    /** Does nothing for a vnode that does not run. */
    method StopVnode(i: nat) returns (ok: bool)
      requires Valid() && i < |vnodes|
      modifies this`vnodes, this`cpuUsage, this`gpuUsage
      ensures Valid()
      ensures vnodes == if ok then old(vnodes)[i := old(vnodes)[i].(started := false)] else old(vnodes)
      ensures |vnodes| == |old(vnodes)| && (!old(vnodes)[i].started ==> ok)
      ensures cpuUsage == if ok && old(vnodes)[i].started then Unbooked(old(cpuUsage), old(vnodes)[i], Cpu)
                          else old(cpuUsage)
      ensures gpuUsage == if ok && old(vnodes)[i].started then Unbooked(old(gpuUsage), old(vnodes)[i], Gpu)
                          else old(gpuUsage)
      ensures old(vnodes)[i].started ==>
                old(vnodes)[i].worker in old(cpuUsage) && old(vnodes)[i].worker in old(gpuUsage)
    {
      var v := vnodes[i];
      if !v.started {
        return true;
      }
      ok := *;
      if ok {
        ghost var us := vnodes[i := v.(started := false)];
        StopAccounted(vnodes, cpuUsage, i, Cpu);
        StopAccounted(vnodes, gpuUsage, i, Gpu);
        NoMoreLoad(vnodes, decided, us, decided, i, bound, Cpu);
        NoMoreLoad(vnodes, decided, us, decided, i, bound, Gpu);
        vnodes := vnodes[i := v.(started := false)];
        cpuUsage := cpuUsage[v.worker := cpuUsage[v.worker] - v.needs.cpu];
        gpuUsage := gpuUsage[v.worker := gpuUsage[v.worker] - v.needs.gpu];
      }
    }

    /** A report or the scheduler changes what a subtask waits for. */
    method SetWaiting(i: nat, waiting: bool)
      requires Valid() && i < |vnodes|
      modifies this`vnodes
      ensures Valid() && |vnodes| == |old(vnodes)|
      ensures vnodes == old(vnodes)[i := old(vnodes)[i].(waiting := waiting)]
    {
      var us := vnodes[i := vnodes[i].(waiting := waiting)];
      SameLoads(vnodes, us, decided, bound, cpuUsage, Cpu);
      SameLoads(vnodes, us, decided, bound, gpuUsage, Gpu);
      vnodes := us;
    }

    /** What the other threads may do meanwhile: reports stop vnodes, wanted or not, and tasks are added. */
    method Interfere(more: seq<Vnode>, steps: nat)
      requires Valid() && forall v :: v in more ==> v.worker == NO_WORKER && !v.started
      modifies this`vnodes, this`cpuUsage, this`gpuUsage
      ensures Valid() && OnlyStops(old(vnodes), vnodes)
    {
      ghost var n := |vnodes|;
      for s := 0 to steps
        invariant Valid() && |vnodes| == n && OnlyStops(old(vnodes), vnodes)
      {
        var i: nat := *;
        if i < |vnodes| {
          var stopped := StopVnode(i);
          var waiting: bool := *;
          SetWaiting(i, waiting);
        }
      }
      AddVnodes(more);
    }

    /** What task_scheduler has found so far is right in the present state. */
    ghost predicate Amid(s: Search, list: seq<nat>, n: nat, infos: map<int, Info>)
      requires n <= |list|
      reads this
    {
      Searching(s, vnodes, list, n, infos, capacity, bound, cpuUsage, gpuUsage)
    }

    /** Interfere, while task_scheduler is looking for workers. */
    method InterfereAmid(more: seq<Vnode>, steps: nat, list: seq<nat>, n: nat, ghost infos: map<int, Info>,
                         ghost s: Search)
      returns (ghost s': Search)
      requires Valid() && n <= |list| && Amid(s, list, n, infos)
      requires forall v :: v in more ==> v.worker == NO_WORKER && !v.started
      modifies this`vnodes, this`cpuUsage, this`gpuUsage
      ensures Valid() && OnlyStops(old(vnodes), vnodes) && cpuUsage.Keys == old(cpuUsage).Keys
      ensures Amid(s', list, n, infos) && s'.seen == s.seen && s'.workers == s.workers
    {
      s' := s;
      for step := 0 to steps
        invariant Valid() && |vnodes| == |old(vnodes)| && OnlyStops(old(vnodes), vnodes)
        invariant cpuUsage.Keys == old(cpuUsage).Keys
        invariant Amid(s', list, n, infos) && s'.seen == s.seen && s'.workers == s.workers
      {
        var i: nat := *;
        if i < |vnodes| {
          s' := StopAmid(i, list, n, infos, s');
          s' := WaitAmid(i, list, n, infos, s');
        }
      }
      SearchingMore(s', vnodes, list, n, infos, capacity, bound, cpuUsage, gpuUsage, more);
      s' := s'.(us := s'.us + more);
      AddVnodes(more);
    }

    method StopAmid(i: nat, list: seq<nat>, n: nat, ghost infos: map<int, Info>, ghost s: Search)
      returns (ghost s': Search)
      requires Valid() && n <= |list| && Amid(s, list, n, infos) && i < |vnodes|
      modifies this`vnodes, this`cpuUsage, this`gpuUsage
      ensures Valid() && |vnodes| == |old(vnodes)| && OnlyStops(old(vnodes), vnodes)
      ensures cpuUsage.Keys == old(cpuUsage).Keys
      ensures Amid(s', list, n, infos) && s'.seen == s.seen && s'.workers == s.workers
    {
      s' := s;
      ghost var vs, cpu, gpu := vnodes, cpuUsage, gpuUsage;
      var stopped := StopVnode(i);
      if stopped && vs[i].started {
        SearchingStop(s, vs, list, n, infos, capacity, bound, cpu, gpu, i);
        s' := s.(us := s.us[i := s.us[i].(started := false)], counted := s.counted - {i});
      } else {
        assert vnodes == vs;
      }
    }

    method WaitAmid(i: nat, list: seq<nat>, n: nat, ghost infos: map<int, Info>, ghost s: Search)
      returns (ghost s': Search)
      requires Valid() && n <= |list| && Amid(s, list, n, infos) && i < |vnodes|
      modifies this`vnodes
      ensures Valid() && |vnodes| == |old(vnodes)| && OnlyStops(old(vnodes), vnodes)
      ensures Amid(s', list, n, infos) && s'.seen == s.seen && s'.workers == s.workers
    {
      var waiting: bool := *;
      SearchingWait(s, vnodes, list, n, infos, capacity, bound, cpuUsage, gpuUsage, i, waiting);
      s' := s.(us := s.us[i := s.us[i].(waiting := waiting)]);
      SetWaiting(i, waiting);
    }

    /** An iteration of find_proper_workers, after the other threads. */
    method LookAtNext(list: seq<nat>, n: nat, nodes: seq<int>, ghost infos0: map<int, Info>, infos: map<int, Info>,
                      ghost hasWaiting: bool, more: seq<Vnode>, ghost s: Search)
      returns (worker: Option<int>, waiting: bool, left: map<int, Info>, ghost s': Search)
      requires Valid() && n < |list| && Amid(s, list, n, infos)
      requires Looked(s, list, n, nodes, infos0, infos, hasWaiting) && (forall w :: w in nodes ==> w in infos)
      requires Distinct(list) && list[n] < |vnodes| && forall v :: v in more ==> v.worker == NO_WORKER && !v.started
      requires forall w :: w in nodes ==> w in capacity && w in cpuUsage
      modifies this`vnodes, this`cpuUsage, this`gpuUsage
      ensures Valid() && OnlyStops(old(vnodes), vnodes) && cpuUsage.Keys == old(cpuUsage).Keys
      ensures left.Keys == infos.Keys
      ensures worker.Some? ==> Amid(s', list, n + 1, left) && s'.workers == s.workers + [worker.value]
      ensures worker.Some? ==> Looked(s', list, n + 1, nodes, infos0, left, hasWaiting || waiting)
      ensures worker.Some? ==> s'.seen == s.seen + [Reading(vnodes, cpuUsage, gpuUsage)]
      ensures worker.None? ==> NoPlacement(s'.seen, list, nodes, infos0)
    {
      var steps: nat := *;
      s' := InterfereAmid(more, steps, list, n, infos, s);
      var v := vnodes[list[n]];
      waiting := v.waiting;
      worker, left := FindNext(v, nodes, infos, cpuUsage, gpuUsage);
      ghost var r := Reading(vnodes, cpuUsage, gpuUsage);
      if worker.None? {
        LookedLast(s', list, n, nodes, infos0, infos, hasWaiting, r);
        s' := s'.(seen := s'.seen + [r]);
      } else {
        LookedMore(s', list, n, nodes, infos0, infos, hasWaiting, r);
        SearchingNext(s', vnodes, list, n, infos, capacity, bound, cpuUsage, gpuUsage, nodes);
        s' := Found(s', r, list[n], worker.value);
      }
    }

    lemma AmidEnds(s: Search, list: seq<nat>, nodes: seq<int>, infos0: map<int, Info>, infos: map<int, Info>,
                   found: bool)
      requires Valid() && Amid(s, list, |list|, infos) && Looked(s, list, |list|, nodes, infos0, infos, found)
      requires decided == {} && Distinct(list) && (list != [] ==> s.seen != [] && s.seen[|s.seen| - 1].vs == vnodes)
      ensures found ==> IsOutcome(s, vnodes, list, nodes, infos0)
      ensures found ==> StartsToCome(s.us, s.passed, s.passed - s.counted, capacity, bound, cpuUsage, gpuUsage)
      ensures !found ==> NoPlacement(s.seen, list, nodes, infos0)
    {
      if !found {
        NothingWaits(s, list, nodes, infos0, infos);
        return;
      }
      SearchEnds(s, vnodes, list, nodes, infos0, infos, capacity, bound, cpuUsage, gpuUsage);
      PlacingEnds(vnodes, s.us, s.passed, s.counted, infos, capacity, bound, cpuUsage, gpuUsage);
    }

    method Begin(list: seq<nat>, nodes: seq<int>, ghost infos0: map<int, Info>) returns (ghost s: Search)
      requires Valid() && decided == {} && infos0.Keys == capacity.Keys && forall w :: w in nodes ==> w in capacity
      requires forall w :: w in capacity ==> infos0[w].cpu == capacity[w].cpu && infos0[w].gpu == capacity[w].gpu
      modifies this`cpuUsage, this`gpuUsage
      ensures Valid() && (forall w :: w in nodes ==> w in cpuUsage)
      ensures Amid(s, list, 0, infos0) && s.workers == [] && Looked(s, list, 0, nodes, infos0, infos0, false)
    {
      Touch(nodes);
      s := Search(vnodes, {}, {}, [], []);
      PlacingStarts(vnodes, infos0, capacity, bound, cpuUsage, gpuUsage);
    }

    /** find_proper_workers with other threads at work before every iteration. */
    method FindWorkers(list: seq<nat>, nodes: seq<int>, infos0: map<int, Info>, others: seq<seq<Vnode>>)
      returns (found: bool, workers: seq<int>, ghost s: Search)
      requires Valid() && decided == {} && Indices(list, |vnodes|) && Distinct(list)
      requires infos0.Keys == capacity.Keys && forall w :: w in nodes ==> w in capacity
      requires forall w :: w in capacity ==> infos0[w].cpu == capacity[w].cpu && infos0[w].gpu == capacity[w].gpu
      requires |others| == |list|
      requires forall more, v :: more in others && v in more ==> v.worker == NO_WORKER && !v.started
      modifies this`vnodes, this`cpuUsage, this`gpuUsage
      ensures Valid() && OnlyStops(old(vnodes), vnodes)
      ensures !found ==> NoPlacement(s.seen, list, nodes, infos0)
      ensures found ==> s.workers == workers && IsOutcome(s, vnodes, list, nodes, infos0)
      ensures found ==> StartsToCome(s.us, s.passed, s.passed - s.counted, capacity, bound, cpuUsage, gpuUsage)
    {
      var all, hasWaiting;
      ghost var left;
      all, hasWaiting, workers, left, s := LookAtAll(list, nodes, infos0, others);
      found := all && hasWaiting;
      if all {
        AmidEnds(s, list, nodes, infos0, left, found);
      }
    }

    /** The loop itself, which ends at the first vnode without a worker. */
    method LookAtAll(list: seq<nat>, nodes: seq<int>, infos0: map<int, Info>, others: seq<seq<Vnode>>)
      returns (all: bool, hasWaiting: bool, workers: seq<int>, ghost left: map<int, Info>, ghost s: Search)
      requires Valid() && decided == {} && Indices(list, |vnodes|) && Distinct(list)
      requires infos0.Keys == capacity.Keys && forall w :: w in nodes ==> w in capacity
      requires forall w :: w in capacity ==> infos0[w].cpu == capacity[w].cpu && infos0[w].gpu == capacity[w].gpu
      requires |others| == |list|
      requires forall more, v :: more in others && v in more ==> v.worker == NO_WORKER && !v.started
      modifies this`vnodes, this`cpuUsage, this`gpuUsage
      ensures Valid() && OnlyStops(old(vnodes), vnodes)
      ensures !all ==> NoPlacement(s.seen, list, nodes, infos0)
      ensures all ==> Amid(s, list, |list|, left) && s.workers == workers
      ensures all ==> Looked(s, list, |list|, nodes, infos0, left, hasWaiting)
      ensures all && list != [] ==> s.seen != [] && s.seen[|s.seen| - 1].vs == vnodes
    {
      all, hasWaiting, workers, left := true, false, [], infos0;
      s := Begin(list, nodes, infos0);
      var infos, n := infos0, 0;
      while all && n < |list|
        invariant 0 <= n <= |list| && Valid() && OnlyStops(old(vnodes), vnodes)
        invariant forall w :: w in nodes ==> w in cpuUsage
        invariant left == infos && infos.Keys == infos0.Keys
        invariant all ==> Amid(s, list, n, infos) && s.workers == workers
        invariant all ==> Looked(s, list, n, nodes, infos0, infos, hasWaiting)
        invariant all && n > 0 ==> s.seen != [] && s.seen[|s.seen| - 1].vs == vnodes
        invariant !all ==> NoPlacement(s.seen, list, nodes, infos0)
      {
        ghost var before := vnodes;
        assert others[n] in others;
        var worker, waiting;
        worker, waiting, infos, s := LookAtNext(list, n, nodes, infos0, infos, hasWaiting, others[n], s);
        OnlyStopsOn(old(vnodes), before, vnodes);
        left := infos;
        if worker == None {
          all := false;
        } else {
          workers, hasWaiting, n := workers + [worker.value], hasWaiting || waiting, n + 1;
        }
      }
    }

    /** Before a placement the bound may be taken to be what the workers have, or what runs there if that is more: what
        vnodes needed that stopped before does not matter any more. */
    ghost method Settle()
      requires Valid() && decided == {}
      modifies this`bound
      ensures Valid() && bound == AtMostNow(vnodes, capacity)
    {
      NowIsBound(vnodes, capacity);
      bound := AtMostNow(vnodes, capacity);
    }

    /** task_scheduler's use of find_proper_workers: the vnodes of the list get their workers, all or none.  `seen` is
        what the iterations read; `stopped` are the vnodes that were passed as staying where they are and have stopped
        since.  They are to be started again where they were, so the workers may be asked for more than they have, or
        than was asked for before, by what these vnodes need and no more. */
    method Schedule(list: seq<nat>, nodes: seq<int>, infos0: map<int, Info>, others: seq<seq<Vnode>>)
      returns (placed: bool, ghost seen: seq<Reading>, ghost stopped: set<int>)
      requires Valid() && decided == {} && Indices(list, |vnodes|) && Distinct(list)
      requires infos0.Keys == capacity.Keys && forall w :: w in nodes ==> w in capacity
      requires forall w :: w in capacity ==> infos0[w].cpu == capacity[w].cpu && infos0[w].gpu == capacity[w].gpu
      requires |others| == |list|
      requires forall more, v :: more in others && v in more ==> v.worker == NO_WORKER && !v.started
      modifies this
      ensures Valid()
      ensures !placed ==> decided == {} && bound == old(bound) && OnlyStops(old(vnodes), vnodes)
      ensures !placed ==> NoPlacement(seen, list, nodes, infos0)
      ensures placed ==> decided == Members(list) && stopped <= decided && bound == Raised(old(bound), vnodes, stopped)
      ensures placed ==> Readings(seen, list) && IsPlacement(seen, list, nodes, infos0, vnodes)
      ensures placed ==> seen != [] && OnlyStops(old(vnodes), seen[|seen| - 1].vs)
      ensures placed ==> HaveStopped(seen, list, vnodes, stopped)
      ensures placed ==> OnlyByNeeds(vnodes, decided, stopped, old(bound))
    {
      var workers;
      ghost var s;
      placed, workers, s := FindWorkers(list, nodes, infos0, others);
      seen, stopped := s.seen, s.passed - s.counted;
      if placed {
        Decide(list, workers, s);
      }
    }

    method Decide(list: seq<nat>, workers: seq<int>, ghost s: Search)
      requires Valid() && |workers| == |list| && Indices(list, |vnodes|) && Assign(vnodes, list, workers) == s.us
      requires StartsToCome(s.us, s.passed, s.passed - s.counted, capacity, bound, cpuUsage, gpuUsage)
      modifies this`vnodes, this`decided, this`bound
      ensures Valid() && vnodes == s.us && decided == s.passed
      ensures bound == Raised(old(bound), vnodes, s.passed - s.counted)
    {
      vnodes, decided, bound := Assign(vnodes, list, workers), s.passed, Raised(bound, s.us, s.passed - s.counted);
    }

    /** get_cpu_usage and get_gpu_usage book 0 for a worker they see for the first time. */
    method Touch(nodes: seq<int>)
      requires Valid() && forall w :: w in nodes ==> w in capacity
      modifies this`cpuUsage, this`gpuUsage
      ensures Valid() && cpuUsage.Keys == old(cpuUsage).Keys + (set w | w in nodes)
      ensures forall w :: UsageOf(cpuUsage, w) == UsageOf(old(cpuUsage), w)
      ensures forall w :: UsageOf(gpuUsage, w) == UsageOf(old(gpuUsage), w)
    {
      for n := 0 to |nodes|
        invariant Valid() && cpuUsage.Keys == old(cpuUsage).Keys + (set w | w in nodes[..n])
        invariant forall w :: UsageOf(cpuUsage, w) == UsageOf(old(cpuUsage), w)
        invariant forall w :: UsageOf(gpuUsage, w) == UsageOf(old(gpuUsage), w)
      {
        var w := nodes[n];
        assert nodes[..n + 1] == nodes[..n] + [w];
        TouchOne(w);
      }
      assert nodes[..|nodes|] == nodes;
    }

    method TouchOne(w: int)
      requires Valid() && w in capacity
      modifies this`cpuUsage, this`gpuUsage
      ensures Valid() && cpuUsage.Keys == old(cpuUsage).Keys + {w}
      ensures forall x :: UsageOf(cpuUsage, x) == UsageOf(old(cpuUsage), x)
      ensures forall x :: UsageOf(gpuUsage, x) == UsageOf(old(gpuUsage), x)
    {
      if w !in cpuUsage {
        ZeroAccounted(vnodes, cpuUsage, w, Cpu);
        ZeroAccounted(vnodes, gpuUsage, w, Gpu);
        cpuUsage, gpuUsage := cpuUsage[w := 0], gpuUsage[w := 0];
      }
    }

    /** The start loop of task_processor, with other threads at work before every start.  A vnode that does not
        start loses its worker; the answer says whether there was such a one. */
    method Process(list: seq<nat>, others: seq<seq<Vnode>>) returns (allStarted: bool)
      requires Valid() && decided == Members(list) && Distinct(list) && Indices(list, |vnodes|)
      requires |others| == |list|
      requires forall more, v :: more in others && v in more ==> v.worker == NO_WORKER && !v.started
      modifies this
      ensures Valid() && decided == {}
      ensures Processed(old(vnodes), vnodes, list, |list|)
      ensures allStarted <==> forall j :: 0 <= j < |list| ==> vnodes[list[j]].worker != NO_WORKER
    {
      allStarted := true;
      WorkersOfDecided(list);
      for n := 0 to |list|
        invariant Valid() && decided == Members(list[n..])
        invariant Processed(old(vnodes), vnodes, list, n)
        invariant allStarted <==> forall j :: 0 <= j < n ==> vnodes[list[j]].worker != NO_WORKER
      {
        assert list[n..] == [list[n]] + list[n + 1..];
        DistinctRest(list, n);
        ghost var before := vnodes;
        assert others[n] in others;
        var ok := ProcessOne(list[n], others[n]);
        ProcessedMore(old(vnodes), before, vnodes, list, n);
        allStarted := allStarted && ok;
      }
    }

    method ProcessOne(i: nat, more: seq<Vnode>) returns (ok: bool)
      requires Valid() && i < |vnodes| && i in decided
      requires forall v :: v in more ==> v.worker == NO_WORKER && !v.started
      modifies this
      ensures Valid() && decided == old(decided) - {i} && OtherWorkersStay(old(vnodes), vnodes, i)
      ensures ok ==> vnodes[i].worker == old(vnodes)[i].worker != NO_WORKER
      ensures !ok ==> vnodes[i].worker == NO_WORKER && !vnodes[i].started
    {
      var steps: nat := *;
      Interfere(more, steps);
      ok := true;
      if !vnodes[i].started {
        ok := StartVnode(i);
      }
      Forget(i, if ok then vnodes[i].worker else NO_WORKER);
    }

    lemma WorkersOfDecided(list: seq<nat>)
      requires Valid() && decided == Members(list) && Distinct(list) && Indices(list, |vnodes|)
      ensures forall j :: 0 <= j < |list| ==> vnodes[list[j]].worker != NO_WORKER
    {
      forall j | 0 <= j < |list|
        ensures vnodes[list[j]].worker != NO_WORKER
      {
        InMembers(list, list[j]);
      }
    }

    /** task_processor is done with vnode `i`; a vnode that could not be started loses its worker. */
    method Forget(i: nat, worker: int)
      requires Valid() && i < |vnodes| && i in decided
      requires worker == vnodes[i].worker || (worker == NO_WORKER && !vnodes[i].started)
      modifies this`vnodes, this`decided
      ensures Valid() && decided == old(decided) - {i}
      ensures vnodes == old(vnodes)[i := old(vnodes)[i].(worker := worker)]
    {
      var us := vnodes[i := vnodes[i].(worker := worker)];
      StartedSame(vnodes, us, cpuUsage, Cpu);
      StartedSame(vnodes, us, gpuUsage, Gpu);
      NoMoreLoad(vnodes, decided, us, decided - {i}, i, bound, Cpu);
      NoMoreLoad(vnodes, decided, us, decided - {i}, i, bound, Gpu);
      vnodes, decided := us, decided - {i};
    }
  }

  lemma {:induction false} SameStartedLoad(vs: seq<Vnode>, us: seq<Vnode>, n: nat, w: int, k: Kind)
    requires |us| == |vs| && n <= |vs|
    requires forall i :: 0 <= i < |vs| ==> us[i].started == vs[i].started && us[i].needs == vs[i].needs
    requires forall i :: 0 <= i < |vs| && vs[i].started ==> us[i].worker == vs[i].worker
    ensures LoadUpTo(us, {}, n, w, k) == LoadUpTo(vs, {}, n, w, k)
    decreases n
  {
    if n > 0 {
      SameStartedLoad(vs, us, n - 1, w, k);
    }
  }

  lemma StartedSame(vs: seq<Vnode>, us: seq<Vnode>, usage: map<int, int>, k: Kind)
    requires Accounted(vs, usage, k) && |us| == |vs|
    requires forall i :: 0 <= i < |vs| ==> us[i].started == vs[i].started && us[i].needs == vs[i].needs
    requires forall i :: 0 <= i < |vs| && vs[i].started ==> us[i].worker == vs[i].worker
    ensures Accounted(us, usage, k)
  {
    forall w | w in usage {
      SameStartedLoad(vs, us, |vs|, w, k);
    }
  }

  lemma {:induction false} SameLoad(vs: seq<Vnode>, us: seq<Vnode>, decided: set<int>, n: nat, w: int, k: Kind)
    requires |us| == |vs| && n <= |vs|
    requires forall i :: 0 <= i < |vs| ==>
              us[i].started == vs[i].started && us[i].needs == vs[i].needs && us[i].worker == vs[i].worker
    ensures LoadUpTo(us, decided, n, w, k) == LoadUpTo(vs, decided, n, w, k)
    decreases n
  {
    if n > 0 {
      SameLoad(vs, us, decided, n - 1, w, k);
    }
  }

  lemma SameLoads(vs: seq<Vnode>, us: seq<Vnode>, decided: set<int>, capacity: map<int, Capacity>, usage: map<int, int>,
                  k: Kind)
    requires Accounted(vs, usage, k) && WithinCapacity(vs, decided, capacity, k) && |us| == |vs|
    requires forall i :: 0 <= i < |vs| ==>
              us[i].started == vs[i].started && us[i].needs == vs[i].needs && us[i].worker == vs[i].worker
    ensures Accounted(us, usage, k) && WithinCapacity(us, decided, capacity, k)
  {
    StartedSame(vs, us, usage, k);
    forall w | w in capacity {
      SameLoad(vs, us, decided, |vs|, w, k);
    }
  }

  lemma FullBudget(vs: seq<Vnode>, infos: map<int, Info>, capacity: map<int, Capacity>, usage: map<int, int>, k: Kind)
    requires infos.Keys == capacity.Keys && NO_WORKER !in capacity
    requires forall w :: w in capacity ==> Left(infos[w], k) == Has(capacity[w], k)
    requires Accounted(vs, usage, k)
    ensures Budget(vs, {}, infos, capacity, usage, k)
  {
    forall w | w in capacity
      ensures UsageOf(usage, w) == Load(vs, {}, w, k)
    {
      UsageIsLoad(vs, usage, w, k);
    }
  }

  // ----- placing, with other threads at work

  /** What an iteration of find_proper_workers has found before it: `us` are the vnodes with the workers found so far,
      for those of `passed`; of these, `counted` are the ones that have not stopped since. */
  datatype Search = Search(us: seq<Vnode>, passed: set<int>, counted: set<int>, seen: seq<Reading>, workers: seq<int>)

  ghost predicate Searching(s: Search, vs: seq<Vnode>, list: seq<nat>, n: nat, infos: map<int, Info>,
                            capacity: map<int, Capacity>, bound: map<int, Capacity>,
                            cpu: map<int, int>, gpu: map<int, int>)
    requires n <= |list|
  {
    && s.passed == Members(list[..n])
    && Placing(vs, s.us, s.passed, s.counted, infos, capacity, bound, cpu, gpu)
    && Followed(s, list, n, vs)
  }

  ghost function Found(s: Search, r: Reading, i: nat, w: int): Search
    requires i < |s.us|
  {
    Search(s.us[i := s.us[i].(worker := w)], s.passed + {i}, s.counted + {i}, s.seen + [r], s.workers + [w])
  }

  /** The vnodes that have stopped were passed as staying. */
  ghost predicate HaveStopped(seen: seq<Reading>, list: seq<nat>, vs: seq<Vnode>, stopped: set<int>)
    requires Readings(seen, list)
  {
    && Indices(list, |vs|)
    && forall j :: 0 <= j < |list| && list[j] in stopped ==> Stays(seen[j].vs[list[j]]) && !vs[list[j]].started
  }

  function WorkersOf(us: seq<Vnode>, list: seq<nat>): seq<int>
    requires Indices(list, |us|)
  {
    seq(|list|, j requires 0 <= j < |list| => us[list[j]].worker)
  }

  /** A vnode of the list waits; all of them have got workers, and nothing else has changed since the last reading. */
  ghost predicate IsPlacement(seen: seq<Reading>, list: seq<nat>, nodes: seq<int>, infos: map<int, Info>,
                              us: seq<Vnode>)
    requires (forall w :: w in nodes ==> w in infos) && Readings(seen, list)
  {
    && (exists j :: 0 <= j < |list| && seen[j].vs[list[j]].waiting)
    && OnlyWorkers(seen[|seen| - 1].vs, us, list) && Indices(list, |us|)
    && GoTo(seen, list, WorkersOf(us, list), |list|, nodes, infos)
  }

  ghost predicate OnlyWorkers(vs: seq<Vnode>, us: seq<Vnode>, list: seq<nat>) {
    && |us| == |vs|
    && (forall i :: 0 <= i < |vs| ==> us[i] == vs[i].(worker := us[i].worker))
    && (forall i :: 0 <= i < |vs| && i !in Members(list) ==> us[i] == vs[i])
  }

  /** The vnode that was looked at last does not run, and no worker has room for it, or no vnode of the list waits. */
  ghost predicate NoPlacement(seen: seq<Reading>, list: seq<nat>, nodes: seq<int>, infos: map<int, Info>) {
    && (forall w :: w in nodes ==> w in infos) && AreRead(seen, list)
    && (|| (seen != [] && StopsAt(seen, list, nodes, infos, |seen| - 1))
        || (|seen| == |list| && forall j :: 0 <= j < |list| ==> !seen[j].vs[list[j]].waiting))
  }

  /** The vnodes before vnode n get workers, and it does not. */
  ghost predicate StopsAt(seen: seq<Reading>, list: seq<nat>, nodes: seq<int>, infos: map<int, Info>, n: nat)
    requires AreRead(seen, list) && n < |seen| && forall w :: w in nodes ==> w in infos
  {
    exists ws: seq<int> :: |ws| == n && GoTo(seen, list, ws, n, nodes, infos) && NoRoom(seen, list, ws, n, nodes, infos)
  }

  ghost function LeftAfter(seen: seq<Reading>, list: seq<nat>, ws: seq<int>, infos: map<int, Info>): map<int, Info>
    requires Readings(seen, list) && |ws| == |list|
    decreases |list|
  {
    if list == [] then infos
    else LeftAfter(seen[1..], list[1..], ws[1..], LeftBy(seen[0].vs[list[0]], ws[0], infos))
  }

  /** The first n iterations. */
  ghost predicate Looked(s: Search, list: seq<nat>, n: nat, nodes: seq<int>, infos0: map<int, Info>,
                         infos: map<int, Info>, hasWaiting: bool)
    requires n <= |list|
  {
    && (forall w :: w in nodes ==> w in infos0) && Readings(s.seen, list[..n]) && |s.workers| == n
    && PlaceAmid(s.seen, list[..n], nodes, infos0) == Some(s.workers)
    && LeftAfter(s.seen, list[..n], s.workers, infos0) == infos
    && (hasWaiting <==> exists j :: 0 <= j < n && s.seen[j].vs[list[j]].waiting)
  }

  lemma PlaceOne(r: Reading, i: nat, nodes: seq<int>, infos: map<int, Info>)
    requires (forall w :: w in nodes ==> w in infos) && i < |r.vs|
    ensures var next := Next(r.vs[i], nodes, infos, r.cpuUsage, r.gpuUsage);
      if next.None? then PlaceAmid([r], [i], nodes, infos) == None else
        && PlaceAmid([r], [i], nodes, infos) == Some([next.value])
        && LeftAfter([r], [i], [next.value], infos) == LeftBy(r.vs[i], next.value, infos)
  {
    var next := Next(r.vs[i], nodes, infos, r.cpuUsage, r.gpuUsage);
    if next.Some? {
      assert [r][1..] == [] && [i][1..] == [] && [next.value][1..] == [];
      assert PlaceAmid([], [], nodes, LeftBy(r.vs[i], next.value, infos)) == Some([]);
      assert [next.value] + [] == [next.value];
    }
  }

  lemma {:induction false} PlaceOneMore(seen: seq<Reading>, list: seq<nat>, nodes: seq<int>, infos: map<int, Info>,
                                        ws: seq<int>, r: Reading, i: nat)
    requires (forall w :: w in nodes ==> w in infos) && Readings(seen, list) && i < |r.vs| && |ws| == |list|
    requires PlaceAmid(seen, list, nodes, infos) == Some(ws)
    ensures Readings(seen + [r], list + [i])
    ensures var left := LeftAfter(seen, list, ws, infos);
      && left.Keys == infos.Keys
      && var next := Next(r.vs[i], nodes, left, r.cpuUsage, r.gpuUsage);
         if next.None? then PlaceAmid(seen + [r], list + [i], nodes, infos) == None else
           && PlaceAmid(seen + [r], list + [i], nodes, infos) == Some(ws + [next.value])
           && LeftAfter(seen + [r], list + [i], ws + [next.value], infos) == LeftBy(r.vs[i], next.value, left)
    decreases |list|
  {
    if list == [] {
      assert seen + [r] == [r] && list + [i] == [i];
      PlaceOne(r, i, nodes, infos);
      assert forall w :: ws + [w] == [w];
    } else {
      assert (seen + [r])[1..] == seen[1..] + [r] && (list + [i])[1..] == list[1..] + [i];
      var v := seen[0].vs[list[0]];
      var first := LeftBy(v, ws[0], infos);
      var rest := PlaceAmid(seen[1..], list[1..], nodes, first);
      assert rest.Some? && ws == [ws[0]] + rest.value && ws[1..] == rest.value;
      PlaceOneMore(seen[1..], list[1..], nodes, first, ws[1..], r, i);
      var next := Next(r.vs[i], nodes, LeftAfter(seen, list, ws, infos), r.cpuUsage, r.gpuUsage);
      assert next.Some? ==> (ws + [next.value])[1..] == ws[1..] + [next.value];
      assert next.Some? ==> ws + [next.value] == [ws[0]] + (ws[1..] + [next.value]);
    }
  }

  lemma {:induction false} PlaceBefore(seen: seq<Reading>, list: seq<nat>, nodes: seq<int>, infos: map<int, Info>,
                                       r: Reading, i: nat)
    requires (forall w :: w in nodes ==> w in infos) && Readings(seen, list) && i < |r.vs|
    requires Readings(seen + [r], list + [i]) && PlaceAmid(seen + [r], list + [i], nodes, infos).Some?
    ensures PlaceAmid(seen, list, nodes, infos).Some? && |PlaceAmid(seen, list, nodes, infos).value| == |list|
    decreases |list|
  {
    if list != [] {
      assert (seen + [r])[1..] == seen[1..] + [r] && (list + [i])[1..] == list[1..] + [i];
      assert (seen + [r])[0] == seen[0] && (list + [i])[0] == list[0];
      var v := seen[0].vs[list[0]];
      var w := Next(v, nodes, infos, seen[0].cpuUsage, seen[0].gpuUsage).value;
      PlaceBefore(seen[1..], list[1..], nodes, LeftBy(v, w, infos), r, i);
    }
  }

  lemma {:induction false} GivenSame(seen: seq<Reading>, list: seq<nat>, ws: seq<int>, us: seq<int>, n: nat, w: int,
                                     r: Resource)
    requires AreRead(seen, list) && n <= |seen| && n <= |ws| && n <= |us| && ws[..n] == us[..n]
    ensures Given(seen, list, ws, n, w, r) == Given(seen, list, us, n, w, r)
    decreases n
  {
    if n > 0 {
      assert ws[..n - 1] == ws[..n][..n - 1] && us[..n - 1] == us[..n][..n - 1];
      assert ws[n - 1] == ws[..n][n - 1] && us[n - 1] == us[..n][n - 1];
      GivenSame(seen, list, ws, us, n - 1, w, r);
    }
  }

  lemma RoomSame(seen: seq<Reading>, list: seq<nat>, ws: seq<int>, us: seq<int>, j: nat, w: int, info: Info)
    requires AreRead(seen, list) && j < |seen| && j <= |ws| && j <= |us| && ws[..j] == us[..j]
    ensures HasRoom(seen, list, ws, j, w, info) <==> HasRoom(seen, list, us, j, w, info)
  {
    forall r
      ensures HasEnough(seen, list, ws, j, w, info, r) <==> HasEnough(seen, list, us, j, w, info, r)
    {
      GivenSame(seen, list, ws, us, j, w, r);
    }
  }

  lemma GoesSame(seen: seq<Reading>, list: seq<nat>, ws: seq<int>, us: seq<int>, j: nat, nodes: seq<int>,
                 infos: map<int, Info>)
    requires AreRead(seen, list) && j < |seen| && j < |ws| && j < |us| && ws[..j + 1] == us[..j + 1]
    requires (forall w :: w in nodes ==> w in infos) && GoesTo(seen, list, ws, j, nodes, infos)
    ensures GoesTo(seen, list, us, j, nodes, infos)
  {
    assert ws[..j] == ws[..j + 1][..j] && us[..j] == us[..j + 1][..j];
    assert ws[j] == ws[..j + 1][j] && us[j] == us[..j + 1][j];
    forall w | w in nodes
      ensures HasRoom(seen, list, ws, j, w, infos[w]) <==> HasRoom(seen, list, us, j, w, infos[w])
    {
      RoomSame(seen, list, ws, us, j, w, infos[w]);
    }
    if !Stays(seen[j].vs[list[j]]) {
      var i :| 0 <= i < |nodes| && nodes[i] == ws[j] && IsFirst(seen, list, ws, j, nodes, infos, i);
      assert IsFirst(seen, list, us, j, nodes, infos, i);
    }
  }

  /** One vnode more gets a worker. */
  lemma PlacedNext(seen: seq<Reading>, list: seq<nat>, nodes: seq<int>, infos: map<int, Info>, ws: seq<int>,
                   left: map<int, Info>, n: nat)
    requires AreRead(seen, list) && n < |seen| && |ws| == n && (forall w :: w in nodes ==> w in infos)
    requires GoTo(seen, list, ws, n, nodes, infos) && LeftIs(seen, list, ws, n, infos, left)
    ensures var v := seen[n].vs[list[n]];
      match Next(v, nodes, left, seen[n].cpuUsage, seen[n].gpuUsage)
      case Some(w) =>
        && GoTo(seen, list, ws + [w], n + 1, nodes, infos)
        && LeftIs(seen, list, ws + [w], n + 1, infos, LeftBy(v, w, left))
      case None => NoRoom(seen, list, ws, n, nodes, infos)
  {
    var v := seen[n].vs[list[n]];
    var next := Next(v, nodes, left, seen[n].cpuUsage, seen[n].gpuUsage);
    assert nodes[0..] == nodes;
    FirstFitIs(seen, list, ws, n, nodes, infos, left, 0);
    if next.Some? {
      var us := ws + [next.value];
      LeftNext(seen, list, ws, infos, left, n, next.value);
      forall j | 0 <= j < n + 1
        ensures GoesTo(seen, list, us, j, nodes, infos)
      {
        if j < n {
          assert ws[..j + 1] == us[..j + 1];
          GoesSame(seen, list, ws, us, j, nodes, infos);
        } else {
          GoesNext(seen, list, nodes, infos, ws, n, next.value);
        }
      }
    }
  }

  lemma GoesNext(seen: seq<Reading>, list: seq<nat>, nodes: seq<int>, infos: map<int, Info>, ws: seq<int>, n: nat,
                 w: int)
    requires AreRead(seen, list) && n < |seen| && |ws| == n && (forall w :: w in nodes ==> w in infos)
    requires if Stays(seen[n].vs[list[n]]) then w == seen[n].vs[list[n]].worker
             else exists i :: 0 <= i < |nodes| && nodes[i] == w && IsFirst(seen, list, ws, n, nodes, infos, i)
    ensures GoesTo(seen, list, ws + [w], n, nodes, infos)
  {
    var us := ws + [w];
    assert us[..n] == ws[..n];
    if !Stays(seen[n].vs[list[n]]) {
      var i :| 0 <= i < |nodes| && nodes[i] == w && IsFirst(seen, list, ws, n, nodes, infos, i);
      forall x | x in nodes
        ensures HasRoom(seen, list, ws, n, x, infos[x]) <==> HasRoom(seen, list, us, n, x, infos[x])
      {
        RoomSame(seen, list, ws, us, n, x, infos[x]);
      }
      assert IsFirst(seen, list, us, n, nodes, infos, i);
    }
  }

  lemma LeftNext(seen: seq<Reading>, list: seq<nat>, ws: seq<int>, infos: map<int, Info>, left: map<int, Info>, n: nat,
                 w: int)
    requires AreRead(seen, list) && n < |seen| && |ws| == n && LeftIs(seen, list, ws, n, infos, left)
    ensures LeftIs(seen, list, ws + [w], n + 1, infos, LeftBy(seen[n].vs[list[n]], w, left))
  {
    var v, us := seen[n].vs[list[n]], ws + [w];
    var left' := LeftBy(v, w, left);
    forall x, r | x in infos
      ensures Offered(left'[x], r) == Offered(infos[x], r) - Given(seen, list, us, n + 1, x, r)
    {
      GivenSame(seen, list, ws, us, n, x, r);
      assert Offered(left[x], r) == Offered(infos[x], r) - Given(seen, list, ws, n, x, r);
    }
  }

  /** The loops give what a placement is. */
  lemma {:induction false} PlaceMeans(seen: seq<Reading>, list: seq<nat>, nodes: seq<int>, infos: map<int, Info>,
                                      ws: seq<int>, n: nat)
    requires AreRead(seen, list) && n <= |seen| && |ws| == n && (forall w :: w in nodes ==> w in infos)
    requires Readings(seen[..n], list[..n]) && PlaceAmid(seen[..n], list[..n], nodes, infos) == Some(ws)
    ensures GoTo(seen, list, ws, n, nodes, infos)
    ensures LeftIs(seen, list, ws, n, infos, LeftAfter(seen[..n], list[..n], ws, infos))
    decreases n
  {
    if n > 0 {
      var m := n - 1;
      assert seen[..n] == seen[..m] + [seen[m]] && list[..n] == list[..m] + [list[m]];
      assert Readings(seen[..m], list[..m]);
      PlaceBefore(seen[..m], list[..m], nodes, infos, seen[m], list[m]);
      var before := PlaceAmid(seen[..m], list[..m], nodes, infos).value;
      PlaceMeans(seen, list, nodes, infos, before, m);
      PlaceOneMore(seen[..m], list[..m], nodes, infos, before, seen[m], list[m]);
      PlacedNext(seen, list, nodes, infos, before, LeftAfter(seen[..m], list[..m], before, infos), m);
    }
  }

  lemma LookedMore(s: Search, list: seq<nat>, n: nat, nodes: seq<int>, infos0: map<int, Info>,
                   infos: map<int, Info>, hasWaiting: bool, r: Reading)
    requires n < |list| && Looked(s, list, n, nodes, infos0, infos, hasWaiting) && list[n] < |r.vs| && list[n] < |s.us|
    requires forall w :: w in nodes ==> w in infos
    requires Next(r.vs[list[n]], nodes, infos, r.cpuUsage, r.gpuUsage).Some?
    ensures var v, w := r.vs[list[n]], Next(r.vs[list[n]], nodes, infos, r.cpuUsage, r.gpuUsage).value;
      Looked(Found(s, r, list[n], w), list, n + 1, nodes, infos0, LeftBy(v, w, infos), hasWaiting || v.waiting)
  {
    PlaceOneMore(s.seen, list[..n], nodes, infos0, s.workers, r, list[n]);
    assert list[..n + 1] == list[..n] + [list[n]];
    assert list[..n + 1][n] == list[n];
  }

  lemma LookedLast(s: Search, list: seq<nat>, n: nat, nodes: seq<int>, infos0: map<int, Info>, infos: map<int, Info>,
                   hasWaiting: bool, r: Reading)
    requires n < |list| && Looked(s, list, n, nodes, infos0, infos, hasWaiting) && list[n] < |r.vs|
    requires forall w :: w in nodes ==> w in infos
    requires Next(r.vs[list[n]], nodes, infos, r.cpuUsage, r.gpuUsage).None?
    ensures NoPlacement(s.seen + [r], list, nodes, infos0)
  {
    var seen := s.seen + [r];
    assert |s.seen| == |list[..n]| == n && seen[..n] == s.seen;
    forall j | 0 <= j < |seen|
      ensures list[j] < |seen[j].vs|
    {
      assert j < n ==> list[..n][j] == list[j];
    }
    PlaceMeans(seen, list, nodes, infos0, s.workers, n);
    PlacedNext(seen, list, nodes, infos0, s.workers, infos, n);
    assert StopsAt(seen, list, nodes, infos0, n);
  }

  /** What the vnodes that were passed have become. */
  ghost predicate Followed(s: Search, list: seq<nat>, n: nat, vs: seq<Vnode>)
    requires n <= |list|
  {
    && |s.seen| == |s.workers| == n && |s.us| == |vs|
    && forall j :: 0 <= j < n ==> FollowedOne(s, list[j], j, vs)
  }

  ghost predicate FollowedOne(s: Search, i: nat, j: nat, vs: seq<Vnode>)
    requires j < |s.seen| == |s.workers| && |s.us| == |vs|
  {
    && i < |s.seen[j].vs| && i < |vs| && s.us[i].worker == s.workers[j]
    && (vs[i].started || i !in s.counted ==> Stays(s.seen[j].vs[i]))
  }

  lemma MembersMore(list: seq<nat>, n: nat)
    requires Distinct(list) && n < |list|
    ensures Members(list[..n + 1]) == Members(list[..n]) + {list[n] as int}
    ensures (list[n] as int) !in Members(list[..n])
    ensures forall j :: 0 <= j < n ==> list[j] != list[n]
  {
    DistinctElements(list);
    assert list[..n + 1] == list[..n] + [list[n]];
    MembersOf(list[..n], list[n]);
    InMembers(list[..n], list[n]);
  }

  lemma {:induction false} MembersOf(list: seq<nat>, i: nat)
    ensures Members(list + [i]) == Members(list) + {i as int}
    decreases |list|
  {
    if list == [] {
      assert ([] + [i])[1..] == [];
    } else {
      assert (list + [i])[1..] == list[1..] + [i];
      MembersOf(list[1..], i);
    }
  }

  lemma {:induction false} AssignIs(vs: seq<Vnode>, us: seq<Vnode>, list: seq<nat>, ws: seq<int>)
    requires |us| == |vs| && |ws| == |list| && Indices(list, |vs|) && Distinct(list)
    requires forall i :: 0 <= i < |vs| ==> us[i] == vs[i].(worker := us[i].worker)
    requires forall i :: 0 <= i < |vs| && i !in Members(list) ==> us[i] == vs[i]
    requires forall j :: 0 <= j < |list| ==> us[list[j]].worker == ws[j]
    ensures Assign(vs, list, ws) == us
    decreases |list|
  {
    if list != [] {
      AssignIs(vs[list[0] := vs[list[0]].(worker := ws[0])], us, list[1..], ws[1..]);
    }
  }

  /** find_proper_workers after some iterations: `us` are the vnodes with the workers found so far, for those of
      `passed`; of these, `counted` are the ones that have not stopped since. */
  ghost predicate Placing(vs: seq<Vnode>, us: seq<Vnode>, passed: set<int>, counted: set<int>, infos: map<int, Info>,
                          capacity: map<int, Capacity>, bound: map<int, Capacity>,
                          cpu: map<int, int>, gpu: map<int, int>)
  {
    && Placed(vs, us, passed, counted, cpu)
    && Budget(us, counted, infos, capacity, cpu, Cpu) && Budget(us, counted, infos, capacity, gpu, Gpu)
    && WithinCapacity(us, counted, bound, Cpu) && WithinCapacity(us, counted, bound, Gpu)
  }

  ghost predicate Placed(vs: seq<Vnode>, us: seq<Vnode>, passed: set<int>, counted: set<int>, usage: map<int, int>) {
    && |us| == |vs| && counted <= passed
    && (forall i :: 0 <= i < |vs| ==> us[i] == vs[i].(worker := us[i].worker))
    && (forall i :: 0 <= i < |vs| && (i !in passed || vs[i].started) ==> us[i].worker == vs[i].worker)
    && (forall i :: i in passed ==> 0 <= i < |vs| && us[i].worker in usage && (vs[i].started ==> i in counted))
  }

  lemma PlacingStarts(vs: seq<Vnode>, infos: map<int, Info>, capacity: map<int, Capacity>, bound: map<int, Capacity>,
                      cpu: map<int, int>, gpu: map<int, int>)
    requires infos.Keys == capacity.Keys && NO_WORKER !in capacity
    requires forall w :: w in capacity ==> infos[w].cpu == capacity[w].cpu && infos[w].gpu == capacity[w].gpu
    requires Accounted(vs, cpu, Cpu) && Accounted(vs, gpu, Gpu)
    requires WithinCapacity(vs, {}, bound, Cpu) && WithinCapacity(vs, {}, bound, Gpu)
    ensures Placing(vs, vs, {}, {}, infos, capacity, bound, cpu, gpu)
  {
    FullBudget(vs, infos, capacity, cpu, Cpu);
    FullBudget(vs, infos, capacity, gpu, Gpu);
  }

  function Unbooked(usage: map<int, int>, v: Vnode, k: Kind): map<int, int> {
    if v.worker in usage then usage[v.worker := usage[v.worker] - Need(v, k)] else usage
  }

  lemma SearchingStop(s: Search, vs: seq<Vnode>, list: seq<nat>, n: nat, infos: map<int, Info>,
                      capacity: map<int, Capacity>, bound: map<int, Capacity>,
                      cpu: map<int, int>, gpu: map<int, int>, i: nat)
    requires n <= |list| && Searching(s, vs, list, n, infos, capacity, bound, cpu, gpu)
    requires i < |vs| && vs[i].started && vs[i].worker in cpu && vs[i].worker in gpu
    ensures Searching(s.(us := s.us[i := s.us[i].(started := false)], counted := s.counted - {i}),
                      vs[i := vs[i].(started := false)], list, n, infos, capacity, bound,
                      Unbooked(cpu, vs[i], Cpu), Unbooked(gpu, vs[i], Gpu))
  {
    PlacingStop(vs, s.us, s.passed, s.counted, infos, capacity, bound, cpu, gpu, i);
  }

  lemma SearchingWait(s: Search, vs: seq<Vnode>, list: seq<nat>, n: nat, infos: map<int, Info>,
                      capacity: map<int, Capacity>, bound: map<int, Capacity>,
                      cpu: map<int, int>, gpu: map<int, int>, i: nat,
                      waiting: bool)
    requires n <= |list| && Searching(s, vs, list, n, infos, capacity, bound, cpu, gpu) && i < |vs|
    ensures Searching(s.(us := s.us[i := s.us[i].(waiting := waiting)]), vs[i := vs[i].(waiting := waiting)], list, n,
                      infos, capacity, bound, cpu, gpu)
  {
    PlacingWait(vs, s.us, s.passed, s.counted, infos, capacity, bound, cpu, gpu, i, waiting);
  }

  lemma SearchingMore(s: Search, vs: seq<Vnode>, list: seq<nat>, n: nat, infos: map<int, Info>,
                      capacity: map<int, Capacity>, bound: map<int, Capacity>, cpu: map<int, int>, gpu: map<int, int>,
                      more: seq<Vnode>)
    requires n <= |list| && Searching(s, vs, list, n, infos, capacity, bound, cpu, gpu) && bound.Keys == capacity.Keys
    requires NO_WORKER !in capacity && forall v :: v in more ==> v.worker == NO_WORKER && !v.started
    ensures Searching(s.(us := s.us + more), vs + more, list, n, infos, capacity, bound, cpu, gpu)
  {
    PlacingMore(vs, s.us, s.passed, s.counted, infos, capacity, bound, cpu, gpu, more);
  }

  lemma SearchingNext(s: Search, vs: seq<Vnode>, list: seq<nat>, n: nat, infos: map<int, Info>,
                      capacity: map<int, Capacity>, bound: map<int, Capacity>, cpu: map<int, int>, gpu: map<int, int>,
                      nodes: seq<int>)
    requires n < |list| && Searching(s, vs, list, n, infos, capacity, bound, cpu, gpu) && AtLeast(bound, capacity)
    requires Distinct(list) && list[n] < |vs| && forall w :: w in nodes ==> w in infos && w in capacity && w in cpu
    requires vs[list[n]].started ==> vs[list[n]].worker != NO_WORKER && vs[list[n]].worker in cpu
    requires Next(vs[list[n]], nodes, infos, cpu, gpu).Some?
    ensures var i := list[n];
      var w := Next(vs[i], nodes, infos, cpu, gpu).value;
      Searching(Found(s, Reading(vs, cpu, gpu), i, w), vs, list, n + 1, LeftBy(vs[i], w, infos), capacity, bound,
                cpu, gpu)
  {
    var i := list[n];
    MembersMore(list, n);
    PlacingNext(vs, s.us, s.passed, s.counted, infos, capacity, bound, cpu, gpu, i, nodes);
    FollowedNext(s, vs, list, n, Reading(vs, cpu, gpu), Next(vs[i], nodes, infos, cpu, gpu).value);
  }

  lemma FollowedNext(s: Search, vs: seq<Vnode>, list: seq<nat>, n: nat, r: Reading, w: int)
    requires n < |list| && Followed(s, list, n, vs) && list[n] < |vs| && r.vs == vs
    requires (forall j :: 0 <= j < n ==> list[j] != list[n]) && (vs[list[n]].started ==> Stays(vs[list[n]]))
    ensures Followed(Found(s, r, list[n], w), list, n + 1, vs)
  {
    var s' := Found(s, r, list[n], w);
    forall j | 0 <= j < n + 1
      ensures FollowedOne(s', list[j], j, vs)
    {
      if j < n {
        assert FollowedOne(s, list[j], j, vs);
      }
    }
  }

  /** The outcome of a search. */
  ghost predicate IsOutcome(s: Search, vs: seq<Vnode>, list: seq<nat>, nodes: seq<int>, infos0: map<int, Info>) {
    && s.passed == Members(list) && s.counted <= s.passed
    && Indices(list, |vs|) && |s.workers| == |list| && Assign(vs, list, s.workers) == s.us
    && (forall w :: w in nodes ==> w in infos0) && s.seen != [] && s.seen[|s.seen| - 1].vs == vs
    && Readings(s.seen, list) && IsPlacement(s.seen, list, nodes, infos0, s.us)
    && HaveStopped(s.seen, list, s.us, s.passed - s.counted)
  }

  lemma SearchEnds(s: Search, vs: seq<Vnode>, list: seq<nat>, nodes: seq<int>, infos0: map<int, Info>,
                   infos: map<int, Info>, capacity: map<int, Capacity>, bound: map<int, Capacity>, cpu: map<int, int>,
                   gpu: map<int, int>)
    requires Searching(s, vs, list, |list|, infos, capacity, bound, cpu, gpu)
    requires Distinct(list) && Looked(s, list, |list|, nodes, infos0, infos, true)
    requires s.seen != [] && s.seen[|s.seen| - 1].vs == vs
    ensures IsOutcome(s, vs, list, nodes, infos0)
  {
    assert list[..|list|] == list && s.seen[..|list|] == s.seen;
    FollowedEnds(s, vs, list);
    AssignIs(vs, s.us, list, s.workers);
    PlaceMeans(s.seen, list, nodes, infos0, s.workers, |list|);
    assert WorkersOf(s.us, list) == s.workers;
  }

  lemma NothingWaits(s: Search, list: seq<nat>, nodes: seq<int>, infos0: map<int, Info>, infos: map<int, Info>)
    requires Looked(s, list, |list|, nodes, infos0, infos, false)
    ensures NoPlacement(s.seen, list, nodes, infos0)
  {
    assert list[..|list|] == list;
  }

  lemma FollowedEnds(s: Search, vs: seq<Vnode>, list: seq<nat>)
    requires Followed(s, list, |list|, vs) && s.passed == Members(list)
    requires |s.us| == |vs| && forall i :: 0 <= i < |vs| ==> s.us[i] == vs[i].(worker := s.us[i].worker)
    requires forall i :: 0 <= i < |vs| && i in s.passed && vs[i].started ==> i in s.counted
    ensures Readings(s.seen, list) && HaveStopped(s.seen, list, s.us, s.passed - s.counted)
    ensures forall j :: 0 <= j < |list| ==> s.us[list[j]].worker == s.workers[j]
  {
    forall j | 0 <= j < |list|
      ensures list[j] < |s.seen[j].vs| && list[j] < |vs| && s.us[list[j]].worker == s.workers[j]
      ensures list[j] !in s.counted ==> Stays(s.seen[j].vs[list[j]]) && !s.us[list[j]].started
    {
      assert FollowedOne(s, list[j], j, vs);
      InMembers(list, list[j]);
    }
  }

  /** A vnode stops meanwhile. */
  lemma PlacingStop(vs: seq<Vnode>, us: seq<Vnode>, passed: set<int>, counted: set<int>, infos: map<int, Info>,
                    capacity: map<int, Capacity>, bound: map<int, Capacity>,
                    cpu: map<int, int>, gpu: map<int, int>, i: nat)
    requires Placing(vs, us, passed, counted, infos, capacity, bound, cpu, gpu)
    requires i < |vs| && vs[i].started && vs[i].worker in cpu && vs[i].worker in gpu
    ensures Placing(vs[i := vs[i].(started := false)], us[i := us[i].(started := false)], passed, counted - {i}, infos,
                    capacity, bound, Unbooked(cpu, vs[i], Cpu), Unbooked(gpu, vs[i], Gpu))
  {
    BudgetStop(us, counted, infos, capacity, bound, cpu, Cpu, i);
    BudgetStop(us, counted, infos, capacity, bound, gpu, Gpu, i);
  }

  lemma PlacingWait(vs: seq<Vnode>, us: seq<Vnode>, passed: set<int>, counted: set<int>, infos: map<int, Info>,
                    capacity: map<int, Capacity>, bound: map<int, Capacity>,
                    cpu: map<int, int>, gpu: map<int, int>, i: nat,
                    waiting: bool)
    requires Placing(vs, us, passed, counted, infos, capacity, bound, cpu, gpu) && i < |vs|
    ensures Placing(vs[i := vs[i].(waiting := waiting)], us[i := us[i].(waiting := waiting)], passed, counted, infos,
                    capacity, bound, cpu, gpu)
  {
    var us' := us[i := us[i].(waiting := waiting)];
    forall w, k
      ensures Load(us', counted, w, k) == Load(us, counted, w, k)
    {
      SameLoad(us, us', counted, |us|, w, k);
    }
  }

  lemma PlacingMore(vs: seq<Vnode>, us: seq<Vnode>, passed: set<int>, counted: set<int>, infos: map<int, Info>,
                    capacity: map<int, Capacity>, bound: map<int, Capacity>, cpu: map<int, int>, gpu: map<int, int>,
                    more: seq<Vnode>)
    requires Placing(vs, us, passed, counted, infos, capacity, bound, cpu, gpu) && bound.Keys == capacity.Keys
    requires NO_WORKER !in capacity && forall v :: v in more ==> v.worker == NO_WORKER && !v.started
    ensures Placing(vs + more, us + more, passed, counted, infos, capacity, bound, cpu, gpu)
  {
    forall w, k | w in capacity
      ensures Load(us + more, counted, w, k) == Load(us, counted, w, k)
    {
      LoadExtend(us, more, counted, |us + more|, w, k);
    }
  }

  /** The next vnode of the list gets its worker. */
  lemma PlacingNext(vs: seq<Vnode>, us: seq<Vnode>, passed: set<int>, counted: set<int>, infos: map<int, Info>,
                    capacity: map<int, Capacity>, bound: map<int, Capacity>,
                    cpu: map<int, int>, gpu: map<int, int>, i: nat,
                    nodes: seq<int>)
    requires Placing(vs, us, passed, counted, infos, capacity, bound, cpu, gpu) && AtLeast(bound, capacity)
    requires i < |vs| && i !in passed && (forall w :: w in nodes ==> w in infos && w in capacity && w in cpu)
    requires vs[i].started ==> vs[i].worker != NO_WORKER && vs[i].worker in cpu
    requires Next(vs[i], nodes, infos, cpu, gpu).Some?
    ensures var w := Next(vs[i], nodes, infos, cpu, gpu).value;
      Placing(vs, us[i := us[i].(worker := w)], passed + {i}, counted + {i}, LeftBy(vs[i], w, infos), capacity, bound,
              cpu, gpu)
  {
    var v := vs[i];
    if v.started {
      assert us[i := us[i].(worker := v.worker)] == us;
      BudgetStay(us, counted, infos, capacity, bound, cpu, Cpu, i);
      BudgetStay(us, counted, infos, capacity, bound, gpu, Gpu, i);
    } else {
      FirstFitFits(v, nodes, infos, cpu, gpu);
      var w := Next(v, nodes, infos, cpu, gpu).value;
      BudgetStep(us, counted, infos, capacity, bound, cpu, Cpu, i, w);
      BudgetStep(us, counted, infos, capacity, bound, gpu, Gpu, i, w);
    }
  }

  /** The accounts are right, and the starts to come are within the bounds, raised by what the vnodes need that were
      passed as staying and have stopped. */
  ghost predicate StartsToCome(us: seq<Vnode>, passed: set<int>, stopped: set<int>, capacity: map<int, Capacity>,
                               bound: map<int, Capacity>, cpu: map<int, int>, gpu: map<int, int>) {
    && Accounted(us, cpu, Cpu) && Accounted(us, gpu, Gpu) && OnWorkers(us, passed, capacity, cpu)
    && WithinCapacity(us, passed, Raised(bound, us, stopped), Cpu)
    && WithinCapacity(us, passed, Raised(bound, us, stopped), Gpu)
    && AtLeast(Raised(bound, us, stopped), capacity)
    && OnlyByNeeds(us, passed, stopped, bound)
  }

  ghost predicate OnlyByNeeds(us: seq<Vnode>, passed: set<int>, stopped: set<int>, bound: map<int, Capacity>) {
    forall k ::
      && WithinCapacity(us, passed - stopped, bound, k)
      && forall w :: Load(us, passed, w, k) == Load(us, passed - stopped, w, k) + NeedsOf(us, stopped, w, k)
  }

  /** Writing the workers into the subtasks. */
  lemma PlacingEnds(vs: seq<Vnode>, us: seq<Vnode>, passed: set<int>, counted: set<int>, infos: map<int, Info>,
                    capacity: map<int, Capacity>, bound: map<int, Capacity>, cpu: map<int, int>, gpu: map<int, int>)
    requires Placing(vs, us, passed, counted, infos, capacity, bound, cpu, gpu) && OnWorkers(vs, {}, capacity, cpu)
    requires Accounted(vs, cpu, Cpu) && Accounted(vs, gpu, Gpu) && AtLeast(bound, capacity)
    ensures StartsToCome(us, passed, passed - counted, capacity, bound, cpu, gpu)
  {
    StartedSame(vs, us, cpu, Cpu);
    StartedSame(vs, us, gpu, Gpu);
    var stopped := passed - counted;
    assert counted + stopped == passed && passed - stopped == counted;
    forall k: Kind
      ensures WithinCapacity(us, passed, Raised(bound, us, stopped), k) && WithinCapacity(us, counted, bound, k)
      ensures forall w :: Load(us, passed, w, k) == Load(us, counted, w, k) + NeedsOf(us, stopped, w, k)
    {
      assert k == Cpu || k == Gpu;
      RaisedIsBound(us, counted, stopped, bound, k);
    }
  }

  lemma {:induction false} FewerDecided(vs: seq<Vnode>, decided: set<int>, n: nat, w: int, k: Kind)
    requires n <= |vs|
    ensures LoadUpTo(vs, {}, n, w, k) <= LoadUpTo(vs, decided, n, w, k)
    decreases n
  {
    if n > 0 {
      FewerDecided(vs, decided, n - 1, w, k);
    }
  }

  lemma AddedKeep(vs: seq<Vnode>, more: seq<Vnode>, decided: set<int>, capacity: map<int, Capacity>,
                  usage: map<int, int>, k: Kind)
    requires Accounted(vs, usage, k) && WithinCapacity(vs, decided, capacity, k) && NO_WORKER !in capacity
    requires forall v :: v in more ==> v.worker == NO_WORKER && !v.started
    requires NO_WORKER !in usage
    ensures Accounted(vs + more, usage, k) && WithinCapacity(vs + more, decided, capacity, k)
  {
    forall w | w in usage || w in capacity
      ensures Load(vs + more, {}, w, k) == Load(vs, {}, w, k)
      ensures Load(vs + more, decided, w, k) == Load(vs, decided, w, k)
    {
      LoadExtend(vs, more, {}, |vs + more|, w, k);
      LoadExtend(vs, more, decided, |vs + more|, w, k);
    }
    forall i | |vs| <= i < |vs + more|
      ensures !(vs + more)[i].started
    {
      assert (vs + more)[i] in more;
    }
  }
}
