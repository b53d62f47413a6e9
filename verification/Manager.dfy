/** `manage` of bin/p2p.cc: the connection manager over its task queue.

    The decisions of the SYNC_HASHSET case come from functions without a result in the source, so their
    outcome is a parameter. The shuffled address list and the clock are parameters too. */
module Manager {
  import opened Common
  import opened TaskQueue

  const N_CONN: nat := 8

  /** The manager's own queue, the addresses it is connected to and knows, and all the tasks that it has
      queued on each connection. */
  datatype ManagerState = ManagerState(
    tasks: multiset<Task>, connections: seq<string>, ips: set<string>, planned: seq<multiset<Task>>)

  /** What a SYNC_HASHSET task finds: the set is complete, or sets or filters have to be asked for. */
  datatype Sync = Reconciled | AskSets | AskFilters

  function Min(a: int, b: int): int { if a <= b then a else b }

  function Max(a: int, b: int): int { if a >= b then a else b }

  /** How many connections EXPAND_CONNECTION tries to add. */
  function Wanted(s: ManagerState): nat { Max(Min(N_CONN, |s.ips|) - |s.connections|, 0) }

  /** The addresses that EXPAND_CONNECTION avoids. */
  function Current(s: ManagerState, me: string): set<string> { (set c | c in s.connections) + {me} }

  // ---------------------------------------------------------------------------
  // Choosing addresses
  // ---------------------------------------------------------------------------

  /** The first listed address that is not current, or the length of the list. */
  function FirstFresh(ips: seq<string>, current: set<string>): (f: nat)
    ensures f <= |ips| && (f < |ips| ==> ips[f] !in current)
    ensures forall i :: 0 <= i < f ==> ips[i] in current
  {
    if ips == [] || ips[0] !in current then 0 else 1 + FirstFresh(ips[1..], current)
  }

  /** The addresses that one expansion connects to. The position in the list does not advance past a
      chosen address, so a fresh one is taken for every missing connection; with no fresh address the
      scan ends on the last one, which is taken once although it is current. */
  function Targets(ips: seq<string>, current: set<string>, wanted: nat): (r: seq<string>)
    ensures |r| <= wanted
  {
    var f := FirstFresh(ips, current);
    if wanted == 0 then []
    else if f < |ips| then (if ips[f] == "" then [] else seq(wanted, _ => ips[f]))
    else if ips != [] && ips[|ips| - 1] != "" then [ips[|ips| - 1]]
    else []
  }

  /** The loops of the EXPAND_CONNECTION case. */
  method ChooseTargets(ips: seq<string>, current: set<string>, wanted: nat) returns (targets: seq<string>)
    ensures targets == Targets(ips, current, wanted)
  {
    targets := [];
    var idx := 0;
    ghost var f := FirstFresh(ips, current);
    for n := 0 to wanted
      invariant idx == (if n == 0 then 0 else f)
      invariant targets == Targets(ips, current, n)
    {
      var newIp := "";
      while true
        invariant 0 <= idx <= f
        invariant newIp == if n == 0 && idx > 0 then ips[idx - 1] else ""
        decreases f - idx
      {
        if idx >= |ips| {
          break;
        }
        newIp := ips[idx];
        if newIp !in current {
          break;
        } else {
          idx := idx + 1;
        }
      }
      if |newIp| > 0 {
        targets := targets + [newIp];
      }
    }
  }

  /** Connections are wanted up to eight, and up to the number of known addresses. */
  lemma WantedIff(s: ManagerState)
    ensures |s.connections| + Wanted(s)
         == if |s.connections| >= 8 || |s.connections| >= |s.ips| then |s.connections|
            else if |s.ips| <= 8 then |s.ips| else 8
  {
  }

  /** If an address is known that is neither connected to nor the node's own, one turn makes all the connections
      wanted, to known addresses of that kind. */
  lemma ExpansionFills(s: ManagerState, me: string, shuffled: seq<string>, k: nat)
    requires exists ip :: ip in shuffled && ip !in s.connections && ip != me
    requires "" !in shuffled
    ensures var targets := Targets(shuffled, Current(s, me), Wanted(s));
      && |targets| == Wanted(s)
      && (k < |targets| ==> targets[k] in shuffled && targets[k] !in s.connections && targets[k] != me)
  {
    var ip :| ip in shuffled && ip !in s.connections && ip != me;
    var f := FirstFresh(shuffled, Current(s, me));
    var i :| 0 <= i < |shuffled| && shuffled[i] == ip;
    assert f <= i;
    assert shuffled[f] in shuffled;
  }

  /** All chosen addresses are new exactly if the list holds a new one, or nothing is chosen: no
      connection is wanted, no address is known, or the last one listed is empty. */
  lemma TargetsFreshIff(ips: seq<string>, current: set<string>, wanted: nat)
    ensures (forall t :: t in Targets(ips, current, wanted) ==> t !in current)
            <==> (exists ip :: ip in ips && ip !in current)
                 || wanted == 0 || ips == [] || ips[|ips| - 1] == ""
  {
    var f := FirstFresh(ips, current);
    var r := Targets(ips, current, wanted);
    if f < |ips| {
      assert ips[f] in ips;
    } else if r != [] {
      assert ips[|ips| - 1] in ips && r[0] in r;
    }
  }

  /** The chosen addresses are different exactly if at most one connection is wanted, no listed address is
      new, or the first new one is empty: otherwise the first new one is chosen for every connection. */
  lemma TargetsDistinctIff(ips: seq<string>, current: set<string>, wanted: nat)
    ensures Distinct(Targets(ips, current, wanted))
            <==> wanted <= 1 || (forall ip :: ip in ips ==> ip in current) || ips[FirstFresh(ips, current)] == ""
  {
    var f := FirstFresh(ips, current);
    var r := Targets(ips, current, wanted);
    if f < |ips| {
      assert ips[f] in ips;
      if wanted > 1 && ips[f] != "" {
        assert r[0] == r[1];
      }
    }
  }

  /** With two addresses known and no connection, the first one listed is connected to twice. */
  lemma ConnectsTwice(a: string, b: string, me: string)
    requires a != b && a != "" && a != me
    ensures var s := ManagerState(multiset{}, [], {a, b}, []);
      Targets([a, b], Current(s, me), Wanted(s)) == [a, a]
  {
    var s := ManagerState(multiset{}, [], {a, b}, []);
    assert |s.ips| == 2;
    assert FirstFresh([a, b], Current(s, me)) == 0;
  }

  /** A node that knows only its own address connects to itself. */
  lemma ConnectsToItself(me: string)
    requires me != ""
    ensures var s := ManagerState(multiset{}, [], {me}, []);
      Targets([me], Current(s, me), Wanted(s)) == [me]
  {
  }

  // ---------------------------------------------------------------------------
  // One iteration
  // ---------------------------------------------------------------------------

  function Replanned(task: Task, ms: nat, delay: nat): Task { task.(time := Seconds(ms + delay)) }

  /** One task more on every connection. */
  function PlannedOnAll(planned: seq<multiset<Task>>, task: Task): (r: seq<multiset<Task>>)
    ensures |r| == |planned|
  {
    seq(|planned|, k requires 0 <= k < |planned| => planned[k] + multiset{task})
  }

  /** What a SYNC_HASHSET task for `hash` asks of every connection. */
  function Request(sync: Sync, hash: Bytes): Task {
    Task(if sync.AskSets? then REQ_HASHSET else REQ_HASHSET_FILTER, hash, 0)
  }

  /** The manager's queue after the task taken from it has been handled. */
  function TasksAfter(tasks: multiset<Task>, task: Task, ms: nat, sync: Sync): multiset<Task> {
    match task.kind
    case SYNC_HASHSET => if sync.Reconciled? then tasks else tasks + multiset{Replanned(task, ms, 1000)}
    case REQ_IPS => tasks + multiset{Replanned(task, ms, 10000)}
    case EXPAND_CONNECTION => tasks + multiset{Replanned(task, ms, 20000)}
    case _ => tasks
  }

  /** The state after the task taken from the queue has been handled. */
  function AfterHandling(s: ManagerState, me: string, task: Task, ms: nat,
                         shuffled: seq<string>, sync: Sync): ManagerState
  {
    var s' := s.(tasks := TasksAfter(s.tasks, task, ms, sync));
    match task.kind
    case SYNC_HASHSET =>
      if sync.Reconciled? then s' else s'.(planned := PlannedOnAll(s.planned, Request(sync, task.data)))
    case REQ_IPS => s'.(planned := PlannedOnAll(s.planned, Task(REQ_IPS, [], 0)))
    case EXPAND_CONNECTION =>
      var targets := Targets(shuffled, Current(s, me), Wanted(s));
      s'.(connections := s.connections + targets, planned := s.planned + seq(|targets|, _ => multiset{}))
    case _ => s'
  }

  /** The fields of that state, case by case. */
  lemma AfterEach(s: ManagerState, me: string, task: Task, ms: nat, shuffled: seq<string>, sync: Sync)
    ensures var s' := AfterHandling(s, me, task, ms, shuffled, sync);
      match task.kind
      case SYNC_HASHSET =>
        if sync.Reconciled? then s' == s
        else s' == ManagerState(s.tasks + multiset{task.(time := Seconds(ms + 1000))}, s.connections, s.ips,
                                PlannedOnAll(s.planned, Request(sync, task.data)))
      case REQ_IPS =>
        s' == ManagerState(s.tasks + multiset{task.(time := Seconds(ms + 10000))}, s.connections, s.ips,
                           PlannedOnAll(s.planned, Task(REQ_IPS, [], 0)))
      case EXPAND_CONNECTION =>
        var targets := Targets(shuffled, Current(s, me), Wanted(s));
        s' == ManagerState(s.tasks + multiset{task.(time := Seconds(ms + 20000))}, s.connections + targets, s.ips,
                           s.planned + seq(|targets|, _ => multiset{}))
      case _ => s' == s
  {
    hide Targets, FirstFresh, Seconds, Current, Wanted, PlannedOnAll, Request;
  }

  class Manager {
    const gtd: GTD
    const me: string
    var connections: seq<string>
    var ips: set<string>
    var planned: seq<multiset<Task>>

    function State(): ManagerState
      reads this, gtd
    {
      ManagerState(gtd.q, connections, ips, planned)
    }

    /** The start of `manage`. */
    constructor (me: string, ips: set<string>, ms: nat)
      ensures fresh(gtd) && this.me == me
      ensures State() == ManagerState(Planned(ms), [], ips, [])
    {
      this.me, this.ips := me, ips;
      connections, planned := [], [];
      gtd := new GTD();
      new;
      gtd.AddDelayed(Task(REQ_IPS, [], 0), ms, 4000);
      gtd.AddDelayed(Task(EXPAND_CONNECTION, [], 0), ms, 1000);
    }

    /** The loops that queue a task on every connection. */
    method PlanOnAll(task: Task)
      modifies this`planned
      ensures planned == PlannedOnAll(old(planned), task)
    {
      var k := 0;
      while k < |planned|
        invariant 0 <= k <= |planned| == |old(planned)|
        invariant forall i :: 0 <= i < k ==> planned[i] == old(planned)[i] + multiset{task}
        invariant forall i :: k <= i < |planned| ==> planned[i] == old(planned)[i]
      {
        planned := planned[k := planned[k] + multiset{task}];
        k := k + 1;
      }
    }

    /** The loop that collects the addresses to avoid. */
    method Avoided() returns (currentIps: set<string>)
      ensures currentIps == Current(State(), me)
    {
      currentIps := {};
      var i := 0;
      while i < |connections|
        invariant 0 <= i <= |connections|
        invariant currentIps == set c | c in connections[..i]
      {
        assert connections[..i + 1] == connections[..i] + [connections[i]];
        currentIps := currentIps + {connections[i]};
        i := i + 1;
      }
      assert connections[..i] == connections;
      currentIps := currentIps + {me};
    }

    /** The EXPAND_CONNECTION case up to the next planning. */
    method Expand(shuffled: seq<string>)
      modifies this`connections, this`planned
      ensures var targets := Targets(shuffled, Current(old(State()), me), Wanted(old(State())));
        && connections == old(connections) + targets
        && planned == old(planned) + seq(|targets|, _ => multiset{})
    {
      hide Targets, FirstFresh, AfterHandling, Current;
      var desired := Min(N_CONN, |ips|);
      var nNew := Max(desired - |connections|, 0);
      var currentIps := Avoided();
      var targets := ChooseTargets(shuffled, currentIps, nNew);
      connections := connections + targets;
      planned := planned + seq(|targets|, _ => multiset{});
    }

    /** The switch in the loop of `manage`. */
    method Handle(task: Task, ms: nat, shuffled: seq<string>, sync: Sync)
      modifies this`connections, this`planned, gtd
      ensures State() == AfterHandling(old(State()), me, task, ms, shuffled, sync)
    {
      hide AfterHandling, TasksAfter, Targets, FirstFresh, Seconds, Current, Wanted, PlannedOnAll, Request;
      AfterEach(State(), me, task, ms, shuffled, sync);
      match task.kind {
        case SYNC_HASHSET =>
          if !sync.Reconciled? {
            PlanOnAll(Request(sync, task.data));
            gtd.AddDelayed(task, ms, 1000);
          }
        case REQ_IPS =>
          PlanOnAll(Task(REQ_IPS, [], 0));
          gtd.AddDelayed(task, ms, 10000);
        case EXPAND_CONNECTION =>
          Expand(shuffled);
          gtd.AddDelayed(task, ms, 20000);
        case _ =>
      }
    }

    /** One poll of the queue at `ms` and, if it delivers, one turn of the loop, done by `done`. */
    method Iterate(ms: nat, done: nat, shuffled: seq<string>, sync: Sync) returns (task: Option<Task>)
      requires ms <= done && Distinct(shuffled) && forall ip :: ip in shuffled <==> ip in ips
      modifies this`connections, this`planned, gtd
      ensures task.Some? ==> Transition(me, old(State()), Handled(task.value, ms, done, shuffled, sync), State())
      ensures task.None? ==> State() == old(State())
    {
      hide AfterHandling, IsTop, Due, Distinct;
      task := gtd.Poll(ms);
      if task.Some? {
        Handle(task.value, done, shuffled, sync);
      }
    }
  }

  // ---------------------------------------------------------------------------
  // Runs of the manager
  // ---------------------------------------------------------------------------

  function Planned(ms: nat): multiset<Task> {
    multiset{Task(REQ_IPS, [], Seconds(ms + 4000)), Task(EXPAND_CONNECTION, [], Seconds(ms + 1000))}
  }

  /** What happens between two boundaries: the console asks for a synchronisation, an address is
      learned, or a due task is taken at `ms` and handled by `done`. */
  datatype Happening =
    | SyncRequested
    | IpLearned(ip: string)
    | Handled(task: Task, ms: nat, done: nat, shuffled: seq<string>, sync: Sync)

  ghost predicate Transition(me: string, s: ManagerState, e: Happening, s': ManagerState) {
    match e
    case SyncRequested => s' == s.(tasks := s.tasks + multiset{Task(SYNC_HASHSET, [], 0)})
    case IpLearned(ip) => s' == s.(ips := s.ips + {ip})
    case Handled(task, ms, done, shuffled, sync) =>
      && IsTop(s.tasks, task) && Due(task, ms) && ms <= done
      && Distinct(shuffled) && (forall ip :: ip in shuffled <==> ip in s.ips)
      && s' == AfterHandling(s.(tasks := s.tasks - multiset{task}), me, task, done, shuffled, sync)
  }

  ghost predicate ManagerRun(me: string, start: nat, es: seq<Happening>, ss: seq<ManagerState>) {
    && |ss| == |es| + 1
    && ss[0].tasks == Planned(start) && ss[0].connections == [] && ss[0].planned == []
    && forall i :: 0 <= i < |es| ==> Transition(me, ss[i], es[i], ss[i + 1])
  }

  /** One REQ_IPS task, one EXPAND_CONNECTION task, and nothing else but synchronisation tasks. */
  ghost predicate Shape(tasks: multiset<Task>, r: Task, x: Task, rest: multiset<Task>) {
    && tasks == multiset{r, x} + rest && r.kind == REQ_IPS && x.kind == EXPAND_CONNECTION
    && forall t :: t in rest ==> t.kind == SYNC_HASHSET
  }

  /** Every connection has been asked for addresses, sets and filters at most. */
  ghost predicate AsksOnly(planned: seq<multiset<Task>>) {
    forall k, t :: 0 <= k < |planned| && t in planned[k] ==>
      (t.kind == REQ_IPS || t.kind == REQ_HASHSET || t.kind == REQ_HASHSET_FILTER) && t.time == 0
  }

  ghost predicate ConnectionsFit(s: ManagerState) {
    |s.planned| == |s.connections| <= N_CONN && AsksOnly(s.planned)
  }

  ghost predicate ManagerInvariant(s: ManagerState) {
    (exists r, x, rest :: Shape(s.tasks, r, x, rest)) && ConnectionsFit(s)
  }

  lemma TransitionKeepsInvariant(me: string, s: ManagerState, e: Happening, s': ManagerState)
    requires ManagerInvariant(s) && Transition(me, s, e, s')
    ensures ManagerInvariant(s')
  {
    hide IsTop, Due, FirstFresh, Targets, AfterHandling, ConnectionsFit;
    var r, x, rest :| Shape(s.tasks, r, x, rest);
    match e
    case SyncRequested =>
      assert Shape(s'.tasks, r, x, rest + multiset{Task(SYNC_HASHSET, [], 0)});
      SameConnections(s, s');
    case IpLearned(_) =>
      assert Shape(s'.tasks, r, x, rest);
      SameConnections(s, s');
    case Handled(task, ms, done, shuffled, sync) =>
      TopIsQueued(s.tasks, task);
      var r', x', rest' := HandlingKeepsShape(s.tasks, task, done, sync, r, x, rest);
      HandlingKeepsConnections(s, me, task, done, shuffled, sync);
  }

  lemma SameConnections(s: ManagerState, s': ManagerState)
    requires ConnectionsFit(s) && s'.connections == s.connections && s'.planned == s.planned
    ensures ConnectionsFit(s')
  {
  }

  lemma TopIsQueued(q: multiset<Task>, t: Task)
    requires IsTop(q, t)
    ensures t in q
  {
  }

  lemma ReplaceRequest(tasks: multiset<Task>, r: Task, x: Task, rest: multiset<Task>, r': Task)
    requires Shape(tasks, r, x, rest) && r'.kind == REQ_IPS
    ensures Shape(tasks - multiset{r} + multiset{r'}, r', x, rest)
  {
  }

  lemma ReplaceExpansion(tasks: multiset<Task>, r: Task, x: Task, rest: multiset<Task>, x': Task)
    requires Shape(tasks, r, x, rest) && x'.kind == EXPAND_CONNECTION
    ensures Shape(tasks - multiset{x} + multiset{x'}, r, x', rest)
  {
  }

  lemma ReplaceSync(tasks: multiset<Task>, r: Task, x: Task, rest: multiset<Task>, t: Task, more: multiset<Task>)
    requires Shape(tasks, r, x, rest) && t in rest && forall u :: u in more ==> u.kind == SYNC_HASHSET
    ensures Shape(tasks - multiset{t} + more, r, x, rest - multiset{t} + more)
  {
  }

  lemma HandlingKeepsShape(tasks: multiset<Task>, task: Task, ms: nat, sync: Sync,
                           r: Task, x: Task, rest: multiset<Task>)
    returns (r': Task, x': Task, rest': multiset<Task>)
    requires Shape(tasks, r, x, rest) && task in tasks
    ensures Shape(TasksAfter(tasks - multiset{task}, task, ms, sync), r', x', rest')
  {
    hide Seconds, Shape, Replanned;
    ShapeKinds(tasks, r, x, rest, task);
    ReplannedKind(task, ms, 10000);
    ReplannedKind(task, ms, 20000);
    ReplannedKind(task, ms, 1000);
    r', x', rest' := r, x, rest;
    if task == r {
      r' := Replanned(r, ms, 10000);
      ReplaceRequest(tasks, r, x, rest, r');
    } else if task == x {
      x' := Replanned(x, ms, 20000);
      ReplaceExpansion(tasks, r, x, rest, x');
    } else {
      var more := if sync.Reconciled? then multiset{} else multiset{Replanned(task, ms, 1000)};
      ReplaceSync(tasks, r, x, rest, task, more);
      assert TasksAfter(tasks - multiset{task}, task, ms, sync) == tasks - multiset{task} + more;
      rest' := rest - multiset{task} + more;
    }
  }

  lemma ReplannedKind(task: Task, ms: nat, delay: nat)
    ensures Replanned(task, ms, delay).kind == task.kind
  {
  }

  lemma PlanningAsksOnly(planned: seq<multiset<Task>>, task: Task)
    requires AsksOnly(planned) && task.time == 0
    requires task.kind == REQ_IPS || task.kind == REQ_HASHSET || task.kind == REQ_HASHSET_FILTER
    ensures AsksOnly(PlannedOnAll(planned, task))
  {
  }

  lemma HandlingKeepsConnections(s: ManagerState, me: string, task: Task, ms: nat, shuffled: seq<string>, sync: Sync)
    requires ConnectionsFit(s)
    ensures var taken := s.(tasks := s.tasks - multiset{task});
      && AfterHandling(taken, me, task, ms, shuffled, sync).tasks == TasksAfter(taken.tasks, task, ms, sync)
      && ConnectionsFit(AfterHandling(taken, me, task, ms, shuffled, sync))
  {
    hide FirstFresh, Targets, Current, Wanted, TasksAfter, PlannedOnAll;
    var taken := s.(tasks := s.tasks - multiset{task});
    WantedFits(taken, me, shuffled);
    if task.kind == SYNC_HASHSET {
      PlanningAsksOnly(s.planned, Request(sync, task.data));
    } else if task.kind == REQ_IPS {
      PlanningAsksOnly(s.planned, Task(REQ_IPS, [], 0));
    }
  }

  lemma WantedFits(s: ManagerState, me: string, shuffled: seq<string>)
    requires |s.connections| <= N_CONN
    ensures |s.connections + Targets(shuffled, Current(s, me), Wanted(s))| <= N_CONN
  {
    hide FirstFresh, Current;
  }

  /** The start and the requests, written out. */
  lemma PlansSpelledOut(ms: nat, hash: Bytes, planned: seq<multiset<Task>>, task: Task, k: nat)
    requires k < |planned|
    ensures Planned(ms) == multiset{Task(REQ_IPS, [], (ms + 4000) / 1000),
                                    Task(EXPAND_CONNECTION, [], (ms + 1000) / 1000)}
    ensures Request(AskSets, hash) == Task(REQ_HASHSET, hash, 0)
    ensures Request(AskFilters, hash) == Task(REQ_HASHSET_FILTER, hash, 0)
    ensures |PlannedOnAll(planned, task)| == |planned| && PlannedOnAll(planned, task)[k] == planned[k] + multiset{task}
  {
  }

  lemma ShapeKinds(tasks: multiset<Task>, r: Task, x: Task, rest: multiset<Task>, task: Task)
    requires Shape(tasks, r, x, rest) && task in tasks
    ensures r.kind == REQ_IPS && x.kind == EXPAND_CONNECTION
    ensures task == r || task == x || (task in rest && task.kind == SYNC_HASHSET)
  {
  }

  /** At every iteration boundary of every run exactly one REQ_IPS and one EXPAND_CONNECTION task are
      queued, and there are never more than N_CONN connections. */
  lemma {:induction false} ManagerSafe(me: string, start: nat, es: seq<Happening>, ss: seq<ManagerState>, i: nat)
    requires ManagerRun(me, start, es, ss) && i <= |es|
    ensures ManagerInvariant(ss[i])
  {
    hide Transition;
    if i == 0 {
      assert Shape(ss[0].tasks, Task(REQ_IPS, [], Seconds(start + 4000)),
                   Task(EXPAND_CONNECTION, [], Seconds(start + 1000)), multiset{});
    } else {
      ManagerSafe(me, start, es, ss, i - 1);
      TransitionKeepsInvariant(me, ss[i - 1], es[i - 1], ss[i]);
    }
  }

  /** `s'` has all that `s` has. */
  ghost predicate Grown(s: ManagerState, s': ManagerState) {
    && s.connections <= s'.connections && |s.planned| <= |s'.planned|
    && forall k :: 0 <= k < |s.planned| ==> s.planned[k] <= s'.planned[k]
  }

  lemma TransitionGrows(me: string, s: ManagerState, e: Happening, s': ManagerState)
    requires Transition(me, s, e, s')
    ensures Grown(s, s')
  {
    hide FirstFresh, Targets, Current, Wanted, TasksAfter, IsTop, Due, Distinct;
  }

  lemma GrownFurther(a: ManagerState, b: ManagerState, c: ManagerState)
    requires Grown(a, b) && Grown(b, c)
    ensures Grown(a, c)
  {
  }

  /** Connections, and the tasks queued on them, are only ever added. */
  lemma {:induction false} ConnectionsGrow(me: string, start: nat, es: seq<Happening>, ss: seq<ManagerState>,
                                           i: nat, j: nat)
    requires ManagerRun(me, start, es, ss) && i <= j <= |es|
    ensures Grown(ss[i], ss[j])
    decreases j
  {
    hide Transition;
    if i < j {
      ConnectionsGrow(me, start, es, ss, i, j - 1);
      TransitionGrows(me, ss[j - 1], es[j - 1], ss[j]);
      GrownFurther(ss[i], ss[j - 1], ss[j]);
    }
  }
}
