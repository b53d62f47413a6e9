/** The delayed priority queue of inc/gtd.h. */
module TaskQueue {
  import opened Common

  datatype TaskType =
    | SENDPRIORITY | SEND | HELLO | SYNC_UTXO | EXPAND_CONNECTION
    | REQ_IPS | REQ_HASHSET_FILTER | REQ_HASHSET | SYNC_HASHSET

  function Code(t: TaskType): nat {
    match t
    case SENDPRIORITY => 0
    case SEND => 1
    case HELLO => 2
    case SYNC_UTXO => 3
    case EXPAND_CONNECTION => 4
    case REQ_IPS => 5
    case REQ_HASHSET_FILTER => 6
    case REQ_HASHSET => 7
    case SYNC_HASHSET => 8
  }

  /** A task; `time` is in whole seconds, as `time_t` is. */
  datatype Task = Task(kind: TaskType, data: Bytes, time: int)

  /** `operator<`. */
  predicate Before(l: Task, r: Task) {
    if l.time == r.time then Code(l.kind) < Code(r.kind) else l.time < r.time
  }

  /** `operator>`. */
  predicate After(l: Task, r: Task) {
    if l.time == r.time then Code(l.kind) > Code(r.kind) else l.time > r.time
  }

  /** What a `priority_queue` ordered by `greater` may return from `top`: nothing queued precedes it. */
  predicate IsTop(q: multiset<Task>, t: Task) { t in q && forall u :: u in q ==> !Before(u, t) }

  /** The clock in milliseconds, cut to the seconds of `to_time_t`. */
  function Seconds(ms: nat): nat { ms / 1000 }

  predicate Due(t: Task, ms: nat) { t.time < Seconds(ms) }

  // ---------------------------------------------------------------------------
  // The order
  // ---------------------------------------------------------------------------

  /** The two operators are converse, and precedence is a strict weak order: what two tasks of the same
      time and type share is the only tie. */
  lemma OrderFacts(a: Task, b: Task, c: Task)
    ensures After(a, b) <==> Before(b, a)
    ensures !(Before(a, b) && Before(b, a))
    ensures Before(a, b) && Before(b, c) ==> Before(a, c)
    ensures !Before(a, b) && !Before(b, c) ==> !Before(a, c)
    ensures !Before(a, b) && !Before(b, a) <==> a.time == b.time && a.kind == b.kind
  {
    CodeInjective(a.kind, b.kind);
  }

  /** The types in the order of their declaration. */
  const KINDS: seq<TaskType> :=
    [SENDPRIORITY, SEND, HELLO, SYNC_UTXO, EXPAND_CONNECTION, REQ_IPS, REQ_HASHSET_FILTER, REQ_HASHSET, SYNC_HASHSET]

  /** Of two tasks of one time the one of the type declared first precedes; otherwise the earlier one. */
  lemma BeforeIff(l: Task, r: Task, i: nat, j: nat)
    requires i < 9 && j < 9 && l.kind == KINDS[i] && r.kind == KINDS[j]
    ensures Before(l, r) <==> l.time < r.time || (l.time == r.time && i < j)
  {
  }

  lemma CodeInjective(s: TaskType, t: TaskType)
    ensures Code(s) == Code(t) <==> s == t
  {
  }

  lemma {:induction false} TopExists(q: multiset<Task>)
    requires |q| > 0
    ensures exists t :: IsTop(q, t)
    decreases |q|
  {
    var x :| x in q;
    var rest := q - multiset{x};
    if |rest| == 0 {
      assert q == multiset{x};
      assert IsTop(q, x);
    } else {
      TopExists(rest);
      var m :| IsTop(rest, m);
      if Before(x, m) {
        forall u | u in q
          ensures !Before(u, x)
        {
          if u != x {
            assert u in rest;
          }
        }
        assert IsTop(q, x);
      } else {
        assert forall u :: u in q ==> u == x || u in rest;
        assert IsTop(q, m);
      }
    }
  }

  /** Testing only the head is exact: something queued is due exactly if the head is. */
  lemma HeadDecides(q: multiset<Task>, top: Task, ms: nat)
    requires IsTop(q, top)
    ensures (exists t :: t in q && Due(t, ms)) <==> Due(top, ms)
  {
    if t :| t in q && Due(t, ms) {
      assert !Before(t, top);
    }
  }

  /** A task is due from the full second after its time on. */
  lemma DueIff(t: Task, ms: nat)
    ensures Due(t, ms) <==> ms >= 1000 * (t.time + 1)
  {
  }

  /** A delayed task becomes due no later than one second after its delay is over. */
  lemma DueInTime(t: Task, ms: nat, delay: nat, later: nat)
    requires later >= ms + delay + 1000
    ensures Due(Queued(AddedLater(t, ms, delay)), later)
  {
  }

  /** With a clock that does not go back, a task that is due stays due. */
  lemma DueStays(t: Task, ms: nat, later: nat)
    requires Due(t, ms) && ms <= later
    ensures Due(t, later)
  {
  }

  // ---------------------------------------------------------------------------
  // Events
  // ---------------------------------------------------------------------------

  /** What happens to a queue, with the clock at that moment. */
  datatype Event =
    | Added(task: Task, ms: nat)
    | AddedLater(task: Task, ms: nat, delay: nat)
    | Delivered(task: Task, ms: nat)
    | Idle(ms: nat)

  /** The task that an adding event queues. */
  function Queued(e: Event): Task
    requires e.Added? || e.AddedLater?
  {
    if e.Added? then e.task.(time := 0) else e.task.(time := Seconds(e.ms + e.delay))
  }

  /** One event: adding, or one turn of the polling loop as `GTD.Poll` allows it. */
  ghost predicate Step(q: multiset<Task>, e: Event, q': multiset<Task>) {
    match e
    case Added(_, _) => q' == q + multiset{Queued(e)}
    case AddedLater(_, _, _) => q' == q + multiset{Queued(e)}
    case Delivered(t, ms) => IsTop(q, t) && Due(t, ms) && q' == q - multiset{t}
    case Idle(ms) => q' == q && !exists t :: t in q && Due(t, ms)
  }

  // ---------------------------------------------------------------------------
  // The class
  // ---------------------------------------------------------------------------

  class GTD {
    var q: multiset<Task>

    constructor ()
      ensures q == multiset{}
    {
      q := multiset{};
    }

    method Add(task: Task)
      modifies this
      ensures q == old(q) + multiset{task.(time := 0)}
    {
      q := q + multiset{task.(time := 0)};
    }

    method AddDelayed(task: Task, ms: nat, delay: nat)
      modifies this
      ensures q == old(q) + multiset{task.(time := Seconds(ms + delay))}
    {
      q := q + multiset{task.(time := Seconds(ms + delay))};
    }

    /** One turn of the polling loop, at clock `ms`: the head if it is due, else nothing. It delivers
        exactly if anything at all is due. */
    method Poll(ms: nat) returns (r: Option<Task>)
      modifies this
      ensures r.Some? <==> exists t :: t in old(q) && Due(t, ms)
      ensures Step(old(q), if r.Some? then Delivered(r.value, ms) else Idle(ms), q)
    {
      if |q| != 0 {
        TopExists(q);
        var task :| IsTop(q, task);
        HeadDecides(q, task, ms);
        if task.time < Seconds(ms) {
          q := q - multiset{task};
          return Some(task);
        }
      }
      r := None;
    }
  }

  // ---------------------------------------------------------------------------
  // Runs of one queue
  // ---------------------------------------------------------------------------

  /** `qs[i]` is the queue before event `i`; the clock never goes back. */
  ghost predicate IsRun(events: seq<Event>, qs: seq<multiset<Task>>) {
    && |qs| == |events| + 1
    && (forall i :: 0 <= i < |events| ==> Step(qs[i], events[i], qs[i + 1]))
    && (forall i, j :: 0 <= i <= j < |events| ==> events[i].ms <= events[j].ms)
  }

  function AddedBy(e: Event): multiset<Task> {
    if e.Added? || e.AddedLater? then multiset{Queued(e)} else multiset{}
  }

  function DeliveredBy(e: Event): multiset<Task> { if e.Delivered? then multiset{e.task} else multiset{} }

  function AddedTasks(events: seq<Event>): multiset<Task> {
    if events == [] then multiset{} else AddedTasks(events[..|events| - 1]) + AddedBy(events[|events| - 1])
  }

  function DeliveredTasks(events: seq<Event>): multiset<Task> {
    if events == [] then multiset{} else DeliveredTasks(events[..|events| - 1]) + DeliveredBy(events[|events| - 1])
  }

  lemma StepConserves(q: multiset<Task>, e: Event, q': multiset<Task>)
    requires Step(q, e, q')
    ensures q + AddedBy(e) == DeliveredBy(e) + q'
  {
  }

  /** Nothing is lost or doubled: what was queued at first and added is what was delivered and is queued. */
  lemma {:induction false} TasksConserved(events: seq<Event>, qs: seq<multiset<Task>>)
    requires IsRun(events, qs)
    ensures qs[0] + AddedTasks(events) == DeliveredTasks(events) + qs[|events|]
  {
    if events != [] {
      var n := |events| - 1;
      assert IsRun(events[..n], qs[..n + 1]);
      TasksConserved(events[..n], qs[..n + 1]);
      StepConserves(qs[n], events[n], qs[n + 1]);
      Telescopes(qs[0], AddedTasks(events[..n]), DeliveredTasks(events[..n]), qs[n],
                 AddedBy(events[n]), DeliveredBy(events[n]), qs[n + 1]);
    }
  }

  lemma Telescopes(first: multiset<Task>, added: multiset<Task>, delivered: multiset<Task>, mid: multiset<Task>,
                   a: multiset<Task>, d: multiset<Task>, last: multiset<Task>)
    requires first + added == delivered + mid && mid + a == d + last
    ensures first + (added + a) == (delivered + d) + last
  {
    assert first + (added + a) == (first + added) + a == (delivered + mid) + a == delivered + (mid + a);
  }

  /** Between two moments without additions the queue only shrinks. */
  lemma {:induction false} OnlyShrinks(events: seq<Event>, qs: seq<multiset<Task>>, i: nat, j: nat)
    requires IsRun(events, qs) && i <= j <= |events|
    requires forall k :: i <= k < j ==> events[k].Delivered? || events[k].Idle?
    ensures qs[j] <= qs[i]
    decreases j
  {
    if i < j {
      OnlyShrinks(events, qs, i, j - 1);
      assert Step(qs[j - 1], events[j - 1], qs[j]);
    }
  }

  /** Without additions in between, tasks are delivered in order. */
  lemma DeliveredInOrder(events: seq<Event>, qs: seq<multiset<Task>>, i: nat, j: nat)
    requires IsRun(events, qs) && i < j < |events| && events[i].Delivered? && events[j].Delivered?
    requires forall k :: i <= k < j ==> events[k].Delivered? || events[k].Idle?
    ensures !Before(events[j].task, events[i].task)
  {
    OnlyShrinks(events, qs, i, j);
    assert Step(qs[j], events[j], qs[j + 1]) && Step(qs[i], events[i], qs[i + 1]);
    assert events[j].task in qs[i];
  }

  /** A delay is honoured to the millisecond: no task is delivered before its delay is over. */
  lemma DelayHonoured(events: seq<Event>, qs: seq<multiset<Task>>, i: nat, j: nat)
    requires IsRun(events, qs) && i < |events| && j < |events|
    requires events[i].AddedLater? && events[j].Delivered? && events[j].task == Queued(events[i])
    ensures events[j].ms > events[i].ms + events[i].delay
  {
    assert Step(qs[j], events[j], qs[j + 1]);
  }

  /** From the first poll that finds a task due until its delivery, it stays queued, no poll is idle,
      and nothing delivered comes after it in the order. */
  lemma {:induction false} NoneOvertakes(events: seq<Event>, qs: seq<multiset<Task>>, i: nat, j: nat, t: Task)
    requires IsRun(events, qs) && i <= j < |events|
    requires t in qs[i] && Due(t, events[i].ms)
    requires forall k :: i <= k <= j && events[k].Delivered? ==> events[k].task != t
    ensures t in qs[j + 1] && !events[j].Idle?
    ensures events[j].Delivered? ==> !Before(t, events[j].task)
    decreases j
  {
    if i < j {
      NoneOvertakes(events, qs, i, j - 1, t);
    }
    assert Step(qs[j], events[j], qs[j + 1]);
    DueStays(t, events[i].ms, events[j].ms);
  }

  /** No task is delivered while one of the same time and of a type declared before is queued: no SEND in front
      of a SENDPRIORITY, nothing else in front of a HELLO but these. */
  lemma FirstKindFirst(events: seq<Event>, qs: seq<multiset<Task>>, e: nat, t: Task, i: nat, j: nat)
    requires IsRun(events, qs) && e < |events| && events[e].Delivered? && t in qs[e]
    requires i < j < 9 && t.kind == KINDS[i] && events[e].task.kind == KINDS[j]
    ensures t.time > events[e].task.time
  {
    assert Step(qs[e], events[e], qs[e + 1]);
    BeforeIff(t, events[e].task, i, j);
  }
}
