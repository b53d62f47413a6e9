/** Flooding of text messages in bin/p2p.cc: `read_lines`, the SEND case of `manage_connection` and the
    TEXT case of `serve`, for nodes with fixed connections and reliable delivery. */
module Gossip {
  import opened Common
  import opened Merkle
  import opened TaskQueue

  // ---------------------------------------------------------------------------
  // One node
  // ---------------------------------------------------------------------------

  /** The effect of serving `msg` on what a node has seen and on the queues of its connections. */
  ghost predicate Served(h: Hash, seen: set<Bytes>, queues: seq<multiset<Task>>, msg: Bytes,
                         seen': set<Bytes>, queues': seq<multiset<Task>>) {
    && seen' == seen + {h(msg)} && |queues'| == |queues|
    && forall k :: 0 <= k < |queues| ==>
         queues'[k] == if h(msg) in seen then queues[k] else queues[k] + multiset{Task(SEND, msg, 0)}
  }

  class Server {
    const h: Hash
    var seen: set<Bytes>
    var queues: seq<multiset<Task>>

    constructor (h: Hash, degree: nat)
      ensures this.h == h && seen == {} && queues == seq(degree, _ => multiset{})
    {
      this.h := h;
      seen := {};
      queues := seq(degree, _ => multiset{});
    }

    /** The loop that plans one SEND on every connection. */
    method SendAll(msg: Bytes)
      modifies this`queues
      ensures |queues| == |old(queues)|
      ensures forall k :: 0 <= k < |queues| ==> queues[k] == old(queues)[k] + multiset{Task(SEND, msg, 0)}
    {
      var k := 0;
      while k < |queues|
        invariant 0 <= k <= |queues| == |old(queues)|
        invariant forall i :: 0 <= i < k ==> queues[i] == old(queues)[i] + multiset{Task(SEND, msg, 0)}
        invariant forall i :: k <= i < |queues| ==> queues[i] == old(queues)[i]
      {
        queues := queues[k := queues[k] + multiset{Task(SEND, msg, 0)}];
        k := k + 1;
      }
    }

    /** The TEXT case of `serve`: a message is forwarded on every connection the first time its hash is
        seen, and never again. */
    method ServeText(msg: Bytes)
      modifies this
      ensures Served(h, old(seen), old(queues), msg, seen, queues)
    {
      var msgHash := h(msg);
      if msgHash !in seen {
        seen := seen + {msgHash};
        SendAll(msg);
      }
    }
  }

  // ---------------------------------------------------------------------------
  // The network
  // ---------------------------------------------------------------------------

  /** Node `n` is connected to the nodes `graph[n]`, one entry a connection. */
  type Graph = seq<seq<nat>>

  predicate Closed(graph: Graph) {
    forall n, k :: 0 <= n < |graph| && 0 <= k < |graph[n]| ==> graph[n][k] < |graph|
  }

  /** A message queued at node `from` for its connection number `slot`. */
  datatype Packet = Packet(from: nat, slot: nat, msg: Bytes)

  predicate Routed(graph: Graph, p: Packet) { p.from < |graph| && p.slot < |graph[p.from]| }

  function Dest(graph: Graph, p: Packet): nat
    requires Routed(graph, p)
  {
    graph[p.from][p.slot]
  }

  datatype Net = Net(seen: seq<set<Bytes>>, flight: multiset<Packet>)

  predicate WellFormed(graph: Graph, s: Net) {
    && Closed(graph) && |s.seen| == |graph|
    && forall p :: p in s.flight ==> Routed(graph, p)
  }

  /** One SEND on every connection of `n`, as a list and as a multiset. */
  function SendList(n: nat, degree: nat, msg: Bytes): (r: seq<Packet>)
    ensures |r| == degree
  {
    seq(degree, k requires 0 <= k < degree => Packet(n, k, msg))
  }

  function Sends(graph: Graph, n: nat, msg: Bytes): multiset<Packet>
    requires n < |graph|
  {
    multiset(SendList(n, |graph[n]|, msg))
  }

  /** `Say`: a line typed at node `n`. `Deliver`: a queued message reaches the other end and is served. */
  datatype Act = Say(n: nat, msg: Bytes) | Deliver(p: Packet)

  predicate Enabled(graph: Graph, s: Net, a: Act) {
    match a
    case Say(n, _) => n < |graph|
    case Deliver(p) => p in s.flight
  }

  function After(graph: Graph, h: Hash, s: Net, a: Act): (s': Net)
    requires WellFormed(graph, s) && Enabled(graph, s, a)
  {
    match a
    case Say(n, msg) => s.(flight := s.flight + Sends(graph, n, msg))
    case Deliver(p) =>
      var d := Dest(graph, p);
      var rest := s.flight - multiset{p};
      if h(p.msg) in s.seen[d] then s.(flight := rest)
      else Net(s.seen[d := s.seen[d] + {h(p.msg)}], rest + Sends(graph, d, p.msg))
  }

  /** A delivery that makes its destination forward the message. */
  predicate Forwards(graph: Graph, h: Hash, s: Net, a: Act, n: nat, g: Bytes)
    requires WellFormed(graph, s) && Enabled(graph, s, a)
  {
    a.Deliver? && Dest(graph, a.p) == n && h(a.p.msg) == g && g !in s.seen[n]
  }

  lemma SendsFacts(graph: Graph, n: nat, msg: Bytes, p: Packet)
    requires n < |graph|
    ensures p in Sends(graph, n, msg) <==> p.from == n && p.slot < |graph[n]| && p.msg == msg
    ensures |Sends(graph, n, msg)| == |graph[n]|
  {
    var l := SendList(n, |graph[n]|, msg);
    if p.from == n && p.slot < |graph[n]| && p.msg == msg {
      assert l[p.slot] == p;
    }
  }

  lemma AfterWellFormed(graph: Graph, h: Hash, s: Net, a: Act)
    requires WellFormed(graph, s) && Enabled(graph, s, a)
    ensures WellFormed(graph, After(graph, h, s, a))
    ensures forall n :: 0 <= n < |graph| ==> s.seen[n] <= After(graph, h, s, a).seen[n]
  {
    hide Sends;
    var s' := After(graph, h, s, a);
    forall p | p in s'.flight
      ensures Routed(graph, p)
    {
      if a.Say? {
        SendsFacts(graph, a.n, a.msg, p);
      } else {
        SendsFacts(graph, Dest(graph, a.p), a.p.msg, p);
      }
    }
  }

  // ---------------------------------------------------------------------------
  // A server is a node of the network
  // ---------------------------------------------------------------------------

  /** The queues of a server at node `n` hold the SEND tasks of the messages in flight from there. */
  ghost predicate Represents(graph: Graph, flight: multiset<Packet>, n: nat, queues: seq<multiset<Task>>) {
    && n < |graph| && |queues| == |graph[n]|
    && forall k, msg :: 0 <= k < |queues| ==> queues[k][Task(SEND, msg, 0)] == flight[Packet(n, k, msg)]
  }

  lemma {:induction false} SendListCount(n: nat, degree: nat, msg: Bytes, p: Packet)
    ensures multiset(SendList(n, degree, msg))[p] == if p.from == n && p.slot < degree && p.msg == msg then 1 else 0
  {
    if degree > 0 {
      SendListCount(n, degree - 1, msg, p);
      assert SendList(n, degree, msg) == SendList(n, degree - 1, msg) + [Packet(n, degree - 1, msg)];
    }
  }

  /** `ServeText` at the destination, once the sender's queue has given the message up, is the delivery
      of the network model; it leaves the queues of every other node alone. */
  lemma ServingIsDelivery(graph: Graph, h: Hash, s: Net, p: Packet, n: nat, queues: seq<multiset<Task>>,
                          seen': set<Bytes>, queues': seq<multiset<Task>>)
    requires WellFormed(graph, s) && p in s.flight && Represents(graph, s.flight - multiset{p}, n, queues)
    requires if n == Dest(graph, p) then Served(h, s.seen[n], queues, p.msg, seen', queues')
             else seen' == s.seen[n] && queues' == queues
    ensures var s' := After(graph, h, s, Deliver(p));
      seen' == s'.seen[n] && Represents(graph, s'.flight, n, queues')
  {
    var d := Dest(graph, p);
    var s' := After(graph, h, s, Deliver(p));
    forall k, msg | 0 <= k < |queues'|
      ensures queues'[k][Task(SEND, msg, 0)] == s'.flight[Packet(n, k, msg)]
    {
      SendListCount(d, |graph[d]|, p.msg, Packet(n, k, msg));
      assert queues[k][Task(SEND, msg, 0)] == (s.flight - multiset{p})[Packet(n, k, msg)];
    }
  }

  /** `SendAll` at the node where a line is typed is the `Say` step of the network model, for every node's
      queues. */
  lemma TypingIsSaying(graph: Graph, h: Hash, s: Net, typist: nat, msg: Bytes, n: nat, queues: seq<multiset<Task>>,
                       queues': seq<multiset<Task>>)
    requires WellFormed(graph, s) && typist < |graph| && Represents(graph, s.flight, n, queues)
    requires if n == typist
             then |queues'| == |queues|
               && forall k :: 0 <= k < |queues| ==> queues'[k] == queues[k] + multiset{Task(SEND, msg, 0)}
             else queues' == queues
    ensures var s' := After(graph, h, s, Say(typist, msg));
      s'.seen == s.seen && Represents(graph, s'.flight, n, queues')
  {
    var s' := After(graph, h, s, Say(typist, msg));
    forall k, m | 0 <= k < |queues'|
      ensures queues'[k][Task(SEND, m, 0)] == s'.flight[Packet(n, k, m)]
    {
      SendListCount(typist, |graph[typist]|, msg, Packet(n, k, m));
    }
  }

  // ---------------------------------------------------------------------------
  // Termination
  // ---------------------------------------------------------------------------

  /** For the first `n` nodes: what forwarding every hash of `u` they have not seen would still send. */
  function Owed(graph: Graph, seen: seq<set<Bytes>>, u: set<Bytes>, n: nat): nat
    requires n <= |graph| == |seen|
  {
    if n == 0 then 0 else Owed(graph, seen, u, n - 1) + |u - seen[n - 1]| * |graph[n - 1]|
  }

  /** Messages in flight plus messages still owed. */
  function Potential(graph: Graph, s: Net, u: set<Bytes>): nat
    requires |s.seen| == |graph|
  {
    |s.flight| + Owed(graph, s.seen, u, |graph|)
  }

  predicate HashesIn(h: Hash, s: Net, u: set<Bytes>) { forall p :: p in s.flight ==> h(p.msg) in u }

  lemma {:induction false} OwedAfter(graph: Graph, seen: seq<set<Bytes>>, u: set<Bytes>, d: nat, g: Bytes, n: nat)
    requires n <= |graph| == |seen| && d < |graph| && g in u && g !in seen[d]
    ensures Owed(graph, seen, u, n) == Owed(graph, seen[d := seen[d] + {g}], u, n) + (if d < n then |graph[d]| else 0)
  {
    if n > 0 {
      OwedAfter(graph, seen, u, d, g, n - 1);
      if d == n - 1 {
        var more := seen[d] + {g};
        assert u - seen[d] == (u - more) + {g};
        MulSucc(|u - more|, |graph[d]|);
      }
    }
  }

  lemma MulSucc(a: nat, b: nat)
    ensures (a + 1) * b == a * b + b
  {
  }

  /** Every delivery lowers the potential by exactly one, whether it forwards or not. */
  lemma DeliveryCostsOne(graph: Graph, h: Hash, s: Net, p: Packet, u: set<Bytes>)
    requires WellFormed(graph, s) && p in s.flight && HashesIn(h, s, u)
    ensures var s' := After(graph, h, s, Deliver(p));
      |s'.seen| == |graph| && HashesIn(h, s', u) && Potential(graph, s', u) == Potential(graph, s, u) - 1
  {
    hide Sends, Owed;
    var s' := After(graph, h, s, Deliver(p));
    var d := Dest(graph, p);
    forall x | x in s'.flight
      ensures h(x.msg) in u
    {
      SendsFacts(graph, d, p.msg, x);
    }
    SendsFacts(graph, d, p.msg, p);
    if h(p.msg) !in s.seen[d] {
      OwedAfter(graph, s.seen, u, d, h(p.msg), |graph|);
    }
  }

  /** `ss` are the states of a run that performs `acts`. */
  ghost predicate IsRun(graph: Graph, h: Hash, acts: seq<Act>, ss: seq<Net>) {
    && |ss| == |acts| + 1
    && (forall i :: 0 <= i < |ss| ==> WellFormed(graph, ss[i]))
    && (forall i :: 0 <= i < |acts| ==> Enabled(graph, ss[i], acts[i]) && ss[i + 1] == After(graph, h, ss[i], acts[i]))
  }

  /** Every run of deliveries ends: its length is exactly the potential it uses up, whatever the order,
      and so never more than the potential it starts from. */
  lemma {:induction false} DeliveriesTerminate(graph: Graph, h: Hash, acts: seq<Act>, ss: seq<Net>, u: set<Bytes>)
    requires IsRun(graph, h, acts, ss) && HashesIn(h, ss[0], u)
    requires forall i :: 0 <= i < |acts| ==> acts[i].Deliver?
    ensures |acts| == Potential(graph, ss[0], u) - Potential(graph, ss[|acts|], u)
    ensures |acts| <= Potential(graph, ss[0], u) && HashesIn(h, ss[|acts|], u)
    decreases |acts|
  {
    hide After, Potential, WellFormed, HashesIn;
    if acts != [] {
      var n := |acts| - 1;
      assert IsRun(graph, h, acts[..n], ss[..n + 1]);
      DeliveriesTerminate(graph, h, acts[..n], ss[..n + 1], u);
      assert Enabled(graph, ss[n], acts[n]);
      DeliveryCostsOne(graph, h, ss[n], acts[n].p, u);
    }
  }

  // ---------------------------------------------------------------------------
  // At most one forward
  // ---------------------------------------------------------------------------

  lemma {:induction false} SeenGrows(graph: Graph, h: Hash, acts: seq<Act>, ss: seq<Net>, i: nat, j: nat, n: nat)
    requires IsRun(graph, h, acts, ss) && i <= j <= |acts| && n < |graph|
    ensures |ss[i].seen| == |ss[j].seen| == |graph| && ss[i].seen[n] <= ss[j].seen[n]
    decreases j
  {
    hide After;
    assert WellFormed(graph, ss[i]) && WellFormed(graph, ss[j]);
    if i < j {
      SeenGrows(graph, h, acts, ss, i, j - 1, n);
      AfterWellFormed(graph, h, ss[j - 1], acts[j - 1]);
    }
  }

  /** A node forwards a given hash at most once in a run. */
  lemma ForwardsOnce(graph: Graph, h: Hash, acts: seq<Act>, ss: seq<Net>, i: nat, j: nat, n: nat, g: Bytes)
    requires IsRun(graph, h, acts, ss) && i < j < |acts| && n < |graph|
    requires WellFormed(graph, ss[i]) && Enabled(graph, ss[i], acts[i]) && Forwards(graph, h, ss[i], acts[i], n, g)
    requires WellFormed(graph, ss[j]) && Enabled(graph, ss[j], acts[j])
    ensures !Forwards(graph, h, ss[j], acts[j], n, g)
  {
    hide Sends;
    SeenGrows(graph, h, acts, ss, i + 1, j, n);
    assert g in ss[i + 1].seen[n];
  }

  // ---------------------------------------------------------------------------
  // Paths
  // ---------------------------------------------------------------------------

  predicate Connected(graph: Graph, a: nat, b: nat) { a < |graph| && b in graph[a] }

  predicate IsPath(graph: Graph, path: seq<nat>) {
    |path| >= 2 && forall i :: 1 <= i < |path| ==> Connected(graph, path[i - 1], path[i])
  }

  ghost predicate PathFromTo(graph: Graph, path: seq<nat>, a: nat, b: nat) {
    IsPath(graph, path) && path[0] == a && path[|path| - 1] == b
  }

  /** `b` is reached from `a` over one connection or more. */
  ghost predicate Reaches(graph: Graph, a: nat, b: nat) { exists path :: PathFromTo(graph, path, a, b) }

  lemma ReachesNext(graph: Graph, a: nat, b: nat, c: nat)
    requires a == b || Reaches(graph, a, b)
    requires Connected(graph, b, c)
    ensures Reaches(graph, a, c)
  {
    if a == b {
      assert PathFromTo(graph, [a, c], a, c);
    } else {
      var path :| PathFromTo(graph, path, a, b);
      assert PathFromTo(graph, path + [c], a, c);
    }
  }

  // ---------------------------------------------------------------------------
  // Flooding is complete and sound
  // ---------------------------------------------------------------------------

  /** Node `n` has seen hash `g` or a message with that hash is on its way to it. */
  ghost predicate Coming(graph: Graph, h: Hash, s: Net, n: nat, g: Bytes)
    requires WellFormed(graph, s) && n < |graph|
  {
    g in s.seen[n] || exists p :: p in s.flight && Dest(graph, p) == n && h(p.msg) == g
  }

  lemma ComingStays(graph: Graph, h: Hash, s: Net, a: Act, n: nat, g: Bytes)
    requires WellFormed(graph, s) && Enabled(graph, s, a) && n < |graph| && Coming(graph, h, s, n, g)
    ensures WellFormed(graph, After(graph, h, s, a)) && Coming(graph, h, After(graph, h, s, a), n, g)
  {
    hide Sends;
    AfterWellFormed(graph, h, s, a);
    var s' := After(graph, h, s, a);
    if g !in s'.seen[n] {
      var p :| p in s.flight && Dest(graph, p) == n && h(p.msg) == g;
      assert p in s'.flight;
    }
  }

  lemma SendsAreComing(graph: Graph, h: Hash, s: Net, n: nat, msg: Bytes, k: nat)
    requires WellFormed(graph, s) && n < |graph| && k < |graph[n]| && Sends(graph, n, msg) <= s.flight
    ensures Coming(graph, h, s, graph[n][k], h(msg))
  {
    SendsFacts(graph, n, msg, Packet(n, k, msg));
    assert Packet(n, k, msg) in s.flight;
  }

  /** From the first moment on that it is due, a node's neighbours have seen or will see a hash: because
      the node has seen it, or because it was typed there. */
  ghost predicate Obliged(h: Hash, acts: seq<Act>, s: Net, i: nat, n: nat, g: Bytes)
    requires i <= |acts| && n < |s.seen|
  {
    g in s.seen[n] || exists j :: 0 <= j < i && acts[j].Say? && acts[j].n == n && h(acts[j].msg) == g
  }

  ghost predicate StartsEmpty(s: Net) { s.flight == multiset{} && forall n :: 0 <= n < |s.seen| ==> s.seen[n] == {} }

  /** How an obligation arises in one step. */
  lemma ObligedAnew(graph: Graph, h: Hash, acts: seq<Act>, s: Net, i: nat, n: nat, g: Bytes)
    requires 0 < i <= |acts| && WellFormed(graph, s) && Enabled(graph, s, acts[i - 1]) && n < |graph|
    requires Obliged(h, acts, After(graph, h, s, acts[i - 1]), i, n, g) && !Obliged(h, acts, s, i - 1, n, g)
    ensures (acts[i - 1].Say? && acts[i - 1].n == n && h(acts[i - 1].msg) == g)
         || Forwards(graph, h, s, acts[i - 1], n, g)
  {
    hide Sends;
  }

  lemma DutyStarts(graph: Graph, h: Hash, s: Net, a: Act, n: nat, g: Bytes, k: nat)
    requires WellFormed(graph, s) && Enabled(graph, s, a) && n < |graph| && k < |graph[n]|
    requires (a.Say? && a.n == n && h(a.msg) == g) || Forwards(graph, h, s, a, n, g)
    ensures WellFormed(graph, After(graph, h, s, a)) && Coming(graph, h, After(graph, h, s, a), graph[n][k], g)
  {
    hide Sends, Coming;
    AfterWellFormed(graph, h, s, a);
    SendsAreComing(graph, h, After(graph, h, s, a), n, if a.Say? then a.msg else a.p.msg, k);
  }

  lemma {:induction false} NeighboursAreComing(graph: Graph, h: Hash, acts: seq<Act>, ss: seq<Net>,
                                               i: nat, n: nat, g: Bytes, k: nat)
    requires IsRun(graph, h, acts, ss) && StartsEmpty(ss[0]) && i <= |acts|
    requires n < |graph| && k < |graph[n]|
    requires WellFormed(graph, ss[i]) && Obliged(h, acts, ss[i], i, n, g)
    ensures Coming(graph, h, ss[i], graph[n][k], g)
    decreases i
  {
    hide Coming, StartsEmpty, After, WellFormed, Enabled, Forwards;
    SizeOf(graph, ss[i]);
    if i == 0 {
      NothingSeen(ss[0], n, g);
    } else {
      var s, a := ss[i - 1], acts[i - 1];
      assert WellFormed(graph, s) && Enabled(graph, s, a) && ss[i] == After(graph, h, s, a);
      SizeOf(graph, s);
      if Obliged(h, acts, s, i - 1, n, g) {
        NeighboursAreComing(graph, h, acts, ss, i - 1, n, g, k);
        LinkInGraph(graph, s, n, k);
        ComingStays(graph, h, s, a, graph[n][k], g);
      } else {
        ObligedAnew(graph, h, acts, s, i, n, g);
        DutyStarts(graph, h, s, a, n, g, k);
      }
    }
  }

  lemma SizeOf(graph: Graph, s: Net)
    requires WellFormed(graph, s)
    ensures |s.seen| == |graph|
  {
  }

  lemma LinkInGraph(graph: Graph, s: Net, n: nat, k: nat)
    requires WellFormed(graph, s) && n < |graph| && k < |graph[n]|
    ensures graph[n][k] < |graph|
  {
  }

  lemma NothingSeen(s: Net, n: nat, g: Bytes)
    requires StartsEmpty(s) && n < |s.seen|
    ensures g !in s.seen[n] && s.flight == multiset{}
  {
  }

  /** In a quiescent state everything typed has reached every node that a path leads to. */
  lemma {:induction false} FloodReaches(graph: Graph, h: Hash, acts: seq<Act>, ss: seq<Net>, j: nat, path: seq<nat>)
    requires IsRun(graph, h, acts, ss) && StartsEmpty(ss[0]) && ss[|acts|].flight == multiset{}
    requires j < |acts| && acts[j].Say? && IsPath(graph, path) && path[0] == acts[j].n
    ensures path[|path| - 1] < |ss[|acts|].seen| && h(acts[j].msg) in ss[|acts|].seen[path[|path| - 1]]
    decreases |path|
  {
    hide After, StartsEmpty;
    var s, last, g := ss[|acts|], |path| - 1, h(acts[j].msg);
    assert WellFormed(graph, s);
    var before := path[last - 1];
    if |path| > 2 {
      FloodReaches(graph, h, acts, ss, j, path[..last]);
    }
    var k :| 0 <= k < |graph[before]| && graph[before][k] == path[last];
    NeighboursAreComing(graph, h, acts, ss, |acts|, before, g, k);
  }

  /** Hash `g` was typed before moment `i` at a node from which `n` is reached. */
  ghost predicate Typed(graph: Graph, h: Hash, acts: seq<Act>, i: nat, n: nat, g: Bytes)
    requires i <= |acts|
  {
    exists j :: 0 <= j < i && acts[j].Say? && h(acts[j].msg) == g && Reaches(graph, acts[j].n, n)
  }

  /** Hash `g` was typed before moment `i` at `n` itself or at a node from which `n` is reached. */
  ghost predicate TypedUpTo(graph: Graph, h: Hash, acts: seq<Act>, i: nat, n: nat, g: Bytes)
    requires i <= |acts|
  {
    exists j :: 0 <= j < i && acts[j].Say? && h(acts[j].msg) == g && (acts[j].n == n || Reaches(graph, acts[j].n, n))
  }

  /** Every seen hash and every message in flight was typed upstream. */
  ghost predicate Sound(graph: Graph, h: Hash, acts: seq<Act>, i: nat, s: Net)
    requires i <= |acts|
  {
    && (forall n, g :: 0 <= n < |s.seen| && g in s.seen[n] ==> Typed(graph, h, acts, i, n, g))
    && forall p :: p in s.flight ==> TypedUpTo(graph, h, acts, i, p.from, h(p.msg))
  }

  lemma TypedLater(graph: Graph, h: Hash, acts: seq<Act>, i: nat, n: nat, g: Bytes)
    requires i < |acts|
    ensures Typed(graph, h, acts, i, n, g) ==> Typed(graph, h, acts, i + 1, n, g)
    ensures TypedUpTo(graph, h, acts, i, n, g) ==> TypedUpTo(graph, h, acts, i + 1, n, g)
    ensures acts[i].Say? ==> TypedUpTo(graph, h, acts, i + 1, acts[i].n, h(acts[i].msg))
    ensures Typed(graph, h, acts, i, n, g) ==> TypedUpTo(graph, h, acts, i, n, g)
  {
    hide Reaches;
  }

  lemma TypedAcross(graph: Graph, h: Hash, acts: seq<Act>, i: nat, from: nat, to: nat, g: Bytes)
    requires i <= |acts| && TypedUpTo(graph, h, acts, i, from, g) && Connected(graph, from, to)
    ensures Typed(graph, h, acts, i, to, g)
  {
    hide Reaches;
    var j :| 0 <= j < i && acts[j].Say? && h(acts[j].msg) == g
      && (acts[j].n == from || Reaches(graph, acts[j].n, from));
    ReachesNext(graph, acts[j].n, from, to);
  }

  lemma StepIsSound(graph: Graph, h: Hash, acts: seq<Act>, i: nat, s: Net)
    requires i < |acts| && WellFormed(graph, s) && Enabled(graph, s, acts[i]) && Sound(graph, h, acts, i, s)
    ensures Sound(graph, h, acts, i + 1, After(graph, h, s, acts[i]))
  {
    hide Sends, Typed, TypedUpTo;
    var a := acts[i];
    var s' := After(graph, h, s, a);
    if a.Deliver? {
      TypedAcross(graph, h, acts, i, a.p.from, Dest(graph, a.p), h(a.p.msg));
    }
    forall n, g | 0 <= n < |s'.seen| && g in s'.seen[n]
      ensures Typed(graph, h, acts, i + 1, n, g)
    {
      TypedLater(graph, h, acts, i, n, g);
    }
    forall p | p in s'.flight
      ensures TypedUpTo(graph, h, acts, i + 1, p.from, h(p.msg))
    {
      TypedLater(graph, h, acts, i, p.from, h(p.msg));
      if a.Say? {
        SendsFacts(graph, a.n, a.msg, p);
      } else {
        SendsFacts(graph, Dest(graph, a.p), a.p.msg, p);
      }
    }
  }

  /** Nothing is seen or sent that was not typed somewhere upstream. */
  lemma {:induction false} NothingFromNowhere(graph: Graph, h: Hash, acts: seq<Act>, ss: seq<Net>, i: nat)
    requires IsRun(graph, h, acts, ss) && StartsEmpty(ss[0]) && i <= |acts|
    ensures WellFormed(graph, ss[i]) && Sound(graph, h, acts, i, ss[i])
    decreases i
  {
    hide After, WellFormed, Enabled, Typed, TypedUpTo;
    assert WellFormed(graph, ss[i]);
    if i > 0 {
      NothingFromNowhere(graph, h, acts, ss, i - 1);
      assert Enabled(graph, ss[i - 1], acts[i - 1]);
      StepIsSound(graph, h, acts, i - 1, ss[i - 1]);
    }
  }

  /** Once everything is delivered, a node has seen exactly the hashes that were typed at a node from
      which it is reached. */
  lemma FloodIsExact(graph: Graph, h: Hash, acts: seq<Act>, ss: seq<Net>, n: nat, g: Bytes)
    requires IsRun(graph, h, acts, ss) && StartsEmpty(ss[0]) && ss[|acts|].flight == multiset{} && n < |graph|
    ensures |ss[|acts|].seen| == |graph|
    ensures g in ss[|acts|].seen[n] <==> Typed(graph, h, acts, |acts|, n, g)
  {
    hide After, StartsEmpty, IsPath;
    NothingFromNowhere(graph, h, acts, ss, |acts|);
    if Typed(graph, h, acts, |acts|, n, g) {
      var j :| 0 <= j < |acts| && acts[j].Say? && h(acts[j].msg) == g && Reaches(graph, acts[j].n, n);
      var path :| PathFromTo(graph, path, acts[j].n, n);
      FloodReaches(graph, h, acts, ss, j, path);
    }
  }
}
