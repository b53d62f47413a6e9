/** Block heights: what `BlockChain::mark_blocks` in bin/p2p.cc computes.

    Parent links are arbitrary: a path down may reach the zero block, leave the map, or run into a cycle. */
module Heights {
  import opened Common
  import opened ByteOrder

  datatype BlockHeader = BlockHeader(
    hash: Bytes, prevHash: Bytes, txHash: Bytes, utxoHash: Bytes, nonce: Bytes, time: nat, height: nat)

  type Blocks = map<Bytes, BlockHeader>

  /** Consecutive parents inside the map, none of them but perhaps the last a child of `zero`. */
  predicate Chain(p: seq<Bytes>, blocks: Blocks, zero: Bytes) {
    && p != []
    && (forall i :: 0 <= i < |p| ==> p[i] in blocks)
    && (forall i :: 1 <= i < |p| ==> p[i] != zero && blocks[p[i - 1]].prevHash == p[i])
  }

  /** The parent of the last block of a chain. */
  function Below(p: seq<Bytes>, blocks: Blocks, zero: Bytes): Bytes
    requires Chain(p, blocks, zero)
  {
    blocks[p[|p| - 1]].prevHash
  }

  /** A chain from `b` that cannot be continued: the parent of its last block is `zero` or not in the map. */
  ghost predicate IsPath(p: seq<Bytes>, blocks: Blocks, zero: Bytes, b: Bytes) {
    && Chain(p, blocks, zero) && p[0] == b
    && (Below(p, blocks, zero) == zero || Below(p, blocks, zero) !in blocks)
  }

  /** The path down from `b` ends, instead of running into a cycle. */
  ghost predicate Grounded(blocks: Blocks, zero: Bytes, b: Bytes) { exists p :: IsPath(p, blocks, zero, b) }

  ghost function Path(blocks: Blocks, zero: Bytes, b: Bytes): (p: seq<Bytes>)
    requires Grounded(blocks, zero, b)
    ensures IsPath(p, blocks, zero, b)
  {
    var p :| IsPath(p, blocks, zero, b);
    p
  }

  /** The number of blocks from `b` down to one whose parent is `zero`, or -1 if the path leaves the map. */
  ghost function Height(blocks: Blocks, zero: Bytes, b: Bytes): (h: int)
    requires Grounded(blocks, zero, b)
    ensures h == -1 || h > 0
  {
    var p := Path(blocks, zero, b);
    if Below(p, blocks, zero) == zero then |p| else -1
  }

  // ---------------------------------------------------------------------------
  // Paths
  // ---------------------------------------------------------------------------

  /** A chain is the beginning of the path that starts where it does. */
  lemma {:induction false} ChainIsPrefix(p: seq<Bytes>, q: seq<Bytes>, blocks: Blocks, zero: Bytes, b: Bytes)
    requires Chain(p, blocks, zero) && p[0] == b && IsPath(q, blocks, zero, b)
    ensures |p| <= |q| && p == q[..|p|]
    decreases |p|
  {
    var n := |p| - 1;
    if n > 0 {
      assert Chain(p[..n], blocks, zero);
      ChainIsPrefix(p[..n], q, blocks, zero, b);
      assert p[n - 1] == p[..n][n - 1] == q[..n][n - 1] == q[n - 1];
      assert p == p[..n] + [p[n]];
    }
  }

  lemma PathUnique(p: seq<Bytes>, blocks: Blocks, zero: Bytes, b: Bytes)
    requires IsPath(p, blocks, zero, b)
    ensures Grounded(blocks, zero, b) && Path(blocks, zero, b) == p
  {
    hide Chain;
    var q := Path(blocks, zero, b);
    ChainIsPrefix(p, q, blocks, zero, b);
    ChainIsPrefix(q, p, blocks, zero, b);
    assert p == q[..|p|] == q;
  }

  lemma ChainSuffix(p: seq<Bytes>, blocks: Blocks, zero: Bytes, j: nat)
    requires Chain(p, blocks, zero) && j < |p|
    ensures Chain(p[j..], blocks, zero) && Below(p[j..], blocks, zero) == Below(p, blocks, zero)
  {
  }

  lemma ChainConcat(p: seq<Bytes>, q: seq<Bytes>, blocks: Blocks, zero: Bytes)
    requires Chain(p, blocks, zero) && Chain(q, blocks, zero)
    requires Below(p, blocks, zero) == q[0] != zero
    ensures Chain(p + q, blocks, zero) && Below(p + q, blocks, zero) == Below(q, blocks, zero)
  {
  }

  /** Every block on a path has the rest of that path as its own. */
  lemma PathSuffix(blocks: Blocks, zero: Bytes, b: Bytes, j: nat)
    requires Grounded(blocks, zero, b) && j < |Path(blocks, zero, b)|
    ensures var p := Path(blocks, zero, b); Grounded(blocks, zero, p[j]) && Path(blocks, zero, p[j]) == p[j..]
  {
    hide Chain, Path;
    var p := Path(blocks, zero, b);
    ChainSuffix(p, blocks, zero, j);
    PathUnique(p[j..], blocks, zero, p[j]);
  }

  /** Whether a chain's block has an end to its path depends on what is below the chain only, and the
      path is the chain followed by the path below. */
  lemma ChainPath(p: seq<Bytes>, blocks: Blocks, zero: Bytes)
    requires Chain(p, blocks, zero)
    ensures var below := Below(p, blocks, zero); var ends := below == zero || below !in blocks;
      && (ends ==> Grounded(blocks, zero, p[0]) && Path(blocks, zero, p[0]) == p)
      && (!ends ==> (Grounded(blocks, zero, p[0]) <==> Grounded(blocks, zero, below)))
      && (!ends && Grounded(blocks, zero, below) ==> Path(blocks, zero, p[0]) == p + Path(blocks, zero, below))
  {
    hide Path;
    var below := Below(p, blocks, zero);
    if below == zero || below !in blocks {
      PathUnique(p, blocks, zero, p[0]);
    } else {
      if Grounded(blocks, zero, below) {
        var q := Path(blocks, zero, below);
        ChainConcat(p, q, blocks, zero);
        PathUnique(p + q, blocks, zero, p[0]);
      }
      if Grounded(blocks, zero, p[0]) {
        ChainStaysOnPath(p, blocks, zero);
      }
    }
  }

  /** A chain that has not ended is properly shorter than the path it begins. */
  lemma ChainStaysOnPath(p: seq<Bytes>, blocks: Blocks, zero: Bytes)
    requires Chain(p, blocks, zero) && Grounded(blocks, zero, p[0])
    requires Below(p, blocks, zero) != zero && Below(p, blocks, zero) in blocks
    ensures |p| < |Path(blocks, zero, p[0])| && Grounded(blocks, zero, Below(p, blocks, zero))
  {
    hide Path;
    var q := Path(blocks, zero, p[0]);
    ChainIsPrefix(p, q, blocks, zero, p[0]);
    assert q[|p| - 1] == p[|p| - 1];
    PathSuffix(blocks, zero, p[0], |p|);
  }

  /** The height of every block of a chain. */
  lemma ChainHeights(p: seq<Bytes>, blocks: Blocks, zero: Bytes, j: nat)
    requires Chain(p, blocks, zero) && Grounded(blocks, zero, p[0]) && j < |p|
    ensures var below := Below(p, blocks, zero);
      && Grounded(blocks, zero, p[j])
      && (below != zero && below in blocks ==> Grounded(blocks, zero, below))
      && Height(blocks, zero, p[j])
         == if below == zero then |p| - j
            else if below !in blocks || Height(blocks, zero, below) == -1 then -1
            else Height(blocks, zero, below) + |p| - j
  {
    hide Chain, Path, IsPath, Grounded;
    var below := Below(p, blocks, zero);
    ChainPath(p, blocks, zero);
    ChainSuffix(p, blocks, zero, j);
    ChainPath(p[j..], blocks, zero);
    if below != zero && below in blocks {
      var q := Path(blocks, zero, below);
      PathIsChain(blocks, zero, below);
      ChainConcat(p[j..], q, blocks, zero);
    }
  }

  lemma PathIsChain(blocks: Blocks, zero: Bytes, b: Bytes)
    requires Grounded(blocks, zero, b)
    ensures Chain(Path(blocks, zero, b), blocks, zero) && Path(blocks, zero, b)[0] == b
  {
  }

  // ---------------------------------------------------------------------------
  // Heights are path lengths
  // ---------------------------------------------------------------------------

  ghost predicate RootedPath(p: seq<Bytes>, blocks: Blocks, zero: Bytes, b: Bytes) {
    Chain(p, blocks, zero) && p[0] == b && Below(p, blocks, zero) == zero
  }

  /** A height `n` is positive exactly if a path of `n` blocks leads down to a child of `zero`. */
  lemma HeightIsPathLength(blocks: Blocks, zero: Bytes, b: Bytes, n: nat)
    ensures Grounded(blocks, zero, b) && Height(blocks, zero, b) == n
            <==> exists p :: RootedPath(p, blocks, zero, b) && |p| == n
  {
    hide Chain, Path;
    if Grounded(blocks, zero, b) && Height(blocks, zero, b) == n {
      assert RootedPath(Path(blocks, zero, b), blocks, zero, b);
    }
    if q :| RootedPath(q, blocks, zero, b) && |q| == n {
      PathUnique(q, blocks, zero, b);
    }
  }

  lemma PathDistinct(blocks: Blocks, zero: Bytes, b: Bytes)
    requires Grounded(blocks, zero, b)
    ensures Distinct(Path(blocks, zero, b))
  {
    hide Chain, Path;
    var p := Path(blocks, zero, b);
    forall i, j | 0 <= i < j < |p|
      ensures p[i] != p[j]
    {
      PathSuffix(blocks, zero, b, i);
      PathSuffix(blocks, zero, b, j);
      assert |p[i..]| != |p[j..]|;
    }
  }

  lemma ChainDistinct(p: seq<Bytes>, blocks: Blocks, zero: Bytes)
    requires Chain(p, blocks, zero) && Grounded(blocks, zero, p[0])
    ensures Distinct(p)
  {
    hide Path;
    ChainIsPrefix(p, Path(blocks, zero, p[0]), blocks, zero, p[0]);
    PathDistinct(blocks, zero, p[0]);
  }

  lemma {:induction false} DistinctFits(p: seq<Bytes>, s: set<Bytes>)
    requires Distinct(p) && forall i :: 0 <= i < |p| ==> p[i] in s
    ensures |p| <= |s|
    decreases |p|
  {
    if p != [] {
      var n := |p| - 1;
      DistinctFits(p[..n], s - {p[n]});
    }
  }

  lemma HeightBound(blocks: Blocks, zero: Bytes, b: Bytes)
    requires Grounded(blocks, zero, b)
    ensures Height(blocks, zero, b) <= |blocks|
  {
    PathDistinct(blocks, zero, b);
    DistinctFits(Path(blocks, zero, b), blocks.Keys);
  }

  /** Parent links that admit a decreasing rank: no block is its own ancestor. */
  ghost predicate Ranked(blocks: Blocks, zero: Bytes, rank: map<Bytes, nat>) {
    && blocks.Keys <= rank.Keys
    && forall b :: b in blocks && blocks[b].prevHash != zero && blocks[b].prevHash in blocks
         ==> rank[blocks[b].prevHash] < rank[b]
  }

  lemma {:induction false} RankedIsGrounded(blocks: Blocks, zero: Bytes, rank: map<Bytes, nat>, b: Bytes)
    requires Ranked(blocks, zero, rank) && b in blocks
    ensures Grounded(blocks, zero, b)
    decreases rank[b]
  {
    var p := blocks[b].prevHash;
    assert Chain([b], blocks, zero);
    if p != zero && p in blocks {
      RankedIsGrounded(blocks, zero, rank, p);
    }
    ChainPath([b], blocks, zero);
  }

  /** Every path ends exactly if the parent links admit a decreasing rank. */
  lemma GroundedIffRanked(blocks: Blocks, zero: Bytes)
    ensures (forall b :: b in blocks ==> Grounded(blocks, zero, b)) <==> exists rank :: Ranked(blocks, zero, rank)
  {
    hide Chain, Path, Grounded;
    if rank :| Ranked(blocks, zero, rank) {
      forall b | b in blocks
        ensures Grounded(blocks, zero, b)
      {
        RankedIsGrounded(blocks, zero, rank, b);
      }
    }
    if forall b :: b in blocks ==> Grounded(blocks, zero, b) {
      var rank := map b | b in blocks :: |Path(blocks, zero, b)|;
      forall b | b in blocks && blocks[b].prevHash != zero && blocks[b].prevHash in blocks
        ensures rank[blocks[b].prevHash] < rank[b]
      {
        SingleChain(blocks, zero, b);
        ChainPath([b], blocks, zero);
      }
      assert Ranked(blocks, zero, rank);
    }
  }

  lemma SingleChain(blocks: Blocks, zero: Bytes, b: Bytes)
    requires b in blocks
    ensures Chain([b], blocks, zero) && Below([b], blocks, zero) == blocks[b].prevHash
  {
  }

  // ---------------------------------------------------------------------------
  // Which blocks the nested loops reach
  // ---------------------------------------------------------------------------

  predicate InMap(order: seq<Bytes>, blocks: Blocks) { forall i :: 0 <= i < |order| ==> order[i] in blocks }

  /** `x` is `b` or one of its ancestors, and the path from `b` ends. */
  ghost predicate OnPath(blocks: Blocks, zero: Bytes, b: Bytes, x: Bytes) {
    Grounded(blocks, zero, b) && x in Path(blocks, zero, b)
  }

  /** Some walk from the first `k` blocks of `order` passed through `x`. */
  ghost predicate Marked(blocks: Blocks, zero: Bytes, order: seq<Bytes>, k: nat, x: Bytes)
    requires k <= |order|
  {
    exists i :: 0 <= i < k && OnPath(blocks, zero, order[i], x)
  }

  /** The mark of `x` once the walks from the first `k` blocks are done. */
  ghost function MarkOf(blocks: Blocks, zero: Bytes, order: seq<Bytes>, k: nat, x: Bytes): int
    requires k <= |order|
  {
    if Marked(blocks, zero, order, k, x) then
      MarkedIsGrounded(blocks, zero, order, k, x);
      Height(blocks, zero, x)
    else 0
  }

  /** The outer loop breaks at position `k`: that block was already found to lead out of the map. */
  ghost predicate StopsAt(blocks: Blocks, zero: Bytes, order: seq<Bytes>, k: nat)
    requires k < |order|
  {
    MarkOf(blocks, zero, order, k, order[k]) == -1
  }

  /** The position at which the outer loop, having come as far as `k`, ends. */
  ghost function Stop(blocks: Blocks, zero: Bytes, order: seq<Bytes>, k: nat): (r: nat)
    requires k <= |order|
    ensures k <= r <= |order|
    ensures r < |order| ==> StopsAt(blocks, zero, order, r)
    ensures forall i :: k <= i < r ==> !StopsAt(blocks, zero, order, i)
    decreases |order| - k
  {
    if k == |order| || StopsAt(blocks, zero, order, k) then k else Stop(blocks, zero, order, k + 1)
  }

  /** Every walk made before the outer loop ends has a path that ends. */
  ghost predicate WalksEnd(blocks: Blocks, zero: Bytes, order: seq<Bytes>) {
    forall i :: 0 <= i < Stop(blocks, zero, order, 0) ==> Grounded(blocks, zero, order[i])
  }

  /** With a decreasing rank every walk ends. */
  lemma RankedWalksEnd(blocks: Blocks, zero: Bytes, rank: map<Bytes, nat>, order: seq<Bytes>)
    requires Ranked(blocks, zero, rank) && InMap(order, blocks)
    ensures WalksEnd(blocks, zero, order)
  {
    hide Ranked, Grounded, Stop;
    forall i | 0 <= i < Stop(blocks, zero, order, 0)
      ensures Grounded(blocks, zero, order[i])
    {
      RankedIsGrounded(blocks, zero, rank, order[i]);
    }
  }

  lemma OnPathTransitive(blocks: Blocks, zero: Bytes, a: Bytes, b: Bytes)
    requires OnPath(blocks, zero, a, b)
    ensures Grounded(blocks, zero, b)
    ensures forall c :: OnPath(blocks, zero, b, c) ==> OnPath(blocks, zero, a, c)
  {
    hide Chain, Path, Grounded;
    var p := Path(blocks, zero, a);
    var j :| 0 <= j < |p| && p[j] == b;
    PathSuffix(blocks, zero, a, j);
    assert forall c :: c in p[j..] ==> c in p;
  }

  lemma MarkedIsGrounded(blocks: Blocks, zero: Bytes, order: seq<Bytes>, k: nat, x: Bytes)
    requires k <= |order| && Marked(blocks, zero, order, k, x)
    ensures Grounded(blocks, zero, x)
  {
    hide Grounded;
    var i :| 0 <= i < k && OnPath(blocks, zero, order[i], x);
    OnPathTransitive(blocks, zero, order[i], x);
  }

  lemma MarkedClosed(blocks: Blocks, zero: Bytes, order: seq<Bytes>, k: nat, x: Bytes, y: Bytes)
    requires k <= |order| && Marked(blocks, zero, order, k, x) && OnPath(blocks, zero, x, y)
    ensures Marked(blocks, zero, order, k, y)
  {
    hide OnPath;
    var i :| 0 <= i < k && OnPath(blocks, zero, order[i], x);
    OnPathTransitive(blocks, zero, order[i], x);
  }

  lemma MarkedNext(blocks: Blocks, zero: Bytes, order: seq<Bytes>, k: nat, x: Bytes)
    requires k < |order|
    ensures Marked(blocks, zero, order, k + 1, x)
            <==> Marked(blocks, zero, order, k, x) || OnPath(blocks, zero, order[k], x)
  {
    hide OnPath;
  }

  lemma OnOwnPath(blocks: Blocks, zero: Bytes, b: Bytes)
    requires Grounded(blocks, zero, b)
    ensures OnPath(blocks, zero, b, b)
  {
  }

  /** The marks `m` are those of the first `k` walks. */
  ghost predicate MarksAfter(blocks: Blocks, zero: Bytes, order: seq<Bytes>, k: nat, m: map<Bytes, int>)
    requires k <= |order|
  {
    forall x :: x in blocks ==> x in m && m[x] == MarkOf(blocks, zero, order, k, x)
  }

  // ---------------------------------------------------------------------------
  // One walk
  // ---------------------------------------------------------------------------

  /** What ends a walk that has passed the chain `p` when the marks are `m`. */
  predicate WalkExits(p: seq<Bytes>, blocks: Blocks, zero: Bytes, m: map<Bytes, int>)
    requires Chain(p, blocks, zero) && blocks.Keys <= m.Keys
  {
    var below := Below(p, blocks, zero);
    below == zero || below !in blocks || m[below] != 0
  }

  /** The walk at position `k` comes to an exit exactly if the path of its block ends. */
  lemma WalkEndsIff(blocks: Blocks, zero: Bytes, order: seq<Bytes>, k: nat, m: map<Bytes, int>)
    requires k < |order| && InMap(order, blocks) && MarksAfter(blocks, zero, order, k, m)
    ensures Grounded(blocks, zero, order[k])
            <==> exists p :: Chain(p, blocks, zero) && p[0] == order[k] && WalkExits(p, blocks, zero, m)
  {
    hide Path, OnPath, Marked, Height;
    if Grounded(blocks, zero, order[k]) {
      var p := Path(blocks, zero, order[k]);
      assert WalkExits(p, blocks, zero, m);
    }
    if p :| Chain(p, blocks, zero) && p[0] == order[k] && WalkExits(p, blocks, zero, m) {
      ChainPath(p, blocks, zero);
      var below := Below(p, blocks, zero);
      if below != zero && below in blocks {
        MarkedIsGrounded(blocks, zero, order, k, below);
      }
    }
  }

  /** Otherwise the walk goes round any number of times: after `n` rounds it has passed a chain of `n + 1`
      blocks and meets no exit. */
  lemma {:induction false} WalkGoesOn(blocks: Blocks, zero: Bytes, order: seq<Bytes>, k: nat,
                                      m: map<Bytes, int>, n: nat) returns (p: seq<Bytes>)
    requires k < |order| && InMap(order, blocks) && MarksAfter(blocks, zero, order, k, m)
    requires !Grounded(blocks, zero, order[k])
    ensures Chain(p, blocks, zero) && p[0] == order[k] && |p| == n + 1 && !WalkExits(p, blocks, zero, m)
  {
    hide Grounded, MarkOf;
    if n == 0 {
      p := [order[k]];
    } else {
      var q := WalkGoesOn(blocks, zero, order, k, m, n - 1);
      p := q + [Below(q, blocks, zero)];
    }
    WalkEndsIff(blocks, zero, order, k, m);
  }

  /** The blocks that a walk passes, and what is on the path below them. */
  lemma ChainOnPath(p: seq<Bytes>, blocks: Blocks, zero: Bytes, x: Bytes)
    requires Chain(p, blocks, zero) && Grounded(blocks, zero, p[0])
    ensures var below := Below(p, blocks, zero);
      OnPath(blocks, zero, p[0], x) <==> x in p || (below != zero && below in blocks && OnPath(blocks, zero, below, x))
  {
    hide Chain, Path, Grounded;
    ChainPath(p, blocks, zero);
  }

  /** One walk: once the blocks it passed before its exit have their heights, the marks are those of one
      walk more. */
  lemma WalkDone(blocks: Blocks, zero: Bytes, order: seq<Bytes>, k: nat,
                 list: seq<Bytes>, before: map<Bytes, int>, after: map<Bytes, int>)
    requires k < |order| && InMap(order, blocks) && MarksAfter(blocks, zero, order, k, before)
    requires Chain(list, blocks, zero) && list[0] == order[k] && WalkExits(list, blocks, zero, before)
    requires forall x :: x in list ==>
      Grounded(blocks, zero, x) && x in blocks && x in after && after[x] == Height(blocks, zero, x)
    requires forall x :: x in blocks && x !in list ==> x in after && after[x] == before[x]
    ensures MarksAfter(blocks, zero, order, k + 1, after)
  {
    hide Height, OnPath, Marked, Grounded;
    var below := Below(list, blocks, zero);
    assert list[0] in list;
    forall x | x in blocks
      ensures x in after && after[x] == MarkOf(blocks, zero, order, k + 1, x)
    {
      MarkedNext(blocks, zero, order, k, x);
      ChainOnPath(list, blocks, zero, x);
      if below != zero && below in blocks && OnPath(blocks, zero, below, x) {
        MarkedClosed(blocks, zero, order, k, below, x);
      }
    }
  }

  // ---------------------------------------------------------------------------
  // What the marks mean
  // ---------------------------------------------------------------------------

  /** A block bears its true height exactly if some walk passed through it; otherwise it keeps mark 0, and
      it then comes after an early stop. */
  lemma MarksAreRight(blocks: Blocks, zero: Bytes, order: seq<Bytes>, x: Bytes)
    requires WalksEnd(blocks, zero, order) && x in order
    ensures var stop := Stop(blocks, zero, order, 0); var mark := MarkOf(blocks, zero, order, stop, x);
      && (Marked(blocks, zero, order, stop, x) <==> Grounded(blocks, zero, x) && mark == Height(blocks, zero, x))
      && (Marked(blocks, zero, order, stop, x) <==> mark != 0)
      && (mark == 0 ==> stop < |order| && x !in order[..stop])
  {
    hide Height, OnPath, Grounded, Stop;
    var stop := Stop(blocks, zero, order, 0);
    if Marked(blocks, zero, order, stop, x) {
      MarkedIsGrounded(blocks, zero, order, stop, x);
    } else {
      var i :| 0 <= i < |order| && order[i] == x;
      if i < stop {
        assert order[..stop][i] == x;
      }
      if x in order[..stop] {
        WalkedIsMarked(blocks, zero, order, x);
      }
    }
  }

  lemma WalkedIsMarked(blocks: Blocks, zero: Bytes, order: seq<Bytes>, x: Bytes)
    requires WalksEnd(blocks, zero, order) && x in order[..Stop(blocks, zero, order, 0)]
    ensures Marked(blocks, zero, order, Stop(blocks, zero, order, 0), x)
  {
    hide OnPath, Grounded, Stop;
    var stop := Stop(blocks, zero, order, 0);
    var i :| 0 <= i < stop && order[..stop][i] == x;
    OnOwnPath(blocks, zero, order[i]);
  }

  /** Every block gets its true height exactly if the walks made before the outer loop ends passed through
      all the blocks that come after. */
  lemma AllMarkedIff(blocks: Blocks, zero: Bytes, order: seq<Bytes>)
    requires WalksEnd(blocks, zero, order) && forall x :: x in blocks <==> x in order
    ensures var stop := Stop(blocks, zero, order, 0);
      (forall x :: x in blocks
         ==> Grounded(blocks, zero, x) && MarkOf(blocks, zero, order, stop, x) == Height(blocks, zero, x))
      <==> (forall i :: stop <= i < |order| ==> Marked(blocks, zero, order, stop, order[i]))
  {
    hide Height, OnPath, Grounded, Stop, Marked, MarkOf, WalksEnd;
    var stop := Stop(blocks, zero, order, 0);
    forall x | x in blocks
      ensures Marked(blocks, zero, order, stop, x)
              <==> Grounded(blocks, zero, x) && MarkOf(blocks, zero, order, stop, x) == Height(blocks, zero, x)
      ensures x in order[..stop] ==> Marked(blocks, zero, order, stop, x)
    {
      MarksAreRight(blocks, zero, order, x);
      if x in order[..stop] {
        WalkedIsMarked(blocks, zero, order, x);
      }
    }
    forall x | x in blocks && x !in order[..stop]
      ensures exists i :: stop <= i < |order| && order[i] == x
    {
      assert order == order[..stop] + order[stop..];
      var i :| 0 <= i < |order| - stop && order[stop..][i] == x;
      assert order[stop + i] == x;
    }
  }

  lemma OnPathHeight(blocks: Blocks, zero: Bytes, a: Bytes, b: Bytes)
    requires OnPath(blocks, zero, a, b)
    ensures Grounded(blocks, zero, a) && Grounded(blocks, zero, b)
    ensures Height(blocks, zero, a) == -1 <==> Height(blocks, zero, b) == -1
  {
    hide Chain, Path, Grounded;
    var p := Path(blocks, zero, a);
    var j :| 0 <= j < |p| && p[j] == b;
    PathIsChain(blocks, zero, a);
    PathSuffix(blocks, zero, a, j);
    ChainSuffix(p, blocks, zero, j);
  }

  /** The outer loop ends early exactly if some block whose path leaves the map has an ancestor that comes
      later in the order. */
  lemma EarlyStopIff(blocks: Blocks, zero: Bytes, order: seq<Bytes>)
    ensures Stop(blocks, zero, order, 0) < |order|
            <==> exists i, k :: 0 <= i < k < |order| && OnPath(blocks, zero, order[i], order[k])
                                && Height(blocks, zero, order[i]) == -1
  {
    hide Height, Stop, Grounded;
    var stop := Stop(blocks, zero, order, 0);
    if stop < |order| {
      var i :| 0 <= i < stop && OnPath(blocks, zero, order[i], order[stop]);
      OnPathHeight(blocks, zero, order[i], order[stop]);
    }
    if i, k :| 0 <= i < k < |order| && OnPath(blocks, zero, order[i], order[k])
               && Height(blocks, zero, order[i]) == -1 {
      OnPathHeight(blocks, zero, order[i], order[k]);
      assert StopsAt(blocks, zero, order, k);
    }
  }

  /** Every block gets a positive mark, which is then its height, exactly if every path reaches `zero`. */
  lemma AllRootedIff(blocks: Blocks, zero: Bytes, order: seq<Bytes>)
    requires forall x :: x in blocks <==> x in order
    ensures var stop := Stop(blocks, zero, order, 0);
      (forall x :: x in blocks ==> MarkOf(blocks, zero, order, stop, x) > 0)
      <==> (forall x :: x in blocks ==> Grounded(blocks, zero, x) && Height(blocks, zero, x) > 0)
  {
    hide Height, Stop, OnPath, Grounded;
    var stop := Stop(blocks, zero, order, 0);
    forall x | x in blocks && MarkOf(blocks, zero, order, stop, x) > 0
      ensures Grounded(blocks, zero, x) && Height(blocks, zero, x) > 0
    {
      MarkedIsGrounded(blocks, zero, order, stop, x);
    }
    if forall x :: x in blocks ==> Grounded(blocks, zero, x) && Height(blocks, zero, x) > 0 {
      forall k | 0 <= k < |order|
        ensures !StopsAt(blocks, zero, order, k)
      {
        assert order[k] in blocks;
      }
      forall x | x in blocks
        ensures MarkOf(blocks, zero, order, stop, x) > 0
      {
        assert order[..stop] == order;
        WalkedIsMarked(blocks, zero, order, x);
      }
    }
  }

  // ---------------------------------------------------------------------------
  // Cycles
  // ---------------------------------------------------------------------------

  /** If not every walk ends, there is a first position whose walk goes on for ever; the outer loop gets there. */
  lemma EndlessWalk(blocks: Blocks, zero: Bytes, order: seq<Bytes>) returns (k: nat)
    requires !WalksEnd(blocks, zero, order)
    ensures k < |order| && !Grounded(blocks, zero, order[k])
    ensures forall i :: 0 <= i <= k ==> !StopsAt(blocks, zero, order, i)
    ensures forall i :: 0 <= i < k ==> Grounded(blocks, zero, order[i])
  {
    hide Grounded, StopsAt, Stop;
    var stop := Stop(blocks, zero, order, 0);
    k := 0;
    while Grounded(blocks, zero, order[k])
      invariant k < stop && forall i :: 0 <= i < k ==> Grounded(blocks, zero, order[i])
      decreases stop - k
    {
      k := k + 1;
    }
  }

  /** A cycle behind an early stop does no harm: with blocks 1 -> 2 -> (missing) and 3 -> 3 the loop ends at 2. */
  lemma CycleAfterStop(zero: Bytes, header: BlockHeader)
    requires zero != [2] && zero != [3] && zero != [9]
    ensures var one, two, three: Bytes := [1], [2], [3];
      var blocks := map[one := header.(prevHash := two), two := header.(prevHash := [9]),
                        three := header.(prevHash := three)];
      var order := [one, two, three];
      && Ascending(order) && Stop(blocks, zero, order, 0) == 1
      && WalksEnd(blocks, zero, order) && !Grounded(blocks, zero, three)
  {
    var one, two, three: Bytes := [1], [2], [3];
    var blocks := map[one := header.(prevHash := two), two := header.(prevHash := [9]),
                      three := header.(prevHash := three)];
    LostPair(blocks, zero, [one, two, three]);
    if Grounded(blocks, zero, three) {
      var p := Path(blocks, zero, three);
      PathDistinct(blocks, zero, three);
      ChainPath([three], blocks, zero);
    }
  }

  lemma LostPair(blocks: Blocks, zero: Bytes, order: seq<Bytes>)
    requires |order| == 3 && order[0] == [1] && order[1] == [2] && order[2] == [3]
    requires zero != [2] && zero != [9]
    requires blocks.Keys == {[1], [2], [3]} && blocks[[1]].prevHash == [2] && blocks[[2]].prevHash == [9]
    ensures Ascending(order) && Stop(blocks, zero, order, 0) == 1
    ensures Grounded(blocks, zero, [1]) && Path(blocks, zero, [1]) == [[1], [2]]
  {
    assert [1][0] != [2][0] && [9][0] != [1][0] && [9][0] != [2][0] && [9][0] != [3][0];
    PathUnique([[1], [2]], blocks, zero, [1]);
    PathSuffix(blocks, zero, [1], 1);
    assert OnPath(blocks, zero, order[0], [2]);
    assert Marked(blocks, zero, order, 1, order[1]);
    assert StopsAt(blocks, zero, order, 1);
    assert Stop(blocks, zero, order, 1) == 1;
    assert !Marked(blocks, zero, order, 0, order[0]);
  }

  /** An early stop can leave a rooted block unmarked: with blocks 1 -> 2 -> (missing) and 3 -> `zero`
      the walk from 1 marks 2, the loop then stops at 2, and 3 keeps mark 0 although its height is 1. */
  lemma EarlyStopLeavesZero(zero: Bytes, header: BlockHeader)
    requires zero != [2] && zero != [9]
    ensures var one, two, three: Bytes := [1], [2], [3];
      var blocks := map[one := header.(prevHash := two), two := header.(prevHash := [9]),
                        three := header.(prevHash := zero)];
      var order := [one, two, three];
      && Ascending(order) && WalksEnd(blocks, zero, order) && Stop(blocks, zero, order, 0) == 1
      && Grounded(blocks, zero, three) && Height(blocks, zero, three) == 1
      && MarkOf(blocks, zero, order, 1, three) == 0
  {
    var one, two, three: Bytes := [1], [2], [3];
    var blocks := map[one := header.(prevHash := two), two := header.(prevHash := [9]),
                      three := header.(prevHash := zero)];
    LostPair(blocks, zero, [one, two, three]);
    PathUnique([three], blocks, zero, three);
    assert three[0] != one[0] && three[0] != two[0];
  }
}
