/** `hash_twin` and `hash_vec` of inc/curve.h over an unspecified hash function `h`. */
module Merkle {
  import opened Common

  type Hash = Bytes -> Bytes

  function HashTwin(h: Hash, a: Bytes, b: Bytes): Bytes { h(a + b) }

  /** The two neighbours hashed together at position `i` of the next level; an odd last one is doubled. */
  function PairAt(xs: seq<Bytes>, i: nat): Bytes
    requires 2 * i < |xs|
  {
    xs[2 * i] + (if 2 * i + 1 < |xs| then xs[2 * i + 1] else xs[2 * i])
  }

  function Level(h: Hash, xs: seq<Bytes>): (r: seq<Bytes>)
    ensures |r| == (|xs| + 1) / 2
  {
    seq((|xs| + 1) / 2, i requires 0 <= i < (|xs| + 1) / 2 => h(PairAt(xs, i)))
  }

  /** The root, level by level. */
  function Root(h: Hash, xs: seq<Bytes>): Bytes
    requires xs != []
    decreases |xs|
  {
    if |xs| <= 2 then Level(h, xs)[0] else Root(h, Level(h, xs))
  }

  /** The number of levels above a list of `n` leaves. */
  function Depth(n: nat): nat { if n <= 2 then 1 else 1 + Depth((n + 1) / 2) }

  // ---------------------------------------------------------------------------
  // The loops
  // ---------------------------------------------------------------------------

  method HashLevel(h: Hash, xs: seq<Bytes>) returns (r: seq<Bytes>)
    requires xs != []
    ensures r == Level(h, xs)
  {
    r := [];
    var n := 0;
    while n < |xs|
      invariant 0 <= n <= |xs| + 1 && n == 2 * |r| && |r| <= (|xs| + 1) / 2
      invariant r == Level(h, xs)[..|r|]
    {
      assert Level(h, xs)[|r|] == h(PairAt(xs, |r|));
      if n == |xs| - 1 {
        r := r + [HashTwin(h, xs[n], xs[n])];
      } else {
        r := r + [HashTwin(h, xs[n], xs[n + 1])];
      }
      n := n + 2;
    }
  }

  /** `hash_vec`, which asserts that its argument is not empty. */
  method HashVec(h: Hash, xs: seq<Bytes>) returns (root: Bytes)
    requires |xs| > 0
    ensures root == Root(h, xs)
  {
    var hashes := HashLevel(h, xs);
    while |hashes| > 1
      invariant |hashes| > 0
      invariant Root(h, xs) == if |hashes| == 1 then hashes[0] else Root(h, hashes)
      decreases |hashes|
    {
      hashes := HashLevel(h, hashes);
    }
    root := hashes[0];
  }

  // ---------------------------------------------------------------------------
  // The same root as a tree read from the top
  // ---------------------------------------------------------------------------

  /** How many nodes a tree over `n` leaves has at height `d`. */
  function Width(n: nat, d: nat): nat { if d == 0 then n else (Width(n, d - 1) + 1) / 2 }

  /** Node `i` at height `d`: the hash of the left child followed by the right one, which is the left one again
      when that has no sibling. */
  function Node(h: Hash, xs: seq<Bytes>, d: nat, i: nat): Bytes
    requires i < Width(|xs|, d)
    decreases d
  {
    if d == 0 then xs[i]
    else
      h(Node(h, xs, d - 1, 2 * i) + Node(h, xs, d - 1, Right(Width(|xs|, d - 1), i)))
  }

  /** The right child of node `i` in a level of `w` nodes. */
  function Right(w: nat, i: nat): nat { if 2 * i + 1 < w then 2 * i + 1 else 2 * i }

  lemma NodeOne(h: Hash, xs: seq<Bytes>, i: nat)
    requires i < Width(|xs|, 1)
    ensures i < |Level(h, xs)| && Node(h, xs, 1, i) == Level(h, xs)[i]
  {
    hide Level;
    assert Width(|xs|, 0) == |xs|;
    LevelAt(h, xs, i);
    assert Node(h, xs, 0, 2 * i) == xs[2 * i];
    assert Node(h, xs, 0, Right(|xs|, i)) == xs[Right(|xs|, i)];
  }

  lemma LevelAt(h: Hash, xs: seq<Bytes>, i: nat)
    requires 2 * i < |xs|
    ensures i < |Level(h, xs)| && Level(h, xs)[i] == h(xs[2 * i] + xs[Right(|xs|, i)])
  {
    assert PairAt(xs, i) == xs[2 * i] + xs[Right(|xs|, i)];
  }

  lemma {:induction false} WidthOfLevel(n: nat, d: nat)
    ensures Width(n, d + 1) == Width((n + 1) / 2, d)
  {
    if d > 0 {
      WidthOfLevel(n, d - 1);
    }
  }

  lemma NodeInner(h: Hash, xs: seq<Bytes>, d: nat, i: nat)
    requires d > 0 && i < Width(|xs|, d)
    ensures Node(h, xs, d, i) == h(Node(h, xs, d - 1, 2 * i) + Node(h, xs, d - 1, Right(Width(|xs|, d - 1), i)))
  {
  }

  lemma {:induction false} NodeOfLevel(h: Hash, xs: seq<Bytes>, d: nat, i: nat)
    requires i < Width(|xs|, d + 1)
    ensures i < Width(|Level(h, xs)|, d) && Node(h, Level(h, xs), d, i) == Node(h, xs, d + 1, i)
    decreases d
  {
    hide Level, Node;
    WidthOfLevel(|xs|, d);
    if d == 0 {
      NodeOne(h, xs, i);
      NodeZero(h, Level(h, xs), i);
    } else {
      WidthOfLevel(|xs|, d - 1);
      NodeOfLevel(h, xs, d - 1, 2 * i);
      NodeOfLevel(h, xs, d - 1, Right(Width(|xs|, d), i));
      NodeInner(h, Level(h, xs), d, i);
      NodeInner(h, xs, d + 1, i);
    }
  }

  lemma NodeZero(h: Hash, xs: seq<Bytes>, i: nat)
    requires i < |xs|
    ensures Width(|xs|, 0) == |xs| && Node(h, xs, 0, i) == xs[i]
  {
  }

  /** `hash_vec` computes the top node of the pairwise tree. */
  lemma {:induction false} RootIsTree(h: Hash, xs: seq<Bytes>)
    requires xs != []
    ensures Width(|xs|, Depth(|xs|)) == 1 && Root(h, xs) == Node(h, xs, Depth(|xs|), 0)
    decreases |xs|
  {
    var d := Depth(|xs|) - 1;
    WidthOfLevel(|xs|, d);
    if |xs| <= 2 {
      NodeOne(h, xs, 0);
    } else {
      RootIsTree(h, Level(h, xs));
      NodeOfLevel(h, xs, d, 0);
    }
  }

  /** Small lists, written out: one leaf is hashed with itself, the third of three is doubled. */
  lemma SmallRoots(h: Hash, a: Bytes, b: Bytes, c: Bytes)
    ensures Root(h, [a]) == h(a + a) && Root(h, [a, b]) == h(a + b)
    ensures Root(h, [a, b, c]) == h(h(a + b) + h(c + c))
  {
    hide Level;
    LevelAt(h, [a], 0);
    LevelAt(h, [a, b], 0);
    LevelAt(h, [a, b, c], 0);
    LevelAt(h, [a, b, c], 1);
    LevelAt(h, Level(h, [a, b, c]), 0);
  }

  // ---------------------------------------------------------------------------
  // The root binds the list
  // ---------------------------------------------------------------------------

  /** The inputs that `hash_twin` hashes while the root of `xs` is computed. */
  function LevelInputs(xs: seq<Bytes>): set<Bytes> { set i | 0 <= i < (|xs| + 1) / 2 :: PairAt(xs, i) }

  function Inputs(h: Hash, xs: seq<Bytes>): set<Bytes>
    decreases |xs|
  {
    if |xs| <= 2 then LevelInputs(xs) else LevelInputs(xs) + Inputs(h, Level(h, xs))
  }

  /** Two different inputs among `s` with the same hash. */
  predicate Collides(h: Hash, s: set<Bytes>) { exists a, b :: a in s && b in s && a != b && h(a) == h(b) }

  predicate Uniform(xs: seq<Bytes>, len: nat) { forall i :: 0 <= i < |xs| ==> |xs[i]| == len }

  lemma PairInputs(xs: seq<Bytes>, i: nat)
    requires i < (|xs| + 1) / 2
    ensures 2 * i < |xs| && PairAt(xs, i) in LevelInputs(xs)
  {
  }

  lemma PairInjective(xs: seq<Bytes>, i: nat, ys: seq<Bytes>, j: nat, len: nat)
    requires Uniform(xs, len) && Uniform(ys, len)
    requires 2 * i < |xs| && 2 * j < |ys| && PairAt(xs, i) == PairAt(ys, j)
    ensures xs[2 * i] == ys[2 * j]
    ensures (if 2 * i + 1 < |xs| then xs[2 * i + 1] else xs[2 * i])
         == (if 2 * j + 1 < |ys| then ys[2 * j + 1] else ys[2 * j])
  {
    assert xs[2 * i] == PairAt(xs, i)[..len] && ys[2 * j] == PairAt(ys, j)[..len];
    assert (if 2 * i + 1 < |xs| then xs[2 * i + 1] else xs[2 * i]) == PairAt(xs, i)[len..];
    assert (if 2 * j + 1 < |ys| then ys[2 * j + 1] else ys[2 * j]) == PairAt(ys, j)[len..];
  }

  lemma CollisionWitness(h: Hash, s: set<Bytes>, a: Bytes, b: Bytes)
    requires a in s && b in s && a != b && h(a) == h(b)
    ensures Collides(h, s)
  {
  }

  lemma CollidesMore(h: Hash, s: set<Bytes>, t: set<Bytes>)
    requires Collides(h, s) && s <= t
    ensures Collides(h, t)
  {
    var a, b :| a in s && b in s && a != b && h(a) == h(b);
    CollisionWitness(h, t, a, b);
  }

  /** A level over distinct nodes is distinct, or hashing it collided. */
  lemma LevelDistinct(h: Hash, xs: seq<Bytes>, len: nat)
    requires Uniform(xs, len) && Distinct(xs)
    ensures Distinct(Level(h, xs)) || Collides(h, LevelInputs(xs))
  {
    var l := Level(h, xs);
    if !Distinct(l) {
      var i, j :| 0 <= i < j < |l| && l[i] == l[j];
      PairInputs(xs, i);
      PairInputs(xs, j);
      if PairAt(xs, i) == PairAt(xs, j) {
        PairInjective(xs, i, xs, j, len);
        assert false;
      }
      CollisionWitness(h, LevelInputs(xs), PairAt(xs, i), PairAt(xs, j));
    }
  }

  /** Equal next levels come from equal lists, or hashing them collided. */
  lemma LevelBinds(h: Hash, xs: seq<Bytes>, ys: seq<Bytes>, len: nat)
    requires Uniform(xs, len) && Uniform(ys, len) && Distinct(xs) && Distinct(ys)
    requires Level(h, xs) == Level(h, ys)
    ensures xs == ys || Collides(h, LevelInputs(xs) + LevelInputs(ys))
  {
    var m := |Level(h, xs)|;
    var s := LevelInputs(xs) + LevelInputs(ys);
    if !Collides(h, s) {
      forall i | 0 <= i < m
        ensures PairAt(xs, i) == PairAt(ys, i)
      {
        assert h(PairAt(xs, i)) == Level(h, xs)[i] == Level(h, ys)[i] == h(PairAt(ys, i));
        PairInputs(xs, i);
        PairInputs(ys, i);
      }
      PairsDetermine(xs, ys, len);
    }
  }

  lemma PairsDetermine(xs: seq<Bytes>, ys: seq<Bytes>, len: nat)
    requires Uniform(xs, len) && Uniform(ys, len) && Distinct(xs) && Distinct(ys)
    requires (|xs| + 1) / 2 == (|ys| + 1) / 2
    requires forall i :: 0 <= i < (|xs| + 1) / 2 ==> PairAt(xs, i) == PairAt(ys, i)
    ensures xs == ys
  {
    var m := (|xs| + 1) / 2;
    if m > 0 {
      PairInjective(xs, m - 1, ys, m - 1, len);
    }
    assert |xs| == |ys|;
    forall k | 0 <= k < |xs|
      ensures xs[k] == ys[k]
    {
      PairInjective(xs, k / 2, ys, k / 2, len);
    }
  }

  /** Duplicate-free lists of equally long hashes whose trees have the same depth and the same root are
      equal, or two of the inputs hashed on the way collide. The lists may differ in length. */
  lemma {:induction false} RootBinds(h: Hash, xs: seq<Bytes>, ys: seq<Bytes>, len: nat, digest: nat)
    requires xs != [] && ys != [] && Uniform(xs, len) && Uniform(ys, len) && Distinct(xs) && Distinct(ys)
    requires forall x :: |h(x)| == digest
    requires Depth(|xs|) == Depth(|ys|) && Root(h, xs) == Root(h, ys)
    ensures xs == ys || Collides(h, Inputs(h, xs) + Inputs(h, ys))
    decreases |xs|
  {
    var lx, ly := Level(h, xs), Level(h, ys);
    var all := Inputs(h, xs) + Inputs(h, ys);
    LevelDistinct(h, xs, len);
    LevelDistinct(h, ys, len);
    if Collides(h, LevelInputs(xs)) {
      CollidesMore(h, LevelInputs(xs), all);
    } else if Collides(h, LevelInputs(ys)) {
      CollidesMore(h, LevelInputs(ys), all);
    } else {
      if |xs| <= 2 {
        assert lx == [lx[0]] && ly == [ly[0]];
      } else {
        RootBinds(h, lx, ly, digest, digest);
        if Collides(h, Inputs(h, lx) + Inputs(h, ly)) {
          CollidesMore(h, Inputs(h, lx) + Inputs(h, ly), all);
        }
      }
      if lx == ly {
        LevelBinds(h, xs, ys, len);
        if Collides(h, LevelInputs(xs) + LevelInputs(ys)) {
          CollidesMore(h, LevelInputs(xs) + LevelInputs(ys), all);
        }
      }
    }
  }

  /** Equal depth is needed: the first level above three or more leaves has the same root as the leaves. */
  lemma DepthIsNeeded(h: Hash, xs: seq<Bytes>)
    requires |xs| > 2
    ensures Level(h, xs) != xs && Root(h, Level(h, xs)) == Root(h, xs)
    ensures Depth(|Level(h, xs)|) + 1 == Depth(|xs|)
  {
  }

  lemma LevelOfRepeated(h: Hash, xs: seq<Bytes>)
    requires |xs| % 2 == 1
    ensures Level(h, xs + [xs[|xs| - 1]]) == Level(h, xs)
  {
    var ys := xs + [xs[|xs| - 1]];
    forall i | 0 <= i < (|xs| + 1) / 2
      ensures Level(h, ys)[i] == Level(h, xs)[i]
    {
      assert PairAt(ys, i) == PairAt(xs, i);
    }
  }

  lemma RootOfSameLevel(h: Hash, xs: seq<Bytes>, ys: seq<Bytes>)
    requires xs != [] && ys != [] && Level(h, xs) == Level(h, ys)
    requires |xs| <= 2 <==> |ys| <= 2
    ensures Root(h, xs) == Root(h, ys)
  {
  }

  lemma DepthOfOdd(n: nat)
    requires n % 2 == 1
    ensures Depth(n + 1) == Depth(n)
  {
    assert (n + 1 + 1) / 2 == (n + 1) / 2;
  }

  /** Distinctness is needed: repeating the last of an odd number of leaves does not change the root. */
  lemma DistinctIsNeeded(h: Hash, xs: seq<Bytes>)
    requires |xs| % 2 == 1
    ensures Root(h, xs + [xs[|xs| - 1]]) == Root(h, xs) && Depth(|xs| + 1) == Depth(|xs|)
  {
    hide *;
    LevelOfRepeated(h, xs);
    RootOfSameLevel(h, xs + [xs[|xs| - 1]], xs);
    DepthOfOdd(|xs|);
  }
}
