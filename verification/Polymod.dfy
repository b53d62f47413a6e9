/** The Bech32 checksum register of src/segwit_addr.cc: a GF(2)-linear step on 32-bit words. */
module Polymod {

  // ---------------------------------------------------------------------------
  // The step
  // ---------------------------------------------------------------------------

  /** Exclusive or under a name, so that proofs can treat it as an abstract group operation. */
  function Xor(a: bv32, b: bv32): bv32 { a ^ b }

  /** `-(b & 1) & g`: the generator `g` when the low bit of `b` is set, else zero. */
  function Tap(b: bv32, g: bv32): bv32 { (-(b & 1)) & g }

  /** The generators selected by the five bits that leave the register. */
  function Reduce(b: bv32): bv32 {
    Xor(Xor(Xor(Xor(Tap(b >> 0, 0x3b6a57b2), Tap(b >> 1, 0x26508e6d)), Tap(b >> 2, 0x1ea119fa)),
            Tap(b >> 3, 0x3d4233dd)), Tap(b >> 4, 0x2a1462b3))
  }

  function Shifted(pre: bv32): bv32 { (pre & 0x1FFFFFF) << 5 }

  /** `bech32_polymod_step`. The source keeps `pre >> 25` in eight bits; only five of them are used. */
  function Step(pre: bv32): bv32 { Xor(Shifted(pre), Reduce(pre >> 25)) }

  /** Conversion of a C `int` to `uint32_t`. */
  function U32(v: int): bv32 { (v % 0x1_0000_0000) as bv32 }

  function Words(vs: seq<int>): seq<bv32> { seq(|vs|, i requires 0 <= i < |vs| => U32(vs[i])) }

  function Feed(chk: bv32, w: bv32): bv32 { Xor(Step(chk), w) }

  /** The register after the words `ws` have been fed to it one by one, starting from `chk`. */
  function Run(chk: bv32, ws: seq<bv32>): bv32 {
    if ws == [] then chk else Feed(Run(chk, ws[..|ws| - 1]), ws[|ws| - 1])
  }

  /** `n` bare steps. */
  function Steps(chk: bv32, n: nat): bv32 { if n == 0 then chk else Step(Steps(chk, n - 1)) }

  function StepSix(chk: bv32): bv32 { Step(Step(Step(Step(Step(Step(chk)))))) }

  predicate IsState(chk: bv32) { chk < 0x40000000 }

  predicate AreSymbols(ws: seq<bv32>) { forall i :: 0 <= i < |ws| ==> ws[i] < 32 }

  // ---------------------------------------------------------------------------
  // Exclusive or
  // ---------------------------------------------------------------------------

  lemma XorCommutative(a: bv32, b: bv32)
    ensures Xor(a, b) == Xor(b, a)
  {
  }

  lemma XorAssociative(a: bv32, b: bv32, c: bv32)
    ensures Xor(Xor(a, b), c) == Xor(a, Xor(b, c))
  {
  }

  lemma XorSwap(a: bv32, b: bv32, c: bv32, d: bv32)
    ensures Xor(Xor(a, b), Xor(c, d)) == Xor(Xor(a, c), Xor(b, d))
  {
    hide *;
    XorAssociative(a, b, Xor(c, d));
    XorAssociative(b, c, d);
    XorCommutative(b, c);
    XorAssociative(c, b, d);
    XorAssociative(a, c, Xor(b, d));
  }

  lemma XorSelf(a: bv32)
    ensures Xor(a, a) == 0 && Xor(0, a) == a
  {
  }

  lemma XorCancels(a: bv32, b: bv32)
    ensures Xor(a, Xor(a, b)) == b
  {
    hide *;
    XorAssociative(a, a, b);
    XorSelf(a);
    XorSelf(b);
  }

  lemma XorInjective(a: bv32, b: bv32, c: bv32)
    requires Xor(a, b) == Xor(a, c)
    ensures b == c
  {
    hide *;
    XorCancels(a, b);
    XorCancels(a, c);
  }

  lemma XorIsState(x: bv32, y: bv32)
    requires IsState(x) && IsState(y)
    ensures IsState(Xor(x, y))
  {
  }

  // ---------------------------------------------------------------------------
  // Linearity and bijectivity of the step
  // ---------------------------------------------------------------------------

  lemma ShiftedLinear(x: bv32, y: bv32)
    ensures Shifted(Xor(x, y)) == Xor(Shifted(x), Shifted(y))
  {
  }

  /** Each generator is selected by the bit that leaves the register. */
  lemma TapsLinear(x: bv32, y: bv32)
    ensures var a, b, c := Xor(x, y) >> 25, x >> 25, y >> 25;
      && Tap(a >> 0, 0x3b6a57b2) == Xor(Tap(b >> 0, 0x3b6a57b2), Tap(c >> 0, 0x3b6a57b2))
      && Tap(a >> 1, 0x26508e6d) == Xor(Tap(b >> 1, 0x26508e6d), Tap(c >> 1, 0x26508e6d))
      && Tap(a >> 2, 0x1ea119fa) == Xor(Tap(b >> 2, 0x1ea119fa), Tap(c >> 2, 0x1ea119fa))
      && Tap(a >> 3, 0x3d4233dd) == Xor(Tap(b >> 3, 0x3d4233dd), Tap(c >> 3, 0x3d4233dd))
      && Tap(a >> 4, 0x2a1462b3) == Xor(Tap(b >> 4, 0x2a1462b3), Tap(c >> 4, 0x2a1462b3))
  {
  }

  lemma XorOfFives(a: bv32, b: bv32, c: bv32, d: bv32, e: bv32, v: bv32, w: bv32, x: bv32, y: bv32, z: bv32)
    ensures Xor(Xor(Xor(Xor(Xor(a, v), Xor(b, w)), Xor(c, x)), Xor(d, y)), Xor(e, z))
         == Xor(Xor(Xor(Xor(Xor(a, b), c), d), e), Xor(Xor(Xor(Xor(v, w), x), y), z))
  {
    hide *;
    XorSwap(a, v, b, w);
    XorSwap(Xor(a, b), Xor(v, w), c, x);
    XorSwap(Xor(Xor(a, b), c), Xor(Xor(v, w), x), d, y);
    XorSwap(Xor(Xor(Xor(a, b), c), d), Xor(Xor(Xor(v, w), x), y), e, z);
  }

  lemma ReduceLinear(x: bv32, y: bv32)
    ensures Reduce(Xor(x, y) >> 25) == Xor(Reduce(x >> 25), Reduce(y >> 25))
  {
    hide Xor, Tap;
    TapsLinear(x, y);
    var b, c := x >> 25, y >> 25;
    XorOfFives(Tap(b >> 0, 0x3b6a57b2), Tap(b >> 1, 0x26508e6d), Tap(b >> 2, 0x1ea119fa),
               Tap(b >> 3, 0x3d4233dd), Tap(b >> 4, 0x2a1462b3),
               Tap(c >> 0, 0x3b6a57b2), Tap(c >> 1, 0x26508e6d), Tap(c >> 2, 0x1ea119fa),
               Tap(c >> 3, 0x3d4233dd), Tap(c >> 4, 0x2a1462b3));
  }

  lemma StepParts(x: bv32)
    ensures Step(x) == Xor(Shifted(x), Reduce(x >> 25))
  {
  }

  /** The step distributes over exclusive or. */
  lemma StepLinear(x: bv32, y: bv32)
    ensures Step(Xor(x, y)) == Xor(Step(x), Step(y))
  {
    hide *;
    ShiftedLinear(x, y);
    ReduceLinear(x, y);
    StepParts(x);
    StepParts(y);
    StepParts(Xor(x, y));
    XorSwap(Shifted(x), Shifted(y), Reduce(x >> 25), Reduce(y >> 25));
  }

  lemma StepIsState(x: bv32)
    ensures IsState(Step(x))
  {
  }

  lemma StepKernel(x: bv32)
    requires IsState(x) && Step(x) == 0
    ensures x == 0
  {
  }

  /** The step is injective, hence bijective, on 30-bit states. */
  lemma StepInjective(x: bv32, y: bv32)
    requires IsState(x) && IsState(y) && Step(x) == Step(y)
    ensures x == y
  {
    hide *;
    XorSelf(Step(y));
    StepLinear(x, y);
    XorIsState(x, y);
    StepKernel(Xor(x, y));
    XorSelf(y);
    XorCommutative(x, y);
    XorInjective(y, x, y);
  }
  // ---------------------------------------------------------------------------
  // Words and runs
  // ---------------------------------------------------------------------------

  lemma U32Symbol(v: int)
    requires 0 <= v < 32
    ensures U32(v) as int == v
    ensures U32(v) < 32
  {
    hide *;
    U32Keeps(v);
    BoundFromInt(U32(v));
  }

  lemma U32Keeps(v: int)
    requires 0 <= v < 32
    ensures U32(v) as int == v
  {
    assert v % 0x1_0000_0000 == v;
  }

  lemma BoundFromInt(w: bv32)
    requires w as int < 32
    ensures w < 32
  {
  }

  lemma SymbolBound(w: bv32)
    requires w < 32
    ensures 0 <= w as int < 32
  {
  }

  lemma CastBack(w: bv32)
    ensures (w as int) as bv32 == w
  {
  }

  lemma SymbolAsInt(w: bv32)
    requires w < 32
    ensures 0 <= w as int < 32 && U32(w as int) == w
  {
    SymbolBound(w);
    CastBack(w);
    assert (w as int) % 0x1_0000_0000 == w as int;
  }

  lemma SymbolIsState(w: bv32)
    requires w < 32
    ensures IsState(w)
  {
  }

  lemma FeedIsState(chk: bv32, w: bv32)
    requires w < 32
    ensures IsState(Feed(chk, w))
  {
    hide Step, Xor, IsState;
    StepIsState(chk);
    SymbolIsState(w);
    XorIsState(Step(chk), w);
  }

  lemma {:induction false} RunIsState(chk: bv32, ws: seq<bv32>)
    requires IsState(chk) && AreSymbols(ws)
    ensures IsState(Run(chk, ws))
  {
    hide Feed, IsState;
    if ws != [] {
      RunIsState(chk, ws[..|ws| - 1]);
      FeedIsState(Run(chk, ws[..|ws| - 1]), ws[|ws| - 1]);
    }
  }

  lemma {:induction false} RunConcat(chk: bv32, xs: seq<bv32>, ys: seq<bv32>)
    ensures Run(chk, xs + ys) == Run(Run(chk, xs), ys)
  {
    hide Feed;
    if ys == [] {
      assert xs + ys == xs;
    } else {
      RunConcat(chk, xs, ys[..|ys| - 1]);
      assert (xs + ys)[..|xs + ys| - 1] == xs + ys[..|ys| - 1];
    }
  }

  lemma RunSnoc(chk: bv32, ws: seq<bv32>, w: bv32)
    ensures Run(chk, ws + [w]) == Feed(Run(chk, ws), w)
  {
    hide Feed;
    assert (ws + [w])[..|ws|] == ws;
  }

  /** Feeding the same symbols to two different states never makes them equal. */
  lemma {:induction false} RunInjective(a: bv32, b: bv32, ws: seq<bv32>)
    requires IsState(a) && IsState(b) && AreSymbols(ws)
    requires Run(a, ws) == Run(b, ws)
    ensures a == b
  {
    hide Xor, Step, IsState;
    if ws != [] {
      var pre, w := ws[..|ws| - 1], ws[|ws| - 1];
      RunIsState(a, pre);
      RunIsState(b, pre);
      XorCommutative(Step(Run(a, pre)), w);
      XorCommutative(Step(Run(b, pre)), w);
      XorInjective(w, Step(Run(a, pre)), Step(Run(b, pre)));
      StepInjective(Run(a, pre), Run(b, pre));
      RunInjective(a, b, pre);
    }
  }

  // ---------------------------------------------------------------------------
  // Six symbols fill the register
  // ---------------------------------------------------------------------------

  function Push(x: bv32, w: bv32): bv32 { Xor(x << 5, w) }

  /** Six 5-bit symbols side by side, the first one on top. */
  function Pack(p: seq<bv32>): bv32
    requires |p| == 6
  {
    Push(Push(Push(Push(Push(Push(0, p[0]), p[1]), p[2]), p[3]), p[4]), p[5])
  }

  function Low(c: bv32): bv32 { c & 0x1f }

  function Rest(c: bv32): bv32 { c >> 5 }

  function Shr(c: bv32, n: nat): bv32
    requires n <= 32
  {
    c >> n
  }

  /** The symbols of a 30-bit word, as the encoder's last loop extracts them. */
  function Digits(c: bv32): (p: seq<bv32>)
    ensures |p| == 6
  {
    [Low(Shr(c, 25)), Low(Shr(c, 20)), Low(Shr(c, 15)), Low(Shr(c, 10)), Low(Shr(c, 5)), Low(Shr(c, 0))]
  }

  /** The six symbols that the encoder appends to data that left the register at `chk`. */
  function Checksum(chk: bv32): (p: seq<bv32>)
    ensures |p| == 6
  {
    Digits(Xor(StepSix(chk), 1))
  }

  lemma StepOfSmall(x: bv32)
    requires x < 0x2000000
    ensures Step(x) == x << 5
  {
  }

  lemma FeedSplit(a: bv32, x: bv32, w: bv32)
    requires x < 0x2000000
    ensures Feed(Xor(a, x), w) == Xor(Step(a), Push(x, w))
  {
    hide Xor, Step;
    StepLinear(a, x);
    StepOfSmall(x);
    XorAssociative(Step(a), x << 5, w);
  }

  lemma PushBounds(x: bv32, w: bv32)
    requires w < 32
    ensures x < 0x1 ==> Push(x, w) < 0x20
    ensures x < 0x20 ==> Push(x, w) < 0x400
    ensures x < 0x400 ==> Push(x, w) < 0x8000
    ensures x < 0x8000 ==> Push(x, w) < 0x100000
    ensures x < 0x100000 ==> Push(x, w) < 0x2000000
    ensures x < 0x2000000 ==> Push(x, w) < 0x40000000
  {
  }

  lemma PushInverse(x: bv32, w: bv32)
    requires x < 0x2000000 && w < 32
    ensures Push(x, w) >> 5 == x && Push(x, w) & 0x1f == w
  {
  }

  lemma PushOfParts(c: bv32)
    ensures Push(Rest(c), Low(c)) == c
  {
  }

  /** Distinct groups of six symbols pack to distinct words. */
  lemma PackInjective(p: seq<bv32>, q: seq<bv32>)
    requires |p| == |q| == 6 && AreSymbols(p) && AreSymbols(q)
    requires Pack(p) == Pack(q)
    ensures p == q
  {
    hide Push;
    var x0, y0 := Push(0, p[0]), Push(0, q[0]);
    var x1, y1 := Push(x0, p[1]), Push(y0, q[1]);
    var x2, y2 := Push(x1, p[2]), Push(y1, q[2]);
    var x3, y3 := Push(x2, p[3]), Push(y2, q[3]);
    var x4, y4 := Push(x3, p[4]), Push(y3, q[4]);
    PushBounds(0, p[0]);
    PushBounds(x0, p[1]);
    PushBounds(x1, p[2]);
    PushBounds(x2, p[3]);
    PushBounds(x3, p[4]);
    PushBounds(0, q[0]);
    PushBounds(y0, q[1]);
    PushBounds(y1, q[2]);
    PushBounds(y2, q[3]);
    PushBounds(y3, q[4]);
    PushInverse(x4, p[5]);
    PushInverse(y4, q[5]);
    PushInverse(x3, p[4]);
    PushInverse(y3, q[4]);
    PushInverse(x2, p[3]);
    PushInverse(y2, q[3]);
    PushInverse(x1, p[2]);
    PushInverse(y1, q[2]);
    PushInverse(x0, p[1]);
    PushInverse(y0, q[1]);
    PushInverse(0, p[0]);
    PushInverse(0, q[0]);
  }

  lemma ShrLiterals(c: bv32)
    ensures Shr(c, 25) == c >> 25 && Shr(c, 20) == c >> 20 && Shr(c, 15) == c >> 15
    ensures Shr(c, 10) == c >> 10 && Shr(c, 5) == c >> 5 && Shr(c, 0) == c
  {
  }

  lemma RestOfLiterals(c: bv32)
    requires IsState(c)
    ensures Rest(c >> 25) == 0 && Rest(c >> 20) == c >> 25 && Rest(c >> 15) == c >> 20
    ensures Rest(c >> 10) == c >> 15 && Rest(c >> 5) == c >> 10 && Rest(c) == c >> 5
  {
  }

  lemma RestOfShift(c: bv32)
    requires IsState(c)
    ensures Rest(Shr(c, 25)) == 0 && Rest(Shr(c, 20)) == Shr(c, 25) && Rest(Shr(c, 15)) == Shr(c, 20)
    ensures Rest(Shr(c, 10)) == Shr(c, 15) && Rest(Shr(c, 5)) == Shr(c, 10) && Rest(Shr(c, 0)) == Shr(c, 5)
    ensures Shr(c, 0) == c
  {
    hide Rest, Shr, IsState;
    ShrLiterals(c);
    RestOfLiterals(c);
  }

  lemma LowIsSymbol(c: bv32)
    ensures Low(c) < 32
  {
  }

  lemma PackDigits(c: bv32)
    requires IsState(c)
    ensures AreSymbols(Digits(c)) && Pack(Digits(c)) == c
  {
    hide Push, IsState, Low, Rest, Shr;
    LowIsSymbol(Shr(c, 25));
    LowIsSymbol(Shr(c, 20));
    LowIsSymbol(Shr(c, 15));
    LowIsSymbol(Shr(c, 10));
    LowIsSymbol(Shr(c, 5));
    LowIsSymbol(Shr(c, 0));
    RestOfShift(c);
    PushOfParts(Shr(c, 25));
    PushOfParts(Shr(c, 20));
    PushOfParts(Shr(c, 15));
    PushOfParts(Shr(c, 10));
    PushOfParts(Shr(c, 5));
    PushOfParts(Shr(c, 0));
  }

  lemma RunTake(chk: bv32, p: seq<bv32>, i: nat)
    requires i < |p|
    ensures Run(chk, p[..i + 1]) == Feed(Run(chk, p[..i]), p[i])
  {
    hide *;
    TakeSnoc(p, i);
    RunSnoc(chk, p[..i], p[i]);
  }

  lemma TakeSnoc<T>(s: seq<T>, i: nat)
    requires i < |s|
    ensures s[..i + 1] == s[..i] + [s[i]]
  {
  }

  lemma TakeEnds<T>(s: seq<T>)
    ensures s[..0] == [] && s[..|s|] == s
  {
  }

  lemma RunOfNone(chk: bv32)
    ensures Run(chk, []) == chk
  {
  }

  lemma RunOfSix(chk: bv32, p: seq<bv32>)
    requires |p| == 6
    ensures Run(chk, p) == Feed(Feed(Feed(Feed(Feed(Feed(chk, p[0]), p[1]), p[2]), p[3]), p[4]), p[5])
  {
    hide *;
    TakeEnds(p);
    RunOfNone(chk);
    RunTake(chk, p, 0);
    RunTake(chk, p, 1);
    RunTake(chk, p, 2);
    RunTake(chk, p, 3);
    RunTake(chk, p, 4);
    RunTake(chk, p, 5);
  }

  /** Six symbols fed to any state: six bare steps, with the packed symbols added at the end. */
  lemma RunSix(chk: bv32, p: seq<bv32>)
    requires |p| == 6 && AreSymbols(p)
    ensures Run(chk, p) == Xor(StepSix(chk), Pack(p))
  {
    hide Feed, Push, Xor, Step;
    var x0 := Push(0, p[0]);
    var x1 := Push(x0, p[1]);
    var x2 := Push(x1, p[2]);
    var x3 := Push(x2, p[3]);
    var x4 := Push(x3, p[4]);
    RunOfSix(chk, p);
    PushBounds(0, p[0]);
    PushBounds(x0, p[1]);
    PushBounds(x1, p[2]);
    PushBounds(x2, p[3]);
    PushBounds(x3, p[4]);
    XorCommutative(chk, 0);
    XorSelf(chk);
    var s1 := Step(chk);
    var s2 := Step(s1);
    var s3 := Step(s2);
    var s4 := Step(s3);
    var s5 := Step(s4);
    FeedSplit(chk, 0, p[0]);
    FeedSplit(s1, x0, p[1]);
    FeedSplit(s2, x1, p[2]);
    FeedSplit(s3, x2, p[3]);
    FeedSplit(s4, x3, p[4]);
    FeedSplit(s5, x4, p[5]);
  }

  lemma StepSixIsState(chk: bv32)
    ensures IsState(Xor(StepSix(chk), 1))
  {
    hide Xor, Step, IsState;
    StepIsState(Step(Step(Step(Step(Step(chk))))));
    SymbolIsState(1);
    XorIsState(StepSix(chk), 1);
  }

  lemma ChecksumIsSymbols(chk: bv32)
    ensures AreSymbols(Checksum(chk)) && Pack(Checksum(chk)) == Xor(StepSix(chk), 1)
  {
    hide Xor, StepSix, Pack, Digits, IsState;
    StepSixIsState(chk);
    PackDigits(Xor(StepSix(chk), 1));
  }

  /** Exactly one group of six symbols brings the register to 1: the one the encoder appends. */
  lemma ChecksumUnique(chk: bv32, p: seq<bv32>)
    requires |p| == 6 && AreSymbols(p)
    ensures Run(chk, p) == 1 <==> p == Checksum(chk)
  {
    hide Xor, StepSix, Pack, Digits, Run, Checksum;
    ChecksumIsSymbols(chk);
    RunSix(chk, p);
    if p == Checksum(chk) {
      XorCancels(StepSix(chk), 1);
    }
    if Run(chk, p) == 1 {
      XorCancels(StepSix(chk), Pack(p));
      PackInjective(p, Checksum(chk));
    }
  }

  // ---------------------------------------------------------------------------
  // Burst errors
  // ---------------------------------------------------------------------------

  ghost predicate AgreeOutside(xs: seq<bv32>, ys: seq<bv32>, lo: int, hi: int)
    requires |xs| == |ys|
  {
    forall i :: 0 <= i < |xs| && !(lo <= i < hi) ==> xs[i] == ys[i]
  }

  lemma SplitAround(xs: seq<bv32>, ys: seq<bv32>, lo: nat, hi: nat)
    returns (pre: seq<bv32>, p: seq<bv32>, q: seq<bv32>, post: seq<bv32>)
    requires AreSymbols(xs) && AreSymbols(ys)
    requires |xs| == |ys| >= 6 && lo <= hi <= |xs| && hi - lo <= 6
    requires AgreeOutside(xs, ys, lo, hi)
    ensures xs == pre + p + post && ys == pre + q + post && |p| == |q| == 6
    ensures AreSymbols(pre) && AreSymbols(p) && AreSymbols(q) && AreSymbols(post)
  {
    var at := if lo + 6 <= |xs| then lo else |xs| - 6;
    pre, p, q, post := xs[..at], xs[at..at + 6], ys[at..at + 6], xs[at + 6..];
    assert ys[..at] == pre;
    assert ys[at + 6..] == post;
  }

  lemma WindowInjective(chk: bv32, pre: seq<bv32>, p: seq<bv32>, q: seq<bv32>, post: seq<bv32>)
    requires IsState(chk) && AreSymbols(pre) && AreSymbols(p) && AreSymbols(q) && AreSymbols(post)
    requires |p| == |q| == 6
    requires Run(chk, pre + p + post) == Run(chk, pre + q + post)
    ensures p == q
  {
    hide Xor, StepSix, Pack, Run, IsState, AreSymbols;
    var s := Run(chk, pre);
    RunConcat(chk, pre + p, post);
    RunConcat(chk, pre, p);
    RunConcat(chk, pre + q, post);
    RunConcat(chk, pre, q);
    RunIsState(chk, pre);
    RunIsState(s, p);
    RunIsState(s, q);
    RunInjective(Run(s, p), Run(s, q), post);
    RunSix(s, p);
    RunSix(s, q);
    XorInjective(StepSix(s), Pack(p), Pack(q));
    PackInjective(p, q);
  }

  lemma AppendSymbols(xs: seq<bv32>, ys: seq<bv32>)
    requires AreSymbols(xs) && AreSymbols(ys)
    ensures AreSymbols(xs + ys)
  {
  }

  lemma AppendAgrees(xs: seq<bv32>, ys: seq<bv32>, zs: seq<bv32>, lo: int, hi: int)
    requires |xs| == |ys| && AgreeOutside(xs, ys, lo, hi)
    ensures AgreeOutside(xs + zs, ys + zs, lo, hi)
  {
  }

  lemma SixZeros() returns (zs: seq<bv32>)
    ensures |zs| == 6 && AreSymbols(zs)
  {
    zs := [0, 0, 0, 0, 0, 0];
  }

  lemma SamePrefix<T>(xs: seq<T>, ys: seq<T>, zs: seq<T>)
    requires |xs| == |ys| && xs + zs == ys + zs
    ensures xs == ys
  {
    assert xs == (xs + zs)[..|xs|] && ys == (ys + zs)[..|ys|];
  }

  /** Two symbol sequences of any equal length that drive one state to a common state and differ
      only inside a window of at most six positions are equal. */
  lemma BurstDetected(chk: bv32, xs: seq<bv32>, ys: seq<bv32>, lo: nat, hi: nat)
    requires IsState(chk) && AreSymbols(xs) && AreSymbols(ys)
    requires |xs| == |ys| && lo <= hi <= |xs| && hi - lo <= 6
    requires AgreeOutside(xs, ys, lo, hi)
    requires Run(chk, xs) == Run(chk, ys)
    ensures xs == ys
  {
    hide *;
    var zs := SixZeros();
    AppendSymbols(xs, zs);
    AppendSymbols(ys, zs);
    AppendAgrees(xs, ys, zs, lo, hi);
    RunConcat(chk, xs, zs);
    RunConcat(chk, ys, zs);
    var pre, p, q, post := SplitAround(xs + zs, ys + zs, lo, hi);
    WindowInjective(chk, pre, p, q, post);
    SamePrefix(xs, ys, zs);
  }

  // ---------------------------------------------------------------------------
  // The field structure behind the constants
  // ---------------------------------------------------------------------------

  function Doubled(x: bv32): bv32 { (x & 0x1EF7BDEF) << 1 }

  function Carry(x: bv32): bv32 {
    var c := (x >> 4) & 0x02108421;
    c | (c << 3)
  }

  /** Each of the six 5-bit symbols of a state times the generator of GF(32) = GF(2)[a]/(a^5+a^3+1). */
  function Alpha(x: bv32): bv32 { Xor(Doubled(x), Carry(x)) }

  lemma AlphaPartsLinear(x: bv32, y: bv32)
    ensures Doubled(Xor(x, y)) == Xor(Doubled(x), Doubled(y))
    ensures Carry(Xor(x, y)) == Xor(Carry(x), Carry(y))
  {
  }

  lemma AlphaLinear(x: bv32, y: bv32)
    ensures Alpha(Xor(x, y)) == Xor(Alpha(x), Alpha(y))
  {
    hide Xor, Doubled, Carry;
    AlphaPartsLinear(x, y);
    XorSwap(Doubled(x), Doubled(y), Carry(x), Carry(y));
  }

  lemma AlphaPartsShifted(x: bv32)
    requires IsState(x)
    ensures Shifted(Doubled(x)) == Doubled(Shifted(x))
    ensures Shifted(Carry(x)) == Carry(Shifted(x))
  {
  }

  lemma AlphaShifted(x: bv32)
    requires IsState(x)
    ensures Shifted(Alpha(x)) == Alpha(Shifted(x))
  {
    hide Xor, Doubled, Carry, Shifted;
    AlphaPartsShifted(x);
    ShiftedLinear(Doubled(x), Carry(x));
  }

  lemma AlphaReduce(x: bv32)
    requires IsState(x)
    ensures Reduce(Alpha(x) >> 25) == Alpha(Reduce(x >> 25))
  {
  }

  /** The step is linear over GF(32), not only over GF(2): it commutes with scaling every symbol.
      So the five constants of the source are one set of coefficients, scaled. */
  lemma StepFieldLinear(x: bv32)
    requires IsState(x)
    ensures Step(Alpha(x)) == Alpha(Step(x))
  {
    hide *;
    StepParts(x);
    StepParts(Alpha(x));
    AlphaShifted(x);
    AlphaReduce(x);
    AlphaLinear(Shifted(x), Reduce(x >> 25));
  }

  /** The coefficients are those of the generator polynomial in the section "Bech32" of BIP 173:
      x^6 + 29 x^5 + 22 x^4 + 20 x^3 + 21 x^2 + 29 x + 18. */
  lemma StepGenerator()
    ensures Step(0x2000000) == Pack([29, 22, 20, 21, 29, 18])
  {
  }
}
