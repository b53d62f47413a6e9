/** Wrong symbols anywhere in a Bech32 string: what the field structure of the checksum is for. */
module SymbolErrors {
  import opened Polymod
  import opened Orbit
  import opened Bech32

  // ---------------------------------------------------------------------------
  // Three moved symbols never cancel
  // ---------------------------------------------------------------------------

  lemma SymbolIsLow(d: bv32)
    requires d < 32
    ensures Low(d) == d
  {
  }

  lemma Above25(x: bv32, d: bv32)
    ensures Low(Xor(x, Low(d)) >> 25) == Low(x >> 25)
  {
  }

  lemma Above20(x: bv32, d: bv32)
    ensures Low(Xor(x, Low(d)) >> 20) == Low(x >> 20)
  {
  }

  lemma Above15(x: bv32, d: bv32)
    ensures Low(Xor(x, Low(d)) >> 15) == Low(x >> 15)
  {
  }

  lemma Above10(x: bv32, d: bv32)
    ensures Low(Xor(x, Low(d)) >> 10) == Low(x >> 10)
  {
  }

  lemma Above5(x: bv32, d: bv32)
    ensures Low(Xor(x, Low(d)) >> 5) == Low(x >> 5)
  {
  }

  lemma LowKeepsPlace(x: bv32, d: bv32)
    ensures Key(Xor(x, Low(d))) == Key(x)
  {
    hide Xor, Low, Log, Ratios;
    assert Log(Low(Xor(x, Low(d)) >> 25)) == Log(Low(x >> 25)) by { Above25(x, d); }
    assert Log(Low(Xor(x, Low(d)) >> 20)) == Log(Low(x >> 20)) by { Above20(x, d); }
    assert Log(Low(Xor(x, Low(d)) >> 15)) == Log(Low(x >> 15)) by { Above15(x, d); }
    assert Log(Low(Xor(x, Low(d)) >> 10)) == Log(Low(x >> 10)) by { Above10(x, d); }
    assert Log(Low(Xor(x, Low(d)) >> 5)) == Log(Low(x >> 5)) by { Above5(x, d); }
  }

  /** Two states that differ in the bottom symbol only are in the same place. */
  lemma SamePlace(x: bv32, y: bv32)
    requires Xor(x, y) < 32
    ensures Key(x) == Key(y)
  {
    hide *;
    XorCancels(x, y);
    SymbolIsLow(Xor(x, y));
    LowKeepsPlace(x, Xor(x, y));
  }

  /** A symbol is in the place of zero, to which no number is given. */
  lemma SymbolHasNoPlace(x: bv32)
    requires x < 32
    ensures StepsTo(Key(x)) == 0
  {
    hide Key, StepsTo, Xor;
    XorZero(x);
    SamePlace(x, 0);
    ZeroHasNoPlace();
  }

  lemma ZeroHasNoPlace()
    ensures StepsTo(Key(0)) == 0
  {
  }

  lemma XorZero(a: bv32)
    ensures Xor(a, 0) == a && Xor(0, a) == a && Xor(a, a) == 0
  {
  }

  lemma XorIsZero(a: bv32, b: bv32)
    requires Xor(a, b) == 0
    ensures a == b
  {
  }

  lemma StepZero()
    ensures Step(0) == 0
  {
  }

  lemma {:induction false} StepsOfZero(n: nat)
    ensures Steps(0, n) == 0
  {
    hide Step;
    StepZero();
    if n > 0 {
      StepsOfZero(n - 1);
    }
  }

  /** Two symbols moved by different numbers of steps up to 88 add up to a symbol only if both are zero. */
  lemma MovedSymbolsApart(a: bv32, n: nat, b: bv32, m: nat)
    requires a < 32 && b < 32 && 1 <= m < n <= 88
    requires Xor(Steps(a, n), Steps(b, m)) < 32
    ensures a == 0 && b == 0
  {
    hide *;
    StepsOfZero(n);
    StepsOfZero(m);
    XorZero(Steps(a, n));
    XorZero(Steps(b, m));
    if a != 0 {
      PlaceTellsSteps(a, n);
    }
    if b != 0 {
      PlaceTellsSteps(b, m);
    }
    SamePlace(Steps(a, n), Steps(b, m));
    if a == 0 || b == 0 {
      SymbolHasNoPlace(if a == 0 then Steps(b, m) else Steps(a, n));
    }
  }

  // ---------------------------------------------------------------------------
  // Three wrong symbols
  // ---------------------------------------------------------------------------

  lemma {:induction false} StepsLinear(x: bv32, y: bv32, n: nat)
    ensures Steps(Xor(x, y), n) == Xor(Steps(x, n), Steps(y, n))
  {
    hide Xor, Step;
    if n > 0 {
      StepsLinear(x, y, n - 1);
      StepLinear(Steps(x, n - 1), Steps(y, n - 1));
    }
  }

  lemma {:induction false} StepsAdd(x: bv32, m: nat, n: nat)
    ensures Steps(Steps(x, m), n) == Steps(x, m + n)
  {
    hide Step;
    if n > 0 {
      StepsAdd(x, m, n - 1);
    }
  }

  lemma FeedDifference(u: bv32, v: bv32, a: bv32, b: bv32)
    ensures Xor(Feed(u, a), Feed(v, b)) == Xor(Step(Xor(u, v)), Xor(a, b))
  {
    hide Xor, Step;
    XorSwap(Step(u), a, Step(v), b);
    StepLinear(u, v);
  }

  /** Fed the same symbols, two states differ by what the steps make of their difference. */
  lemma {:induction false} RunDifference(u: bv32, v: bv32, ws: seq<bv32>)
    ensures Xor(Run(u, ws), Run(v, ws)) == Steps(Xor(u, v), |ws|)
  {
    hide Xor, Step, Feed;
    if ws != [] {
      var pre, w := ws[..|ws| - 1], ws[|ws| - 1];
      RunDifference(u, v, pre);
      FeedDifference(Run(u, pre), Run(v, pre), w, w);
      XorZero(w);
      XorZero(Step(Xor(Run(u, pre), Run(v, pre))));
    }
  }

  /** The same with one more symbol, which may be wrong. */
  lemma NextDifference(u: bv32, v: bv32, mid: seq<bv32>, b: bv32, b': bv32)
    ensures Xor(Feed(Run(u, mid), b), Feed(Run(v, mid), b')) == Xor(Steps(Xor(u, v), |mid| + 1), Xor(b, b'))
  {
    hide Xor, Step, Feed, Run;
    RunDifference(u, v, mid);
    FeedDifference(Run(u, mid), Run(v, mid), b, b');
  }

  lemma SymbolDifference(a: bv32, b: bv32)
    requires a < 32 && b < 32
    ensures Xor(a, b) < 32 && (Xor(a, b) == 0 <==> a == b)
  {
  }

  /** Three symbols that are fed to one state with others in between are determined by where they lead. */
  lemma TripleInjective(s: bv32, a: bv32, b: bv32, c: bv32, mid: seq<bv32>, mid': seq<bv32>,
                        a': bv32, b': bv32, c': bv32)
    requires a < 32 && b < 32 && c < 32 && a' < 32 && b' < 32 && c' < 32 && |mid| + |mid'| < 87
    requires Feed(Run(Feed(Run(Feed(s, a), mid), b), mid'), c)
          == Feed(Run(Feed(Run(Feed(s, a'), mid), b'), mid'), c')
    ensures a == a' && b == b' && c == c'
  {
    hide *;
    var d, e, f := Xor(a, a'), Xor(b, b'), Xor(c, c');
    var m, n := |mid'| + 1, |mid| + 1 + |mid'| + 1;
    SymbolDifference(a, a');
    SymbolDifference(b, b');
    SymbolDifference(c, c');
    var u, u' := Feed(s, a), Feed(s, a');
    FeedDifference(s, s, a, a');
    XorZero(s);
    StepZero();
    XorZero(d);
    var v, v' := Feed(Run(u, mid), b), Feed(Run(u', mid), b');
    NextDifference(u, u', mid, b, b');
    NextDifference(v, v', mid', c, c');
    XorZero(Feed(Run(v, mid'), c));
    StepsLinear(Steps(d, |mid| + 1), e, m);
    StepsAdd(d, |mid| + 1, m);
    XorIsZero(Xor(Steps(d, n), Steps(e, m)), f);
    MovedSymbolsApart(d, n, e, m);
    StepsOfZero(n);
    StepsOfZero(m);
    XorZero(0);
  }

  lemma RunAround(chk: bv32, pre: seq<bv32>, a: bv32, mid: seq<bv32>, b: bv32, mid': seq<bv32>, c: bv32,
                  post: seq<bv32>)
    ensures Run(chk, pre + [a] + mid + [b] + mid' + [c] + post)
         == Run(Feed(Run(Feed(Run(Feed(Run(chk, pre), a), mid), b), mid'), c), post)
  {
    hide Run, Feed;
    RunConcat(chk, pre + [a] + mid + [b] + mid' + [c], post);
    RunSnoc(chk, pre + [a] + mid + [b] + mid', c);
    RunConcat(chk, pre + [a] + mid + [b], mid');
    RunSnoc(chk, pre + [a] + mid, b);
    RunConcat(chk, pre + [a], mid);
    RunSnoc(chk, pre, a);
  }

  ghost predicate AgreeExcept<T>(xs: seq<T>, ys: seq<T>, i: int, j: int, k: int)
    requires |xs| == |ys|
  {
    forall p :: 0 <= p < |xs| && p != i && p != j && p != k ==> xs[p] == ys[p]
  }

  lemma SplitAtThree<T>(xs: seq<T>, ys: seq<T>, i: nat, j: nat, k: nat)
    returns (pre: seq<T>, mid: seq<T>, mid': seq<T>, post: seq<T>)
    requires |xs| == |ys| && i < j < k < |xs| && AgreeExcept(xs, ys, i, j, k)
    ensures xs == pre + [xs[i]] + mid + [xs[j]] + mid' + [xs[k]] + post
    ensures ys == pre + [ys[i]] + mid + [ys[j]] + mid' + [ys[k]] + post
    ensures |mid| + |mid'| == k - i - 2
  {
    pre, mid, mid', post := xs[..i], xs[i + 1..j], xs[j + 1..k], xs[k + 1..];
    assert ys[..i] == pre && ys[i + 1..j] == mid && ys[j + 1..k] == mid' && ys[k + 1..] == post;
  }

  lemma ConcatAreSymbols(xs: seq<bv32>, ys: seq<bv32>)
    requires AreSymbols(xs + ys)
    ensures AreSymbols(xs) && AreSymbols(ys)
  {
    assert forall i :: 0 <= i < |xs| ==> (xs + ys)[i] == xs[i];
    assert forall i :: 0 <= i < |ys| ==> (xs + ys)[|xs| + i] == ys[i];
  }

  lemma SingleSymbol(w: bv32)
    requires AreSymbols([w])
    ensures w < 32
  {
    assert [w][0] == w;
  }

  lemma PiecesAreSymbols(pre: seq<bv32>, a: bv32, mid: seq<bv32>, b: bv32, mid': seq<bv32>, c: bv32, post: seq<bv32>)
    requires AreSymbols(pre + [a] + mid + [b] + mid' + [c] + post)
    ensures a < 32 && b < 32 && c < 32 && AreSymbols(post)
  {
    hide AreSymbols;
    ConcatAreSymbols(pre + [a] + mid + [b] + mid' + [c], post);
    ConcatAreSymbols(pre + [a] + mid + [b] + mid', [c]);
    ConcatAreSymbols(pre + [a] + mid + [b], mid');
    ConcatAreSymbols(pre + [a] + mid, [b]);
    ConcatAreSymbols(pre + [a], mid);
    ConcatAreSymbols(pre, [a]);
    SingleSymbol(a);
    SingleSymbol(b);
    SingleSymbol(c);
  }

  lemma TripleDetected(chk: bv32, pre: seq<bv32>, a: bv32, b: bv32, c: bv32, mid: seq<bv32>, mid': seq<bv32>,
                       a': bv32, b': bv32, c': bv32, post: seq<bv32>)
    requires |mid| + |mid'| < 87
    requires AreSymbols(pre + [a] + mid + [b] + mid' + [c] + post)
    requires AreSymbols(pre + [a'] + mid + [b'] + mid' + [c'] + post)
    requires Run(chk, pre + [a] + mid + [b] + mid' + [c] + post)
          == Run(chk, pre + [a'] + mid + [b'] + mid' + [c'] + post)
    ensures a == a' && b == b' && c == c'
  {
    hide *;
    PiecesAreSymbols(pre, a, mid, b, mid', c, post);
    PiecesAreSymbols(pre, a', mid, b', mid', c', post);
    RunAround(chk, pre, a, mid, b, mid', c, post);
    RunAround(chk, pre, a', mid, b', mid', c', post);
    var s := Run(chk, pre);
    var v, v' := Run(Feed(Run(Feed(s, a), mid), b), mid'), Run(Feed(Run(Feed(s, a'), mid), b'), mid');
    FeedIsState(v, c);
    FeedIsState(v', c');
    RunInjective(Feed(v, c), Feed(v', c'), post);
    TripleInjective(s, a, b, c, mid, mid', a', b', c');
  }

  /** Two symbol sequences of any equal length that lead one state to a common state and differ in at most
      three positions, no more than 88 apart, are equal. */
  lemma ThreeErrorsDetected(chk: bv32, xs: seq<bv32>, ys: seq<bv32>, i: nat, j: nat, k: nat)
    requires AreSymbols(xs) && AreSymbols(ys)
    requires |xs| == |ys| && i < j < k < |xs| && k - i <= 88
    requires AgreeExcept(xs, ys, i, j, k)
    requires Run(chk, xs) == Run(chk, ys)
    ensures xs == ys
  {
    hide *;
    var pre, mid, mid', post := SplitAtThree(xs, ys, i, j, k);
    TripleDetected(chk, pre, xs[i], xs[j], xs[k], mid, mid', ys[i], ys[j], ys[k], post);
  }

  // ---------------------------------------------------------------------------
  // Three wrong characters after the separator
  // ---------------------------------------------------------------------------

  lemma ThreeDataErrors(hrp: seq<Char>, xs: seq<int>, ys: seq<int>, i: nat, j: nat, k: nat)
    requires AreFiveBit(xs) && AreFiveBit(ys) && |xs| == |ys| && i < j < k < |xs| && k - i <= 88
    requires AgreeExcept(xs, ys, i, j, k)
    requires DataState(hrp, xs) == DataState(hrp, ys)
    ensures xs == ys
  {
    hide Run, IsState, U32, AreSymbols, HrpState;
    WordsAreSymbols(xs);
    WordsAreSymbols(ys);
    ThreeErrorsDetected(HrpState(hrp), Words(xs), Words(ys), i, j, k);
    WordsInjective(xs, ys);
  }

  lemma PartsAgree(s: seq<Char>, t: seq<Char>, sep: nat, i: nat, j: nat, k: nat)
    requires |s| == |t| && sep < i < j < k < |s| && AgreeExcept(LowerAll(s), LowerAll(t), i, j, k)
    requires AreFiveBit(Symbols(s[sep + 1..])) && AreFiveBit(Symbols(t[sep + 1..]))
    ensures LowerAll(s[..sep]) == LowerAll(t[..sep])
    ensures AgreeExcept(Symbols(s[sep + 1..]), Symbols(t[sep + 1..]), i - sep - 1, j - sep - 1, k - sep - 1)
  {
    hide Symbols, AreFiveBit;
    assert forall p :: 0 <= p < |s| ==> LowerAll(s)[p] == Lower(s[p]) && LowerAll(t)[p] == Lower(t[p]);
    var a, b := s[sep + 1..], t[sep + 1..];
    forall p | 0 <= p < |a| && p != i - sep - 1 && p != j - sep - 1 && p != k - sep - 1
      ensures Symbols(a)[p] == Symbols(b)[p]
    {
      assert LowerAll(s)[p + sep + 1] == LowerAll(t)[p + sep + 1];
      SymbolsIgnoreCase(a, b, p);
    }
  }

  /** Two accepted strings of the same length with the same separator position that differ (beyond letter case)
      in at most three characters after it, however far apart, are the same string. */
  lemma AcceptedThreeErrors(s: seq<Char>, t: seq<Char>, i: nat, j: nat, k: nat)
    requires Decode(s).Some? && Decode(t).Some? && |s| == |t|
    requires LastSeparator(s) == LastSeparator(t) < i < j < k < |s|
    requires AgreeExcept(LowerAll(s), LowerAll(t), i, j, k)
    ensures LowerAll(s) == LowerAll(t)
  {
    hide *;
    var sep := LastSeparator(s);
    DecodedParts(s);
    DecodedParts(t);
    PartsAgree(s, t, sep, i, j, k);
    ThreeDataErrors(LowerAll(s[..sep]), Symbols(s[sep + 1..]), Symbols(t[sep + 1..]),
                    i - sep - 1, j - sep - 1, k - sep - 1);
    AcceptedStringsAgree(s, t);
  }

  // ---------------------------------------------------------------------------
  // One wrong character in the human readable part
  // ---------------------------------------------------------------------------

  /** All that is fed to the register, in one sequence. */
  function AllWords(hrp: seq<Char>, data: seq<int>): seq<bv32> {
    HighWords(hrp) + [0] + LowWords(hrp) + Words(data)
  }

  lemma StepIsFeed(chk: bv32)
    ensures Step(chk) == Feed(chk, 0)
  {
    hide Step, Xor;
    XorZero(Step(chk));
  }

  lemma AllWordsRun(hrp: seq<Char>, data: seq<int>)
    ensures Run(1, AllWords(hrp, data)) == DataState(hrp, data)
  {
    hide Run, Step, Feed, HighWords, LowWords, Words;
    RunConcat(1, HighWords(hrp) + [0] + LowWords(hrp), Words(data));
    RunConcat(1, HighWords(hrp) + [0], LowWords(hrp));
    RunSnoc(1, HighWords(hrp), 0);
    StepIsFeed(Run(1, HighWords(hrp)));
  }

  lemma AllWordsAt(hrp: seq<Char>, data: seq<int>, p: nat)
    requires p < 2 * |hrp| + 1 + |data|
    ensures |AllWords(hrp, data)| == 2 * |hrp| + 1 + |data|
    ensures var n := |hrp|;
      AllWords(hrp, data)[p] == if p < n then U32(hrp[p] / 32) else if p == n then 0
                                   else if p <= 2 * n then U32(hrp[p - n - 1] % 32) else U32(data[p - 2 * n - 1])
  {
    hide U32;
  }

  lemma AllWordsAreSymbols(hrp: seq<Char>, data: seq<int>)
    requires HrpDecodable(hrp) && AreFiveBit(data)
    ensures AreSymbols(AllWords(hrp, data))
  {
    hide U32, AllWords;
    AllWordsAt(hrp, data, 0);
    forall p | 0 <= p < |AllWords(hrp, data)|
      ensures AllWords(hrp, data)[p] < 32
    {
      AllWordsAt(hrp, data, p);
      var n := |hrp|;
      if p < n {
        U32Symbol(hrp[p] / 32);
      } else if n < p <= 2 * n {
        U32Symbol(hrp[p - n - 1] % 32);
      } else if 2 * n < p {
        U32Symbol(data[p - 2 * n - 1]);
      }
    }
  }

  lemma U32Injective(v: int, w: int)
    requires 0 <= v < 32 && 0 <= w < 32 && U32(v) == U32(w)
    ensures v == w
  {
    hide U32;
    U32Symbol(v);
    U32Symbol(w);
  }

  /** A wrong character changes two symbols, one in front of the zero and one behind. */
  lemma OneHrpError(h: seq<Char>, g: seq<Char>, data: seq<int>, i: nat)
    requires HrpDecodable(h) && HrpDecodable(g) && AreFiveBit(data) && |h| == |g| <= 87 && i < |h|
    requires forall p :: 0 <= p < |h| && p != i ==> h[p] == g[p]
    requires DataState(h, data) == DataState(g, data)
    ensures h == g
  {
    hide U32, AllWords, DataState, Run, AreSymbols;
    var xs, ys := AllWords(h, data), AllWords(g, data);
    var n := |h|;
    AllWordsAt(h, data, i);
    AllWordsAt(g, data, i);
    forall p | 0 <= p < |xs| && p != i && p != i + 1 && p != i + n + 1
      ensures xs[p] == ys[p]
    {
      AllWordsAt(h, data, p);
      AllWordsAt(g, data, p);
    }
    AllWordsRun(h, data);
    AllWordsRun(g, data);
    AllWordsAreSymbols(h, data);
    AllWordsAreSymbols(g, data);
    ThreeErrorsDetected(1, xs, ys, i, i + 1, i + n + 1);
    AllWordsAt(h, data, i + n + 1);
    AllWordsAt(g, data, i + n + 1);
    U32Injective(h[i] / 32, g[i] / 32);
    U32Injective(h[i] % 32, g[i] % 32);
  }

  lemma LowerParts(s: seq<Char>, sep: nat)
    requires sep < |s|
    ensures LowerAll(s[..sep]) == LowerAll(s)[..sep] && LowerAll(s[sep + 1..]) == LowerAll(s)[sep + 1..]
    ensures LowerAll(s)[sep] == Lower(s[sep])
    ensures HrpDecodable(s[..sep]) ==> HrpDecodable(LowerAll(s[..sep]))
  {
  }

  lemma SameSymbols(a: seq<Char>, b: seq<Char>)
    requires LowerAll(a) == LowerAll(b) && AreFiveBit(Symbols(a)) && AreFiveBit(Symbols(b))
    ensures Symbols(a) == Symbols(b)
  {
    hide Symbols, LowerAll, AreFiveBit;
    assert |a| == |LowerAll(a)| == |LowerAll(b)| == |b|;
    forall p | 0 <= p < |a|
      ensures Symbols(a)[p] == Symbols(b)[p]
    {
      SymbolsIgnoreCase(a, b, p);
    }
  }

  /** Two accepted strings of the same length with the same separator position that differ (beyond letter case)
      in one character of the human readable part at most are the same string. */
  lemma AcceptedHrpError(s: seq<Char>, t: seq<Char>, i: nat)
    requires Decode(s).Some? && Decode(t).Some? && |s| == |t|
    requires i < LastSeparator(s) == LastSeparator(t)
    requires forall p :: 0 <= p < |s| && p != i ==> LowerAll(s)[p] == LowerAll(t)[p]
    ensures LowerAll(s) == LowerAll(t)
  {
    hide DataState, Decode, Symbols, LowerAll, HrpDecodable, AreFiveBit, LastSeparator;
    var sep := LastSeparator(s);
    DecodedParts(s);
    DecodedParts(t);
    LowerParts(s, sep);
    LowerParts(t, sep);
    SameSymbols(s[sep + 1..], t[sep + 1..]);
    OneHrpError(LowerAll(s[..sep]), LowerAll(t[..sep]), Symbols(s[sep + 1..]), i);
    AcceptedStringsAgree(s, t);
  }

  /** Two accepted strings of the same length with the same separator position that differ (beyond letter case)
      in at most one character, wherever it is, are the same string. */
  lemma AcceptedOneError(s: seq<Char>, t: seq<Char>, i: nat)
    requires Decode(s).Some? && Decode(t).Some? && |s| == |t| && i < |s|
    requires LastSeparator(s) == LastSeparator(t)
    requires forall p :: 0 <= p < |s| && p != i ==> LowerAll(s)[p] == LowerAll(t)[p]
    ensures LowerAll(s) == LowerAll(t)
  {
    hide DataState, Decode, Symbols, LowerAll, HrpDecodable, AreFiveBit;
    var sep := LastSeparator(s);
    DecodedParts(s);
    if i < sep {
      AcceptedHrpError(s, t, i);
    } else if i <= sep + 3 {
      LowerParts(s, sep);
      LowerParts(t, sep);
      AcceptedThreeErrors(s, t, sep + 1, sep + 2, sep + 3);
    } else {
      AcceptedThreeErrors(s, t, sep + 1, sep + 2, i);
    }
  }
}
