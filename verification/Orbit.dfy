/** Where a symbol gets to in the checksum register, up to scaling in GF(32): a table of 88 steps. */
module Orbit {
  import opened Polymod

  // ---------------------------------------------------------------------------
  // Scaling
  // ---------------------------------------------------------------------------

  lemma {:induction false} StepsIsState(x: bv32, n: nat)
    requires IsState(x)
    ensures IsState(Steps(x, n))
  {
    hide Step, IsState;
    if n > 0 {
      StepIsState(Steps(x, n - 1));
    }
  }

  /** Moving a scaled symbol through the register is scaling the moved symbol. */
  lemma {:induction false} StepsAlpha(x: bv32, n: nat)
    requires IsState(x)
    ensures Steps(Alpha(x), n) == Alpha(Steps(x, n))
  {
    hide Step, Alpha, IsState;
    if n > 0 {
      StepsAlpha(x, n - 1);
      StepsIsState(x, n - 1);
      StepFieldLinear(Steps(x, n - 1));
    }
  }

  lemma AlphaIsState(x: bv32)
    requires IsState(x)
    ensures IsState(Alpha(x))
  {
  }

  /** The powers of the generator of GF(32). */
  function Power(k: nat): bv32 { if k == 0 then 1 else Alpha(Power(k - 1)) }

  /** The exponent of a nonzero symbol, and -1 for zero. */
  function Log(x: bv32): (k: int)
    ensures -1 <= k < 31
  {
    match x
    case 1 => 0 case 2 => 1 case 3 => 14 case 4 => 2 case 5 => 28 case 6 => 15 case 7 => 22 case 8 => 3
    case 9 => 5 case 10 => 29 case 11 => 26 case 12 => 16 case 13 => 7 case 14 => 23 case 15 => 11 case 16 => 4
    case 17 => 25 case 18 => 6 case 19 => 10 case 20 => 30 case 21 => 13 case 22 => 27 case 23 => 21
    case 24 => 17 case 25 => 18 case 26 => 8 case 27 => 19 case 28 => 24 case 29 => 9 case 30 => 12
    case 31 => 20
    case _ => -1
  }

  lemma AlphaTable()
    ensures Alpha(1) == 2 && Alpha(2) == 4 && Alpha(4) == 8 && Alpha(8) == 16 && Alpha(16) == 9
    ensures Alpha(9) == 18 && Alpha(18) == 13 && Alpha(13) == 26 && Alpha(26) == 29 && Alpha(29) == 19
    ensures Alpha(19) == 15 && Alpha(15) == 30 && Alpha(30) == 21 && Alpha(21) == 3 && Alpha(3) == 6
    ensures Alpha(6) == 12 && Alpha(12) == 24 && Alpha(24) == 25 && Alpha(25) == 27 && Alpha(27) == 31
    ensures Alpha(31) == 23 && Alpha(23) == 7 && Alpha(7) == 14 && Alpha(14) == 28 && Alpha(28) == 17
    ensures Alpha(17) == 11 && Alpha(11) == 22 && Alpha(22) == 5 && Alpha(5) == 10 && Alpha(10) == 20
    ensures Alpha(20) == 1
  {
  }

  lemma PowerTable()
    ensures Power(0) == 1 && Power(1) == 2 && Power(2) == 4 && Power(3) == 8 && Power(4) == 16
    ensures Power(5) == 9 && Power(6) == 18 && Power(7) == 13 && Power(8) == 26 && Power(9) == 29
    ensures Power(10) == 19 && Power(11) == 15 && Power(12) == 30 && Power(13) == 21 && Power(14) == 3
    ensures Power(15) == 6 && Power(16) == 12 && Power(17) == 24 && Power(18) == 25 && Power(19) == 27
    ensures Power(20) == 31 && Power(21) == 23 && Power(22) == 7 && Power(23) == 14 && Power(24) == 28
    ensures Power(25) == 17 && Power(26) == 11 && Power(27) == 22 && Power(28) == 5 && Power(29) == 10
    ensures Power(30) == 20
  {
    hide Alpha;
    AlphaTable();
  }

  /** Every nonzero symbol is a power. */
  lemma PowerOfLog(x: bv32)
    requires 0 < x < 32
    ensures Log(x) >= 0 && Power(Log(x)) == x
  {
    hide Power;
    PowerTable();
  }

  /** An exponent moved on by one, around 31. */
  function Next(k: int): int { if k == -1 then -1 else (k + 1) % 31 }

  lemma LogAlphaLow(s: bv32)
    requires s < 16
    ensures Log(Alpha(s)) == Next(Log(s))
  {
    hide Alpha;
    AlphaTable();
    AlphaOfZero();
  }

  lemma LogAlphaHigh(s: bv32)
    requires 16 <= s < 32
    ensures Log(Alpha(s)) == Next(Log(s))
  {
    hide Alpha;
    AlphaTable();
  }

  lemma LogAlpha(s: bv32)
    requires s < 32
    ensures Log(Alpha(s)) == Next(Log(s))
  {
    hide *;
    if s < 16 {
      LogAlphaLow(s);
    } else {
      LogAlphaHigh(s);
    }
  }

  lemma AlphaOfZero()
    ensures Alpha(0) == 0
  {
  }

  // ---------------------------------------------------------------------------
  // What scaling leaves alone
  // ---------------------------------------------------------------------------

  lemma UpperSymbolsAlpha(x: bv32)
    requires IsState(x)
    ensures Low(Alpha(x) >> 25) == Alpha(Low(x >> 25)) && Low(Alpha(x) >> 20) == Alpha(Low(x >> 20))
  {
  }

  lemma LowerSymbolsAlpha(x: bv32)
    requires IsState(x)
    ensures Low(Alpha(x) >> 15) == Alpha(Low(x >> 15)) && Low(Alpha(x) >> 10) == Alpha(Low(x >> 10))
    ensures Low(Alpha(x) >> 5) == Alpha(Low(x >> 5))
  {
  }

  /** The first logarithm that is not of zero. */
  function First(a: int, b: int, c: int, d: int, e: int): int {
    if a != -1 then a else if b != -1 then b else if c != -1 then c else if d != -1 then d else e
  }

  /** A symbol relative to the first nonzero one: the difference of the logarithms, or 31 for zero. */
  function Ratio(k: int, first: int): int { if k == -1 then 31 else (k - first) % 31 }

  function Ratios(a: int, b: int, c: int, d: int, e: int): int {
    var f := First(a, b, c, d, e);
    (((Ratio(a, f) * 32 + Ratio(b, f)) * 32 + Ratio(c, f)) * 32 + Ratio(d, f)) * 32 + Ratio(e, f)
  }

  /** The upper five symbols of a state, up to scaling. */
  function Key(x: bv32): int {
    Ratios(Log(Low(x >> 25)), Log(Low(x >> 20)), Log(Low(x >> 15)), Log(Low(x >> 10)), Log(Low(x >> 5)))
  }

  lemma RatioNext(k: int, first: int)
    requires -1 <= k < 31 && -1 <= first < 31 && (k != -1 ==> first != -1)
    ensures Ratio(Next(k), Next(first)) == Ratio(k, first)
  {
  }

  lemma RatiosNext(a: int, b: int, c: int, d: int, e: int)
    requires -1 <= a < 31 && -1 <= b < 31 && -1 <= c < 31 && -1 <= d < 31 && -1 <= e < 31
    ensures Ratios(Next(a), Next(b), Next(c), Next(d), Next(e)) == Ratios(a, b, c, d, e)
  {
    hide Ratio;
    var f := First(a, b, c, d, e);
    RatioNext(a, f);
    RatioNext(b, f);
    RatioNext(c, f);
    RatioNext(d, f);
    RatioNext(e, f);
  }

  lemma LogLowAlpha(x: bv32)
    ensures Log(Alpha(Low(x))) == Next(Log(Low(x)))
  {
    hide Low, Alpha, Log;
    LowIsSymbol(x);
    LogAlpha(Low(x));
  }

  lemma KeyAlpha(x: bv32)
    requires IsState(x)
    ensures Key(Alpha(x)) == Key(x)
  {
    hide Alpha, IsState, Ratios, Log, Low, Next;
    UpperSymbolsAlpha(x);
    LowerSymbolsAlpha(x);
    LogLowAlpha(x >> 25);
    LogLowAlpha(x >> 20);
    LogLowAlpha(x >> 15);
    LogLowAlpha(x >> 10);
    LogLowAlpha(x >> 5);
    RatiosNext(Log(Low(x >> 25)), Log(Low(x >> 20)), Log(Low(x >> 15)), Log(Low(x >> 10)), Log(Low(x >> 5)));
  }

  lemma {:induction false} KeyOfPower(k: nat, n: nat)
    ensures IsState(Power(k)) && Key(Steps(Power(k), n)) == Key(Steps(1, n))
  {
    hide Alpha, Key, Steps, IsState;
    if k == 0 {
      SymbolIsState(1);
    } else {
      KeyOfPower(k - 1, n);
      AlphaIsState(Power(k - 1));
      StepsAlpha(Power(k - 1), n);
      StepsIsState(Power(k - 1), n);
      KeyAlpha(Steps(Power(k - 1), n));
    }
  }

  /** Where a symbol is after `n` steps does not depend, up to scaling, on which one it is. */
  lemma KeyOfSteps(s: bv32, n: nat)
    requires 0 < s < 32
    ensures Key(Steps(s, n)) == Key(Steps(1, n))
  {
    hide *;
    PowerOfLog(s);
    KeyOfPower(Log(s), n);
  }

  // ---------------------------------------------------------------------------
  // The first 88 powers of the step
  // ---------------------------------------------------------------------------

  /** How many steps, up to 88, lead from 1 to a state with this key; 0 for the key of no symbols. */
  function StepsTo(key: int): int {
    if key < 271978 then
      if key < 8276 then 8 else if key < 14256 then 84 else if key < 20888 then 31 else
      if key < 58008 then 56 else if key < 99537 then 25 else if key < 105499 then 48 else
      if key < 152322 then 60 else if key < 196669 then 71 else if key < 212244 then 61 else
      if key < 233950 then 58 else 36
    else if key < 353732 then
      if key < 291737 then 70 else if key < 293432 then 41 else if key < 295267 then 86 else
      if key < 301587 then 50 else if key < 310291 then 26 else if key < 310469 then 18 else
      if key < 314882 then 75 else if key < 325733 then 20 else if key < 344372 then 33 else
      if key < 346206 then 62 else 22
    else if key < 410555 then
      if key < 373954 then 87 else if key < 378742 then 69 else if key < 381301 then 37 else
      if key < 381314 then 16 else if key < 387674 then 77 else if key < 392729 then 47 else
      if key < 394549 then 13 else if key < 395257 then 29 else if key < 398726 then 66 else
      if key < 399507 then 57 else 79
    else if key < 611456 then
      if key < 458800 then 39 else if key < 477072 then 74 else if key < 513860 then 68 else
      if key < 537796 then 28 else if key < 541286 then 63 else if key < 547411 then 67 else
      if key < 559915 then 30 else if key < 567187 then 49 else if key < 583692 then 53 else
      if key < 596700 then 38 else 83
    else if key < 718347 then
      if key < 626023 then 6 else if key < 631548 then 42 else if key < 635153 then 24 else
      if key < 642342 then 23 else if key < 658906 then 80 else if key < 676978 then 15 else
      if key < 686559 then 64 else if key < 696413 then 55 else if key < 700282 then 82 else
      if key < 708405 then 14 else 32
    else if key < 951183 then
      if key < 723393 then 45 else if key < 765102 then 9 else if key < 775418 then 85 else
      if key < 777893 then 81 else if key < 797376 then 35 else if key < 799326 then 11 else
      if key < 848927 then 59 else if key < 871771 then 40 else if key < 921668 then 46 else
      if key < 928729 then 43 else 12
    else if key < 1048575 then
      if key < 964026 then 7 else if key < 969078 then 10 else if key < 970736 then 44 else
      if key < 978508 then 52 else if key < 979804 then 72 else if key < 997208 then 54 else
      if key < 1007085 then 17 else if key < 1007203 then 65 else if key < 1012923 then 78 else
      if key < 1033391 then 88 else 73
    else if key < 33554431 then
      if key < 32515696 then 5 else if key < 32516674 then 19 else if key < 32517772 then 21 else
      if key < 32521914 then 76 else if key < 32530165 then 27 else if key < 32536191 then 34 else
      if key < 32538623 then 51 else if key < 33522687 then 4 else if key < 33553439 then 3 else
      if key < 33554400 then 2 else 1
    else 0
  }

  predicate Placed(x: bv32, n: int) { StepsTo(Key(x)) == n }

  /** The next `n` steps from `x` lead to states whose keys give their number, counted on from `i`. */
  ghost predicate Counted(x: bv32, i: int, n: nat) {
    forall k :: 1 <= k <= n ==> Placed(Steps(x, k), i + k)
  }

  lemma {:induction false} StepsFromFront(x: bv32, n: nat)
    ensures Steps(x, n + 1) == Steps(Step(x), n)
  {
    hide Step;
    if n > 0 {
      StepsFromFront(x, n - 1);
    }
  }

  lemma StepsZero(x: bv32)
    ensures Steps(x, 0) == x
  {
  }

  lemma CountedFromFront(x: bv32, i: int, n: nat)
    requires Placed(Step(x), i + 1) && Counted(Step(x), i + 1, n)
    ensures Counted(x, i, n + 1)
  {
    hide Step, Placed, Steps;
    forall k | 1 <= k <= n + 1
      ensures Placed(Steps(x, k), i + k)
    {
      StepsFromFront(x, k - 1);
      StepsZero(Step(x));
    }
  }

  lemma Four(a: bv32, b: bv32, c: bv32, d: bv32, e: bv32, i: int, n: nat)
    requires Step(a) == b && Step(b) == c && Step(c) == d && Step(d) == e
    requires Placed(b, i + 1) && Placed(c, i + 2) && Placed(d, i + 3) && Placed(e, i + 4)
    requires Counted(e, i + 4, n)
    ensures Counted(a, i, n + 4)
  {
    hide *;
    CountedFromFront(d, i + 3, n);
    CountedFromFront(c, i + 2, n + 1);
    CountedFromFront(b, i + 1, n + 2);
    CountedFromFront(a, i, n + 3);
  }

  lemma LogTable0()
    ensures Log(0) == -1 && Log(1) == 0 && Log(2) == 1 && Log(3) == 14
    ensures Log(4) == 2 && Log(5) == 28 && Log(6) == 15 && Log(7) == 22
  {
  }

  lemma LogTable1()
    ensures Log(8) == 3 && Log(9) == 5 && Log(10) == 29 && Log(11) == 26
    ensures Log(12) == 16 && Log(13) == 7 && Log(14) == 23 && Log(15) == 11
  {
  }

  lemma LogTable2()
    ensures Log(16) == 4 && Log(17) == 25 && Log(18) == 6 && Log(19) == 10
    ensures Log(20) == 30 && Log(21) == 13 && Log(22) == 27 && Log(23) == 21
  {
  }

  lemma LogTable3()
    ensures Log(24) == 17 && Log(25) == 18 && Log(26) == 8 && Log(27) == 19
    ensures Log(28) == 24 && Log(29) == 9 && Log(30) == 12 && Log(31) == 20
  {
  }

  lemma LogTable()
    ensures Log(0) == -1 && Log(1) == 0 && Log(2) == 1 && Log(3) == 14
    ensures Log(4) == 2 && Log(5) == 28 && Log(6) == 15 && Log(7) == 22
    ensures Log(8) == 3 && Log(9) == 5 && Log(10) == 29 && Log(11) == 26
    ensures Log(12) == 16 && Log(13) == 7 && Log(14) == 23 && Log(15) == 11
    ensures Log(16) == 4 && Log(17) == 25 && Log(18) == 6 && Log(19) == 10
    ensures Log(20) == 30 && Log(21) == 13 && Log(22) == 27 && Log(23) == 21
    ensures Log(24) == 17 && Log(25) == 18 && Log(26) == 8 && Log(27) == 19
    ensures Log(28) == 24 && Log(29) == 9 && Log(30) == 12 && Log(31) == 20
  {
    hide Log;
    LogTable0();
    LogTable1();
    LogTable2();
    LogTable3();
  }

  /** One entry: the upper symbols of `y`, and the number that their ratios stand for. */
  lemma Place(y: bv32, a: bv32, b: bv32, c: bv32, d: bv32, e: bv32, key: int, n: int)
    requires Low(y >> 25) == a && Low(y >> 20) == b && Low(y >> 15) == c && Low(y >> 10) == d && Low(y >> 5) == e
    requires Ratios(Log(a), Log(b), Log(c), Log(d), Log(e)) == key && StepsTo(key) == n
    ensures Placed(y, n)
  {
    hide Low, Log, Ratios, StepsTo;
  }

  lemma CountedNone(x: bv32, i: int)
    ensures Counted(x, i, 0)
  {
  }

  lemma Places0()
    ensures Placed(0x20, 1) && Placed(0x400, 2) && Placed(0x8000, 3) && Placed(0x100000, 4)
    ensures Placed(0x2000000, 5) && Placed(0x3b6a57b2, 6) && Placed(0x1fd7e966, 7) && Placed(0x424df38, 8)
  {
    hide Step, Key, Log;
    LogTable();
    Place(0x20, 0, 0, 0, 0, 1, 33554400, 1);
    Place(0x400, 0, 0, 0, 1, 0, 33553439, 2);
    Place(0x8000, 0, 0, 1, 0, 0, 33522687, 3);
    Place(0x100000, 0, 1, 0, 0, 0, 32538623, 4);
    Place(0x2000000, 1, 0, 0, 0, 0, 1048575, 5);
    Place(0x3b6a57b2, 29, 22, 20, 21, 29, 611456, 6);
    Place(0x1fd7e966, 15, 29, 15, 26, 11, 951183, 7);
    Place(0x424df38, 2, 2, 9, 23, 25, 4753, 8);
  }

  lemma Places8()
    ensures Placed(0x22cb696d, 9) && Placed(0x81318a1, 10) && Placed(0x1cc20dda, 11) && Placed(0x1df21f0a, 12)
    ensures Placed(0x3bf0450a, 13) && Placed(0xc95be66, 14) && Placed(0x2a465b57, 15) && Placed(0x714461b, 16)
  {
    hide Step, Key, Log;
    LogTable();
    Place(0x22cb696d, 17, 12, 22, 26, 11, 723393, 9);
    Place(0x81318a1, 4, 1, 6, 6, 5, 964026, 10);
    Place(0x1cc20dda, 14, 12, 4, 3, 14, 797376, 11);
    Place(0x1df21f0a, 14, 31, 4, 7, 24, 928729, 12);
    Place(0x3bf0450a, 29, 31, 0, 17, 8, 392729, 13);
    Place(0xc95be66, 6, 9, 11, 15, 19, 700282, 14);
    Place(0x2a465b57, 21, 4, 12, 22, 26, 658906, 15);
    Place(0x714461b, 3, 17, 8, 17, 16, 381301, 16);
  }

  lemma Places16()
    ensures Placed(0x3fb21abf, 17) && Placed(0x228ec6ab, 18) && Placed(0xa6e061, 19) && Placed(0x14dc0c20, 20)
    ensures Placed(0x9339b0, 21) && Placed(0x12673600, 22) && Placed(0xacea46f, 23) && Placed(0x3c1fc3a8, 24)
  {
    hide Step, Key, Log;
    LogTable();
    Place(0x3fb21abf, 31, 27, 4, 6, 21, 997208, 17);
    Place(0x228ec6ab, 17, 8, 29, 17, 21, 310291, 18);
    Place(0xa6e061, 0, 10, 13, 24, 3, 32515696, 19);
    Place(0x14dc0c20, 10, 13, 24, 3, 1, 314882, 20);
    Place(0x9339b0, 0, 9, 6, 14, 13, 32516674, 21);
    Place(0x12673600, 9, 6, 14, 13, 16, 346206, 22);
    Place(0xacea46f, 5, 12, 29, 9, 3, 635153, 23);
    Place(0x3c1fc3a8, 30, 1, 31, 16, 29, 631548, 24);
  }

  lemma Places24()
    ensures Placed(0x2c5fb3f9, 25) && Placed(0x19138a04, 26) && Placed(0x1926aa7, 27) && Placed(0x324d54e0, 28)
    ensures Placed(0x25969adc, 29) && Placed(0x3e97b75e, 30) && Placed(0x63b7a8b, 31) && Placed(0x1a5588bf, 32)
  {
    hide Step, Key, Log;
    LogTable();
    Place(0x2c5fb3f9, 22, 5, 31, 12, 31, 58008, 25);
    Place(0x19138a04, 12, 17, 7, 2, 16, 301587, 26);
    Place(0x1926aa7, 0, 25, 4, 26, 21, 32521914, 27);
    Place(0x324d54e0, 25, 4, 26, 21, 7, 513860, 28);
    Place(0x25969adc, 18, 25, 13, 6, 22, 394549, 29);
    Place(0x3e97b75e, 31, 9, 15, 13, 26, 547411, 30);
    Place(0x63b7a8b, 3, 3, 22, 30, 20, 14256, 31);
    Place(0x1a5588bf, 13, 5, 11, 2, 5, 708405, 32);
  }

  lemma Places32()
    ensures Placed(0x12386a75, 33) && Placed(0x1252acf, 34) && Placed(0x24a559e0, 35) && Placed(0x18efd0de, 36)
    ensures Placed(0x3e1931e7, 37) && Placed(0x17ebadab, 38) && Placed(0x1d0d5f62, 39) && Placed(0x2418480a, 40)
  {
    hide Step, Key, Log;
    LogTable();
    Place(0x12386a75, 9, 3, 16, 26, 19, 325733, 33);
    Place(0x1252acf, 0, 18, 10, 10, 22, 32530165, 34);
    Place(0x24a559e0, 18, 10, 10, 22, 15, 777893, 35);
    Place(0x18efd0de, 12, 14, 31, 20, 6, 233950, 36);
    Place(0x3e1931e7, 31, 1, 18, 12, 15, 378742, 37);
    Place(0x17ebadab, 11, 30, 23, 11, 13, 583692, 38);
    Place(0x1d0d5f62, 14, 16, 26, 23, 27, 410555, 39);
    Place(0x2418480a, 18, 1, 16, 18, 0, 848927, 40);
  }

  lemma Places40()
    ensures Placed(0xf4ded9e, 41) && Placed(0x2a2673e5, 42) && Placed(0xb11505b, 43) && Placed(0x7e14528, 44)
    ensures Placed(0x21127cdf, 45) && Placed(0x85bf953, 46) && Placed(0x15de339a, 47) && Placed(0x20d4cef0, 48)
  {
    hide Step, Key, Log;
    LogTable();
    Place(0xf4ded9e, 7, 20, 27, 27, 12, 291737, 41);
    Place(0x2a2673e5, 21, 2, 12, 28, 31, 626023, 42);
    Place(0xb11505b, 5, 17, 2, 20, 2, 921668, 43);
    Place(0x7e14528, 3, 30, 2, 17, 9, 969078, 44);
    Place(0x21127cdf, 16, 17, 4, 31, 6, 718347, 45);
    Place(0x85bf953, 4, 5, 23, 30, 10, 871771, 46);
    Place(0x15de339a, 10, 29, 28, 12, 28, 387674, 47);
    Place(0x20d4cef0, 16, 13, 9, 19, 23, 99537, 48);
  }

  lemma Places48()
    ensures Placed(0x308dbcb3, 49) && Placed(0x6e1c70e, 50) && Placed(0x102381f, 51) && Placed(0x204703e0, 52)
    ensures Placed(0x22f41eb3, 53) && Placed(0xffde361, 54) && Placed(0x3c27ac05, 55) && Placed(0x2b524659, 56)
  {
    hide Step, Key, Log;
    LogTable();
    Place(0x308dbcb3, 24, 8, 27, 15, 5, 559915, 49);
    Place(0x6e1c70e, 3, 14, 3, 17, 24, 295267, 50);
    Place(0x102381f, 0, 16, 4, 14, 0, 32536191, 51);
    Place(0x204703e0, 16, 4, 14, 0, 31, 970736, 52);
    Place(0x22f41eb3, 17, 15, 8, 7, 21, 567187, 53);
    Place(0xffde361, 7, 31, 27, 24, 27, 979804, 54);
    Place(0x3c27ac05, 30, 2, 15, 11, 0, 686559, 55);
    Place(0x2b524659, 21, 21, 4, 17, 18, 20888, 56);
  }

  lemma Places56()
    ensures Placed(0x2597e7db, 57) && Placed(0x3eb817be, 58) && Placed(0x3cf668b, 59) && Placed(0x28686d2, 60)
    ensures Placed(0x2bba8df2, 61) && Placed(0x388e92bb, 62) && Placed(0x18251ff4, 63) && Placed(0x2740d4a7, 64)
  {
    hide Step, Key, Log;
    LogTable();
    Place(0x2597e7db, 18, 25, 15, 25, 30, 398726, 57);
    Place(0x3eb817be, 31, 11, 16, 5, 29, 212244, 58);
    Place(0x3cf668b, 1, 28, 30, 25, 20, 799326, 59);
    Place(0x28686d2, 1, 8, 13, 1, 22, 105499, 60);
    Place(0x2bba8df2, 21, 27, 21, 3, 15, 196669, 61);
    Place(0x388e92bb, 28, 8, 29, 4, 21, 344372, 62);
    Place(0x18251ff4, 12, 2, 10, 7, 31, 537796, 63);
    Place(0x2740d4a7, 19, 20, 1, 21, 5, 676978, 64);
  }

  lemma Places64()
    ensures Placed(0x1f342f8c, 65) && Placed(0x185c0278, 66) && Placed(0x28636527, 67) && Placed(0x38d9dfa9, 68)
    ensures Placed(0x12ccbdb4, 69) && Placed(0x1fbfd2ef, 70) && Placed(0x923ae18, 71) && Placed(0x3ad4dafa, 72)
  {
    hide Step, Key, Log;
    LogTable();
    Place(0x1f342f8c, 15, 19, 8, 11, 28, 1007085, 65);
    Place(0x185c0278, 12, 5, 24, 0, 19, 395257, 66);
    Place(0x28636527, 20, 6, 6, 25, 9, 541286, 67);
    Place(0x38d9dfa9, 28, 13, 19, 23, 29, 477072, 68);
    Place(0x12ccbdb4, 9, 12, 25, 15, 13, 373954, 69);
    Place(0x1fbfd2ef, 15, 27, 31, 20, 23, 271978, 70);
    Place(0x923ae18, 4, 18, 7, 11, 16, 152322, 71);
    Place(0x3ad4dafa, 29, 13, 9, 22, 23, 978508, 72);
  }

  lemma Places72()
    ensures Placed(0x28064066, 73) && Placed(0x347d7789, 74) && Placed(0x3ea82e23, 75) && Placed(0x1c8552b, 76)
    ensures Placed(0x390aa560, 77) && Placed(0x28a3e494, 78) && Placed(0x20c9e9c9, 79) && Placed(0x33295b93, 80)
  {
    hide Step, Key, Log;
    LogTable();
    Place(0x28064066, 20, 0, 12, 16, 3, 1033391, 73);
    Place(0x347d7789, 26, 7, 26, 29, 28, 458800, 74);
    Place(0x3ea82e23, 31, 10, 16, 11, 17, 310469, 75);
    Place(0x1c8552b, 0, 28, 16, 21, 9, 32517772, 76);
    Place(0x390aa560, 28, 16, 21, 9, 11, 381314, 77);
    Place(0x28a3e494, 20, 10, 7, 25, 4, 1007203, 78);
    Place(0x20c9e9c9, 16, 12, 19, 26, 14, 399507, 79);
    Place(0x33295b93, 25, 18, 18, 22, 28, 642342, 80);
  }

  lemma Places80()
    ensures Placed(0x91774bc, 81) && Placed(0x3c4f8e7a, 82) && Placed(0x265609b9, 83) && Placed(0x3def8c4c, 84)
    ensures Placed(0x12564f79, 85) && Placed(0xce18b4f, 86) && Placed(0x24c0fe77, 87) && Placed(0x145b223e, 88)
  {
    hide Step, Key, Log;
    LogTable();
    Place(0x91774bc, 4, 17, 14, 29, 5, 775418, 81);
    Place(0x3c4f8e7a, 30, 4, 31, 3, 19, 696413, 82);
    Place(0x265609b9, 19, 5, 12, 2, 13, 596700, 83);
    Place(0x3def8c4c, 30, 30, 31, 3, 2, 8276, 84);
    Place(0x12564f79, 9, 5, 12, 19, 27, 765102, 85);
    Place(0xce18b4f, 6, 14, 3, 2, 26, 293432, 86);
    Place(0x24c0fe77, 18, 12, 1, 31, 19, 353732, 87);
    Place(0x145b223e, 10, 5, 22, 8, 17, 1012923, 88);
  }

  lemma Counted64()
    ensures Counted(0x2740d4a7, 64, 24)
  {
    hide Counted, Placed;
    CountedNone(0x145b223e, 88);
    Places64();
    Places72();
    Places80();
    Four(0x3def8c4c, 0x12564f79, 0xce18b4f, 0x24c0fe77, 0x145b223e, 84, 0);
    Four(0x33295b93, 0x91774bc, 0x3c4f8e7a, 0x265609b9, 0x3def8c4c, 80, 4);
    Four(0x1c8552b, 0x390aa560, 0x28a3e494, 0x20c9e9c9, 0x33295b93, 76, 8);
    Four(0x3ad4dafa, 0x28064066, 0x347d7789, 0x3ea82e23, 0x1c8552b, 72, 12);
    Four(0x38d9dfa9, 0x12ccbdb4, 0x1fbfd2ef, 0x923ae18, 0x3ad4dafa, 68, 16);
    Four(0x2740d4a7, 0x1f342f8c, 0x185c0278, 0x28636527, 0x38d9dfa9, 64, 20);
  }

  lemma Counted40()
    ensures Counted(0x2418480a, 40, 48)
  {
    hide Counted, Placed;
    Counted64();
    Places40();
    Places48();
    Places56();
    Four(0x28686d2, 0x2bba8df2, 0x388e92bb, 0x18251ff4, 0x2740d4a7, 60, 24);
    Four(0x2b524659, 0x2597e7db, 0x3eb817be, 0x3cf668b, 0x28686d2, 56, 28);
    Four(0x204703e0, 0x22f41eb3, 0xffde361, 0x3c27ac05, 0x2b524659, 52, 32);
    Four(0x20d4cef0, 0x308dbcb3, 0x6e1c70e, 0x102381f, 0x204703e0, 48, 36);
    Four(0x7e14528, 0x21127cdf, 0x85bf953, 0x15de339a, 0x20d4cef0, 44, 40);
    Four(0x2418480a, 0xf4ded9e, 0x2a2673e5, 0xb11505b, 0x7e14528, 40, 44);
  }

  lemma Counted16()
    ensures Counted(0x714461b, 16, 72)
  {
    hide Counted, Placed;
    Counted40();
    Places16();
    Places24();
    Places32();
    Four(0x18efd0de, 0x3e1931e7, 0x17ebadab, 0x1d0d5f62, 0x2418480a, 36, 48);
    Four(0x1a5588bf, 0x12386a75, 0x1252acf, 0x24a559e0, 0x18efd0de, 32, 52);
    Four(0x324d54e0, 0x25969adc, 0x3e97b75e, 0x63b7a8b, 0x1a5588bf, 28, 56);
    Four(0x3c1fc3a8, 0x2c5fb3f9, 0x19138a04, 0x1926aa7, 0x324d54e0, 24, 60);
    Four(0x14dc0c20, 0x9339b0, 0x12673600, 0xacea46f, 0x3c1fc3a8, 20, 64);
    Four(0x714461b, 0x3fb21abf, 0x228ec6ab, 0xa6e061, 0x14dc0c20, 16, 68);
  }

  lemma Counted0()
    ensures Counted(1, 0, 88)
  {
    hide Counted, Placed;
    Counted16();
    Places0();
    Places8();
    Four(0x1df21f0a, 0x3bf0450a, 0xc95be66, 0x2a465b57, 0x714461b, 12, 72);
    Four(0x424df38, 0x22cb696d, 0x81318a1, 0x1cc20dda, 0x1df21f0a, 8, 76);
    Four(0x100000, 0x2000000, 0x3b6a57b2, 0x1fd7e966, 0x424df38, 4, 80);
    Four(0x1, 0x20, 0x400, 0x8000, 0x100000, 0, 84);
  }

  /** The number of steps, up to 88, can be read off the place that a nonzero symbol has got to, whichever
      symbol it was. */
  lemma PlaceTellsSteps(s: bv32, n: nat)
    requires 0 < s < 32 && 1 <= n <= 88
    ensures StepsTo(Key(Steps(s, n))) == n
  {
    hide Steps, Key, StepsTo;
    KeyOfSteps(s, n);
    Counted0();
    assert Placed(Steps(1, n), n);
  }
}
