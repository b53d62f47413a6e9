/** Division facts, powers of two and positional numerals. */
module Radix {

  // ---------------------------------------------------------------------------
  // Division
  // ---------------------------------------------------------------------------

  lemma MulDistributes(a: int, b: int, c: int)
    ensures (a + b) * c == a * c + b * c
    ensures (a - b) * c == a * c - b * c
  {
  }

  lemma MulCommutes(a: int, b: int)
    ensures a * b == b * a
  {
  }

  lemma MulAssociative(a: int, b: int, c: int)
    ensures (a * b) * c == a * (b * c)
  {
  }

  lemma MulMonotone(a: int, b: int, c: nat)
    requires a <= b
    ensures a * c <= b * c
  {
  }

  /** Quotient and remainder are determined by their defining equation. */
  lemma DivModUnique(x: int, d: int, q: int, r: int)
    requires 0 <= r < d && x == q * d + r
    ensures x / d == q && x % d == r
  {
    var q', r' := x / d, x % d;
    assert x == q' * d + r';
    MulDistributes(q, q', d);
    assert (q - q') * d == r' - r;
    if q - q' >= 1 {
      MulMonotone(1, q - q', d);
    } else if q - q' <= -1 {
      MulMonotone(1, q' - q, d);
      MulDistributes(q', q, d);
    }
  }

  lemma DivModRange(x: nat, d: nat)
    requires d > 0
    ensures 0 <= x / d && 0 <= x % d < d && x == (x / d) * d + x % d
  {
  }

  function Quotient(x: nat, d: nat): nat
    requires d > 0
  {
    DivModRange(x, d);
    x / d
  }

  lemma DivDiv(x: nat, a: nat, b: nat)
    requires a > 0 && b > 0
    ensures a * b > 0 && (x / a) / b == x / (a * b)
  {
    var q, r := x / a, x % a;
    var q', r' := q / b, q % b;
    assert x == q * a + r && q == q' * b + r';
    assert a * b > 0 by { MulMonotone(1, a, b); }
    var s := r' * a + r;
    assert x == q' * (a * b) + s by {
      MulDistributes(q' * b, r', a);
      MulAssociative(q', b, a);
    }
    assert 0 <= s < a * b by {
      MulMonotone(r', b - 1, a);
      MulDistributes(b, 1, a);
    }
    DivModUnique(x, a * b, q', s);
  }

  /** Appending a digit to the numeral and widening the divisor cancel out. */
  lemma AppendDigitDiv(v: nat, d: nat, base: nat, c: nat)
    requires d < base && c > 0
    ensures base * c > 0 && (v * base + d) / (base * c) == v / c
  {
    DivModUnique(v * base + d, base, v, d);
    DivDiv(v * base + d, base, c);
  }

  /** A digit can be read from the value modulo any multiple of the weight above it. */
  lemma DigitOfTruncated(x: nat, c: nat, base: nat, k: nat)
    requires c > 0 && base > 0 && k > 0
    ensures c * (base * k) > 0
    ensures ((x % (c * (base * k))) / c) % base == (x / c) % base
  {
    assert base * k > 0 by { MulMonotone(1, base, k); }
    assert c * (base * k) > 0 by { MulMonotone(1, c, base * k); }
    var m := c * (base * k);
    var q, r := x / m, x % m;
    var t := q * k;
    assert x == (q * (base * k)) * c + r by { MulAssociative(q, base * k, c); }
    var rq, rr := r / c, r % c;
    assert x == (q * (base * k) + rq) * c + rr by { MulDistributes(q * (base * k), rq, c); }
    DivModUnique(x, c, q * (base * k) + rq, rr);
    assert q * (base * k) == t * base by { MulAssociative(q, k, base); }
    var d, e := rq / base, rq % base;
    MulDistributes(t, d, base);
    DivModUnique(t * base + rq, base, t + d, e);
  }

  lemma ScaledMod(v: nat, p: nat, q: nat)
    requires p > 0 && q > 0
    ensures p * q > 0
    ensures (v * p) % (p * q) == (v % q) * p
    ensures (v * p) / (p * q) == v / q
  {
    assert p * q > 0 by { MulMonotone(1, p, q); }
    var d, m := v / q, v % q;
    MulDistributes(d * q, m, p);
    MulAssociative(d, q, p);
    assert v * p == d * (p * q) + m * p;
    assert 0 <= m * p < p * q by {
      MulMonotone(m, q - 1, p);
      MulDistributes(q, 1, p);
    }
    DivModUnique(v * p, p * q, d, m * p);
  }

  // ---------------------------------------------------------------------------
  // Powers
  // ---------------------------------------------------------------------------

  function Pow(b: nat, n: nat): nat { if n == 0 then 1 else b * Pow(b, n - 1) }

  lemma {:induction false} PowPositive(b: nat, n: nat)
    requires b > 0
    ensures Pow(b, n) > 0
  {
    if n > 0 {
      PowPositive(b, n - 1);
      MulMonotone(1, b, Pow(b, n - 1));
    }
  }

  lemma {:induction false} PowAdd(b: nat, m: nat, n: nat)
    ensures Pow(b, m + n) == Pow(b, m) * Pow(b, n)
  {
    if m > 0 {
      PowAdd(b, m - 1, n);
      MulAssociative(b, Pow(b, m - 1), Pow(b, n));
    }
  }

  function Pow2(n: nat): (p: nat)
    ensures p > 0
  {
    PowPositive(2, n);
    Pow(2, n)
  }

  lemma Pow2Add(m: nat, n: nat)
    ensures Pow2(m + n) == Pow2(m) * Pow2(n)
  {
    PowAdd(2, m, n);
  }

  lemma {:induction false} PowOfPow2(a: nat, k: nat)
    ensures Pow(Pow2(a), k) == Pow2(a * k)
  {
    if k > 0 {
      PowOfPow2(a, k - 1);
      Pow2Add(a, a * (k - 1));
    }
  }

  lemma Pow2Values()
    ensures Pow2(0) == 1 && Pow2(1) == 2 && Pow2(2) == 4 && Pow2(3) == 8 && Pow2(4) == 16
    ensures Pow2(5) == 32 && Pow2(6) == 64 && Pow2(7) == 128 && Pow2(8) == 256
    ensures Pow2(32) == 0x1_0000_0000
  {
    assert Pow2(1) == 2 * Pow2(0);
    assert Pow2(2) == 2 * Pow2(1);
    assert Pow2(3) == 2 * Pow2(2);
    assert Pow2(4) == 2 * Pow2(3);
    assert Pow2(5) == 2 * Pow2(4);
    assert Pow2(6) == 2 * Pow2(5);
    assert Pow2(7) == 2 * Pow2(6);
    assert Pow2(8) == 2 * Pow2(7);
    Pow2Add(8, 8);
    Pow2Add(16, 16);
  }

  // ---------------------------------------------------------------------------
  // Numerals, most significant digit first
  // ---------------------------------------------------------------------------

  predicate AreDigits(s: seq<int>, base: nat) { forall i :: 0 <= i < |s| ==> 0 <= s[i] < base }

  /** The unbounded integer that a numeral denotes. */
  function Big(s: seq<int>, base: nat): int {
    if s == [] then 0 else Big(s[..|s| - 1], base) * base + s[|s| - 1]
  }

  /** The last `k` digits of `n`, most significant first. */
  function BigDigits(n: nat, base: nat, k: nat): (s: seq<int>)
    requires base > 0
    ensures |s| == k
    decreases k
  {
    if k == 0 then [] else BigDigits(Quotient(n, base), base, k - 1) + [n % base]
  }

  lemma {:induction false} BigDigitsAreDigits(n: nat, base: nat, k: nat)
    requires base > 0
    ensures AreDigits(BigDigits(n, base, k), base)
    decreases k
  {
    if k > 0 {
      BigDigitsAreDigits(Quotient(n, base), base, k - 1);
    }
  }

  lemma {:induction false} BigDigitsOfBig(s: seq<int>, base: nat)
    requires base > 0 && AreDigits(s, base)
    ensures Big(s, base) >= 0 && BigDigits(Big(s, base), base, |s|) == s
  {
    if s != [] {
      var init, d := s[..|s| - 1], s[|s| - 1];
      BigBound(init, base);
      BigBound(s, base);
      DivModUnique(Big(s, base), base, Big(init, base), d);
      BigDigitsOfBig(init, base);
    }
  }

  lemma {:induction false} BigBound(s: seq<int>, base: nat)
    requires AreDigits(s, base)
    ensures 0 <= Big(s, base) < Pow(base, |s|)
  {
    if s != [] {
      var init := s[..|s| - 1];
      BigBound(init, base);
      MulMonotone(Big(init, base) + 1, Pow(base, |init|), base);
      MulDistributes(Big(init, base), 1, base);
    }
  }

  lemma {:induction false} BigOfBigDigits(n: nat, base: nat, k: nat)
    requires base > 0 && n < Pow(base, k)
    ensures Big(BigDigits(n, base, k), base) == n
    decreases k
  {
    if k > 0 {
      DivModRange(n, base);
      QuotientBound(n, base, Pow(base, k - 1));
      BigOfBigDigits(n / base, base, k - 1);
      BigSnoc(BigDigits(n / base, base, k - 1), n % base, base);
    }
  }

  lemma QuotientBound(n: nat, base: nat, p: nat)
    requires base > 0 && n < base * p
    ensures 0 <= n / base < p
  {
    DivModRange(n, base);
    if n / base >= p {
      MulMonotone(p, n / base, base);
    }
  }

  lemma BigSnoc(s: seq<int>, d: int, base: nat)
    ensures Big(s + [d], base) == Big(s, base) * base + d
  {
    assert (s + [d])[..|s|] == s;
  }

  // ---------------------------------------------------------------------------
  // Bits
  // ---------------------------------------------------------------------------

  lemma EvenScaled(v: nat, e: nat)
    requires e > 0
    ensures (v * Pow2(e)) % 2 == 0
  {
    Pow2Add(1, e - 1);
    Pow2Values();
    MulCommutes(2, Pow2(e - 1));
    MulAssociative(v, Pow2(e - 1), 2);
    DivModUnique(v * Pow2(e), 2, v * Pow2(e - 1), 0);
  }

  lemma SplitSum(a: nat, p: nat, q: nat, d: nat)
    requires q > 0
    ensures (a * (p * q) + d) / q == a * p + d / q
  {
    MulAssociative(a, p, q);
    DivModRange(d, q);
    MulDistributes(a * p, d / q, q);
    DivModUnique(a * (p * q) + d, q, a * p + d / q, d % q);
  }

  lemma ParityOfSum(x: int, y: int)
    requires x % 2 == 0
    ensures (x + y) % 2 == y % 2
  {
  }

  /** What is above a bit does not change it. */
  lemma BitOfSum(a: nat, d: nat, w: nat, e: nat)
    requires e < w
    ensures ((a * Pow2(w) + d) / Pow2(e)) % 2 == (d / Pow2(e)) % 2
  {
    hide Pow2;
    Pow2Add(w - e, e);
    SplitSum(a, Pow2(w - e), Pow2(e), d);
    EvenScaled(a, w - e);
    ParityOfSum(a * Pow2(w - e), d / Pow2(e));
  }

  /** The bits of `d` digits of `w` bits. */
  function Weight(w: nat, d: nat): nat { if d == 0 then 0 else w + Weight(w, d - 1) }

  lemma {:induction false} WeightIs(w: nat, d: nat)
    ensures Weight(w, d) == w * d
  {
    if d > 0 {
      WeightIs(w, d - 1);
      MulDistributes(d - 1, 1, w);
      MulCommutes(w, d);
      MulCommutes(w, d - 1);
    }
  }

  lemma LastDigit(s: seq<int>, base: nat)
    requires AreDigits(s, base) && s != []
    ensures AreDigits(s[..|s| - 1], base) && 0 <= s[|s| - 1] < base
    ensures Big(s, base) == Big(s[..|s| - 1], base) * base + s[|s| - 1]
    ensures Big(s, base) >= 0 && Big(s[..|s| - 1], base) >= 0
  {
    BigBound(s, base);
    BigBound(s[..|s| - 1], base);
  }

  lemma DigitBelow(s: seq<int>, w: nat, e: nat)
    requires AreDigits(s, Pow2(w)) && s != []
    ensures AreDigits(s[..|s| - 1], Pow2(w)) && Big(s, Pow2(w)) >= 0 && Big(s[..|s| - 1], Pow2(w)) >= 0
    ensures e < w ==> (Big(s, Pow2(w)) / Pow2(e)) % 2 == (s[|s| - 1] / Pow2(e)) % 2
    ensures Big(s, Pow2(w)) / Pow2(w + e) == Big(s[..|s| - 1], Pow2(w)) / Pow2(e)
  {
    hide *;
    var n := |s| - 1;
    LastDigit(s, Pow2(w));
    var above := Big(s[..n], Pow2(w));
    if e < w {
      BitOfSum(above, s[n], w, e);
    }
    Pow2Add(w, e);
    AppendDigitDiv(above, s[n], Pow2(w), Pow2(e));
  }

  /** Bit `k` from the bottom of digit `j` is a bit of the number, above those of the digits that follow. */
  lemma {:induction false} BigBit(s: seq<int>, w: nat, j: nat, k: nat)
    requires AreDigits(s, Pow2(w)) && j < |s| && k < w
    ensures Big(s, Pow2(w)) >= 0
    ensures (Big(s, Pow2(w)) / Pow2(Weight(w, |s| - 1 - j) + k)) % 2 == (s[j] / Pow2(k)) % 2
  {
    hide Pow2, Big, AreDigits;
    var n := |s| - 1;
    if j == n {
      DigitBelow(s, w, k);
    } else {
      DigitBelow(s, w, Weight(w, n - 1 - j) + k);
      BigBit(s[..n], w, j, k);
    }
  }

  /** The low `r` bits are clear exactly if `2^r` divides. */
  lemma {:induction false} LowBitsClear(v: nat, r: nat)
    ensures v % Pow2(r) == 0 <==> forall e :: 0 <= e < r ==> (v / Pow2(e)) % 2 == 0
  {
    hide Pow2, Pow;
    Pow2Values();
    if r > 0 {
      LowBitsClear(v, r - 1);
      Pow2Add(r - 1, 1);
      var p := Pow2(r - 1);
      DivModRange(v, p);
      DivModRange(v / p, 2);
      var q, b := (v / p) / 2, (v / p) % 2;
      MulDistributes(q * 2, b, p);
      MulAssociative(q, 2, p);
      MulCommutes(2, p);
      MulMonotone(b, 1, p);
      MulMonotone(0, b, p);
      DivModUnique(v, p * 2, q, b * p + v % p);
      if b == 1 {
        assert b * p == p;
      }
    }
  }

  // ---------------------------------------------------------------------------
  // Numerals, least significant digit first
  // ---------------------------------------------------------------------------

  function Little(s: seq<int>, base: nat): int {
    if s == [] then 0 else s[0] + base * Little(s[1..], base)
  }

  /** A little-endian numeral of known length is determined by its value. */
  lemma {:induction false} LittleInjective(s: seq<int>, t: seq<int>, base: nat)
    requires AreDigits(s, base) && AreDigits(t, base)
    requires |s| == |t| && Little(s, base) == Little(t, base)
    ensures s == t
  {
    if s != [] {
      DivModUnique(Little(s, base), base, Little(s[1..], base), s[0]);
      DivModUnique(Little(t, base), base, Little(t[1..], base), t[0]);
      LittleInjective(s[1..], t[1..], base);
      assert s == [s[0]] + s[1..] && t == [t[0]] + t[1..];
    }
  }

  /** The lowest `k` digits of `n` in base `2^w`, least significant first. */
  function LowDigits(n: nat, w: nat, k: nat): (s: seq<int>)
    ensures |s| == k
  {
    seq(k, j requires 0 <= j < k => (n / Pow2(w * j)) % Pow2(w))
  }

  lemma {:induction false} LittleOfLowDigits(n: nat, w: nat, k: nat)
    requires n < Pow2(w * k)
    ensures AreDigits(LowDigits(n, w, k), Pow2(w)) && Little(LowDigits(n, w, k), Pow2(w)) == n
    decreases k
  {
    var s := LowDigits(n, w, k);
    LowDigitsAreDigits(n, w, k);
    if k > 0 {
      var q := Quotient(n, Pow2(w));
      Pow2Add(w, w * (k - 1));
      QuotientBound(n, Pow2(w), Pow2(w * (k - 1)));
      LittleOfLowDigits(q, w, k - 1);
      LowDigitsTail(n, w, k);
      DivModRange(n, Pow2(w));
    }
  }

  lemma LowDigitsAreDigits(n: nat, w: nat, k: nat)
    ensures AreDigits(LowDigits(n, w, k), Pow2(w))
  {
  }

  lemma LowDigitsTail(n: nat, w: nat, k: nat)
    requires k > 0
    ensures LowDigits(n, w, k)[0] == n % Pow2(w)
    ensures LowDigits(n, w, k)[1..] == LowDigits(Quotient(n, Pow2(w)), w, k - 1)
  {
    var s := LowDigits(n, w, k);
    var t := LowDigits(Quotient(n, Pow2(w)), w, k - 1);
    forall j | 0 <= j < k - 1
      ensures s[1..][j] == t[j]
    {
      assert w * (j + 1) == w + w * j;
      Pow2Add(w, w * j);
      DivDiv(n, Pow2(w), Pow2(w * j));
    }
  }

  lemma {:induction false} LittleBound(s: seq<int>, base: nat)
    requires AreDigits(s, base)
    ensures 0 <= Little(s, base) < Pow(base, |s|)
  {
    if s != [] {
      LittleBound(s[1..], base);
      MulMonotone(Little(s[1..], base) + 1, Pow(base, |s| - 1), base);
      MulDistributes(Little(s[1..], base), 1, base);
      MulMonotone(0, Little(s[1..], base), base);
    }
  }

  lemma {:induction false} LittleConcat(s: seq<int>, t: seq<int>, base: nat)
    ensures Little(s + t, base) == Little(s, base) + Pow(base, |s|) * Little(t, base)
  {
    if s == [] {
      assert s + t == t;
    } else {
      LittleConcat(s[1..], t, base);
      assert (s + t)[1..] == s[1..] + t;
      MulDistributes(Little(s[1..], base), Pow(base, |s| - 1) * Little(t, base), base);
      MulAssociative(base, Pow(base, |s| - 1), Little(t, base));
    }
  }

  /** Bit `k` of digit `j` is the bit of that weight of the number. */
  lemma {:induction false} LittleBit(s: seq<int>, w: nat, j: nat, k: nat)
    requires AreDigits(s, Pow2(w)) && j < |s| && k < w
    ensures Little(s, Pow2(w)) >= 0
    ensures (Little(s, Pow2(w)) / Pow2(w * j + k)) % 2 == (s[j] / Pow2(k)) % 2
    decreases j
  {
    hide Pow2, Pow;
    LittleBound(s, Pow2(w));
    LittleBound(s[1..], Pow2(w));
    var above := Little(s[1..], Pow2(w));
    MulCommutes(Pow2(w), above);
    if j == 0 {
      BitOfSum(above, s[0], w, k);
    } else {
      LittleBit(s[1..], w, j - 1, k);
      MulDistributes(j - 1, 1, w);
      MulCommutes(w, j);
      MulCommutes(w, j - 1);
      Pow2Add(w, w * (j - 1) + k);
      AppendDigitDiv(above, s[0], Pow2(w), Pow2(w * (j - 1) + k));
    }
  }

  /** Bit `k` of the digit taken out at `j` is the bit of that weight of the number. */
  lemma LowDigitBit(n: nat, w: nat, count: nat, j: nat, k: nat)
    requires j < count && k < w
    ensures (LowDigits(n, w, count)[j] / Pow2(k)) % 2 == (n / Pow2(w * j + k)) % 2
  {
    hide Pow2, Pow;
    var x := Quotient(n, Pow2(w * j));
    Pow2Values();
    Pow2Add(1, w - k - 1);
    Pow2Add(k, w - k);
    DigitOfTruncated(x, Pow2(k), 2, Pow2(w - k - 1));
    Pow2Add(w * j, k);
    DivDiv(n, Pow2(w * j), Pow2(k));
  }
}
