/** `bytes_to_bech32` of inc/convert.h: little-endian regrouping of bytes, then Bech32. */
module BytesToBech32 {
  import opened Common
  import opened Radix
  import opened ConvertBits
  import opened Bech32
  import opened Bech32Loops

  const BLANK: Char := 32

  /** The little-endian integer spelled by bytes. */
  function LittleValue(b: seq<int>): nat
    requires AreBytes(b)
  {
    LittleBound(b, 256);
    Little(b, 256)
  }

  /** The 5-bit symbols of `b`: the ceil(8n/5) low base-32 digits of its value. */
  function FiveBits(b: seq<int>): (s: seq<int>)
    requires AreBytes(b)
    ensures |s| == Ceil85(|b|)
  {
    LowDigits(LittleValue(b), 5, Ceil85(|b|))
  }

  /** The C string that starts a `std::string`. */
  function CPart(pre: seq<Char>): (s: seq<Char>)
    ensures IsCString(s) && |s| <= |pre|
    ensures s <= pre && (|s| < |pre| ==> pre[|s|] == 0)
    ensures IsCString(pre) ==> s == pre
  {
    if pre == [] || pre[0] == 0 then [] else [pre[0]] + CPart(pre[1..])
  }

  function Blanks(n: nat): seq<Char> { seq(n, _ => BLANK) }

  /** The text for a prefix the encoder accepts: empty for no bytes, else the Bech32 string and its NUL. */
  function Text(pre: seq<Char>, b: seq<int>): seq<Char>
    requires AreBytes(b) && HrpEncodable(pre)
  {
    if b == [] then []
    else
      FiveBitsEncodable(b);
      Encode(pre, FiveBits(b)).value + [0]
  }

  lemma FiveBitsEncodable(b: seq<int>)
    requires AreBytes(b)
    ensures AreFiveBit(FiveBits(b))
  {
    LowDigitsAreDigits(LittleValue(b), 5, Ceil85(|b|));
    Pow2Values();
  }

  // ---------------------------------------------------------------------------
  // The loop
  // ---------------------------------------------------------------------------

  lemma ValueSplit(b: seq<int>, m: nat)
    requires m <= |b| && AreBytes(b)
    ensures AreBytes(b[..m]) && AreBytes(b[m..])
    ensures LittleValue(b) == LittleValue(b[..m]) + Pow2(8 * m) * LittleValue(b[m..])
  {
    assert b == b[..m] + b[m..];
    LittleConcat(b[..m], b[m..], 256);
    Pow2Values();
    PowOfPow2(8, m);
  }

  lemma PrefixBound(b: seq<int>, m: nat)
    requires m <= |b| && AreBytes(b)
    ensures AreBytes(b[..m]) && LittleValue(b[..m]) < Pow2(8 * m)
  {
    LittleBound(b[..m], 256);
    Pow2Values();
    PowOfPow2(8, m);
  }

  /** What the accumulator holds: the bits from position `l` on of the bytes before `m`. */
  function Pending(b: seq<int>, m: nat, l: nat): nat
    requires m <= |b| && AreBytes(b)
  {
    Quotient(LittleValue(b[..m]), Pow2(l))
  }

  lemma AddScaled(w: nat, l: nat, s: nat, x: nat)
    ensures (w + Pow2(l + s) * x) / Pow2(l) == w / Pow2(l) + Pow2(s) * x
  {
    Pow2Add(l, s);
    MulAssociative(Pow2(l), Pow2(s), x);
    MulCommutes(Pow2(l), Pow2(s) * x);
    DivModRange(w, Pow2(l));
    MulDistributes(w / Pow2(l), Pow2(s) * x, Pow2(l));
    DivModUnique(w + Pow2(l + s) * x, Pow2(l), w / Pow2(l) + Pow2(s) * x, w % Pow2(l));
  }

  /** Adding something five or more positions above `l` leaves the digit at `l` alone. */
  lemma AddHigh(w: nat, l: nat, s: nat, x: nat)
    ensures ((w + Pow2(l + (s + 5)) * x) / Pow2(l)) % 32 == (w / Pow2(l)) % 32
  {
    hide Pow2, Pow;
    Pow2Values();
    AddScaled(w, l, s + 5, x);
    Pow2Add(5, s);
    MulAssociative(32, Pow2(s), x);
    var q := Quotient(w, Pow2(l));
    DivModRange(q, 32);
    DivModUnique(q + 32 * (Pow2(s) * x), 32, q / 32 + Pow2(s) * x, q % 32);
  }

  lemma LastByte(b: seq<int>, m: nat)
    requires m < |b| && AreBytes(b)
    ensures AreBytes(b[..m]) && AreBytes(b[..m + 1])
    ensures LittleValue(b[..m + 1]) == LittleValue(b[..m]) + Pow2(8 * m) * b[m]
  {
    hide Pow2, Pow;
    ValueSplit(b[..m + 1], m);
    assert b[..m + 1][..m] == b[..m] && b[..m + 1][m..] == [b[m]];
    assert Little([b[m]], 256) == b[m] + 256 * Little([], 256);
  }

  /** Taking in byte `m`, which starts `8 * m - l` bits above the accumulator's low end. */
  lemma TakeByte(b: seq<int>, m: nat, l: nat)
    requires m < |b| && AreBytes(b) && l <= 8 * m
    ensures Pending(b, m + 1, l) == Pending(b, m, l) + b[m] * Pow2(8 * m - l)
  {
    hide Pow2, Pow, LittleValue;
    LastByte(b, m);
    AddScaled(LittleValue(b[..m]), l, 8 * m - l, b[m]);
    MulCommutes(b[m], Pow2(8 * m - l));
  }

  /** With five more bits in the accumulator, its low digit is a digit of the whole value. */
  lemma EmitDigit(b: seq<int>, m: nat, l: nat)
    requires m <= |b| && AreBytes(b) && (l + 5 <= 8 * m || m == |b|)
    ensures Pending(b, m, l) % 32 == (LittleValue(b) / Pow2(l)) % Pow2(5)
    ensures Pending(b, m, l) / 32 == Pending(b, m, l + 5)
  {
    hide Pow2, Pow, LittleValue;
    Pow2Values();
    ValueSplit(b, m);
    var w := LittleValue(b[..m]);
    Pow2Add(l, 5);
    DivDiv(w, Pow2(l), 32);
    if m == |b| {
      assert b[..m] == b;
    } else {
      AddHigh(w, l, 8 * m - l - 5, LittleValue(b[m..]));
    }
  }

  lemma PowerBelow14(k: nat)
    requires k <= 13
    ensures Pow2(k) <= 0x2000
  {
    hide Pow2;
    Pow2Values();
    Pow2Add(8, 5);
    Pow2Add(k, 13 - k);
    MulMonotone(1, Pow2(13 - k), Pow2(k));
  }

  /** The accumulator never needs more than 13 bits. */
  lemma PendingBound(b: seq<int>, m: nat, l: nat)
    requires m <= |b| && AreBytes(b) && 8 * m <= l + 13
    ensures Pending(b, m, l) < 0x2000
  {
    hide Pow2, Pow, LittleValue;
    PrefixBound(b, m);
    if 8 * m >= l {
      Pow2Add(l, 8 * m - l);
      QuotientBound(LittleValue(b[..m]), Pow2(l), Pow2(8 * m - l));
      PowerBelow14(8 * m - l);
    } else {
      Pow2Add(8 * m, l - 8 * m);
      MulMonotone(1, Pow2(l - 8 * m), Pow2(8 * m));
      DivModUnique(LittleValue(b[..m]), Pow2(l), 0, LittleValue(b[..m]));
    }
  }

  lemma DigitsSnoc(n: nat, k: nat)
    ensures LowDigits(n, 5, k + 1) == LowDigits(n, 5, k) + [(n / Pow2(5 * k)) % Pow2(5)]
  {
    hide Pow2;
  }

  lemma FirstByte(b: seq<int>)
    requires AreBytes(b) && |b| > 0
    ensures Pending(b, 1, 0) == b[0]
  {
    assert b[..1] == [b[0]];
    assert Little(b[..1], 256) == b[0] + 256 * Little([], 256);
  }

  /** The regrouping loop, with its two byte offsets and its running accumulator. */
  method Regroup5(b: seq<int>) returns (enc5: seq<int>)
    requires AreBytes(b) && |b| > 0
    ensures enc5 == FiveBits(b)
  {
    hide Pow2, LittleValue, LowDigits, Pending;
    enc5 := [];
    var l: nat, r: nat := 0, 5;
    var n: nat := b[0];
    var last: nat := 0;
    FirstByte(b);
    assert LowDigits(LittleValue(b), 5, 0) == [];
    while true
      invariant l == 5 * |enc5| && r == l + 5
      invariant last == (if l / 8 < |b| then l / 8 else |b| - 1)
      invariant l < 8 * |b| + 5
      invariant n == Pending(b, last + 1, l)
      invariant enc5 == LowDigits(LittleValue(b), 5, |enc5|)
      decreases 8 * |b| + 5 - l
    {
      var idl, idr := l / 8, r / 8;
      if idl >= |b| {
        break;
      }
      if idr != last && idr < |b| {
        assert idr == last + 1 && 5 - r % 8 == 8 * idr - l;
        TakeByte(b, idr, l);
        n := n + b[idr] * Pow2(5 - r % 8);
        last := idr;
      }
      PendingBound(b, last + 1, l);
      assert n < 0x2000;
      EmitDigit(b, last + 1, l);
      DigitsSnoc(LittleValue(b), |enc5|);
      var val := n % 32;
      enc5 := enc5 + [val];
      n := n / 32;
      l, r := l + 5, r + 5;
    }
    assert |enc5| == Ceil85(|b|);
  }

  /** `bytes_to_bech32`: a blank buffer that the encoder overwrites from the start. */
  method ToBech32(pre: seq<Char>, b: seq<int>) returns (s: seq<Char>)
    requires AreBytes(b)
    ensures |s| == if b == [] then 0 else |pre| + Ceil85(|b|) + 8
    ensures HrpEncodable(CPart(pre)) ==> Text(CPart(pre), b) <= s
    ensures IsCString(pre) && HrpEncodable(pre) ==>
      AreFiveBit(FiveBits(b)) && s == if b == [] then [] else Encode(pre, FiveBits(b)).value + [0]
  {
    hide Encode, FiveBits, Charset;
    FiveBitsEncodable(b);
    if |b| == 0 {
      return [];
    }
    var enc5 := Regroup5(b);
    var size := |pre| + |enc5| + 8;
    FiveBitIsBytes(enc5);
    var done, written := BechEncode(CPart(pre), enc5);
    s := written + Blanks(size - |written|);
    if HrpEncodable(CPart(pre)) {
      EncodedLength(CPart(pre), enc5);
    }
  }

  lemma FiveBitIsBytes(vs: seq<int>)
    requires AreFiveBit(vs)
    ensures AreBytes(vs)
  {
  }

  lemma EncodedLength(hrp: seq<Char>, data: seq<int>)
    requires HrpEncodable(hrp) && AreFiveBit(data)
    ensures Encode(hrp, data).Some? && |Encode(hrp, data).value| == |hrp| + |data| + 7
  {
    hide Charset, ChecksumInts;
  }

  // ---------------------------------------------------------------------------
  // Injectivity
  // ---------------------------------------------------------------------------

  lemma FiveBitsInjective(a: seq<int>, b: seq<int>)
    requires AreBytes(a) && AreBytes(b) && FiveBits(a) == FiveBits(b)
    ensures a == b
  {
    hide Pow2, LowDigits;
    assert Ceil85(|a|) == Ceil85(|b|);
    assert |a| == |b|;
    FiveBitsValue(a);
    FiveBitsValue(b);
    LittleInjective(a, b, 256);
  }

  /** Bit `i` of the value is a bit of byte `i / 8`, or zero above all bytes. */
  lemma ByteBit(b: seq<int>, i: nat)
    requires AreBytes(b)
    ensures i < 8 * |b| ==> i / 8 < |b|
    ensures (LittleValue(b) / Pow2(i)) % 2 == if i < 8 * |b| then (b[i / 8] / Pow2(i % 8)) % 2 else 0
  {
    hide Pow2, Little;
    if i < 8 * |b| {
      Pow2Values();
      LittleBit(b, 8, i / 8, i % 8);
    } else {
      PrefixBound(b, |b|);
      assert b[..|b|] == b;
      Pow2Add(8 * |b|, i - 8 * |b|);
      MulMonotone(1, Pow2(i - 8 * |b|), Pow2(8 * |b|));
      DivModUnique(LittleValue(b), Pow2(i), 0, LittleValue(b));
    }
  }

  /** The symbols are the bytes' bits in order, each byte and each symbol from its low bit up, then zeros. */
  lemma FiveBitsKeepBits(b: seq<int>, i: nat)
    requires AreBytes(b) && i < 5 * Ceil85(|b|)
    ensures |FiveBits(b)| == (8 * |b| + 4) / 5
    ensures i / 5 < |FiveBits(b)| && (i < 8 * |b| ==> i / 8 < |b|)
    ensures (FiveBits(b)[i / 5] / Pow2(i % 5)) % 2 == if i < 8 * |b| then (b[i / 8] / Pow2(i % 8)) % 2 else 0
  {
    hide Pow2, LittleValue;
    LowDigitBit(LittleValue(b), 5, Ceil85(|b|), i / 5, i % 5);
    ByteBit(b, i);
  }

  lemma FiveBitsValue(b: seq<int>)
    requires AreBytes(b)
    ensures Little(FiveBits(b), 32) == LittleValue(b)
  {
    PrefixBound(b, |b|);
    assert b[..|b|] == b;
    var k := Ceil85(|b|);
    Pow2Add(8 * |b|, 5 * k - 8 * |b|);
    MulMonotone(1, Pow2(5 * k - 8 * |b|), Pow2(8 * |b|));
    LittleOfLowDigits(LittleValue(b), 5, k);
    Pow2Values();
  }

  lemma EncodeInjective(hrp: seq<Char>, xs: seq<int>, ys: seq<int>)
    requires HrpEncodable(hrp) && AreFiveBit(xs) && AreFiveBit(ys)
    requires Encode(hrp, xs) == Encode(hrp, ys)
    ensures xs == ys
  {
    hide Charset, ChecksumInts, AreFiveBit;
    var p, q := ChecksumInts(hrp, xs), ChecksumInts(hrp, ys);
    ChecksumIntsAreFiveBit(hrp, xs);
    ChecksumIntsAreFiveBit(hrp, ys);
    CharsConcat(xs, p);
    CharsConcat(ys, q);
    EncodedLayout(hrp, xs + p);
    EncodedLayout(hrp, ys + q);
    SymbolsOfChars(xs + p);
    SymbolsOfChars(ys + q);
    assert xs == (xs + p)[..|xs + p| - 6] && ys == (ys + q)[..|ys + q| - 6];
  }

  /** For one valid prefix, different byte strings of any lengths get different texts. */
  lemma TextInjective(pre: seq<Char>, a: seq<int>, b: seq<int>)
    requires AreBytes(a) && AreBytes(b) && HrpEncodable(pre)
    requires Text(pre, a) == Text(pre, b)
    ensures a == b
  {
    hide Encode, FiveBits;
    if a != [] && b != [] {
      var s, t := Text(pre, a), Text(pre, b);
      FiveBitsEncodable(a);
      FiveBitsEncodable(b);
      EncodedLength(pre, FiveBits(a));
      EncodedLength(pre, FiveBits(b));
      assert Encode(pre, FiveBits(a)).value == s[..|s| - 1] && Encode(pre, FiveBits(b)).value == t[..|t| - 1];
      EncodeInjective(pre, FiveBits(a), FiveBits(b));
      FiveBitsInjective(a, b);
    }
  }
}
