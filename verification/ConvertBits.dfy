/** `convert_bits` of src/segwit_addr.cc: regrouping bits through a 32-bit accumulator. */
module ConvertBits {
  import opened Common
  import opened Radix

  const UINT32: nat := 0x1_0000_0000

  /** The unbounded integer spelled by `input` in groups of `inbits` bits. */
  function Value(input: seq<int>, inbits: nat): nat
    requires AreDigits(input, Pow2(inbits))
  {
    BigBound(input, Pow2(inbits));
    Big(input, Pow2(inbits))
  }

  function Groups(v: nat, outbits: nat, k: nat): (s: seq<int>)
    ensures |s| == k
  {
    BigDigits(v, Pow2(outbits), k)
  }

  /** Regrouping stated on unbounded integers: the digits of the input's value in base `2^outbits`,
      shifted up when the last group is padded; `None` where the source returns 0. */
  function Regroup(input: seq<int>, inbits: nat, outbits: nat, pad: bool): Option<seq<int>>
    requires AreDigits(input, Pow2(inbits)) && outbits > 0
  {
    var v := Value(input, inbits);
    var n, r := (|input| * inbits) / outbits, (|input| * inbits) % outbits;
    if pad then
      Some(if r > 0 then Groups(v * Pow2(outbits - r), outbits, n + 1) else Groups(v, outbits, n))
    else if v % Pow2(r) == 0 && r < inbits then Some(Groups(Quotient(v, Pow2(r)), outbits, n))
    else None
  }

  // ---------------------------------------------------------------------------
  // One round of the loops
  // ---------------------------------------------------------------------------

  /** Reading one more input group: the bits already written stay where they are. */
  lemma ReadGroup(input: seq<int>, i: nat, inbits: nat, bits: nat)
    requires i < |input| && AreDigits(input, Pow2(inbits))
    ensures AreDigits(input[..i], Pow2(inbits)) && AreDigits(input[..i + 1], Pow2(inbits))
    ensures Value(input[..i + 1], inbits) == Value(input[..i], inbits) * Pow2(inbits) + input[i]
    ensures Value(input[..i + 1], inbits) / Pow2(bits + inbits) == Value(input[..i], inbits) / Pow2(bits)
  {
    assert input[..i + 1] == input[..i] + [input[i]];
    BigSnoc(input[..i], input[i], Pow2(inbits));
    Pow2Add(inbits, bits);
    AppendDigitDiv(Value(input[..i], inbits), input[i], Pow2(inbits), Pow2(bits));
  }

  /** The accumulator follows the unbounded value modulo 2^32. */
  lemma AccumulatorStep(v: nat, shift: nat, d: nat)
    ensures ((v % UINT32) * shift + d) % UINT32 == (v * shift + d) % UINT32
  {
    var q, r := v / UINT32, v % UINT32;
    MulDistributes(q * UINT32, r, shift);
    MulAssociative(q, UINT32, shift);
    MulCommutes(UINT32, shift);
    MulAssociative(q, shift, UINT32);
    var x := r * shift + d;
    assert v * shift + d == (q * shift) * UINT32 + x;
    DivModUnique(v * shift + d, UINT32, q * shift + x / UINT32, x % UINT32) by {
      MulDistributes(q * shift, x / UINT32, UINT32);
      assert 0 <= x by { MulMonotone(0, r, shift); }
    }
  }

  /** Writing one group: the truncated accumulator still holds it. */
  lemma WriteGroup(v: nat, bits: nat, outbits: nat, k: nat)
    requires outbits <= bits && bits <= 32
    ensures var rest := bits - outbits;
      && ((v % UINT32) / Pow2(rest)) % Pow2(outbits) == (v / Pow2(rest)) % Pow2(outbits)
      && Groups(Quotient(v, Pow2(rest)), outbits, k + 1)
         == Groups(Quotient(v, Pow2(bits)), outbits, k) + [(v / Pow2(rest)) % Pow2(outbits)]
  {
    var rest := bits - outbits;
    Pow2Values();
    Pow2Add(outbits, 32 - bits);
    Pow2Add(rest, 32 - rest);
    DigitOfTruncated(v, Pow2(rest), Pow2(outbits), Pow2(32 - bits));
    Pow2Add(rest, outbits);
    DivDiv(v, Pow2(rest), Pow2(outbits));
  }

  /** The bits left over, shifted up to a whole group. */
  lemma PadGroup(v: nat, bits: nat, outbits: nat, k: nat)
    requires bits < outbits <= 32
    ensures var up := outbits - bits;
      && (((v % UINT32) * Pow2(up)) % UINT32) % Pow2(outbits) == (v * Pow2(up)) % Pow2(outbits)
      && ((v * Pow2(up)) % Pow2(outbits) == 0 <==> v % Pow2(bits) == 0)
      && Groups(v * Pow2(up), outbits, k + 1)
         == Groups(Quotient(v, Pow2(bits)), outbits, k) + [(v * Pow2(up)) % Pow2(outbits)]
  {
    var up := outbits - bits;
    AccumulatorStep(v, Pow2(up), 0);
    Pow2Values();
    Pow2Add(outbits, 32 - outbits);
    DigitOfTruncated(v * Pow2(up), 1, Pow2(outbits), Pow2(32 - outbits));
    Pow2Add(up, bits);
    ScaledMod(v, Pow2(up), Pow2(bits));
    if v % Pow2(bits) != 0 {
      MulMonotone(1, v % Pow2(bits), Pow2(up));
    }
  }

  // ---------------------------------------------------------------------------
  // The method
  // ---------------------------------------------------------------------------

  /** `(val << inbits) | d` in `uint32_t`; the low `inbits` bits of the shifted word are free. */
  function ShiftIn(val: nat, inbits: nat, d: nat): nat { (val * Pow2(inbits) + d) % UINT32 }

  /** `(val >> bits) & maxv`. */
  function Extract(val: nat, bits: nat, outbits: nat): nat { (val / Pow2(bits)) % Pow2(outbits) }

  /** `(val << (outbits - bits)) & maxv`. */
  function TopUp(val: nat, bits: nat, outbits: nat): nat
    requires bits <= outbits
  {
    ((val * Pow2(outbits - bits)) % UINT32) % Pow2(outbits)
  }

  /** After `read` input bits of value `v`: the accumulator, the pending bits and the output. */
  ghost predicate Inv(v: nat, read: nat, outbits: nat, val: nat, bits: nat, out: seq<int>) {
    && val == v % UINT32
    && |out| * outbits + bits == read
    && out == Groups(Quotient(v, Pow2(bits)), outbits, |out|)
  }

  lemma InvStart(input: seq<int>, inbits: nat, outbits: nat)
    requires AreDigits(input, Pow2(inbits))
    ensures AreDigits(input[..0], Pow2(inbits)) && Inv(Value(input[..0], inbits), 0, outbits, 0, 0, [])
  {
  }

  lemma InvRead(input: seq<int>, i: nat, inbits: nat, outbits: nat, val: nat, bits: nat, out: seq<int>)
    requires i < |input| && AreDigits(input, Pow2(inbits)) && AreDigits(input[..i], Pow2(inbits))
    requires Inv(Value(input[..i], inbits), i * inbits, outbits, val, bits, out)
    ensures AreDigits(input[..i + 1], Pow2(inbits))
    ensures Inv(Value(input[..i + 1], inbits), (i + 1) * inbits, outbits,
                ShiftIn(val, inbits, input[i]), bits + inbits, out)
  {
    hide Pow2, Value;
    ReadGroup(input, i, inbits, bits);
    AccumulatorStep(Value(input[..i], inbits), Pow2(inbits), input[i]);
    MulDistributes(i, 1, inbits);
  }

  lemma InvWrite(v: nat, read: nat, outbits: nat, val: nat, bits: nat, out: seq<int>)
    requires Inv(v, read, outbits, val, bits, out) && outbits <= bits <= 32
    ensures Inv(v, read, outbits, val, bits - outbits, out + [Extract(val, bits - outbits, outbits)])
  {
    hide Pow2;
    WriteGroup(v, bits, outbits, |out|);
    MulDistributes(|out|, 1, outbits);
  }

  /** With fewer than `outbits` bits pending, the last part of the source decides as specified. */
  lemma InvEnd(input: seq<int>, inbits: nat, outbits: nat, val: nat, bits: nat, out: seq<int>)
    requires AreDigits(input, Pow2(inbits)) && bits < outbits <= 32
    requires Inv(Value(input, inbits), |input| * inbits, outbits, val, bits, out)
    ensures Regroup(input, inbits, outbits, true)
         == Some(if bits > 0 then out + [TopUp(val, bits, outbits)] else out)
    ensures Regroup(input, inbits, outbits, false)
         == if TopUp(val, bits, outbits) != 0 || bits >= inbits then None else Some(out)
  {
    hide Pow2, AreDigits, Value;
    var v := Value(input, inbits);
    DivModUnique(|input| * inbits, outbits, |out|, bits);
    PadGroup(v, bits, outbits, |out|);
    QuotientByOne(v);
  }

  lemma InvCount(v: nat, read: nat, outbits: nat, val: nat, bits: nat, out: seq<int>)
    requires Inv(v, read, outbits, val, bits, out) && bits < outbits
    ensures |out| * outbits < read + outbits
    ensures bits > 0 ==> (|out| + 1) * outbits < read + outbits
  {
    MulDistributes(|out|, 1, outbits);
  }

  lemma QuotientByOne(v: nat)
    ensures Quotient(v, Pow2(0)) == v
  {
  }

  /** `convert_bits`, with the shifts and masks of the source as arithmetic on powers of two. */
  method Convert(outbits: nat, input: seq<int>, inbits: nat, pad: bool) returns (ok: bool, out: seq<int>)
    requires 1 <= outbits <= 8 && 1 <= inbits <= 8
    requires AreDigits(input, Pow2(inbits))
    ensures ok == Regroup(input, inbits, outbits, pad).Some?
    ensures ok ==> out == Regroup(input, inbits, outbits, pad).value
    ensures |out| * outbits < |input| * inbits + outbits
  {
    hide Pow2, Value, Inv, Regroup, ShiftIn, Extract, TopUp;
    var val: nat, bits: nat, i := 0, 0, 0;
    out := [];
    InvStart(input, inbits, outbits);
    while i < |input|
      invariant i <= |input| && bits < outbits
      invariant AreDigits(input[..i], Pow2(inbits))
      invariant Inv(Value(input[..i], inbits), i * inbits, outbits, val, bits, out)
    {
      InvRead(input, i, inbits, outbits, val, bits, out);
      val := ShiftIn(val, inbits, input[i]);
      bits := bits + inbits;
      i := i + 1;
      while bits >= outbits
        invariant bits < outbits + inbits
        invariant Inv(Value(input[..i], inbits), i * inbits, outbits, val, bits, out)
      {
        InvWrite(Value(input[..i], inbits), i * inbits, outbits, val, bits, out);
        bits := bits - outbits;
        out := out + [Extract(val, bits, outbits)];
      }
    }
    assert input[..i] == input;
    InvCount(Value(input, inbits), |input| * inbits, outbits, val, bits, out);
    InvEnd(input, inbits, outbits, val, bits, out);
    if pad {
      if bits > 0 {
        out := out + [TopUp(val, bits, outbits)];
      }
    } else if TopUp(val, bits, outbits) != 0 || bits >= inbits {
      return false, out;
    }
    ok := true;
  }

  // ---------------------------------------------------------------------------
  // The same bits in the same order
  // ---------------------------------------------------------------------------

  /** Bit `i` of groups of `w` bits written one after the other, each from its top bit down. */
  function StreamBit(s: seq<int>, w: nat, i: nat): int
    requires w > 0 && i / w < |s|
  {
    (s[i / w] / Pow2(w - 1 - i % w)) % 2
  }

  lemma IndexInStream(n: nat, w: nat, i: nat)
    requires w > 0 && i < n * w
    ensures i / w < n && w * (n - 1 - i / w) + (w - 1 - i % w) == n * w - 1 - i
  {
    DivModRange(i, w);
    if i / w >= n {
      MulMonotone(n, i / w, w);
    }
    MulDistributes(n - 1, i / w, w);
    MulDistributes(n, 1, w);
    MulCommutes(w, n - 1 - i / w);
  }

  /** A bit of the stream is the bit of that weight of the value. */
  lemma StreamOfValue(s: seq<int>, w: nat, i: nat)
    requires w > 0 && AreDigits(s, Pow2(w)) && i < |s| * w
    ensures i / w < |s| && StreamBit(s, w, i) == (Value(s, w) / Pow2(|s| * w - 1 - i)) % 2
  {
    hide Pow2, Big;
    IndexInStream(|s|, w, i);
    WeightIs(w, |s| - 1 - i / w);
    BigBit(s, w, i / w, w - 1 - i % w);
  }

  lemma ValueFits(s: seq<int>, w: nat)
    requires AreDigits(s, Pow2(w))
    ensures Value(s, w) < Pow2(|s| * w)
  {
    MulCommutes(w, |s|);
    BigBound(s, Pow2(w));
    PowOfPow2(w, |s|);
  }

  lemma ValueOfGroups(v: nat, w: nat, k: nat)
    requires v < Pow2(k * w)
    ensures AreDigits(Groups(v, w, k), Pow2(w)) && Value(Groups(v, w, k), w) == v
  {
    MulCommutes(w, k);
    PowOfPow2(w, k);
    BigDigitsAreDigits(v, Pow2(w), k);
    BigOfBigDigits(v, Pow2(w), k);
  }

  /** Padded regrouping by its value: shifted up to a whole number of groups. */
  lemma PaddedValue(input: seq<int>, inbits: nat, outbits: nat)
    requires AreDigits(input, Pow2(inbits)) && outbits > 0
    ensures Regroup(input, inbits, outbits, true).Some?
    ensures var out := Regroup(input, inbits, outbits, true).value; var up := |out| * outbits - |input| * inbits;
      && 0 <= up < outbits && AreDigits(out, Pow2(outbits))
      && Value(out, outbits) == Value(input, inbits) * Pow2(up)
  {
    hide Pow2, Value, Groups;
    var bits := |input| * inbits;
    var v := Value(input, inbits);
    DivModRange(bits, outbits);
    var n, r := bits / outbits, bits % outbits;
    MulDistributes(n, 1, outbits);
    var up := if r > 0 then outbits - r else 0;
    ValueFits(input, inbits);
    Pow2Add(bits, up);
    MulMonotone(v + 1, Pow2(bits), Pow2(up));
    MulDistributes(v, 1, Pow2(up));
    assert Pow2(0) == 1 by { Pow2Values(); }
    var k := if r > 0 then n + 1 else n;
    assert k * outbits == bits + up;
    assert v * Pow2(0) == v;
    ValueOfGroups(v * Pow2(up), outbits, k);
  }

  /** With padding, the output is the input's bits in order, followed by zeros. */
  lemma PadKeepsBits(input: seq<int>, inbits: nat, outbits: nat, i: nat)
    requires AreDigits(input, Pow2(inbits)) && inbits > 0 && outbits > 0
    requires Regroup(input, inbits, outbits, true).Some?
    requires i < |Regroup(input, inbits, outbits, true).value| * outbits
    ensures var out := Regroup(input, inbits, outbits, true).value;
      && |input| * inbits <= |out| * outbits < |input| * inbits + outbits
      && i / outbits < |out| && (i < |input| * inbits ==> i / inbits < |input|)
      && StreamBit(out, outbits, i) == if i < |input| * inbits then StreamBit(input, inbits, i) else 0
  {
    hide Pow2, Value, Regroup, StreamBit;
    var out := Regroup(input, inbits, outbits, true).value;
    var bits, total := |input| * inbits, |out| * outbits;
    var v, up := Value(input, inbits), total - bits;
    PaddedValue(input, inbits, outbits);
    StreamOfValue(out, outbits, i);
    if i < bits {
      StreamOfValue(input, inbits, i);
      Pow2Add(up, bits - 1 - i);
      ScaledMod(v, Pow2(up), Pow2(bits - 1 - i));
    } else {
      var e := total - 1 - i;
      Pow2Add(up - e, e);
      MulAssociative(v, Pow2(up - e), Pow2(e));
      DivModUnique(v * Pow2(up), Pow2(e), v * Pow2(up - e), 0);
      EvenScaled(v, up - e);
    }
  }

  /** Without padding the input is accepted exactly if less than one of its groups is left over and the bits
      left over are zero. */
  lemma NoPadAcceptsIff(input: seq<int>, inbits: nat, outbits: nat)
    requires AreDigits(input, Pow2(inbits)) && inbits > 0 && outbits > 0
    ensures var bits := |input| * inbits; var r := bits % outbits;
      && (forall i :: 0 <= i < bits ==> i / inbits < |input|)
      && (Regroup(input, inbits, outbits, false).Some?
          <==> r < inbits && forall i :: bits - r <= i < bits ==> StreamBit(input, inbits, i) == 0)
  {
    hide Pow2, Value, Groups, StreamBit;
    var bits := |input| * inbits;
    var r := bits % outbits;
    var v := Value(input, inbits);
    DivModRange(bits, outbits);
    forall i | 0 <= i < bits
      ensures i / inbits < |input| && StreamBit(input, inbits, i) == (v / Pow2(bits - 1 - i)) % 2
    {
      StreamOfValue(input, inbits, i);
    }
    LowBitsClear(v, r);
    if forall i :: bits - r <= i < bits ==> StreamBit(input, inbits, i) == 0 {
      forall e | 0 <= e < r
        ensures (v / Pow2(e)) % 2 == 0
      {
        assert StreamBit(input, inbits, bits - 1 - e) == 0;
      }
    }
  }

  /** What is accepted without padding has the input's bits in order. */
  lemma NoPadKeepsBits(input: seq<int>, inbits: nat, outbits: nat, i: nat)
    requires AreDigits(input, Pow2(inbits)) && inbits > 0 && outbits > 0
    requires Regroup(input, inbits, outbits, false).Some?
    requires i < |Regroup(input, inbits, outbits, false).value| * outbits
    ensures var out := Regroup(input, inbits, outbits, false).value;
      && |out| == (|input| * inbits) / outbits && i / outbits < |out| && i / inbits < |input|
      && StreamBit(out, outbits, i) == StreamBit(input, inbits, i)
  {
    hide Pow2, Value, Groups, StreamBit;
    var bits := |input| * inbits;
    var n, r := bits / outbits, bits % outbits;
    var v := Value(input, inbits);
    DivModRange(bits, outbits);
    ValueFits(input, inbits);
    Pow2Add(n * outbits, r);
    MulCommutes(Pow2(n * outbits), Pow2(r));
    QuotientBound(v, Pow2(r), Pow2(n * outbits));
    ValueOfGroups(Quotient(v, Pow2(r)), outbits, n);
    StreamOfValue(Groups(Quotient(v, Pow2(r)), outbits, n), outbits, i);
    StreamOfValue(input, inbits, i);
    Pow2Add(r, n * outbits - 1 - i);
    DivDiv(v, Pow2(r), Pow2(n * outbits - 1 - i));
  }

  // ---------------------------------------------------------------------------
  // Bytes to 5-bit groups and back
  // ---------------------------------------------------------------------------

  lemma ValueBound(s: seq<int>, bits: nat)
    requires AreDigits(s, Pow2(bits))
    ensures Value(s, bits) < Pow2(bits * |s|)
  {
    BigBound(s, Pow2(bits));
    PowOfPow2(bits, |s|);
  }

  lemma GroupsInverse(v: nat, bits: nat, k: nat)
    requires v < Pow2(bits * k)
    ensures AreDigits(Groups(v, bits, k), Pow2(bits)) && Value(Groups(v, bits, k), bits) == v
  {
    PowOfPow2(bits, k);
    BigDigitsAreDigits(v, Pow2(bits), k);
    BigOfBigDigits(v, Pow2(bits), k);
  }

  lemma GroupsOfValue(s: seq<int>, bits: nat)
    requires AreDigits(s, Pow2(bits))
    ensures Groups(Value(s, bits), bits, |s|) == s
  {
    BigDigitsOfBig(s, Pow2(bits));
  }

  function Ceil85(n: nat): nat { (8 * n + 4) / 5 }

  lemma ShiftBound(v: nat, a: nat, up: nat)
    requires v < Pow2(a)
    ensures v * Pow2(up) < Pow2(a + up)
  {
    Pow2Add(a, up);
    MulMonotone(v + 1, Pow2(a), Pow2(up));
    MulDistributes(v, 1, Pow2(up));
  }

  lemma ShiftBack(v: nat, up: nat)
    ensures (v * Pow2(up)) % Pow2(up) == 0 && Quotient(v * Pow2(up), Pow2(up)) == v
  {
    DivModUnique(v * Pow2(up), Pow2(up), v, 0);
  }

  /** Padding writes the bytes' value, shifted up to a multiple of five bits, in ceil(8n/5) groups. */
  lemma PadSpelled(bytes: seq<int>)
    requires AreDigits(bytes, Pow2(8))
    ensures var k := Ceil85(|bytes|); var up := 5 * k - 8 * |bytes|;
      && 0 <= up < 5 && (8 * |bytes| == 5 * k - up)
      && Regroup(bytes, 8, 5, true) == Some(Groups(Value(bytes, 8) * Pow2(up), 5, k))
  {
    hide Pow2, AreDigits, Value, Groups;
    var v := Value(bytes, 8);
    assert Pow2(0) == 1 by { Pow2Values(); }
    assert v * Pow2(0) == v;
  }

  lemma UnpadSpelled(groups: seq<int>)
    requires AreDigits(groups, Pow2(5))
    ensures var k := |groups|; var n := (5 * k) / 8; var r := 5 * k - 8 * n;
      && 0 <= r < 8
      && Regroup(groups, 5, 8, false)
         == (if Value(groups, 5) % Pow2(r) == 0 && r < 5 then Some(Groups(Quotient(Value(groups, 5), Pow2(r)), 8, n))
             else None)
  {
    hide Pow2, AreDigits, Value, Groups;
  }

  /** Eight to five with padding, then five to eight without, is the identity on bytes. */
  lemma PadThenUnpad(bytes: seq<int>)
    requires AreDigits(bytes, Pow2(8))
    ensures Regroup(bytes, 8, 5, true).Some?
    ensures var groups := Regroup(bytes, 8, 5, true).value;
      && |groups| == Ceil85(|bytes|) && AreDigits(groups, Pow2(5))
      && Regroup(groups, 5, 8, false) == Some(bytes)
  {
    hide Pow2, AreDigits, Value, Groups, Regroup;
    var n, k := |bytes|, Ceil85(|bytes|);
    var up := 5 * k - 8 * n;
    var v := Value(bytes, 8);
    var groups := Groups(v * Pow2(up), 5, k);
    PadSpelled(bytes);
    ValueBound(bytes, 8);
    ShiftBound(v, 8 * n, up);
    GroupsInverse(v * Pow2(up), 5, k);
    UnpadSpelled(groups);
    assert (5 * k) / 8 == n;
    ShiftBack(v, up);
    GroupsOfValue(bytes, 8);
  }

  lemma QuotientBoundPow2(v: nat, a: nat, r: nat)
    requires v < Pow2(a + r) && v % Pow2(r) == 0
    ensures Quotient(v, Pow2(r)) < Pow2(a) && Quotient(v, Pow2(r)) * Pow2(r) == v
  {
    Pow2Add(a, r);
    MulCommutes(Pow2(a), Pow2(r));
    QuotientBound(v, Pow2(r), Pow2(a));
    DivModRange(v, Pow2(r));
  }

  /** Five to eight without padding succeeds only on the padded image of the bytes it returns. */
  lemma UnpadThenPad(groups: seq<int>)
    requires AreDigits(groups, Pow2(5)) && Regroup(groups, 5, 8, false).Some?
    ensures var bytes := Regroup(groups, 5, 8, false).value;
      && |bytes| == (5 * |groups|) / 8 && AreDigits(bytes, Pow2(8))
      && Regroup(bytes, 8, 5, true) == Some(groups)
  {
    hide Pow2, AreDigits, Value, Groups, Regroup;
    var k := |groups|;
    var n := (5 * k) / 8;
    var r := 5 * k - 8 * n;
    var v := Value(groups, 5);
    UnpadSpelled(groups);
    ValueBound(groups, 5);
    QuotientBoundPow2(v, 8 * n, r);
    var bytes := Groups(Quotient(v, Pow2(r)), 8, n);
    GroupsInverse(Quotient(v, Pow2(r)), 8, n);
    PadSpelled(bytes);
    assert Ceil85(n) == k;
    GroupsOfValue(groups, 5);
  }

  /** The 5-bit lists that regroup without padding are exactly the padded byte strings. */
  lemma UnpadAcceptsPaddedOnly(groups: seq<int>)
    requires AreDigits(groups, Pow2(5))
    ensures Regroup(groups, 5, 8, false).Some?
            <==> exists bytes :: AreDigits(bytes, Pow2(8)) && Regroup(bytes, 8, 5, true) == Some(groups)
  {
    hide Pow2, AreDigits, Regroup;
    if Regroup(groups, 5, 8, false).Some? {
      UnpadThenPad(groups);
    }
    if bytes :| AreDigits(bytes, Pow2(8)) && Regroup(bytes, 8, 5, true) == Some(groups) {
      PadThenUnpad(bytes);
    }
  }
}
