/** Bits packed into bytes, first bit on top. */
module Bits {
  import opened Radix

  /** The number spelled by bits, first bit on top. */
  function Msb(bits: seq<bool>): nat {
    if bits == [] then 0 else 2 * Msb(bits[..|bits| - 1]) + (if bits[|bits| - 1] then 1 else 0)
  }

  /** The bits that share a byte with bit `8 * j`. */
  function Chunk(bits: seq<bool>, j: nat): (c: seq<bool>)
    requires 8 * j <= |bits|
    ensures |c| == if 8 * j + 8 <= |bits| then 8 else |bits| - 8 * j
  {
    bits[8 * j..if 8 * j + 8 <= |bits| then 8 * j + 8 else |bits|]
  }

  /** `byte <<= 1; byte |= bit` on eight bits. */
  function ShiftBit(byte: int, bit: bool): int { (2 * byte) % 256 + (if bit then 1 else 0) }

  lemma {:induction false} MsbBit(bits: seq<bool>, k: nat)
    requires k < |bits|
    ensures (Msb(bits) / Pow2(|bits| - 1 - k)) % 2 == if bits[k] then 1 else 0
  {
    var n := |bits| - 1;
    Pow2Values();
    if k < n {
      MsbBit(bits[..n], k);
      Pow2Add(1, n - 1 - k);
      DivDiv(Msb(bits), 2, Pow2(n - 1 - k));
      assert Msb(bits) / 2 == Msb(bits[..n]);
    }
  }

  lemma {:induction false} MsbBound(bits: seq<bool>)
    ensures Msb(bits) < Pow2(|bits|)
  {
    if bits != [] {
      MsbBound(bits[..|bits| - 1]);
      Pow2Add(1, |bits| - 1);
      Pow2Values();
    }
  }

  lemma ByteFits(n: nat)
    requires n <= 8
    ensures Pow2(n) <= 256
  {
    Pow2Add(n, 8 - n);
    Pow2Values();
    MulMonotone(1, Pow2(8 - n), Pow2(n));
  }

  lemma MsbShift(bits: seq<bool>)
    requires 1 <= |bits| <= 8
    ensures ShiftBit(Msb(bits[..|bits| - 1]), bits[|bits| - 1]) == Msb(bits)
  {
    MsbBound(bits);
    ByteFits(|bits|);
  }

  lemma ByteIndex(idx: nat, n: nat)
    requires n < 8
    ensures (8 * idx + n) / 8 == idx && (8 * idx + n) % 8 == n
  {
  }

  /** Bit `k` of a `w`-bit number, first bit on top. */
  predicate BitOf(v: nat, w: nat, k: nat)
    requires k < w
  {
    (v / Pow2(w - 1 - k)) % 2 == 1
  }

  function BitsOf(v: nat, w: nat): (bits: seq<bool>)
    ensures |bits| == w
  {
    seq(w, k requires 0 <= k < w => BitOf(v, w, k))
  }

  lemma BitsOfMsb(bits: seq<bool>)
    ensures BitsOf(Msb(bits), |bits|) == bits
  {
    hide Pow2, Msb;
    forall k | 0 <= k < |bits|
      ensures BitOf(Msb(bits), |bits|, k) == bits[k]
    {
      MsbBit(bits, k);
    }
  }

  lemma {:induction false} MsbOfBits(v: nat, w: nat)
    requires v < Pow2(w)
    ensures Msb(BitsOf(v, w)) == v
  {
    Pow2Values();
    if w > 0 {
      Pow2Add(1, w - 1);
      MsbOfBits(v / 2, w - 1);
      BitsOfHalf(v, w);
    }
  }

  lemma BitsOfHalf(v: nat, w: nat)
    requires w > 0
    ensures BitsOf(v, w)[..w - 1] == BitsOf(v / 2, w - 1)
    ensures BitsOf(v, w)[w - 1] <==> v % 2 == 1
  {
    Pow2Values();
    forall k | 0 <= k < w - 1
      ensures BitsOf(v, w)[k] == BitsOf(v / 2, w - 1)[k]
    {
      Pow2Add(1, w - 2 - k);
      DivDiv(v, 2, Pow2(w - 2 - k));
    }
    assert BitOf(v, w, w - 1) == ((v / 1) % 2 == 1);
  }
}
