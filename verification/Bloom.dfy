/** The Bloom filter of inc/bloom_filter.h and `ShortHash::to_uint` of inc/curve.h. */
module Bloom {
  import opened Common
  import opened Radix
  import opened Bits

  type U64 = x: int | 0 <= x < 0x1_0000_0000_0000_0000

  const WORD: int := 0x1_0000_0000

  /** The keyed short hash, outside this model: key and data to a 64-bit word. */
  type ShortHash = (Bytes, Bytes) -> U64

  /** `to_uint`: the top half of the word scaled down to the range below `mod`, in 64-bit arithmetic. */
  function ToUint(word: U64, mod: nat): nat { (((word / WORD) * mod) % (WORD * WORD)) / WORD }

  /** The index lands below any positive `int`; the product never leaves 64 bits. */
  lemma ToUintInRange(word: U64, mod: nat)
    requires 0 < mod < 0x8000_0000
    ensures ToUint(word, mod) < mod
    ensures ToUint(word, mod) == ((word / WORD) * mod) / WORD
  {
    var top := word / WORD;
    MulMonotone(top, WORD - 1, mod);
    MulMonotone(0, top, mod);
    MulCommutes(WORD, mod);
    assert 0 <= top * mod < WORD * WORD;
    QuotientBound(top * mod, WORD, mod);
  }

  /** The value of a filter: size, key, bits and the counter of set bits. */
  datatype Filter = Filter(p: nat, key: Bytes, hits: seq<bool>, nOn: int) {
    predicate Valid() { |hits| == p < 0x8000_0000 }
  }

  function Index(sh: ShortHash, f: Filter, b: Bytes): (i: nat)
    requires f.Valid() && f.p > 0
    ensures i < f.p
  {
    ToUintInRange(sh(f.key, b), f.p);
    ToUint(sh(f.key, b), f.p)
  }

  predicate Has(sh: ShortHash, f: Filter, b: Bytes)
    requires f.Valid()
  {
    f.p != 0 && f.hits[Index(sh, f, b)]
  }

  function Fresh(p: nat, key: Bytes): Filter { Filter(p, key, seq(p, _ => false), 0) }

  datatype Op = OpSet(b: Bytes) | OpHasSet(b: Bytes) | OpReset

  function ApplyOp(sh: ShortHash, f: Filter, op: Op): (g: Filter)
    requires f.Valid() && (f.p > 0 || op.OpReset?)
    ensures g.Valid() && g.p == f.p && g.key == f.key
  {
    if op.OpReset? then f.(hits := seq(f.p, _ => false), nOn := 0)
    else
      var i := Index(sh, f, op.b);
      f.(hits := f.hits[i := true], nOn := if f.hits[i] then f.nOn else f.nOn + 1)
  }

  function RunOps(sh: ShortHash, f: Filter, ops: seq<Op>): (g: Filter)
    requires f.Valid() && f.p > 0
    ensures g.Valid() && g.p == f.p && g.key == f.key
  {
    if ops == [] then f else ApplyOp(sh, RunOps(sh, f, ops[..|ops| - 1]), ops[|ops| - 1])
  }

  /** What was set since the last reset. */
  function SinceReset(ops: seq<Op>): set<Bytes> {
    if ops == [] then {}
    else if ops[|ops| - 1].OpReset? then {}
    else SinceReset(ops[..|ops| - 1]) + {ops[|ops| - 1].b}
  }

  function CountTrue(s: seq<bool>): nat {
    if s == [] then 0 else CountTrue(s[..|s| - 1]) + (if s[|s| - 1] then 1 else 0)
  }

  // ---------------------------------------------------------------------------
  // Runs of a fresh filter
  // ---------------------------------------------------------------------------

  lemma {:induction false} CountUpdate(s: seq<bool>, i: nat)
    requires i < |s|
    ensures CountTrue(s[i := true]) == CountTrue(s) + (if s[i] then 0 else 1)
  {
    var n := |s| - 1;
    if i < n {
      CountUpdate(s[..n], i);
      assert s[i := true][..n] == s[..n][i := true];
    } else {
      assert s[i := true][..n] == s[..n];
    }
  }

  lemma {:induction false} CountAllFalse(s: seq<bool>)
    requires forall i :: 0 <= i < |s| ==> !s[i]
    ensures CountTrue(s) == 0
  {
    if s != [] {
      CountAllFalse(s[..|s| - 1]);
    }
  }

  /** On a fresh filter the counter is always the number of bits that are set. */
  lemma {:induction false} CounterIsExact(sh: ShortHash, p: nat, key: Bytes, ops: seq<Op>)
    requires 0 < p < 0x8000_0000
    ensures var g := RunOps(sh, Fresh(p, key), ops);
      g.nOn == CountTrue(g.hits) == |set i: nat | 0 <= i < |g.hits| && g.hits[i]|
  {
    TrueCounted(RunOps(sh, Fresh(p, key), ops).hits);
    if ops == [] {
      CountAllFalse(Fresh(p, key).hits);
    } else {
      var f := RunOps(sh, Fresh(p, key), ops[..|ops| - 1]);
      var op := ops[|ops| - 1];
      CounterIsExact(sh, p, key, ops[..|ops| - 1]);
      if op.OpReset? {
        CountAllFalse(ApplyOp(sh, f, op).hits);
      } else {
        CountUpdate(f.hits, Index(sh, f, op.b));
      }
    }
  }

  /** A key is reported present exactly if something set since the last reset shares its index; in
      particular everything set since then is present. */
  lemma {:induction false} PresentIffSet(sh: ShortHash, p: nat, key: Bytes, ops: seq<Op>, x: Bytes)
    requires 0 < p < 0x8000_0000
    ensures var g := RunOps(sh, Fresh(p, key), ops);
      && (Has(sh, g, x) <==> exists b :: b in SinceReset(ops) && Index(sh, g, b) == Index(sh, g, x))
      && (x in SinceReset(ops) ==> Has(sh, g, x))
  {
    hide ToUint;
    if ops != [] {
      var op := ops[|ops| - 1];
      var f := RunOps(sh, Fresh(p, key), ops[..|ops| - 1]);
      var g := RunOps(sh, Fresh(p, key), ops);
      PresentIffSet(sh, p, key, ops[..|ops| - 1], x);
      assert forall b :: Index(sh, g, b) == Index(sh, f, b);
      if !op.OpReset? && Index(sh, g, op.b) == Index(sh, g, x) {
        assert op.b in SinceReset(ops);
      }
    }
  }

  lemma {:induction false} SinceResetIff(ops: seq<Op>, b: Bytes)
    ensures b in SinceReset(ops)
            <==> exists i :: 0 <= i < |ops| && !ops[i].OpReset? && ops[i].b == b
                             && forall k :: i < k < |ops| ==> !ops[k].OpReset?
  {
    if ops != [] {
      var n := |ops| - 1;
      var init := ops[..n];
      SinceResetIff(init, b);
      if i :| 0 <= i < |init| && !init[i].OpReset? && init[i].b == b
              && forall k :: i < k < |init| ==> !init[k].OpReset? {
        assert ops[i] == init[i];
        assert !ops[n].OpReset? ==> forall k :: i < k < |ops| ==> !ops[k].OpReset?;
      }
      if i :| 0 <= i < |ops| && !ops[i].OpReset? && ops[i].b == b
              && forall k :: i < k < |ops| ==> !ops[k].OpReset? {
        if i < n {
          assert init[i] == ops[i] && forall k :: i < k < n ==> !init[k].OpReset?;
        }
      }
    }
  }

  /** The bit for a key: the upper half of its hash under the filter's key, scaled down to the size. */
  function BitFor(sh: ShortHash, p: nat, key: Bytes, b: Bytes): int {
    ((sh(key, b) / 0x1_0000_0000) * p) / 0x1_0000_0000
  }

  /** Present in plain terms: some operation set a key with the same bit, and no reset came after it. */
  lemma PresentMeans(sh: ShortHash, p: nat, key: Bytes, ops: seq<Op>, x: Bytes)
    requires 0 < p < 0x8000_0000
    ensures Has(sh, RunOps(sh, Fresh(p, key), ops), x)
            <==> exists i :: 0 <= i < |ops| && !ops[i].OpReset?
                             && BitFor(sh, p, key, ops[i].b) == BitFor(sh, p, key, x)
                             && forall k :: i < k < |ops| ==> !ops[k].OpReset?
  {
    hide ToUint, SinceReset, Has;
    var g := RunOps(sh, Fresh(p, key), ops);
    PresentIffSet(sh, p, key, ops, x);
    forall b
      ensures Index(sh, g, b) == BitFor(sh, p, key, b)
      ensures b in SinceReset(ops) <==> exists i :: 0 <= i < |ops| && !ops[i].OpReset? && ops[i].b == b
                                                    && forall k :: i < k < |ops| ==> !ops[k].OpReset?
    {
      ToUintInRange(sh(key, b), p);
      SinceResetIff(ops, b);
    }
  }

  lemma {:induction false} TrueCounted(s: seq<bool>)
    ensures CountTrue(s) == |set i: nat | 0 <= i < |s| && s[i]|
  {
    if s != [] {
      var n := |s| - 1;
      TrueCounted(s[..n]);
      var before := set i: nat | 0 <= i < n && s[i];
      assert (set i: nat | 0 <= i < n && s[..n][i]) == before;
      assert (set i: nat | 0 <= i < |s| && s[i]) == before + (if s[n] then {n} else {});
    }
  }

  // ---------------------------------------------------------------------------
  // The wire form
  // ---------------------------------------------------------------------------

  /** What `bytes` returns. The last byte is moved up by `8 - n` for the `n` bits it received since it
      was started, and `n` is 0, not 8, when it is full: all its bits are then shifted out. */
  function Pack(hits: seq<bool>): (b: Bytes)
    requires hits != []
    ensures |b| == (|hits| + 7) / 8
  {
    seq((|hits| + 7) / 8, j requires 0 <= j < (|hits| + 7) / 8 =>
      if j < (|hits| + 7) / 8 - 1 then Msb(Chunk(hits, j))
      else (Msb(Chunk(hits, j)) * Pow2(8 - |hits| % 8)) % 256)
  }

  /** Bit `i` of packed data: `data[i / 8] & (1 << (7 - i % 8))`. */
  predicate BitAt(data: Bytes, i: nat)
    requires i / 8 < |data|
  {
    ReadBit(data[i / 8], i % 8)
  }

  /** `byte & (1 << (7 - n))`. */
  predicate ReadBit(byte: int, n: nat)
    requires n < 8
  {
    (byte / Pow2(7 - n)) % 2 == 1
  }

  /** The data holds a bit for every position. */
  predicate Covers(data: Bytes, p: nat) { p <= 8 * |data| }

  function Unpack(data: Bytes, p: nat): (hits: seq<bool>)
    requires Covers(data, p)
    ensures |hits| == p
  {
    seq(p, i requires 0 <= i < p => BitAt(data, i))
  }

  /** Reading a bit back from a byte whose bits were moved up to the top. */
  lemma RaisedBit(bits: seq<bool>, k: nat)
    requires k < |bits| <= 8
    ensures Msb(bits) * Pow2(8 - |bits|) < 256
    ensures ((Msb(bits) * Pow2(8 - |bits|)) / Pow2(7 - k)) % 2 == if bits[k] then 1 else 0
  {
    var up := 8 - |bits|;
    MsbBound(bits);
    Pow2Add(|bits|, up);
    Pow2Values();
    MulMonotone(Msb(bits) + 1, Pow2(|bits|), Pow2(up));
    MulDistributes(Msb(bits), 1, Pow2(up));
    MsbBit(bits, k);
    Pow2Add(up, |bits| - 1 - k);
    ScaledMod(Msb(bits), Pow2(up), Pow2(|bits| - 1 - k));
  }

  lemma PackedByte(hits: seq<bool>, j: nat)
    requires j < (|hits| + 7) / 8
    ensures Pack(hits)[j] == if j < (|hits| + 7) / 8 - 1 then Msb(Chunk(hits, j))
                             else (Msb(Chunk(hits, j)) * Pow2(8 - |hits| % 8)) % 256
  {
    hide Msb, Pow2;
  }

  lemma RaisedRead(bits: seq<bool>, k: nat)
    requires k < |bits| <= 8
    ensures ReadBit((Msb(bits) * Pow2(8 - |bits|)) % 256, k) == bits[k]
    ensures |bits| == 8 ==> ReadBit(Msb(bits), k) == bits[k]
  {
    hide Pow2, Msb;
    RaisedBit(bits, k);
    Pow2Values();
  }

  lemma PackedBitOf(hits: seq<bool>, j: nat, k: nat)
    requires k < 8 && 8 * j + k < |hits|
    ensures ReadBit(Pack(hits)[j], k) <==> hits[8 * j + k] && (|hits| % 8 != 0 || 8 * j + k < |hits| - 8)
  {
    hide Pow2, Msb, Pack, ReadBit;
    var bits := Chunk(hits, j);
    assert bits[k] == hits[8 * j + k];
    PackedByte(hits, j);
    RaisedRead(bits, k);
    if j == (|hits| + 7) / 8 - 1 && |hits| % 8 == 0 {
      LastByteLost(Msb(bits), k);
    }
  }

  /** A bit comes back as it was, unless the size is a multiple of 8 and the bit is among the last eight. */
  lemma PackedBit(hits: seq<bool>, i: nat)
    requires i < |hits|
    ensures BitAt(Pack(hits), i) <==> hits[i] && (|hits| % 8 != 0 || i < |hits| - 8)
  {
    hide Pack, ReadBit;
    PackedBitOf(hits, i / 8, i % 8);
  }

  /** Bit `i` of a filter is packed into byte `i / 8`, first bit on top, and a last byte that is not full ends in
      zeros; a last byte that is full is zero. */
  lemma PackedByteBit(hits: seq<bool>, j: nat, k: nat)
    requires j < (|hits| + 7) / 8 && k < 8 && hits != []
    ensures (Pack(hits)[j] / Pow2(7 - k)) % 2 == 1
            <==> 8 * j + k < |hits| && hits[8 * j + k] && (|hits| % 8 != 0 || j < (|hits| + 7) / 8 - 1)
  {
    hide Pack, Pow2, Msb;
    if 8 * j + k < |hits| {
      PackedBitOf(hits, j, k);
    } else {
      PackedByte(hits, j);
      BelowIsZero(Msb(Chunk(hits, j)), |hits| % 8, k);
    }
  }

  lemma BelowIsZero(v: nat, n: nat, k: nat)
    requires n <= k < 8
    ensures (((v * Pow2(8 - n)) % 256) / Pow2(7 - k)) % 2 == 0
  {
    hide Pow2;
    Pow2Values();
    Pow2Add(7 - k, k);
    Pow2Add(1, k);
    DigitOfTruncated(v * Pow2(8 - n), Pow2(7 - k), 2, Pow2(k));
    Pow2Add(k + 1 - n, 7 - k);
    MulAssociative(v, Pow2(k + 1 - n), Pow2(7 - k));
    DivModUnique(v * Pow2(8 - n), Pow2(7 - k), v * Pow2(k + 1 - n), 0);
    EvenScaled(v, k + 1 - n);
  }

  /** Bit `i` of received data is read from byte `i / 8`, first bit on top. */
  lemma UnpackedBit(data: Bytes, p: nat, i: nat)
    requires Covers(data, p) && i < p
    ensures i / 8 < |data| && (Unpack(data, p)[i] <==> (data[i / 8] / Pow2(7 - i % 8)) % 2 == 1)
  {
    hide Pow2;
  }

  lemma LastByteLost(v: nat, k: nat)
    requires k < 8
    ensures !ReadBit((v * Pow2(8)) % 256, k)
  {
    Pow2Values();
    DivModUnique(v * 256, 256, v, 0);
    DivModUnique(0, Pow2(7 - k), 0, 0);
  }

  /** `bytes` followed by the data constructor restores every bit exactly if the size is not a
      multiple of 8 or the last eight bits are all clear. */
  lemma WireRoundTrip(hits: seq<bool>)
    requires hits != []
    ensures Unpack(Pack(hits), |hits|) == hits
            <==> |hits| % 8 != 0 || forall i :: |hits| - 8 <= i < |hits| ==> !hits[i]
  {
    hide BitAt, Pack;
    var back := Unpack(Pack(hits), |hits|);
    forall i | 0 <= i < |hits|
      ensures back[i] <==> hits[i] && (|hits| % 8 != 0 || i < |hits| - 8)
    {
      PackedBit(hits, i);
    }
    if back == hits && |hits| % 8 == 0 {
      forall i | |hits| - 8 <= i < |hits|
        ensures !hits[i]
      {
        assert back[i] == hits[i];
      }
    }
  }

  /** A filter of size 8 with all bits set arrives with none. */
  lemma LostByteExample()
    ensures var hits := seq(8, _ => true); Unpack(Pack(hits), 8) == seq(8, _ => false)
  {
    hide BitAt, Pack;
    var hits := seq(8, _ => true);
    forall i | 0 <= i < 8
      ensures !Unpack(Pack(hits), 8)[i]
    {
      PackedBit(hits, i);
    }
  }

  /** The packing loop after `8 * i + n` bits: full bytes, then one with `n` bits, then zeros. */
  ghost predicate Packing(hits: seq<bool>, b: Bytes, i: nat, n: nat) {
    && |b| == (|hits| + 7) / 8 && 8 * i + n <= |hits| && n < 8
    && (forall j :: 0 <= j < i ==> b[j] == Msb(Chunk(hits, j)))
    && (i < |b| ==> b[i] == Msb(hits[8 * i..8 * i + n]))
    && (forall j :: i < j < |b| ==> b[j] == 0)
  }

  lemma PackStart(hits: seq<bool>)
    ensures Packing(hits, seq((|hits| + 7) / 8, _ => 0), 0, 0)
  {
    assert hits[0..0] == [];
  }

  lemma PackStep(hits: seq<bool>, b: Bytes, i: nat, n: nat)
    requires Packing(hits, b, i, n) && 8 * i + n < |hits|
    ensures i < |b|
    ensures var b' := b[i := ShiftBit(b[i], hits[8 * i + n])];
      if n + 1 == 8 then Packing(hits, b', i + 1, 0) else Packing(hits, b', i, n + 1)
  {
    var bits := hits[8 * i..8 * i + n + 1];
    assert bits[..n] == hits[8 * i..8 * i + n];
    MsbShift(bits);
    if n + 1 == 8 {
      assert bits == Chunk(hits, i);
      assert hits[8 * i + 8..8 * i + 8] == [];
    }
  }

  lemma PackEnd(hits: seq<bool>, b: Bytes, i: nat, n: nat)
    requires Packing(hits, b, i, n) && 8 * i + n == |hits| > 0
    ensures var last := |b| - 1; b[last := (b[last] * Pow2(8 - n)) % 256] == Pack(hits)
  {
    hide Msb, Pow2;
    var last := |b| - 1;
    ByteIndex(i, n);
    assert last == if n > 0 then i else i - 1;
    assert b[last] == Msb(Chunk(hits, last));
  }

  // ---------------------------------------------------------------------------
  // The class
  // ---------------------------------------------------------------------------

  class Bloom {
    const sh: ShortHash
    const p: nat
    const key: Bytes
    var hits: seq<bool>
    var nOn: int

    predicate Valid()
      reads this
    {
      State().Valid()
    }

    /** The value that a copy of this object would hold. */
    function State(): Filter
      reads this
    {
      Filter(p, key, hits, nOn)
    }

    constructor (sh: ShortHash, p: nat, key: Bytes)
      requires p < 0x8000_0000
      ensures Valid() && State() == Fresh(p, key) && this.sh == sh
    {
      this.sh, this.p, this.key := sh, p, key;
      hits := seq(p, _ => false);
      nOn := 0;
    }

    /** The data constructor; it does not count the bits it reads. Its size is not checked against the
        data: with more bits than the data holds it reads past the end, after the bits that are there. */
    constructor FromData(sh: ShortHash, data: Bytes, p: nat, key: Bytes)
      ensures this.sh == sh && this.p == p && this.key == key && |hits| == p && nOn == 0
      ensures Covers(data, p) ==> hits == Unpack(data, p)
      ensures !Covers(data, p) ==> hits[..8 * |data|] == Unpack(data, 8 * |data|)
    {
      hide ReadBit;
      this.sh, this.p, this.key := sh, p, key;
      hits := seq(p, _ => false);
      nOn := 0;
      new;
      var i, n, idx := 0, 0, 0;
      while i < p && idx < |data|
        invariant 0 <= i <= p && |hits| == p && i == 8 * idx + n && 0 <= n < 8
        invariant idx <= |data| && (n > 0 ==> idx < |data|)
        invariant nOn == 0
        invariant forall k :: 0 <= k < i ==> hits[k] == BitAt(data, k)
      {
        ByteIndex(idx, n);
        hits := hits[i := ReadBit(data[idx], n)];
        i := i + 1;
        n := n + 1;
        if n == 8 {
          idx := idx + 1;
          n := 0;
        }
      }
    }

    method Reset()
      requires Valid()
      modifies this`hits, this`nOn
      ensures Valid() && State() == ApplyOp(sh, old(State()), OpReset)
    {
      hits := seq(|hits|, _ => false);
      nOn := 0;
    }

    method Contains(b: Bytes) returns (r: bool)
      requires Valid()
      ensures r == Has(sh, State(), b)
    {
      if p == 0 {
        return false;
      }
      var val := Index(sh, State(), b);
      r := hits[val];
    }

    method Set(b: Bytes)
      requires Valid() && p > 0
      modifies this`hits, this`nOn
      ensures Valid() && State() == ApplyOp(sh, old(State()), OpSet(b))
    {
      var val := Index(sh, State(), b);
      if !hits[val] {
        nOn := nOn + 1;
      }
      hits := hits[val := true];
    }

    method HasSet(b: Bytes) returns (has: bool)
      requires Valid() && p > 0
      modifies this`hits, this`nOn
      ensures Valid() && State() == ApplyOp(sh, old(State()), OpHasSet(b))
      ensures has == old(Has(sh, State(), b))
    {
      var val := Index(sh, State(), b);
      has := hits[val];
      hits := hits[val := true];
      if !has {
        nOn := nOn + 1;
      }
    }

    /** `bytes`: bits are shifted into a byte from below; the last byte is then shifted up. */
    method ToBytes() returns (b: Bytes)
      requires Valid() && p > 0
      ensures b == Pack(hits)
    {
      hide Packing, Pack, Pow2, ShiftBit;
      b := seq((p + 7) / 8, _ => 0);
      PackStart(hits);
      var i, n, k := 0, 0, 0;
      while k < |hits|
        invariant 0 <= k <= |hits| && k == 8 * i + n && 0 <= n < 8
        invariant |b| == (p + 7) / 8 && Packing(hits, b, i, n)
      {
        PackStep(hits, b, i, n);
        b := b[i := ShiftBit(b[i], hits[k])];
        n := n + 1;
        k := k + 1;
        if n == 8 {
          i := i + 1;
          n := 0;
        }
      }
      PackEnd(hits, b, i, n);
      b := b[|b| - 1 := (b[|b| - 1] * Pow2(8 - n)) % 256];
    }
  }
}
