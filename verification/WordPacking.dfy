/** Word lists as encrypted bytes: bin/wordenc.cc, bin/worddec.cc and the packing in inc/type.h. */
module WordPacking {
  import opened Common
  import opened Radix
  import opened Bits

  // ---------------------------------------------------------------------------
  // std::bitset to bytes and back
  // ---------------------------------------------------------------------------

  /** `Bytes(std::bitset<N>&)`: there are (N + 1) / 8 bytes. A last byte of seven bits is kept, right
      aligned; one to six bits left over are dropped. */
  function PackBits(bits: seq<bool>): (b: Bytes)
    ensures |b| == (|bits| + 1) / 8
  {
    seq((|bits| + 1) / 8, j requires 0 <= j < (|bits| + 1) / 8 => Msb(Chunk(bits, j)))
  }

  /** How many bits `bitset` takes the byte of bit `i` to hold. */
  function Base(n: nat, i: nat): nat { if i / 8 == n / 8 then n % 8 else 8 }

  /** `Bytes::bitset<N>`: it reads ceil(N / 8) bytes. */
  function UnpackBits(b: Bytes, n: nat): (bits: seq<bool>)
    requires (n + 7) / 8 <= |b| && AreBytes(b)
    ensures |bits| == n
  {
    seq(n, i requires 0 <= i < n => BitOf(b[i / 8], Base(n, i), i % 8))
  }

  lemma PackedAreBytes(bits: seq<bool>)
    ensures AreBytes(PackBits(bits))
  {
    forall j | 0 <= j < |PackBits(bits)|
      ensures 0 <= PackBits(bits)[j] < 256
    {
      MsbBound(Chunk(bits, j));
      ByteFits(|Chunk(bits, j)|);
    }
  }

  /** Packing leaves enough bytes to read back exactly if N is 0 or 7 modulo 8, and then every bit
      comes back. */
  lemma PackUnpack(bits: seq<bool>)
    ensures (|bits| + 7) / 8 <= |PackBits(bits)| <==> |bits| % 8 == 0 || |bits| % 8 == 7
    ensures (|bits| % 8 == 0 || |bits| % 8 == 7)
      ==> AreBytes(PackBits(bits)) && UnpackBits(PackBits(bits), |bits|) == bits
  {
    hide Msb, BitOf;
    PackedAreBytes(bits);
    if |bits| % 8 == 0 || |bits| % 8 == 7 {
      forall i | 0 <= i < |bits|
        ensures UnpackBits(PackBits(bits), |bits|)[i] == bits[i]
      {
        var c := Chunk(bits, i / 8);
        assert |c| == Base(|bits|, i) && c[i % 8] == bits[i];
        BitsOfMsb(c);
        assert BitOf(Msb(c), |c|, i % 8) == BitsOf(Msb(c), |c|)[i % 8];
      }
    }
  }

  /** Bit `i` is packed into byte `i / 8`, first bit on top, right aligned in a last byte of seven. */
  lemma PackedBitIs(bits: seq<bool>, i: nat)
    requires i < |bits| && i / 8 < (|bits| + 1) / 8
    ensures var width := if 8 * (i / 8) + 8 <= |bits| then 8 else 7;
      i % 8 < width && ((PackBits(bits)[i / 8] / Pow2(width - 1 - i % 8)) % 2 == 1 <==> bits[i])
  {
    hide Msb, Pow2;
    var c := Chunk(bits, i / 8);
    assert c[i % 8] == bits[i];
    MsbBit(c, i % 8);
  }

  /** Bit `i` of a bit set is read from byte `i / 8`, first bit on top, right aligned in the last byte. */
  lemma UnpackedBitIs(b: Bytes, n: nat, i: nat)
    requires AreBytes(b) && (n + 7) / 8 <= |b| && i < n
    ensures var width := if 8 * (i / 8) + 8 <= n then 8 else n % 8;
      i % 8 < width && (UnpackBits(b, n)[i] <==> (b[i / 8] / Pow2(width - 1 - i % 8)) % 2 == 1)
  {
    hide Pow2;
  }

  /** For whole bytes the other direction holds too. */
  lemma UnpackPack(b: Bytes)
    requires AreBytes(b)
    ensures PackBits(UnpackBits(b, 8 * |b|)) == b
  {
    hide Msb, BitOf;
    var bits := UnpackBits(b, 8 * |b|);
    forall j | 0 <= j < |b|
      ensures PackBits(bits)[j] == b[j]
    {
      var c := Chunk(bits, j);
      forall k | 0 <= k < 8
        ensures c[k] == BitsOf(b[j], 8)[k]
      {
        ByteIndex(j, k);
        assert c[k] == bits[8 * j + k];
      }
      assert c == BitsOf(b[j], 8);
      Pow2Values();
      MsbOfBits(b[j], 8);
    }
  }

  method BytesOfBitset(bits: seq<bool>) returns (b: Bytes)
    ensures b == PackBits(bits)
  {
    hide Msb, ShiftBit;
    b := seq((|bits| + 1) / 8, _ => 0);
    var idx, n, u, i := 0, 0, 0, 0;
    assert bits[0..0] == [];
    assert Msb([]) == 0 by { MsbEmpty(); }
    while i < |bits|
      invariant 0 <= i <= |bits| && i == 8 * idx + n && 0 <= n < 8 && |b| == (|bits| + 1) / 8
      invariant forall j :: 0 <= j < idx ==> b[j] == Msb(Chunk(bits, j))
      invariant u == Msb(bits[8 * idx..i])
    {
      var c := bits[8 * idx..i + 1];
      assert c[..|c| - 1] == bits[8 * idx..i];
      MsbShift(c);
      u := ShiftBit(u, bits[i]);
      n := n + 1;
      i := i + 1;
      if n == 8 {
        assert c == Chunk(bits, idx);
        b := b[idx := u];
        idx := idx + 1;
        u := 0;
        n := 0;
        assert bits[8 * idx..i] == [];
        MsbEmpty();
      }
    }
    if idx < |b| {
      assert bits[8 * idx..i] == Chunk(bits, idx);
      b := b[idx := u];
    }
  }

  lemma MsbEmpty()
    ensures Msb([]) == 0
  {
  }

  /** `bitset` reads ceil(N / 8) bytes whatever the size of the vector; `ok` is false where it has read past the
      end, after the bits of the bytes that are there. */
  method BitsetOfBytes(b: Bytes, size: nat) returns (ok: bool, bits: seq<bool>)
    requires AreBytes(b)
    ensures ok <==> (size + 7) / 8 <= |b|
    ensures ok ==> bits == UnpackBits(b, size)
    ensures !ok ==> |bits| == size && forall i :: 0 <= i < 8 * |b| ==> bits[i] == BitOf(b[i / 8], 8, i % 8)
  {
    hide Pow2;
    ok := true;
    bits := seq(size, _ => false);
    var idx, n, i := 0, 0, 0;
    while i < size
      invariant 0 <= i <= size && i == 8 * idx + n && 0 <= n < 8 && |bits| == size
      invariant idx <= |b| && (n > 0 ==> idx < |b|)
      invariant forall k :: 0 <= k < i ==> k / 8 < |b| && bits[k] == BitOf(b[k / 8], Base(size, k), k % 8)
    {
      ByteIndex(idx, n);
      var base := 8;
      if i / 8 == size / 8 {
        base := size % 8;
      }
      if idx >= |b| {
        WholeBytes(size, i);
        return false, bits;
      }
      var mask := Pow2(base - 1 - n);
      bits := bits[i := (b[idx] / mask) % 2 == 1];
      n := n + 1;
      i := i + 1;
      if n == 8 {
        idx := idx + 1;
        n := 0;
      }
    }
  }

  lemma WholeBytes(size: nat, i: nat)
    requires i < size && i % 8 == 0
    ensures forall k :: 0 <= k < i ==> Base(size, k) == 8
  {
  }

  /** One bit makes no byte, and reading it back needs one. */
  lemma ShortBytesExample()
    ensures |PackBits([true])| < (|[true]| + 7) / 8
  {
  }

  // ---------------------------------------------------------------------------
  // Exclusive or with a keystream
  // ---------------------------------------------------------------------------

  type Byte = x: int | 0 <= x < 256

  /** Bit by bit exclusive or. */
  function XorBits(s: seq<bool>, t: seq<bool>): (r: seq<bool>)
    requires |s| == |t|
    ensures |r| == |s|
  {
    seq(|s|, i requires 0 <= i < |s| => s[i] != t[i])
  }

  function XorByte(a: Byte, k: Byte): (r: Byte) {
    var bits := XorBits(BitsOf(a, 8), BitsOf(k, 8));
    MsbBound(bits);
    ByteFits(8);
    Msb(bits)
  }

  /** Bit by bit, a key bit that is set turns the bit of the byte around and one that is clear leaves it. */
  lemma XorByteBit(a: Byte, k: Byte, i: nat)
    requires i < 8
    ensures (XorByte(a, k) / Pow2(7 - i)) % 2 == ((a / Pow2(7 - i)) % 2 + (k / Pow2(7 - i)) % 2) % 2
  {
    hide Msb, Pow2;
    var bits := XorBits(BitsOf(a, 8), BitsOf(k, 8));
    BitsOfMsb(bits);
    assert BitsOf(Msb(bits), 8)[i] == bits[i];
  }

  /** The same for a list under a keystream. */
  lemma XorAllBit(a: seq<Byte>, key: seq<Byte>, n: nat, i: nat)
    requires |a| == |key| && n < |a| && i < 8
    ensures (XorAll(a, key)[n] / Pow2(7 - i)) % 2 == ((a[n] / Pow2(7 - i)) % 2 + (key[n] / Pow2(7 - i)) % 2) % 2
  {
    hide XorByte, Pow2;
    XorByteBit(a[n], key[n], i);
  }

  lemma XorByteCancels(a: Byte, k: Byte)
    ensures XorByte(XorByte(a, k), k) == a
  {
    hide Msb, BitOf, Pow2;
    var s, t := BitsOf(a, 8), BitsOf(k, 8);
    BitsOfMsb(XorBits(s, t));
    assert XorBits(XorBits(s, t), t) == s;
    Pow2Values();
    MsbOfBits(a, 8);
  }

  function XorAll(a: seq<Byte>, key: seq<Byte>): (r: seq<Byte>)
    requires |a| == |key|
    ensures |r| == |a|
  {
    seq(|a|, i requires 0 <= i < |a| => XorByte(a[i], key[i]))
  }

  /** `x_or`, which asserts equal sizes and works in place. */
  method XOr(a: array<Byte>, key: seq<Byte>)
    requires a.Length == |key|
    modifies a
    ensures a[..] == XorAll(old(a[..]), key)
  {
    hide XorByte;
    for i := 0 to a.Length
      invariant forall j :: 0 <= j < i ==> a[j] == XorByte(old(a[j]), key[j])
      invariant forall j :: i <= j < a.Length ==> a[j] == old(a[j])
    {
      a[i] := XorByte(a[i], key[i]);
    }
  }

  lemma XorAllCancels(a: seq<Byte>, key: seq<Byte>)
    requires |a| == |key|
    ensures XorAll(XorAll(a, key), key) == a
  {
    hide XorByte;
    forall i | 0 <= i < |a|
      ensures XorAll(XorAll(a, key), key)[i] == a[i]
    {
      XorByteCancels(a[i], key[i]);
    }
  }

  // ---------------------------------------------------------------------------
  // Words to eleven-bit groups and back
  // ---------------------------------------------------------------------------

  const GROUP: nat := 11

  /** `std::find` as an index: the first occurrence, or the length of the list. */
  function Find(words: seq<string>, w: string): (n: nat)
    ensures n <= |words| && (n < |words| ==> words[n] == w)
    ensures n == |words| <==> w !in words
    ensures forall i :: 0 <= i < n ==> words[i] != w
  {
    if words == [] then 0
    else if words[0] == w then 0
    else 1 + Find(words[1..], w)
  }

  /** The low eleven bits of an index, lowest first. */
  function LowBits(n: nat): (bits: seq<bool>)
    ensures |bits| == GROUP
  {
    seq(GROUP, i requires 0 <= i < GROUP => (n / Pow2(i)) % 2 == 1)
  }

  /** The number spelled by bits, lowest first. */
  function FromLow(bits: seq<bool>): nat {
    if bits == [] then 0
    else FromLow(bits[..|bits| - 1]) + (if bits[|bits| - 1] then Pow2(|bits| - 1) else 0)
  }

  /** The bits of a list of words, before the fill. */
  function WordBits(words: seq<string>, enc: seq<string>): (bits: seq<bool>)
    ensures |bits| == GROUP * |enc|
  {
    if enc == [] then []
    else WordBits(words, enc[..|enc| - 1]) + LowBits(Find(words, enc[|enc| - 1]))
  }

  function Clear(n: nat): (bits: seq<bool>)
    ensures |bits| == n
  {
    seq(n, _ => false)
  }

  predicate AllIn(enc: seq<string>, words: seq<string>) { forall i :: 0 <= i < |enc| ==> enc[i] in words }

  /** The bit set of `capacity` groups that wordenc fills from the bottom. */
  function EncodedBits(words: seq<string>, enc: seq<string>, capacity: nat): (bits: seq<bool>)
    requires |enc| <= capacity
    ensures |bits| == GROUP * capacity
  {
    WordBits(words, enc) + Clear(GROUP * capacity - GROUP * |enc|)
  }

  function Group(bits: seq<bool>, i: nat): (g: seq<bool>)
    requires GROUP * i + GROUP <= |bits|
    ensures |g| == GROUP
  {
    bits[GROUP * i..GROUP * i + GROUP]
  }

  /** The words that worddec prints for a bit set of `capacity` groups. */
  function DecodedWords(words: seq<string>, bits: seq<bool>, capacity: nat): (out: seq<string>)
    requires |bits| == GROUP * capacity
    requires forall i :: 0 <= i < capacity ==> FromLow(Group(bits, i)) < |words|
    ensures |out| == capacity
  {
    seq(capacity, i requires 0 <= i < capacity => words[FromLow(Group(bits, i))])
  }

  /** How wordenc gets on up to the bit set: it exits at a word that is not in the list, and it writes past
      the end of the bit set at a listed word for which there is no room. */
  datatype Encoding = Encoded(bits: seq<bool>) | Unlisted | PastTheEnd

  function EncodingOf(words: seq<string>, enc: seq<string>, capacity: nat): Encoding {
    if |enc| > capacity && AllIn(enc[..capacity + 1], words) then PastTheEnd
    else if !AllIn(enc, words) then Unlisted
    else
      assert enc[..|enc|] == enc;
      Encoded(EncodedBits(words, enc, capacity))
  }

  /** wordenc up to the bit set, which has room for `capacity` words. */
  method EncodeWords(words: seq<string>, enc: seq<string>, capacity: nat) returns (r: Encoding)
    ensures r == EncodingOf(words, enc, capacity)
  {
    hide Pow2, Find;
    var filled: seq<bool> := Clear(GROUP * capacity);
    var idx, k := 0, 0;
    while k < |enc|
      invariant 0 <= k <= |enc| && k <= capacity && idx == GROUP * k && |filled| == GROUP * capacity
      invariant AllIn(enc[..k], words)
      invariant filled == WordBits(words, enc[..k]) + Clear(|filled| - idx)
    {
      var n := Find(words, enc[k]);
      assert enc[..k + 1] == enc[..k] + [enc[k]];
      if n == |words| {
        return Unlisted;
      }
      if k == capacity {
        return PastTheEnd;
      }
      assert enc[..k + 1][..k] == enc[..k];
      filled, idx := WriteIndex(filled, idx, n, WordBits(words, enc[..k]));
      k := k + 1;
    }
    assert enc[..k] == enc;
    r := Encoded(filled);
  }

  /** The inner loop of wordenc: eleven bits of `n`, shifting it down. */
  method WriteIndex(bits0: seq<bool>, idx0: nat, n0: nat, ghost done: seq<bool>) returns (bits: seq<bool>, idx: nat)
    requires |done| == idx0 && idx0 + GROUP <= |bits0| && bits0 == done + Clear(|bits0| - idx0)
    ensures |bits| == |bits0| && idx == idx0 + GROUP
    ensures bits == done + LowBits(n0) + Clear(|bits0| - idx)
  {
    hide Pow2;
    bits, idx := bits0, idx0;
    var n := n0;
    var i := 0;
    Pow2Values();
    while i < GROUP
      invariant 0 <= i <= GROUP && idx == idx0 + i && |bits| == |bits0|
      invariant n == n0 / Pow2(i)
      invariant bits == done + LowBits(n0)[..i] + Clear(|bits0| - idx)
    {
      bits := bits[idx := n % 2 == 1];
      HalveAgain(n0, i);
      n := n / 2;
      idx := idx + 1;
      i := i + 1;
    }
    assert LowBits(n0)[..GROUP] == LowBits(n0);
  }

  lemma HalveAgain(n: nat, i: nat)
    ensures (n / Pow2(i)) / 2 == n / Pow2(i + 1)
  {
    Pow2Add(i, 1);
    Pow2Values();
    DivDiv(n, Pow2(i), 2);
  }

  /** worddec after the bit set: each group of eleven bits, lowest first, indexes the word list. `out` is what
      was printed; the program reads past the list at the first group that is no index into it. */
  method DecodeWords(words: seq<string>, bits: seq<bool>, capacity: nat) returns (ok: bool, out: seq<string>)
    requires |bits| == GROUP * capacity
    ensures ok <==> forall i :: 0 <= i < capacity ==> FromLow(Group(bits, i)) < |words|
    ensures ok ==> out == DecodedWords(words, bits, capacity)
    ensures !ok ==> |out| < capacity && FromLow(Group(bits, |out|)) >= |words|
    ensures |out| <= capacity
    ensures forall i :: 0 <= i < |out| ==> FromLow(Group(bits, i)) < |words| && out[i] == words[FromLow(Group(bits, i))]
  {
    hide Pow2;
    ok, out := false, [];
    var idx, i := 0, 0;
    while i < capacity
      invariant 0 <= i <= capacity && idx == GROUP * i && |out| == i
      invariant forall j :: 0 <= j < i ==> FromLow(Group(bits, j)) < |words| && out[j] == words[FromLow(Group(bits, j))]
    {
      var m, n := 0, 0;
      ghost var g := Group(bits, i);
      assert g[..0] == [];
      while n < GROUP
        invariant 0 <= n <= GROUP && idx == GROUP * i + n
        invariant m == FromLow(g[..n])
      {
        assert g[..n + 1][..n] == g[..n];
        m := m + (if bits[idx] then Pow2(n) else 0);
        idx := idx + 1;
        n := n + 1;
      }
      assert g[..n] == g;
      if m >= |words| {
        return;
      }
      out := out + [words[m]];
      i := i + 1;
    }
    ok := true;
  }

  /** The bit set of wordenc has room for 24 words; a 25th listed one is written behind it. */
  lemma WordTooMany(w: string)
    ensures EncodingOf([w], seq(25, _ => w), 24) == PastTheEnd
  {
    var enc := seq(25, _ => w);
    assert [w][0] == w;
    assert enc[..25] == enc;
  }

  /** A group that is no index into a list of one word. */
  lemma IndexTooLarge(w: string)
    ensures FromLow(Group([true] + Clear(10), 0)) >= |[w]|
  {
    hide Pow2;
    FromLowOfUnit(10);
    assert Group([true] + Clear(10), 0) == [true] + Clear(10);
  }

  lemma {:induction false} FromLowOfUnit(n: nat)
    ensures FromLow([true] + Clear(n)) == 1
  {
    Pow2Values();
    var bits := [true] + Clear(n);
    if n == 0 {
      assert bits[..0] == [];
    } else {
      assert bits[..n] == [true] + Clear(n - 1);
      FromLowOfUnit(n - 1);
    }
  }

  // ---------------------------------------------------------------------------
  // Round trips
  // ---------------------------------------------------------------------------

  lemma {:induction false} FromLowOfPrefix(n: nat, k: nat)
    requires k <= GROUP
    ensures FromLow(LowBits(n)[..k]) == n % Pow2(k)
  {
    hide Pow2;
    Pow2Values();
    if k > 0 {
      var bits := LowBits(n);
      FromLowOfPrefix(n, k - 1);
      assert bits[..k][..k - 1] == bits[..k - 1];
      LowBitSplit(n, k - 1);
    }
  }

  lemma LowBitSplit(n: nat, k: nat)
    ensures n % Pow2(k + 1) == n % Pow2(k) + ((n / Pow2(k)) % 2) * Pow2(k)
  {
    hide Pow2;
    Pow2Add(1, k);
    Pow2Values();
    var p := Pow2(k);
    DivModRange(n, p);
    var q := n / p;
    DivModRange(q, 2);
    MulDistributes((q / 2) * 2, q % 2, p);
    MulAssociative(q / 2, 2, p);
    MulMonotone(q % 2, 1, p);
    MulMonotone(0, q % 2, p);
    DivModUnique(n, 2 * p, q / 2, (q % 2) * p + n % p);
  }

  /** Eleven bits keep an index below 2048 and wrap any other around. */
  lemma IndexRoundTrip(n: nat)
    ensures FromLow(LowBits(n)) == n % 2048
  {
    hide Pow2;
    FromLowOfPrefix(n, GROUP);
    assert LowBits(n)[..GROUP] == LowBits(n);
    Pow2Add(8, 3);
    Pow2Values();
  }

  lemma {:induction false} WordBitsGroup(words: seq<string>, enc: seq<string>, i: nat)
    requires i < |enc|
    ensures Group(WordBits(words, enc), i) == LowBits(Find(words, enc[i]))
  {
    hide LowBits, Find;
    var n := |enc| - 1;
    if i < n {
      WordBitsGroup(words, enc[..n], i);
      assert Group(WordBits(words, enc), i) == Group(WordBits(words, enc[..n]), i);
    }
  }

  lemma EncodedGroup(words: seq<string>, enc: seq<string>, capacity: nat, i: nat)
    requires |enc| <= capacity && i < capacity
    ensures FromLow(Group(EncodedBits(words, enc, capacity), i)) == if i < |enc| then Find(words, enc[i]) % 2048 else 0
  {
    hide LowBits, Find, FromLow;
    var bits := EncodedBits(words, enc, capacity);
    if i < |enc| {
      WordBitsGroup(words, enc, i);
      assert Group(bits, i) == Group(WordBits(words, enc), i);
      IndexRoundTrip(Find(words, enc[i]));
    } else {
      assert Group(bits, i) == Clear(GROUP);
      ClearIsZero(GROUP);
    }
  }

  /** Group `i` of the bit set holds the index of word `i` in the list, lowest bit first; unused groups are clear. */
  lemma EncodedBitIs(words: seq<string>, enc: seq<string>, capacity: nat, i: nat, j: nat)
    requires |enc| <= capacity && i < capacity && j < 11
    ensures 11 * i + j < |EncodedBits(words, enc, capacity)|
    ensures EncodedBits(words, enc, capacity)[11 * i + j]
            <==> i < |enc| && (Find(words, enc[i]) / Pow2(j)) % 2 == 1
  {
    hide Find, Pow2;
    var bits := EncodedBits(words, enc, capacity);
    if i < |enc| {
      WordBitsGroup(words, enc, i);
      assert Group(WordBits(words, enc), i)[j] == bits[11 * i + j];
    }
  }

  /** The number of a group has the group's bits, lowest first. */
  lemma {:induction false} FromLowBit(bits: seq<bool>, j: nat)
    requires j < |bits|
    ensures (FromLow(bits) / Pow2(j)) % 2 == 1 <==> bits[j]
  {
    hide Pow2;
    var n := |bits| - 1;
    FromLowBound(bits[..n]);
    Pow2Values();
    if j < n {
      FromLowBit(bits[..n], j);
      BitOfSum(if bits[n] then 1 else 0, FromLow(bits[..n]), n, j);
      assert FromLow(bits) == (if bits[n] then 1 else 0) * Pow2(n) + FromLow(bits[..n]);
    } else {
      DivModUnique(FromLow(bits), Pow2(n), if bits[n] then 1 else 0, FromLow(bits[..n]));
    }
  }

  lemma {:induction false} ClearIsZero(n: nat)
    ensures FromLow(Clear(n)) == 0
  {
    if n > 0 {
      ClearIsZero(n - 1);
      assert Clear(n)[..n - 1] == Clear(n - 1);
    }
  }

  /** The list index that comes back for group `i`. */
  function IndexBack(words: seq<string>, enc: seq<string>, i: nat): nat {
    if i < |enc| then Find(words, enc[i]) % 2048 else 0
  }

  lemma GroupsInRange(words: seq<string>, enc: seq<string>, capacity: nat, i: nat)
    requires AllIn(enc, words) && |enc| <= capacity && words != [] && i < capacity
    ensures FromLow(Group(EncodedBits(words, enc, capacity), i)) == IndexBack(words, enc, i) < |words|
  {
    hide LowBits, FromLow, EncodedBits, Group, Find;
    EncodedGroup(words, enc, capacity, i);
    if i < |enc| {
      assert enc[i] in words;
      assert Find(words, enc[i]) < |words|;
    }
  }

  /** What comes back for encoded words: each word itself if its index is below 2048, the word at the
      index modulo 2048 otherwise, and the first word of the list for every unused group. */
  lemma WordsRoundTrip(words: seq<string>, enc: seq<string>, capacity: nat)
    requires AllIn(enc, words) && |enc| <= capacity && words != []
    ensures var bits := EncodedBits(words, enc, capacity);
      && (forall i :: 0 <= i < capacity ==> FromLow(Group(bits, i)) < |words|)
      && (forall i :: 0 <= i < capacity ==> IndexBack(words, enc, i) < |words|)
      && (forall i :: 0 <= i < capacity ==> DecodedWords(words, bits, capacity)[i] == words[IndexBack(words, enc, i)])
      && (|words| <= 2048 ==> DecodedWords(words, bits, capacity)[..|enc|] == enc)
  {
    hide LowBits, FromLow, EncodedBits, Group, Find, IndexBack;
    forall i | 0 <= i < capacity
      ensures FromLow(Group(EncodedBits(words, enc, capacity), i)) == IndexBack(words, enc, i) < |words|
    {
      GroupsInRange(words, enc, capacity, i);
    }
    if |words| <= 2048 {
      forall i | 0 <= i < |enc|
        ensures words[IndexBack(words, enc, i)] == enc[i]
      {
        IndexOfWord(words, enc, i);
      }
    }
  }

  lemma IndexOfWord(words: seq<string>, enc: seq<string>, i: nat)
    requires AllIn(enc, words) && i < |enc| && |words| <= 2048
    ensures IndexBack(words, enc, i) < |words| && words[IndexBack(words, enc, i)] == enc[i]
  {
    assert enc[i] in words;
  }

  lemma {:induction false} FromLowBound(s: seq<bool>)
    ensures FromLow(s) < Pow2(|s|)
  {
    if s != [] {
      FromLowBound(s[..|s| - 1]);
      Pow2Add(1, |s| - 1);
      Pow2Values();
    }
  }

  lemma {:induction false} FromLowInjective(s: seq<bool>, t: seq<bool>)
    requires |s| == |t| && FromLow(s) == FromLow(t)
    ensures s == t
  {
    hide Pow2, Pow;
    if s != [] {
      var n := |s| - 1;
      FromLowBound(s[..n]);
      FromLowBound(t[..n]);
      FromLowInjective(s[..n], t[..n]);
      assert s == s[..n] + [s[n]] && t == t[..n] + [t[n]];
    }
  }

  lemma {:induction false} FindInDistinct(words: seq<string>, m: nat)
    requires Distinct(words) && m < |words|
    ensures Find(words, words[m]) == m
  {
    assert words[m] in words;
  }

  lemma GroupReencoded(words: seq<string>, g: seq<bool>)
    requires Distinct(words) && |g| == GROUP && FromLow(g) < |words|
    ensures LowBits(Find(words, words[FromLow(g)])) == g
  {
    hide LowBits, FromLow, Find, Pow2;
    FindInDistinct(words, FromLow(g));
    IndexRoundTrip(FromLow(g));
    FromLowBound(g);
    Pow2Add(8, 3);
    Pow2Values();
    FromLowInjective(LowBits(FromLow(g)), g);
  }

  lemma BitInGroup(bits: seq<bool>, j: nat)
    requires j < |bits| && |bits| % GROUP == 0
    ensures GROUP * (j / GROUP) + GROUP <= |bits| && Group(bits, j / GROUP)[j % GROUP] == bits[j]
  {
  }

  /** For a duplicate-free list the other direction holds: encoding what was decoded gives the bits back. */
  lemma BitsRoundTrip(words: seq<string>, bits: seq<bool>, capacity: nat)
    requires Distinct(words) && |bits| == GROUP * capacity
    requires forall i :: 0 <= i < capacity ==> FromLow(Group(bits, i)) < |words|
    ensures AllIn(DecodedWords(words, bits, capacity), words)
    ensures EncodedBits(words, DecodedWords(words, bits, capacity), capacity) == bits
  {
    hide LowBits, FromLow, Find, Distinct;
    var out := DecodedWords(words, bits, capacity);
    var again := WordBits(words, out);
    forall j | 0 <= j < |bits|
      ensures again[j] == bits[j]
    {
      var i := j / GROUP;
      WordBitsGroup(words, out, i);
      GroupReencoded(words, Group(bits, i));
      BitInGroup(again, j);
      BitInGroup(bits, j);
    }
    assert again == bits;
  }

  /** wordenc then worddec with the same keystream: the packed bits survive the encryption, and the words
      come back, for a list of at most 2048 words and 11 * capacity equal to 0 or 7 modulo 8. */
  lemma EncryptedRoundTrip(words: seq<string>, enc: seq<string>, capacity: nat, key: seq<Byte>)
    requires AllIn(enc, words) && |enc| <= capacity && 0 < |words| <= 2048
    requires (GROUP * capacity) % 8 == 0 || (GROUP * capacity) % 8 == 7
    requires |key| == (GROUP * capacity + 1) / 8
    ensures var bits := EncodedBits(words, enc, capacity); var packed := PackBits(bits);
      && AreBytes(packed)
      && var plain := XorAll(XorAll(packed, key), key);
      && (|bits| + 7) / 8 <= |plain| && AreBytes(plain) && UnpackBits(plain, |bits|) == bits
      && (forall i :: 0 <= i < capacity ==> FromLow(Group(bits, i)) < |words|)
      && DecodedWords(words, UnpackBits(plain, |bits|), capacity)[..|enc|] == enc
  {
    hide LowBits, FromLow, EncodedBits, Group, PackBits, UnpackBits, XorAll, DecodedWords, IndexBack;
    var bits := EncodedBits(words, enc, capacity);
    PackUnpack(bits);
    XorAllCancels(PackBits(bits), key);
    WordsRoundTrip(words, enc, capacity);
  }
}
