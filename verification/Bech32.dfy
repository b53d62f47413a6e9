/** `bech32_encode` and `bech32_decode` of src/segwit_addr.cc.

    A C string is the sequence of its characters without the terminating NUL; `char` is signed,
    as on the platforms the program is built for. The output buffers of the source are
    out-parameters here, grown one cell at a time. */
module Bech32 {
  import opened Common
  import opened Polymod

  type Char = c: int | -128 <= c < 128

  /** A C string: no NUL before its end. */
  predicate IsCString(s: seq<Char>) { forall i :: 0 <= i < |s| ==> s[i] != 0 }

  predicate AreFiveBit(vs: seq<int>) { forall i :: 0 <= i < |vs| ==> 0 <= vs[i] < 32 }

  const SEPARATOR: Char := '1' as int

  const CHARSET: string := "qpzry9x8gf2tvdw0s3jn54khce6mua7l"

  function Charset(v: int): Char
    requires 0 <= v < 32
  {
    CharsetIsAscii(v);
    CHARSET[v] as int
  }

  lemma CharsetIsAscii(v: int)
    requires 0 <= v < 32
    ensures |CHARSET| == 32 && 48 <= CHARSET[v] as int <= 122
  {
  }

  /** The reverse table, with -1 for the characters it does not hold and for those with the top bit set. */
  function CharsetRev(c: Char): int {
    match c
    case 48 => 15 case 50 => 10 case 51 => 17 case 52 => 21 case 53 => 20
    case 54 => 26 case 55 => 30 case 56 => 7 case 57 => 5 case 65 => 29
    case 67 => 24 case 68 => 13 case 69 => 25 case 70 => 9 case 71 => 8
    case 72 => 23 case 74 => 18 case 75 => 22 case 76 => 31 case 77 => 27
    case 78 => 19 case 80 => 1 case 81 => 0 case 82 => 3 case 83 => 16
    case 84 => 11 case 85 => 28 case 86 => 12 case 87 => 14 case 88 => 6
    case 89 => 4 case 90 => 2 case 97 => 29 case 99 => 24 case 100 => 13
    case 101 => 25 case 102 => 9 case 103 => 8 case 104 => 23 case 106 => 18
    case 107 => 22 case 108 => 31 case 109 => 27 case 110 => 19 case 112 => 1
    case 113 => 0 case 114 => 3 case 115 => 16 case 116 => 11 case 117 => 28
    case 118 => 12 case 119 => 14 case 120 => 6 case 121 => 4 case 122 => 2
    case _ => -1
  }

  predicate IsLower(c: Char) { 97 <= c <= 122 }

  predicate IsUpper(c: Char) { 65 <= c <= 90 }

  function Lower(c: Char): Char { if IsUpper(c) then c + 32 else c }

  predicate HasLower(s: seq<Char>) { exists i :: 0 <= i < |s| && IsLower(s[i]) }

  predicate HasUpper(s: seq<Char>) { exists i :: 0 <= i < |s| && IsUpper(s[i]) }

  // ---------------------------------------------------------------------------
  // Specification functions
  // ---------------------------------------------------------------------------

  function LowerAll(s: seq<Char>): (t: seq<Char>)
    ensures |t| == |s|
  {
    seq(|s|, i requires 0 <= i < |s| => Lower(s[i]))
  }

  function Chars(vs: seq<int>): (s: seq<Char>)
    requires AreFiveBit(vs)
    ensures |s| == |vs|
  {
    seq(|vs|, i requires 0 <= i < |vs| => Charset(vs[i]))
  }

  function Symbols(s: seq<Char>): (vs: seq<int>)
    ensures |vs| == |s|
  {
    seq(|s|, i requires 0 <= i < |s| => CharsetRev(s[i]))
  }

  function HighWords(s: seq<Char>): (ws: seq<bv32>)
    ensures |ws| == |s|
  {
    seq(|s|, i requires 0 <= i < |s| => U32(s[i] / 32))
  }

  function LowWords(s: seq<Char>): (ws: seq<bv32>)
    ensures |ws| == |s|
  {
    seq(|s|, i requires 0 <= i < |s| => U32(s[i] % 32))
  }

  function Ints(ws: seq<bv32>): (vs: seq<int>)
    ensures |vs| == |ws|
  {
    seq(|ws|, i requires 0 <= i < |ws| => ws[i] as int)
  }

  /** The checksum register once the human readable part has been absorbed. */
  function HrpState(hrp: seq<Char>): bv32 { Run(Step(Run(1, HighWords(hrp))), LowWords(hrp)) }

  function DataState(hrp: seq<Char>, data: seq<int>): bv32 { Run(HrpState(hrp), Words(data)) }

  function ChecksumInts(hrp: seq<Char>, data: seq<int>): (p: seq<int>)
    ensures |p| == 6
  {
    Ints(Checksum(DataState(hrp, data)))
  }

  predicate HrpEncodable(hrp: seq<Char>) { forall i :: 0 <= i < |hrp| ==> hrp[i] / 32 != 0 }

  /** What `bech32_encode` writes before the terminating NUL, or `None` where it returns 0. */
  function Encode(hrp: seq<Char>, data: seq<int>): Option<seq<Char>> {
    if HrpEncodable(hrp) && AreFiveBit(data) then
      ChecksumIntsAreFiveBit(hrp, data);
      Some(hrp + [SEPARATOR] + Chars(data + ChecksumInts(hrp, data)))
    else None
  }

  /** The position of the last separator, or -1. */
  function LastSeparator(s: seq<Char>): (r: int)
    ensures -1 <= r < |s|
    ensures r >= 0 ==> s[r] == SEPARATOR
    ensures forall i :: r < i < |s| ==> s[i] != SEPARATOR
  {
    if s == [] then -1
    else if s[|s| - 1] == SEPARATOR then |s| - 1
    else LastSeparator(s[..|s| - 1])
  }

  predicate HrpDecodable(s: seq<Char>) { forall i :: 0 <= i < |s| ==> 33 <= s[i] <= 126 }

  /** How many characters at the front of a string may stand in a human readable part. */
  function Printable(s: seq<Char>): (n: nat)
    ensures n <= |s| && HrpDecodable(s[..n])
    ensures n < |s| ==> !(33 <= s[n] <= 126)
  {
    if s == [] || !(33 <= s[0] <= 126) then 0 else 1 + Printable(s[1..])
  }

  /** All that `bech32_decode` writes to the buffer for the human readable part, accepted or not. Without a
      separator the length it goes by has wrapped around, and only the NUL of the string ends the copying. */
  function HrpCells(s: seq<Char>): seq<Char> {
    var sep, n := LastSeparator(s), Printable(s);
    if !(8 <= |s| <= 90) || sep == 0 || |s| - sep - 1 < 6 then []
    else if sep < 0 || n < sep then LowerAll(s[..n])
    else LowerAll(s[..sep]) + [0]
  }

  /** The pair that `bech32_decode` returns, or `None` where it returns 0. */
  function Decode(s: seq<Char>): Option<(seq<Char>, seq<int>)> {
    var sep := LastSeparator(s);
    if !(8 <= |s| <= 90) || sep < 1 || |s| - sep - 1 < 6 then None
    else
      var hrp, vs := LowerAll(s[..sep]), Symbols(s[sep + 1..]);
      if HrpDecodable(s[..sep]) && AreFiveBit(vs) && !(HasLower(s) && HasUpper(s)) && DataState(hrp, vs) == 1
      then Some((hrp, vs[..|vs| - 6]))
      else None
  }

  // ---------------------------------------------------------------------------
  // Tables and words
  // ---------------------------------------------------------------------------

  lemma CharsetInverse(v: int)
    requires 0 <= v < 32
    ensures CharsetRev(Charset(v)) == v
  {
  }

  lemma CharsetFacts(v: int)
    requires 0 <= v < 32
    ensures CharsetRev(Charset(v)) == v
    ensures Charset(v) != SEPARATOR && !IsUpper(Charset(v)) && Charset(v) > 0
  {
    hide CharsetRev;
    CharsetInverse(v);
  }

  lemma CharsetRevFacts(c: Char)
    requires CharsetRev(c) != -1
    ensures 0 <= CharsetRev(c) < 32 && Charset(CharsetRev(c)) == Lower(c)
  {
  }

  lemma ChecksumIntsAreFiveBit(hrp: seq<Char>, data: seq<int>)
    ensures AreFiveBit(ChecksumInts(hrp, data))
    ensures Words(ChecksumInts(hrp, data)) == Checksum(DataState(hrp, data))
  {
    hide Checksum, U32;
    var chk := DataState(hrp, data);
    var p := Checksum(chk);
    ChecksumIsSymbols(chk);
    forall i | 0 <= i < 6
      ensures 0 <= p[i] as int < 32 && U32(p[i] as int) == p[i]
    {
      SymbolAsInt(p[i]);
    }
  }

  lemma WordsAreSymbols(vs: seq<int>)
    requires AreFiveBit(vs)
    ensures AreSymbols(Words(vs))
  {
    hide U32;
    forall i | 0 <= i < |vs|
      ensures Words(vs)[i] < 32
    {
      U32Symbol(vs[i]);
    }
  }

  lemma WordsInjective(xs: seq<int>, ys: seq<int>)
    requires AreFiveBit(xs) && AreFiveBit(ys) && Words(xs) == Words(ys)
    ensures xs == ys
  {
    hide U32;
    assert |xs| == |Words(xs)| == |Words(ys)| == |ys|;
    forall i | 0 <= i < |xs|
      ensures xs[i] == ys[i]
    {
      U32Symbol(xs[i]);
      U32Symbol(ys[i]);
      assert U32(xs[i]) == Words(xs)[i] == Words(ys)[i] == U32(ys[i]);
    }
  }

  // ---------------------------------------------------------------------------
  // Pieces of a string
  // ---------------------------------------------------------------------------

  lemma SymbolsOfChars(vs: seq<int>)
    requires AreFiveBit(vs)
    ensures Symbols(Chars(vs)) == vs
    ensures !HasUpper(Chars(vs))
    ensures forall i :: 0 <= i < |vs| ==> Chars(vs)[i] != SEPARATOR
  {
    hide Charset, CharsetRev;
    forall i | 0 <= i < |vs|
      ensures CharsetRev(Chars(vs)[i]) == vs[i] && Chars(vs)[i] != SEPARATOR && !IsUpper(Chars(vs)[i])
    {
      CharsetFacts(vs[i]);
    }
  }

  lemma CharsOfSymbols(s: seq<Char>)
    requires AreFiveBit(Symbols(s))
    ensures Chars(Symbols(s)) == LowerAll(s)
  {
    hide Charset, CharsetRev;
    forall i | 0 <= i < |s|
      ensures Chars(Symbols(s))[i] == LowerAll(s)[i]
    {
      assert Symbols(s)[i] == CharsetRev(s[i]);
      CharsetRevFacts(s[i]);
    }
  }

  lemma LastSeparatorAt(s: seq<Char>, sep: nat)
    requires sep < |s| && s[sep] == SEPARATOR
    requires forall i :: sep < i < |s| ==> s[i] != SEPARATOR
    ensures LastSeparator(s) == sep
  {
  }

  lemma LowerAllConcat(s: seq<Char>, t: seq<Char>)
    ensures LowerAll(s + t) == LowerAll(s) + LowerAll(t)
  {
  }

  lemma LowerAllFixed(s: seq<Char>)
    ensures LowerAll(s) == s <==> !HasUpper(s)
  {
    if LowerAll(s) == s {
      forall i | 0 <= i < |s|
        ensures !IsUpper(s[i])
      {
        assert LowerAll(s)[i] == s[i];
      }
    }
  }

  lemma WordsConcat(xs: seq<int>, ys: seq<int>)
    ensures Words(xs + ys) == Words(xs) + Words(ys)
  {
    hide U32;
  }

  /** A string of data symbols brings the register to 1 exactly when it ends in the encoder's checksum. */
  lemma ChecksumCloses(hrp: seq<Char>, data: seq<int>, p: seq<int>)
    requires |p| == 6 && AreFiveBit(p)
    ensures DataState(hrp, data + p) == 1 <==> p == ChecksumInts(hrp, data)
  {
    hide Run, Words, Checksum, ChecksumInts, HrpState, AreFiveBit;
    var chk := DataState(hrp, data);
    WordsConcat(data, p);
    RunConcat(HrpState(hrp), Words(data), Words(p));
    WordsAreSymbols(p);
    WordsLength(p);
    ChecksumUnique(chk, Words(p));
    ChecksumIntsAreFiveBit(hrp, data);
    if Words(p) == Checksum(chk) {
      WordsInjective(p, ChecksumInts(hrp, data));
    }
  }

  lemma WordsLength(vs: seq<int>)
    ensures |Words(vs)| == |vs|
  {
  }

  // ---------------------------------------------------------------------------
  // Round trips
  // ---------------------------------------------------------------------------

  /** What the encoder's caller must supply for its output to be decodable. */
  predicate RoundTrips(hrp: seq<Char>, data: seq<int>) {
    && 1 <= |hrp| && |hrp| + 7 + |data| <= 90
    && HrpDecodable(hrp) && !HasUpper(hrp)
    && AreFiveBit(data)
  }

  lemma HrpDecodableIsEncodable(hrp: seq<Char>)
    requires HrpDecodable(hrp)
    ensures HrpEncodable(hrp)
  {
  }

  lemma EncodedLayout(hrp: seq<Char>, vs: seq<int>)
    requires AreFiveBit(vs)
    ensures var s := hrp + [SEPARATOR] + Chars(vs);
      && |s| == |hrp| + 1 + |vs|
      && LastSeparator(s) == |hrp| && s[..|hrp|] == hrp && s[|hrp| + 1..] == Chars(vs)
      && (!HasUpper(hrp) ==> !HasUpper(s))
  {
    hide Charset, CharsetRev;
    var s := hrp + [SEPARATOR] + Chars(vs);
    SymbolsOfChars(vs);
    LastSeparatorAt(s, |hrp|);
    if !HasUpper(hrp) {
      forall i | 0 <= i < |s|
        ensures !IsUpper(s[i])
      {
        if i > |hrp| {
          assert s[i] == Chars(vs)[i - |hrp| - 1];
        }
      }
    }
  }

  lemma DecodeOfEncode(hrp: seq<Char>, data: seq<int>)
    requires RoundTrips(hrp, data)
    ensures Encode(hrp, data).Some? && Decode(Encode(hrp, data).value) == Some((hrp, data))
  {
    hide ChecksumInts, DataState, Chars, Symbols, HasUpper, HasLower, LowerAll;
    HrpDecodableIsEncodable(hrp);
    ChecksumIntsAreFiveBit(hrp, data);
    var p := ChecksumInts(hrp, data);
    var vs := data + p;
    EncodedLayout(hrp, vs);
    SymbolsOfChars(vs);
    LowerAllFixed(hrp);
    ChecksumCloses(hrp, data, p);
    assert vs[..|vs| - 6] == data;
  }

  lemma DecodedShape(s: seq<Char>)
    requires Decode(s).Some?
    ensures RoundTrips(Decode(s).value.0, Decode(s).value.1)
    ensures |s| == |Decode(s).value.0| + 7 + |Decode(s).value.1|
  {
    hide DataState, Symbols;
  }

  /** Decoding undoes encoding exactly for a nonempty human readable part of characters 33 to 126
      without upper case, 5-bit data, and at most 90 characters in all. */
  lemma DecodeUndoesEncode(hrp: seq<Char>, data: seq<int>)
    ensures (Encode(hrp, data).Some? && Decode(Encode(hrp, data).value) == Some((hrp, data)))
            <==> RoundTrips(hrp, data)
  {
    hide Encode, Decode, RoundTrips;
    if RoundTrips(hrp, data) {
      DecodeOfEncode(hrp, data);
    }
    if Encode(hrp, data).Some? && Decode(Encode(hrp, data).value) == Some((hrp, data)) {
      DecodedShape(Encode(hrp, data).value);
    }
  }

  /** The encoder's missing limit: 84 letters and no data make 91 characters, which do not decode. */
  lemma LimitExample()
    ensures var hrp: seq<Char> := seq(84, _ => 97); Encode(hrp, []).Some? && Decode(Encode(hrp, []).value).None?
  {
    hide ChecksumInts, DataState;
    var hrp: seq<Char> := seq(84, _ => 97);
    assert Encode(hrp, []).Some?;
    assert |Encode(hrp, []).value| == 91;
  }

  /** Every accepted string is the encoding of what was returned, up to letter case. */
  lemma DecodeIsCanonical(s: seq<Char>)
    requires Decode(s).Some?
    ensures Encode(Decode(s).value.0, Decode(s).value.1) == Some(LowerAll(s))
  {
    hide DataState, Chars, Symbols, HasUpper, HasLower, LowerAll, ChecksumInts;
    var sep := LastSeparator(s);
    var hrp, vs := LowerAll(s[..sep]), Symbols(s[sep + 1..]);
    var data, p := vs[..|vs| - 6], vs[|vs| - 6..];
    assert vs == data + p;
    ChecksumCloses(hrp, data, p);
    CharsOfSymbols(s[sep + 1..]);
    LowerHrpIsEncodable(s[..sep]);
    assert s == s[..sep] + [SEPARATOR] + s[sep + 1..];
    LowerAllConcat(s[..sep] + [SEPARATOR], s[sep + 1..]);
    LowerAllConcat(s[..sep], [SEPARATOR]);
    LowerOfSeparator();
  }

  lemma LowerOfSeparator()
    ensures LowerAll([SEPARATOR]) == [SEPARATOR]
  {
  }

  lemma LowerHrpIsEncodable(s: seq<Char>)
    requires HrpDecodable(s)
    ensures HrpEncodable(LowerAll(s))
  {
  }

  /** The checksum of an accepted string is determined by the rest of it. */
  lemma AcceptedStringsAgree(s: seq<Char>, t: seq<Char>)
    requires Decode(s).Some? && Decode(s) == Decode(t)
    ensures LowerAll(s) == LowerAll(t)
  {
    hide *;
    DecodeIsCanonical(s);
    DecodeIsCanonical(t);
  }

  // ---------------------------------------------------------------------------
  // The buffer for the human readable part
  // ---------------------------------------------------------------------------

  lemma PrintableIff(s: seq<Char>, n: nat)
    requires n <= |s|
    ensures HrpDecodable(s[..n]) <==> n <= Printable(s)
  {
    var k := Printable(s);
    if n <= k {
      assert forall i :: 0 <= i < n ==> s[..n][i] == s[..k][i];
    } else {
      assert s[..n][k] == s[k];
    }
  }

  /** The decoder writes more than the `strlen(input) - 6` cells that it asks for exactly on strings of 8 to 90
      characters without a separator of which all but perhaps the last five are printable. */
  lemma HrpOverrun(s: seq<Char>)
    ensures |s| < 8 ==> HrpCells(s) == []
    ensures |s| >= 8 ==> (|HrpCells(s)| > |s| - 6
                          <==> |s| <= 90 && LastSeparator(s) < 0 && HrpDecodable(s[..|s| - 5]))
  {
    hide Printable, LowerAll, HrpDecodable;
    if |s| >= 8 {
      PrintableIff(s, |s| - 5);
    }
  }

  /** What is in those cells: the characters from the front in lower case, and a NUL in place of the separator. */
  lemma HrpCellIs(s: seq<Char>)
    ensures |HrpCells(s)| <= |s|
    ensures forall i :: 0 <= i < |HrpCells(s)| ==>
      HrpCells(s)[i] == if i == LastSeparator(s) then 0 else if 65 <= s[i] <= 90 then s[i] + 32 else s[i]
  {
    hide Printable, LastSeparator;
  }

  /** The same for a caller whose buffer has 84 cells, room for every string with a separator. */
  lemma HrpOverrun84(s: seq<Char>)
    ensures |HrpCells(s)| > 84
            <==> 85 <= |s| <= 90 && LastSeparator(s) < 0 && HrpDecodable(s[..85])
  {
    hide Printable, LowerAll, HrpDecodable;
    if |s| >= 85 {
      PrintableIff(s, 85);
    }
  }

  /** 85 times the letter `a`: 85 cells are written where 79 are asked for and `segwit_addr_decode` has 84. */
  lemma OverrunExample()
    ensures var s: seq<Char> := seq(85, _ => 97); IsCString(s) && Decode(s).None? && HrpCells(s) == s
  {
    var s: seq<Char> := seq(85, _ => 97);
    PrintableIff(s, 85);
    assert s[..85] == s;
    assert SEPARATOR !in s;
  }

  // ---------------------------------------------------------------------------
  // Burst errors in strings
  // ---------------------------------------------------------------------------

  lemma HrpStateIsState(hrp: seq<Char>)
    ensures IsState(HrpState(hrp))
  {
    hide Run, IsState, U32, Step;
    var lows := LowWords(hrp);
    forall i | 0 <= i < |lows|
      ensures lows[i] < 32
    {
      U32Symbol(hrp[i] % 32);
    }
    StepIsState(Run(1, HighWords(hrp)));
    RunIsState(Step(Run(1, HighWords(hrp))), lows);
  }

  lemma SymbolsIgnoreCase(s: seq<Char>, t: seq<Char>, i: nat)
    requires i < |s| == |t| && AreFiveBit(Symbols(s)) && AreFiveBit(Symbols(t))
    ensures LowerAll(s)[i] == LowerAll(t)[i] <==> Symbols(s)[i] == Symbols(t)[i]
  {
    hide Charset, CharsetRev;
    CharsOfSymbols(s);
    CharsOfSymbols(t);
    SymbolsOfChars(Symbols(s));
    SymbolsOfChars(Symbols(t));
    assert Charset(Symbols(s)[i]) == Chars(Symbols(s))[i] && Charset(Symbols(t)[i]) == Chars(Symbols(t))[i];
    CharsetFacts(Symbols(s)[i]);
    CharsetFacts(Symbols(t)[i]);
  }

  lemma SymbolBurst(hrp: seq<Char>, xs: seq<int>, ys: seq<int>, lo: nat, hi: nat)
    requires AreFiveBit(xs) && AreFiveBit(ys) && |xs| == |ys|
    requires lo <= hi <= |xs| && hi - lo <= 6
    requires forall i :: 0 <= i < |xs| && !(lo <= i < hi) ==> xs[i] == ys[i]
    requires DataState(hrp, xs) == DataState(hrp, ys)
    ensures xs == ys
  {
    hide Run, IsState, U32, AreSymbols, HrpState;
    HrpStateIsState(hrp);
    WordsAreSymbols(xs);
    WordsAreSymbols(ys);
    BurstDetected(HrpState(hrp), Words(xs), Words(ys), lo, hi);
    WordsInjective(xs, ys);
  }

  /** Equal up to letter case outside positions `lo` to `hi`. */
  predicate SameOutside(s: seq<Char>, t: seq<Char>, lo: int, hi: int)
    requires |s| == |t|
  {
    forall i :: 0 <= i < |s| && !(lo <= i < hi) ==> LowerAll(s)[i] == LowerAll(t)[i]
  }

  lemma SlicesAgree(s: seq<Char>, t: seq<Char>, sep: nat, lo: nat, hi: nat)
    requires |s| == |t| && sep < lo <= hi <= |s|
    requires SameOutside(s, t, lo, hi)
    ensures LowerAll(s[..sep]) == LowerAll(t[..sep])
    ensures SameOutside(s[sep + 1..], t[sep + 1..], lo - sep - 1, hi - sep - 1)
  {
    assert forall i :: 0 <= i < |s| ==> LowerAll(s)[i] == Lower(s[i]) && LowerAll(t)[i] == Lower(t[i]);
    var a, b := s[sep + 1..], t[sep + 1..];
    forall i | 0 <= i < |a| && !(lo - sep - 1 <= i < hi - sep - 1)
      ensures LowerAll(a)[i] == LowerAll(b)[i]
    {
      assert LowerAll(s)[i + sep + 1] == LowerAll(t)[i + sep + 1];
    }
  }

  lemma SymbolsAgree(a: seq<Char>, b: seq<Char>, lo: int, hi: int)
    requires |a| == |b| && AreFiveBit(Symbols(a)) && AreFiveBit(Symbols(b))
    requires SameOutside(a, b, lo, hi)
    ensures forall i :: 0 <= i < |a| && !(lo <= i < hi) ==> Symbols(a)[i] == Symbols(b)[i]
  {
    hide Symbols, LowerAll, AreFiveBit;
    forall i | 0 <= i < |a| && !(lo <= i < hi)
      ensures Symbols(a)[i] == Symbols(b)[i]
    {
      SymbolsIgnoreCase(a, b, i);
    }
  }

  /** What an accepted string is made of. */
  lemma DecodedParts(s: seq<Char>)
    requires Decode(s).Some?
    ensures 1 <= LastSeparator(s) && LastSeparator(s) + 7 <= |s| <= 90
    ensures var sep := LastSeparator(s); var vs := Symbols(s[sep + 1..]);
      && HrpDecodable(s[..sep]) && AreFiveBit(vs) && DataState(LowerAll(s[..sep]), vs) == 1
      && Decode(s) == Some((LowerAll(s[..sep]), vs[..|vs| - 6]))
  {
    hide DataState, Symbols, LowerAll, HasUpper, HasLower, HrpDecodable, AreFiveBit, LastSeparator;
  }

  /** Two accepted strings of the same length with the same separator position that differ (beyond
      letter case) only inside at most six consecutive positions after it are the same string. */
  lemma AcceptedBurst(s: seq<Char>, t: seq<Char>, lo: nat, hi: nat)
    requires Decode(s).Some? && Decode(t).Some? && |s| == |t|
    requires LastSeparator(s) == LastSeparator(t) < lo <= hi <= |s| && hi - lo <= 6
    requires SameOutside(s, t, lo, hi)
    ensures LowerAll(s) == LowerAll(t)
  {
    hide *;
    var sep := LastSeparator(s);
    DecodedParts(s);
    DecodedParts(t);
    var a, b := s[sep + 1..], t[sep + 1..];
    SlicesAgree(s, t, sep, lo, hi);
    SymbolsAgree(a, b, lo - sep - 1, hi - sep - 1);
    SymbolBurst(LowerAll(s[..sep]), Symbols(a), Symbols(b), lo - sep - 1, hi - sep - 1);
    AcceptedStringsAgree(s, t);
  }

  // ---------------------------------------------------------------------------
  // A published string
  // ---------------------------------------------------------------------------

  lemma VectorHrp()
    ensures HrpState([97]) == 0x8c01
  {
    hide Run, Feed, Step, HighWords, LowWords;
    VectorHrpWords();
    VectorHrpFeeds();
    RunOne(1, 3);
    RunOne(0x460, 1);
  }

  lemma VectorHrpWords()
    ensures HighWords([97]) == [3] && LowWords([97]) == [1]
  {
    hide U32;
    SmallWords();
    assert 97 / 32 == 3 && 97 % 32 == 1;
  }

  lemma SmallWords()
    ensures U32(1) == 1 && U32(3) == 3
  {
    SymbolAsInt(1);
    SymbolAsInt(3);
  }

  lemma VectorHrpFeeds()
    ensures Feed(1, 3) == 0x23 && Step(0x23) == 0x460 && Feed(0x460, 1) == 0x8c01
  {
  }

  lemma RunOne(chk: bv32, w: bv32)
    ensures Run(chk, [w]) == Feed(chk, w)
  {
    assert [w][..0] == [];
  }

  lemma VectorWords()
    ensures Words([10, 28, 25, 31, 20, 31]) == [10, 28, 25, 31, 20, 31]
  {
    hide U32;
    SymbolAsInt(10);
    SymbolAsInt(28);
    SymbolAsInt(25);
    SymbolAsInt(31);
    SymbolAsInt(20);
  }

  lemma VectorData()
    ensures DataState([97], [10, 28, 25, 31, 20, 31]) == 1
  {
    hide Run, HrpState, Feed, Words;
    var ws: seq<bv32> := [10, 28, 25, 31, 20, 31];
    VectorHrp();
    VectorWords();
    RunOfSix(0x8c01, ws);
    VectorFeeds();
  }

  lemma VectorFeeds()
    ensures Feed(0x8c01, 10) == 0x11802a && Feed(0x11802a, 28) == 0x230055c && Feed(0x230055c, 25) == 0x3d6afc2b
    ensures Feed(0x3d6afc2b, 31) == 0x2f84386 && Feed(0x2f84386, 20) == 0x24622766 && Feed(0x24622766, 31) == 1
  {
  }

  /** The first valid string of the section "Test vectors" of BIP 173: "A12UEL5L". */
  lemma TestVector()
    ensures Decode([65, 49, 50, 85, 69, 76, 53, 76]) == Some(([97], []))
  {
    hide DataState;
    var s: seq<Char> := [65, 49, 50, 85, 69, 76, 53, 76];
    LastSeparatorAt(s, 1);
    assert LowerAll(s[..1]) == [97];
    assert s[2..] == [50, 85, 69, 76, 53, 76];
    assert Symbols(s[2..]) == [10, 28, 25, 31, 20, 31];
    VectorData();
  }
}
