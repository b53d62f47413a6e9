/** The loops of `bech32_encode` and `bech32_decode`, proved against the functions of module Bech32. */
module Bech32Loops {
  import opened Common
  import opened Polymod
  import opened Bech32

  const SIZE_T: nat := 0x1_0000_0000_0000_0000

  lemma HighSnoc(s: seq<Char>, c: Char)
    ensures HighWords(s + [c]) == HighWords(s) + [U32(c / 32)]
  {
    hide U32;
  }

  lemma LowSnoc(s: seq<Char>, c: Char)
    ensures LowWords(s + [c]) == LowWords(s) + [U32(c % 32)]
  {
    hide U32;
  }

  lemma WordsSnoc(vs: seq<int>, v: int)
    ensures Words(vs + [v]) == Words(vs) + [U32(v)]
  {
    hide U32;
  }

  /** One symbol more in the first, second and last absorbing loop. */
  lemma AbsorbHigh(chk: bv32, s: seq<Char>, i: nat)
    requires i < |s|
    ensures Run(chk, HighWords(s[..i + 1])) == Feed(Run(chk, HighWords(s[..i])), U32(s[i] / 32))
  {
    hide *;
    TakeSnoc(s, i);
    HighSnoc(s[..i], s[i]);
    RunSnoc(chk, HighWords(s[..i]), U32(s[i] / 32));
  }

  lemma AbsorbLow(chk: bv32, s: seq<Char>, i: nat)
    requires i < |s|
    ensures Run(chk, LowWords(s[..i + 1])) == Feed(Run(chk, LowWords(s[..i])), U32(s[i] % 32))
  {
    hide *;
    TakeSnoc(s, i);
    LowSnoc(s[..i], s[i]);
    RunSnoc(chk, LowWords(s[..i]), U32(s[i] % 32));
  }

  lemma AbsorbData(chk: bv32, vs: seq<int>, i: nat)
    requires i < |vs|
    ensures Run(chk, Words(vs[..i + 1])) == Feed(Run(chk, Words(vs[..i])), U32(vs[i]))
  {
    hide *;
    TakeSnoc(vs, i);
    WordsSnoc(vs[..i], vs[i]);
    RunSnoc(chk, Words(vs[..i]), U32(vs[i]));
  }

  lemma SixSteps(chk: bv32)
    ensures Steps(chk, 6) == StepSix(chk)
  {
    hide Step;
    assert Steps(chk, 3) == Step(Steps(chk, 2)) && Steps(chk, 1) == Step(Steps(chk, 0));
    assert Steps(chk, 5) == Step(Steps(chk, 4)) && Steps(chk, 4) == Step(Steps(chk, 3));
  }

  lemma DigitAt(chk: bv32, i: nat)
    requires i < 6
    ensures Digits(chk)[i] == Low(Shr(chk, (5 - i) * 5))
  {
    hide Low, Shr;
  }

  lemma CharsSnoc(vs: seq<int>, v: int)
    requires AreFiveBit(vs) && 0 <= v < 32
    ensures AreFiveBit(vs + [v]) && Chars(vs + [v]) == Chars(vs) + [Charset(v)]
  {
    hide Charset;
  }

  /** The character that the encoder's last loop appends at round `i`. */
  lemma ChecksumChar(chk: bv32, p: seq<int>, i: nat)
    requires i < 6 && p == Ints(Digits(chk))
    ensures Low(Shr(chk, (5 - i) * 5)) < 32
    ensures Low(Shr(chk, (5 - i) * 5)) as int == p[i]
  {
    hide Low, Shr, Digits;
    DigitAt(chk, i);
    LowIsSymbol(Shr(chk, (5 - i) * 5));
  }

  lemma CharsPrefixSnoc(vs: seq<int>, i: nat)
    requires i < |vs| && AreFiveBit(vs[..i]) && 0 <= vs[i] < 32
    ensures AreFiveBit(vs[..i + 1])
    ensures Chars(vs[..i + 1]) == Chars(vs[..i]) + [Charset(vs[i])]
  {
    hide Charset, Chars;
    CharsSnoc(vs[..i], vs[i]);
    TakeSnoc(vs, i);
  }

  lemma CharsConcat(xs: seq<int>, ys: seq<int>)
    requires AreFiveBit(xs) && AreFiveBit(ys)
    ensures AreFiveBit(xs + ys) && Chars(xs + ys) == Chars(xs) + Chars(ys)
  {
    hide Charset;
  }

  /** `bech32_encode`: on success the output is the specified string followed by NUL. */
  method BechEncode(hrp: seq<Char>, data: seq<int>) returns (ok: bool, output: seq<Char>)
    requires IsCString(hrp) && AreBytes(data)
    ensures ok == Encode(hrp, data).Some?
    ensures ok ==> output == Encode(hrp, data).value + [0]
    ensures |output| <= |hrp| + |data| + 8
  {
    hide Xor, Step, Run, U32, Chars, Charset, HighWords, LowWords, Words, Low, Shr, Digits, StepSix;
    output := [];
    var chk: bv32 := 1;
    var i: nat := 0;
    assert Run(1, HighWords(hrp[..0])) == 1 by { RunEmpty(1); }
    while i < |hrp|
      invariant i <= |hrp|
      invariant chk == Run(1, HighWords(hrp[..i]))
      invariant HrpEncodable(hrp[..i])
    {
      if hrp[i] / 32 == 0 {
        return false, output;
      }
      AbsorbHigh(1, hrp, i);
      chk := Xor(Step(chk), U32(hrp[i] / 32));
      i := i + 1;
    }
    assert hrp[..i] == hrp;
    chk := Step(chk);
    ghost var start := chk;
    i := 0;
    assert Run(start, LowWords(hrp[..0])) == start by { RunEmpty(start); }
    while i < |hrp|
      invariant i <= |hrp|
      invariant chk == Run(start, LowWords(hrp[..i]))
      invariant output == hrp[..i]
    {
      AbsorbLow(start, hrp, i);
      chk := Xor(Step(chk), U32(hrp[i] % 32));
      output := output + [hrp[i]];
      i := i + 1;
    }
    assert hrp[..i] == hrp;
    assert chk == HrpState(hrp);
    output := output + [SEPARATOR];
    ghost var head := output;
    i := 0;
    assert Run(HrpState(hrp), Words(data[..0])) == chk by { RunEmpty(chk); }
    assert Chars(data[..0]) == [];
    while i < |data|
      invariant i <= |data|
      invariant chk == Run(HrpState(hrp), Words(data[..i]))
      invariant AreFiveBit(data[..i])
      invariant output == head + Chars(data[..i])
    {
      if data[i] >= 32 {
        return false, output;
      }
      AbsorbData(HrpState(hrp), data, i);
      CharsPrefixSnoc(data, i);
      chk := Xor(Step(chk), U32(data[i]));
      output := output + [Charset(data[i])];
      i := i + 1;
    }
    assert data[..i] == data;
    ghost var state := chk;
    assert state == DataState(hrp, data);
    i := 0;
    while i < 6
      invariant i <= 6
      invariant chk == Steps(state, i)
    {
      chk := Step(chk);
      i := i + 1;
    }
    SixSteps(state);
    chk := Xor(chk, 1);
    ghost var p := ChecksumInts(hrp, data);
    ghost var body := output;
    ChecksumIntsAreFiveBit(hrp, data);
    i := 0;
    assert Chars(p[..0]) == [];
    while i < 6
      invariant i <= 6
      invariant AreFiveBit(p[..i])
      invariant output == body + Chars(p[..i])
    {
      ChecksumChar(chk, p, i);
      CharsPrefixSnoc(p, i);
      output := output + [Charset(Low(Shr(chk, (5 - i) * 5)) as int)];
      i := i + 1;
    }
    assert p[..6] == p;
    CharsConcat(data, p);
    assert output == head + Chars(data + p);
    output := output + [0];
    ok := true;
  }

  lemma RunEmpty(chk: bv32)
    ensures Run(chk, []) == chk
    ensures HighWords([]) == [] && LowWords([]) == [] && Words([]) == []
  {
  }

  lemma LowWordsIgnoreCase(s: seq<Char>)
    ensures LowWords(LowerAll(s)) == LowWords(s)
  {
    hide U32;
    forall i | 0 <= i < |s|
      ensures LowerAll(s)[i] % 32 == s[i] % 32
    {
    }
  }

  lemma LowerSnoc(s: seq<Char>, c: Char)
    ensures LowerAll(s + [c]) == LowerAll(s) + [Lower(c)]
  {
  }

  lemma CaseSnoc(s: seq<Char>, c: Char)
    ensures HasLower(s + [c]) <==> HasLower(s) || IsLower(c)
    ensures HasUpper(s + [c]) <==> HasUpper(s) || IsUpper(c)
  {
    var t := s + [c];
    assert t[|s|] == c;
    if i :| 0 <= i < |s| && IsLower(s[i]) {
      assert IsLower(t[i]);
    }
    if i :| 0 <= i < |s| && IsUpper(s[i]) {
      assert IsUpper(t[i]);
    }
  }

  lemma SymbolsSnoc(s: seq<Char>, c: Char)
    requires AreFiveBit(Symbols(s)) && CharsetRev(c) != -1
    ensures Symbols(s + [c]) == Symbols(s) + [CharsetRev(c)]
    ensures AreFiveBit(Symbols(s + [c]))
  {
    hide CharsetRev;
    CharsetRevFacts(c);
  }

  /** One character more in the loop over the human readable part. */
  lemma HrpRound(s: seq<Char>, i: nat)
    requires i < |s|
    ensures HasLower(s[..i + 1]) <==> HasLower(s[..i]) || IsLower(s[i])
    ensures HasUpper(s[..i + 1]) <==> HasUpper(s[..i]) || IsUpper(s[i])
    ensures LowerAll(s[..i + 1]) == LowerAll(s[..i]) + [Lower(s[i])]
    ensures Run(1, HighWords(LowerAll(s[..i + 1])))
         == Feed(Run(1, HighWords(LowerAll(s[..i]))), U32(Lower(s[i]) / 32))
  {
    hide *;
    TakeSnoc(s, i);
    CaseSnoc(s[..i], s[i]);
    LowerSnoc(s[..i], s[i]);
    HighSnoc(LowerAll(s[..i]), Lower(s[i]));
    RunSnoc(1, HighWords(LowerAll(s[..i])), U32(Lower(s[i]) / 32));
  }

  /** One character more in the loop over the data part of `s`, which starts at `from`. */
  lemma DataRound(chk: bv32, s: seq<Char>, from: nat, i: nat)
    requires from <= i < |s| && AreFiveBit(Symbols(s[from..i])) && CharsetRev(s[i]) != -1
    ensures AreFiveBit(Symbols(s[from..i + 1]))
    ensures Symbols(s[from..i + 1]) == Symbols(s[from..i]) + [CharsetRev(s[i])]
    ensures Run(chk, Words(Symbols(s[from..i + 1])))
         == Feed(Run(chk, Words(Symbols(s[from..i]))), U32(CharsetRev(s[i])))
  {
    hide *;
    SliceSnoc(s, from, i);
    SymbolsSnoc(s[from..i], s[i]);
    WordsSnoc(Symbols(s[from..i]), CharsetRev(s[i]));
    RunSnoc(chk, Words(Symbols(s[from..i])), U32(CharsetRev(s[i])));
  }

  lemma SliceSnoc<T>(s: seq<T>, from: nat, i: nat)
    requires from <= i < |s|
    ensures s[from..i + 1] == s[from..i] + [s[i]]
  {
  }

  lemma NotFiveBit(s: seq<Char>, i: nat)
    requires i < |s| && CharsetRev(s[i]) == -1
    ensures !AreFiveBit(Symbols(s))
  {
    hide CharsetRev;
    assert Symbols(s)[i] == CharsetRev(s[i]);
  }

  lemma LowerIsNonNul(c: Char)
    requires 33 <= c <= 126
    ensures (if 97 <= c <= 122 then c else if 65 <= c <= 90 then (c - 65) + 97 else c) == Lower(c)
  {
  }

  /** The input with its terminating NUL. */
  function At(input: seq<Char>, i: nat): Char
    requires i <= |input|
  {
    if i < |input| then input[i] else 0
  }

  lemma PrintableStep(s: seq<Char>, i: nat)
    requires i <= Printable(s)
    ensures i < Printable(s) <==> 33 <= At(s, i) <= 126
  {
    if i < Printable(s) {
      assert s[..Printable(s)][i] == s[i];
    }
  }

  /** The first loop of `bech32_decode`, over the human readable part. It may be asked for more
      characters than there are; it then stops at the NUL, which is below 33. */
  method ReadHrp(input: seq<Char>, hrpLen: nat)
    returns (ok: bool, hrp: seq<Char>, chk: bv32, haveLower: bool, haveUpper: bool)
    ensures ok <==> hrpLen <= Printable(input)
    ensures hrp == LowerAll(input[..if ok then hrpLen else Printable(input)])
    ensures ok ==> chk == Run(1, HighWords(hrp))
    ensures ok ==> haveLower == HasLower(input[..hrpLen]) && haveUpper == HasUpper(input[..hrpLen])
  {
    hide Xor, Step, Run, U32, Lower, LowerAll, HighWords, HasLower, HasUpper, Printable;
    ok, hrp, chk, haveLower, haveUpper := false, [], 1, false, false;
    var i: nat := 0;
    EmptyPieces();
    while i < hrpLen
      invariant i <= |input| && i <= hrpLen
      invariant i <= Printable(input) && hrp == LowerAll(input[..i])
      invariant chk == Run(1, HighWords(LowerAll(input[..i])))
      invariant haveLower == HasLower(input[..i]) && haveUpper == HasUpper(input[..i])
      decreases |input| - i
    {
      var ch := At(input, i);
      PrintableStep(input, i);
      if ch < 33 || ch > 126 {
        return;
      }
      HrpRound(input, i);
      LowerIsNonNul(ch);
      if ch >= 97 && ch <= 122 {
        haveLower := true;
      } else if ch >= 65 && ch <= 90 {
        haveUpper := true;
        ch := (ch - 65) + 97;
      }
      hrp := hrp + [ch];
      chk := Xor(Step(chk), U32(ch / 32));
      i := i + 1;
    }
    ok := true;
  }

  /** The last loop of `bech32_decode`, over the part after the separator. */
  method ReadData(input: seq<Char>, hrpLen: nat, start: bv32, lower: bool, upper: bool)
    returns (ok: bool, data: seq<int>, chk: bv32, haveLower: bool, haveUpper: bool)
    requires hrpLen + 7 <= |input|
    requires lower == HasLower(input[..hrpLen + 1]) && upper == HasUpper(input[..hrpLen + 1])
    ensures ok <==> AreFiveBit(Symbols(input[hrpLen + 1..]))
    ensures ok ==> data == Symbols(input[hrpLen + 1..])[..|input| - hrpLen - 7]
    ensures |data| <= |input| - hrpLen - 7
    ensures ok ==> chk == Run(start, Words(Symbols(input[hrpLen + 1..])))
    ensures ok ==> haveLower == HasLower(input) && haveUpper == HasUpper(input)
  {
    hide Xor, Step, Run, U32, CharsetRev, Symbols, Words, HasLower, HasUpper;
    ok, data, chk, haveLower, haveUpper := false, [], start, lower, upper;
    var i := hrpLen + 1;
    ghost var vs: seq<int> := [];
    RunEmpty(start);
    EmptyPieces();
    assert input[hrpLen + 1..i] == [];
    while i < |input|
      invariant hrpLen + 1 <= i <= |input|
      invariant vs == Symbols(input[hrpLen + 1..i]) && AreFiveBit(vs) && |vs| == i - hrpLen - 1
      invariant data == if i + 6 <= |input| then vs else vs[..|input| - hrpLen - 7]
      invariant chk == Run(start, Words(vs))
      invariant haveLower == HasLower(input[..i]) && haveUpper == HasUpper(input[..i])
    {
      var v := CharsetRev(input[i]);
      TakeSnoc(input, i);
      CaseSnoc(input[..i], input[i]);
      if input[i] >= 97 && input[i] <= 122 {
        haveLower := true;
      }
      if input[i] >= 65 && input[i] <= 90 {
        haveUpper := true;
      }
      if v == -1 {
        NotFiveBit(input[hrpLen + 1..], i - hrpLen - 1);
        return;
      }
      DataRound(start, input, hrpLen + 1, i);
      chk := Xor(Step(chk), U32(v));
      if i + 6 < |input| {
        data := data + [v];
      }
      vs := vs + [v];
      i := i + 1;
    }
    assert input[hrpLen + 1..i] == input[hrpLen + 1..] && input[..i] == input;
    ok := true;
  }

  /** The loop that counts the characters after the last separator, all of them if there is none. */
  method CountData(input: seq<Char>) returns (dataLen: nat)
    ensures dataLen == |input| - 1 - LastSeparator(input)
  {
    dataLen := 0;
    while dataLen < |input| && input[|input| - 1 - dataLen] != SEPARATOR
      invariant dataLen <= |input|
      invariant forall k :: |input| - dataLen <= k < |input| ==> input[k] != SEPARATOR
    {
      dataLen := dataLen + 1;
    }
    if dataLen < |input| {
      LastSeparatorAt(input, |input| - 1 - dataLen);
    }
  }

  /** The second loop over the human readable part, which feeds its low bits. */
  method AbsorbHrp(input: seq<Char>, hrpLen: nat, start: bv32) returns (chk: bv32)
    requires hrpLen <= |input|
    ensures chk == Run(start, LowWords(input[..hrpLen]))
  {
    hide Xor, Step, Run, U32, LowWords;
    chk := start;
    RunEmpty(start);
    var i := 0;
    while i < hrpLen
      invariant i <= hrpLen
      invariant chk == Run(start, LowWords(input[..i]))
    {
      AbsorbLow(start, input, i);
      chk := Xor(Step(chk), U32(input[i] % 32));
      i := i + 1;
    }
  }

  /** `bech32_decode`. Without a separator the source's `hrp_len` wraps around `size_t`. `hrp` and `data` are
      all the cells written, also by a call that fails. */
  method BechDecode(input: seq<Char>) returns (ok: bool, hrp: seq<Char>, data: seq<int>)
    requires IsCString(input)
    ensures ok == Decode(input).Some?
    ensures hrp == HrpCells(input)
    ensures ok ==> hrp == Decode(input).value.0 + [0] && data == Decode(input).value.1
    ensures data != [] ==> |data| <= |input| - 8 <= 82
  {
    hide Xor, Step, Run, LowerAll, Symbols, HighWords, LowWords, Words, IsCString, LastSeparator;
    hide HasLower, HasUpper, HrpDecodable, AreFiveBit, Printable;
    ok, hrp, data := false, [], [];
    if |input| < 8 || |input| > 90 {
      return;
    }
    var dataLen := CountData(input);
    var hrpLen: nat := (|input| - (1 + dataLen)) % SIZE_T;
    ghost var sep := LastSeparator(input);
    if hrpLen < 1 || dataLen < 6 {
      return;
    }
    if sep >= 0 {
      PrintableIff(input, sep);
    }
    var good, chk, haveLower, haveUpper;
    good, hrp, chk, haveLower, haveUpper := ReadHrp(input, hrpLen);
    if !good {
      return;
    }
    assert hrpLen == sep;
    ghost var absorbed := hrp;
    hrp := hrp + [0];
    chk := AbsorbHrp(input, hrpLen, Step(chk));
    LowWordsIgnoreCase(input[..sep]);
    assert chk == HrpState(absorbed);
    CaseSnoc(input[..sep], SEPARATOR);
    TakeSnoc(input, sep);
    good, data, chk, haveLower, haveUpper := ReadData(input, hrpLen, chk, haveLower, haveUpper);
    if !good || (haveLower && haveUpper) {
      return;
    }
    ok := chk == 1;
  }

  lemma EmptyPieces()
    ensures LowerAll([]) == [] && Symbols([]) == [] && !HasLower([]) && !HasUpper([])
    ensures HighWords([]) == [] && LowWords([]) == [] && Words([]) == [] && Run(1, []) == 1
  {
  }
}
