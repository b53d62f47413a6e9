/** What `bech32_encode` and `bech32_decode` of src/segwit_addr.cc accept, in plain terms. */
module Acceptance {
  import opened Common
  import opened Bech32

  /** The encoder takes every human readable part without control characters, and 5-bit data. Its text is the
      human readable part, the separator `1`, a character for each value, and six more. */
  lemma EncodableIff(hrp: seq<Char>, data: seq<int>)
    ensures Encode(hrp, data).Some?
            <==> (forall i :: 0 <= i < |hrp| ==> !(0 <= hrp[i] < 32))
                 && (forall i :: 0 <= i < |data| ==> 0 <= data[i] < 32)
    ensures Encode(hrp, data).Some? ==>
      var text := Encode(hrp, data).value;
      && |text| == |hrp| + 7 + |data| && text[..|hrp|] == hrp && text[|hrp|] == 49
      && (forall i :: 0 <= i < |data| ==> 0 <= data[i] < 32 && text[|hrp| + 1 + i] == Charset(data[i]))
  {
    hide ChecksumInts, Charset;
  }

  lemma RevIgnoresCase(c: Char)
    ensures CharsetRev(Lower(c)) == CharsetRev(c)
  {
  }

  lemma SymbolsOfLower(s: seq<Char>)
    ensures Symbols(LowerAll(s)) == Symbols(s)
  {
    hide CharsetRev, Lower;
    forall i | 0 <= i < |s|
      ensures Symbols(LowerAll(s))[i] == Symbols(s)[i]
    {
      RevIgnoresCase(s[i]);
    }
  }

  lemma {:induction false} LastSeparatorOfLower(s: seq<Char>)
    ensures LastSeparator(LowerAll(s)) == LastSeparator(s)
  {
    if s != [] {
      LastSeparatorOfLower(s[..|s| - 1]);
      assert LowerAll(s)[..|s| - 1] == LowerAll(s[..|s| - 1]);
    }
  }

  lemma LowerPieces(s: seq<Char>, sep: nat)
    requires sep < |s|
    ensures LowerAll(s)[..sep] == LowerAll(s[..sep]) && LowerAll(s)[sep + 1..] == LowerAll(s[sep + 1..])
    ensures LowerAll(LowerAll(s[..sep])) == LowerAll(s[..sep])
    ensures HrpDecodable(LowerAll(s)[..sep]) <==> HrpDecodable(s[..sep])
    ensures !HasUpper(LowerAll(s))
  {
    var a, b := LowerAll(s)[..sep], s[..sep];
    forall i | 0 <= i < sep
      ensures 33 <= a[i] <= 126 <==> 33 <= b[i] <= 126
    {
      assert a[i] == Lower(b[i]);
    }
  }

  /** A string that is not in mixed case decodes like its lower case form. */
  lemma DecodeIgnoresCase(s: seq<Char>)
    requires !(HasLower(s) && HasUpper(s))
    ensures Decode(LowerAll(s)) == Decode(s)
  {
    hide DataState, Symbols, HasUpper, HasLower, LowerAll, HrpDecodable, AreFiveBit, LastSeparator;
    LastSeparatorOfLower(s);
    var sep := LastSeparator(s);
    if sep >= 0 {
      LowerPieces(s, sep);
      SymbolsOfLower(s[sep + 1..]);
    }
  }

  lemma CaseSpelledOut(s: seq<Char>, text: seq<Char>)
    ensures HasLower(s) <==> exists i :: 0 <= i < |s| && 97 <= s[i] <= 122
    ensures HasUpper(s) <==> exists i :: 0 <= i < |s| && 65 <= s[i] <= 90
    ensures LowerAll(s) == text <==>
      |text| == |s| && (forall i :: 0 <= i < |s| ==> text[i] == (if 65 <= s[i] <= 90 then s[i] + 32 else s[i]))
  {
    if |text| == |s| && forall i :: 0 <= i < |s| ==> text[i] == if 65 <= s[i] <= 90 then s[i] + 32 else s[i] {
      assert forall i :: 0 <= i < |s| ==> LowerAll(s)[i] == text[i];
    } else if LowerAll(s) == text {
      forall i | 0 <= i < |s|
        ensures text[i] == if 65 <= s[i] <= 90 then s[i] + 32 else s[i]
      {
        assert text[i] == LowerAll(s)[i];
      }
    }
  }

  /** Exactly what is accepted as the pair of `hrp` and `data`: at most 90 characters, not both a letter in
      lower and one in upper case, which in lower case are the encoding of the pair; where `hrp` is nonempty
      and made of characters 33 to 126 without upper case. */
  lemma AcceptedIff(s: seq<Char>, hrp: seq<Char>, data: seq<int>)
    ensures Decode(s) == Some((hrp, data))
            <==> |s| <= 90 && |hrp| >= 1
                 && (forall i :: 0 <= i < |hrp| ==> 33 <= hrp[i] <= 126 && !(65 <= hrp[i] <= 90))
                 && !((exists i :: 0 <= i < |s| && 97 <= s[i] <= 122)
                      && (exists i :: 0 <= i < |s| && 65 <= s[i] <= 90))
                 && Encode(hrp, data).Some? && |Encode(hrp, data).value| == |s|
                 && (forall i :: 0 <= i < |s| ==>
                       Encode(hrp, data).value[i] == (if 65 <= s[i] <= 90 then s[i] + 32 else s[i]))
  {
    hide Encode, Decode, HasUpper, HasLower, LowerAll, HrpDecodable, AreFiveBit;
    CaseSpelledOut(hrp, hrp);
    HrpSpelledOut(hrp);
    if Encode(hrp, data).Some? {
      CaseSpelledOut(s, Encode(hrp, data).value);
      EncodableIff(hrp, data);
      EncodedIsFiveBit(hrp, data);
    }
    if Decode(s) == Some((hrp, data)) {
      DecodedShape(s);
      DecodeIsCanonical(s);
      DecodedCase(s);
    }
    if RoundTrips(hrp, data) && Encode(hrp, data) == Some(LowerAll(s)) && !(HasLower(s) && HasUpper(s)) {
      DecodeOfEncode(hrp, data);
      DecodeIgnoresCase(s);
    }
  }

  lemma HrpSpelledOut(hrp: seq<Char>)
    ensures HrpDecodable(hrp) && !HasUpper(hrp)
            <==> forall i :: 0 <= i < |hrp| ==> 33 <= hrp[i] <= 126 && !(65 <= hrp[i] <= 90)
  {
    if HrpDecodable(hrp) && !HasUpper(hrp) {
      forall i | 0 <= i < |hrp|
        ensures !(65 <= hrp[i] <= 90)
      {
        assert !IsUpper(hrp[i]);
      }
    }
  }

  lemma EncodedIsFiveBit(hrp: seq<Char>, data: seq<int>)
    requires Encode(hrp, data).Some?
    ensures AreFiveBit(data)
  {
  }

  lemma DecodedCase(s: seq<Char>)
    requires Decode(s).Some?
    ensures !(HasLower(s) && HasUpper(s))
  {
    hide DataState, Symbols, LowerAll, HrpDecodable, AreFiveBit, HasUpper, HasLower, LastSeparator;
  }
}
