/** `segwit_addr_encode` and `segwit_addr_decode` of src/segwit_addr.cc. */
module Segwit {
  import opened Common
  import opened Radix
  import opened ConvertBits
  import opened Bech32
  import opened Acceptance
  import opened Bech32Loops

  predicate LengthOk(version: int, n: nat) {
    2 <= n <= 40 && (version == 0 ==> n == 20 || n == 32)
  }

  lemma FiveBitIsDigits(s: seq<int>)
    ensures AreFiveBit(s) <==> AreDigits(s, Pow2(5))
    ensures AreBytes(s) <==> AreDigits(s, Pow2(8))
  {
    Pow2Values();
  }

  /** Program bytes as padded 5-bit groups. */
  function Padded(program: seq<int>): (groups: seq<int>)
    requires AreBytes(program)
    ensures AreFiveBit(groups) && |groups| == Ceil85(|program|)
  {
    FiveBitIsDigits(program);
    PadThenUnpad(program);
    FiveBitIsDigits(Regroup(program, 8, 5, true).value);
    Regroup(program, 8, 5, true).value
  }

  /** 5-bit groups as bytes, when nothing but zero padding of less than a group is left over. */
  function Unpadded(groups: seq<int>): (r: Option<seq<int>>)
    requires AreFiveBit(groups)
    ensures r.Some? ==> AreBytes(r.value)
  {
    FiveBitIsDigits(groups);
    var r := Regroup(groups, 5, 8, false);
    if r.Some? then
      UnpadThenPad(groups);
      FiveBitIsDigits(r.value);
      r
    else None
  }

  lemma UnpaddedOfPadded(program: seq<int>)
    requires AreBytes(program)
    ensures Unpadded(Padded(program)) == Some(program)
  {
    hide Regroup;
    FiveBitIsDigits(program);
    PadThenUnpad(program);
  }

  lemma PaddedOfUnpadded(groups: seq<int>)
    requires AreFiveBit(groups) && Unpadded(groups).Some?
    ensures Padded(Unpadded(groups).value) == groups && |Unpadded(groups).value| == 5 * |groups| / 8
  {
    hide Regroup;
    FiveBitIsDigits(groups);
    UnpadThenPad(groups);
  }

  /** The address that `segwit_addr_encode` writes. The version is stored in one byte, so a negative
      one wraps around. */
  function AddrEncode(hrp: seq<Char>, version: int, program: seq<int>): Option<seq<Char>>
    requires AreBytes(program)
  {
    if version > 16 || !LengthOk(version, |program|) then None
    else Encode(hrp, [version % 256] + Padded(program))
  }

  /** `strncmp(a, b, n) == 0`. */
  predicate StrNEqual(a: seq<Char>, b: seq<Char>, n: nat) {
    (if |a| < n then a + [0] else a[..n]) == (if |b| < n then b + [0] else b[..n])
  }

  /** The version and program that `segwit_addr_decode` returns. */
  function AddrDecode(hrp: seq<Char>, addr: seq<Char>): Option<(int, seq<int>)> {
    var d := Decode(addr);
    if d.None? then None
    else
      DecodedShape(addr);
      var (actual, data) := d.value;
      if |data| == 0 || |data| > 65 || !StrNEqual(hrp, actual, 84) || data[0] > 16 then None
      else
        var program := Unpadded(data[1..]);
        if program.None? || !LengthOk(data[0], |program.value|) then None
        else Some((data[0], program.value))
  }

  lemma StrNEqualIsEqual(a: seq<Char>, b: seq<Char>, n: nat)
    requires IsCString(a) && |b| < n
    ensures StrNEqual(a, b, n) <==> a == b
  {
    assert (b + [0])[|b|] == 0;
    if StrNEqual(a, b, n) {
      if |a| < n {
        assert (a + [0])[..|a|] == a && (b + [0])[..|b|] == b;
      }
    }
  }

  /** What a caller must supply for the address to decode to what went in. */
  predicate Legal(hrp: seq<Char>, version: int, program: seq<int>) {
    && 0 <= version <= 16 && LengthOk(version, |program|)
    && 1 <= |hrp| && |hrp| + 8 + Ceil85(|program|) <= 90
    && HrpDecodable(hrp) && !HasUpper(hrp)
  }

  lemma LegalDecodes(hrp: seq<Char>, version: int, program: seq<int>)
    requires AreBytes(program) && IsCString(hrp) && Legal(hrp, version, program)
    ensures AddrEncode(hrp, version, program).Some?
    ensures AddrDecode(hrp, AddrEncode(hrp, version, program).value) == Some((version, program))
  {
    hide Encode, Decode, Padded, Unpadded, HasUpper;
    var groups := Padded(program);
    var data := [version] + groups;
    assert data[1..] == groups;
    DecodeOfEncode(hrp, data);
    StrNEqualIsEqual(hrp, hrp, 84);
    UnpaddedOfPadded(program);
  }

  lemma DecodedIsLegal(hrp: seq<Char>, addr: seq<Char>)
    requires IsCString(hrp) && AddrDecode(hrp, addr).Some?
    ensures AreBytes(AddrDecode(hrp, addr).value.1)
    ensures Legal(hrp, AddrDecode(hrp, addr).value.0, AddrDecode(hrp, addr).value.1)
    ensures Decode(addr) == Some((hrp, [AddrDecode(hrp, addr).value.0] + Padded(AddrDecode(hrp, addr).value.1)))
  {
    hide Decode, Padded, Unpadded, HasUpper;
    DecodedShape(addr);
    var (actual, data) := Decode(addr).value;
    StrNEqualIsEqual(hrp, actual, 84);
    PaddedOfUnpadded(data[1..]);
    assert data == [data[0]] + data[1..];
  }

  /** Decoding undoes encoding exactly for legal arguments; in particular never for a negative version. */
  lemma AddrRoundTrip(hrp: seq<Char>, version: int, program: seq<int>)
    requires AreBytes(program) && IsCString(hrp)
    ensures (AddrEncode(hrp, version, program).Some?
             && AddrDecode(hrp, AddrEncode(hrp, version, program).value) == Some((version, program)))
            <==> Legal(hrp, version, program)
  {
    hide AddrEncode, AddrDecode, Legal;
    if Legal(hrp, version, program) {
      LegalDecodes(hrp, version, program);
    }
    if AddrEncode(hrp, version, program).Some?
       && AddrDecode(hrp, AddrEncode(hrp, version, program).value) == Some((version, program)) {
      DecodedIsLegal(hrp, AddrEncode(hrp, version, program).value);
    }
  }

  /** The same with the legal arguments written out: version 0 to 16, a program of 2 to 40 bytes, of 20 or 32 for
      version 0, a nonempty human readable part of characters 33 to 126 without upper case, and no more than 90
      characters: eight, the human readable part and ceil(8n/5) groups. */
  lemma AddrRoundTripIff(hrp: seq<Char>, version: int, program: seq<int>)
    requires AreBytes(program) && IsCString(hrp)
    ensures (AddrEncode(hrp, version, program).Some?
             && AddrDecode(hrp, AddrEncode(hrp, version, program).value) == Some((version, program)))
            <==> && 0 <= version <= 16 && 2 <= |program| <= 40
                 && (version == 0 ==> |program| == 20 || |program| == 32)
                 && 1 <= |hrp| && |hrp| + 8 + (8 * |program| + 4) / 5 <= 90
                 && forall i :: 0 <= i < |hrp| ==> 33 <= hrp[i] <= 126 && !(65 <= hrp[i] <= 90)
  {
    hide AddrEncode, AddrDecode, HrpDecodable, HasUpper;
    AddrRoundTrip(hrp, version, program);
    HrpSpelledOut(hrp);
  }

  /** After the version the data are the program's bits in order, five to a group, from the top down, and zeros. */
  lemma PaddedKeepsBits(program: seq<int>, i: nat)
    requires AreBytes(program) && i < 5 * |Padded(program)|
    ensures |Padded(program)| == (8 * |program| + 4) / 5 && i / 5 < |Padded(program)|
    ensures i < 8 * |program| ==> i / 8 < |program|
    ensures (Padded(program)[i / 5] / Pow2(4 - i % 5)) % 2
         == if i < 8 * |program| then (program[i / 8] / Pow2(7 - i % 8)) % 2 else 0
  {
    hide Regroup, Pow2;
    FiveBitIsDigits(program);
    PadThenUnpad(program);
    PadKeepsBits(program, 8, 5, i);
  }

  /** Every accepted address is the encoding of what was returned, up to letter case. */
  lemma AddrCanonical(hrp: seq<Char>, addr: seq<Char>)
    requires IsCString(hrp) && AddrDecode(hrp, addr).Some?
    ensures AreBytes(AddrDecode(hrp, addr).value.1)
    ensures AddrEncode(hrp, AddrDecode(hrp, addr).value.0, AddrDecode(hrp, addr).value.1) == Some(LowerAll(addr))
  {
    hide AddrDecode, Decode, Encode, Padded, Unpadded, HasUpper, LowerAll;
    DecodedIsLegal(hrp, addr);
    DecodeIsCanonical(addr);
  }

  /** Two accepted addresses for one human readable part with the same content are the same string. */
  lemma AddrUnique(hrp: seq<Char>, a: seq<Char>, b: seq<Char>)
    requires IsCString(hrp) && AddrDecode(hrp, a).Some? && AddrDecode(hrp, a) == AddrDecode(hrp, b)
    ensures LowerAll(a) == LowerAll(b)
  {
    hide *;
    AddrCanonical(hrp, a);
    AddrCanonical(hrp, b);
  }

  // ---------------------------------------------------------------------------
  // Versions
  // ---------------------------------------------------------------------------

  /** Exactly which arguments get an address: a version above 16 is refused, but a negative one passes if
      what is left of it in one byte is a symbol, and then without the test for version 0. */
  lemma EncodesIff(hrp: seq<Char>, version: int, program: seq<int>)
    requires AreBytes(program)
    ensures AddrEncode(hrp, version, program).Some?
            <==> && (forall i :: 0 <= i < |hrp| ==> !(0 <= hrp[i] < 32))
                 && version <= 16 && version % 256 < 32
                 && 2 <= |program| <= 40 && (version == 0 ==> |program| == 20 || |program| == 32)
  {
    hide Padded, Encode;
    EncodableIff(hrp, [version % 256] + Padded(program));
    EncodableSpelledOut(hrp, [version % 256] + Padded(program));
    var data := [version % 256] + Padded(program);
    assert data[0] == version % 256;
    assert version % 256 < 32 <==> AreFiveBit(data);
  }

  lemma EncodableSpelledOut(hrp: seq<Char>, data: seq<int>)
    ensures HrpEncodable(hrp) <==> forall i :: 0 <= i < |hrp| ==> !(0 <= hrp[i] < 32)
    ensures AreFiveBit(data) <==> forall i :: 0 <= i < |data| ==> 0 <= data[i] < 32
  {
  }

  lemma EncodedLength(hrp: seq<Char>, version: int, program: seq<int>)
    requires AreBytes(program) && AddrEncode(hrp, version, program).Some?
    ensures |AddrEncode(hrp, version, program).value| == |hrp| + 8 + Ceil85(|program|)
    ensures 0 <= version % 256 < 32 && LengthOk(version, |program|)
  {
    hide Padded;
    EncodesIff(hrp, version, program);
  }

  lemma PaddedInjective(p: seq<int>, q: seq<int>)
    requires AreBytes(p) && AreBytes(q) && Padded(p) == Padded(q)
    ensures p == q
  {
    hide Padded, Unpadded;
    UnpaddedOfPadded(p);
    UnpaddedOfPadded(q);
  }

  /** The address of a negative version decodes exactly if it would be legal for what is left of the version
      in one byte, and then to that version. */
  lemma NegativeVersion(hrp: seq<Char>, version: int, program: seq<int>)
    requires AreBytes(program) && IsCString(hrp) && version < 0
    requires AddrEncode(hrp, version, program).Some?
    ensures AddrDecode(hrp, AddrEncode(hrp, version, program).value)
            == if Legal(hrp, version % 256, program) then Some((version % 256, program)) else None
  {
    hide AddrDecode, Encode, Decode, Padded, HasUpper;
    var v := version % 256;
    var addr := AddrEncode(hrp, version, program).value;
    EncodedLength(hrp, version, program);
    if Legal(hrp, v, program) {
      LegalDecodes(hrp, v, program);
    } else if AddrDecode(hrp, addr).Some? {
      var (w, p) := AddrDecode(hrp, addr).value;
      DecodedIsLegal(hrp, addr);
      DecodedShape(addr);
      DecodeOfEncode(hrp, [v] + Padded(program));
      assert ([v] + Padded(program))[1..] == Padded(program) && ([w] + Padded(p))[1..] == Padded(p);
      assert ([v] + Padded(program))[0] == ([w] + Padded(p))[0];
      PaddedInjective(p, program);
    }
  }

  /** Version -256 with two program bytes gets an address that never decodes. */
  lemma NegativeVersionExample()
    ensures AddrEncode([97], -256, [0, 0]).Some?
    ensures AddrDecode([97], AddrEncode([97], -256, [0, 0]).value).None?
  {
    hide AddrDecode, AddrEncode;
    EncodesIff([97], -256, [0, 0]);
    NegativeVersion([97], -256, [0, 0]);
  }

  // ---------------------------------------------------------------------------
  // The two functions of the source
  // ---------------------------------------------------------------------------

  const GROUP_BUFFER: nat := 65

  const PROGRAM_BUFFER: nat := 40

  const LOCAL_BUFFER: nat := 84

  /** `data` is the function's own buffer. */
  method SegwitEncode(hrp: seq<Char>, version: int, program: seq<int>)
    returns (ok: bool, output: seq<Char>, data: seq<int>)
    requires IsCString(hrp) && AreBytes(program)
    ensures ok == AddrEncode(hrp, version, program).Some?
    ensures ok ==> output == AddrEncode(hrp, version, program).value + [0]
    ensures |output| <= |hrp| + 73 && |data| <= GROUP_BUFFER
  {
    hide Encode, Regroup, Pow2, Pow;
    ok, output, data := false, [], [];
    if version > 16 {
      return;
    }
    if version == 0 && |program| != 20 && |program| != 32 {
      return;
    }
    if |program| < 2 || |program| > 40 {
      return;
    }
    FiveBitIsDigits(program);
    PadThenUnpad(program);
    var done, groups := Convert(5, program, 8, true);
    FiveBitIsDigits(groups);
    data := [version % 256] + groups;
    ok, output := BechEncode(hrp, data);
  }

  /** `hrpActual` and `data` are the function's own buffers, of 84 cells each. */
  method SegwitDecode(hrp: seq<Char>, addr: seq<Char>)
    returns (ok: bool, version: int, program: seq<int>, hrpActual: seq<Char>, data: seq<int>)
    requires IsCString(hrp) && IsCString(addr)
    ensures ok == AddrDecode(hrp, addr).Some?
    ensures ok ==> (version, program) == AddrDecode(hrp, addr).value
    ensures |program| <= PROGRAM_BUFFER && |data| <= LOCAL_BUFFER - 2
    ensures |hrpActual| > LOCAL_BUFFER
            <==> 85 <= |addr| <= 90 && LastSeparator(addr) < 0 && HrpDecodable(addr[..85])
  {
    hide Decode, Regroup, Pow2, Pow, StrNEqual, HrpCells, HrpDecodable;
    ok, version, program := false, 0, [];
    var good;
    good, hrpActual, data := BechDecode(addr);
    HrpOverrun84(addr);
    if !good {
      return;
    }
    DecodedShape(addr);
    if |data| == 0 || |data| > 65 {
      return;
    }
    assert hrpActual[..|hrpActual| - 1] == Decode(addr).value.0;
    if !StrNEqual(hrp, hrpActual[..|hrpActual| - 1], 84) {
      return;
    }
    if data[0] > 16 {
      return;
    }
    FiveBitIsDigits(data[1..]);
    good, program := Convert(8, data[1..], 5, false);
    if !good {
      return;
    }
    if |program| < 2 || |program| > 40 {
      return;
    }
    if data[0] == 0 && |program| != 20 && |program| != 32 {
      return;
    }
    version := data[0];
    ok := true;
  }
}
