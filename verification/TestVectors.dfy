/** Published strings of the section "Test vectors" of BIP 173. */
module TestVectors {
  import opened Common
  import opened Polymod
  import opened Bech32

  /** The characters of a text. */
  function Ascii(text: string): (s: seq<Char>)
    requires forall i :: 0 <= i < |text| ==> text[i] as int < 128
    ensures |s| == |text|
  {
    seq(|text|, i requires 0 <= i < |text| => text[i] as int)
  }

  // ---------------------------------------------------------------------------
  // Six symbols more
  // ---------------------------------------------------------------------------

  lemma U32Table()
    ensures U32(0) == 0 && U32(1) == 1 && U32(2) == 2 && U32(3) == 3 && U32(4) == 4 && U32(5) == 5
    ensures U32(6) == 6 && U32(7) == 7 && U32(8) == 8 && U32(9) == 9 && U32(10) == 10 && U32(11) == 11
    ensures U32(12) == 12 && U32(13) == 13 && U32(14) == 14 && U32(15) == 15 && U32(16) == 16 && U32(17) == 17
    ensures U32(18) == 18 && U32(19) == 19 && U32(20) == 20 && U32(21) == 21 && U32(22) == 22 && U32(23) == 23
    ensures U32(24) == 24 && U32(25) == 25 && U32(26) == 26 && U32(27) == 27 && U32(28) == 28 && U32(29) == 29
    ensures U32(30) == 30 && U32(31) == 31
  {
    hide U32;
    SymbolAsInt(0);
    SymbolAsInt(1);
    SymbolAsInt(2);
    SymbolAsInt(3);
    SymbolAsInt(4);
    SymbolAsInt(5);
    SymbolAsInt(6);
    SymbolAsInt(7);
    SymbolAsInt(8);
    SymbolAsInt(9);
    SymbolAsInt(10);
    SymbolAsInt(11);
    SymbolAsInt(12);
    SymbolAsInt(13);
    SymbolAsInt(14);
    SymbolAsInt(15);
    SymbolAsInt(16);
    SymbolAsInt(17);
    SymbolAsInt(18);
    SymbolAsInt(19);
    SymbolAsInt(20);
    SymbolAsInt(21);
    SymbolAsInt(22);
    SymbolAsInt(23);
    SymbolAsInt(24);
    SymbolAsInt(25);
    SymbolAsInt(26);
    SymbolAsInt(27);
    SymbolAsInt(28);
    SymbolAsInt(29);
    SymbolAsInt(30);
    SymbolAsInt(31);
  }

  lemma NextSix(hrp: seq<Char>, data: seq<int>, six: seq<int>, s0: bv32, s1: bv32, s2: bv32, s3: bv32, s4: bv32,
                s5: bv32, s6: bv32)
    requires |six| == 6 && DataState(hrp, data) == s0
    requires Feed(s0, U32(six[0])) == s1 && Feed(s1, U32(six[1])) == s2 && Feed(s2, U32(six[2])) == s3
    requires Feed(s3, U32(six[3])) == s4 && Feed(s4, U32(six[4])) == s5 && Feed(s5, U32(six[5])) == s6
    ensures DataState(hrp, data + six) == s6
  {
    hide U32, Feed, Run, HrpState;
    WordsConcat(data, six);
    RunConcat(HrpState(hrp), Words(data), Words(six));
    RunOfSix(s0, Words(six));
  }

  // ---------------------------------------------------------------------------
  // abcdef1qpzry9x8gf2tvdw0s3jn54khce6mua7lmqqqxw
  // ---------------------------------------------------------------------------

  lemma HrpFeeds()
    ensures Feed(0x1, 3) == 0x23 && Feed(0x23, 3) == 0x463
    ensures Feed(0x463, 3) == 0x8c63 && Feed(0x8c63, 3) == 0x118c63
    ensures Feed(0x118c63, 3) == 0x2318c63 && Feed(0x2318c63, 3) == 0x3d5bdbd1
    ensures Step(0x3d5bdbd1) == 0x4dcbcd9
    ensures Feed(0x4dcbcd9, 1) == 0x3dc7154c && Feed(0x3dc7154c, 2) == 0x17456f7b
    ensures Feed(0x17456f7b, 3) == 0x8d50561 && Feed(0x8d50561, 4) == 0x401b5de
    ensures Feed(0x401b5de, 5) == 0x266635a8 && Feed(0x266635a8, 6) == 0x3be80e6a
  {
  }

  lemma HrpWords()
    ensures HighWords([97, 98, 99, 100, 101, 102]) == [3, 3, 3, 3, 3, 3]
    ensures LowWords([97, 98, 99, 100, 101, 102]) == [1, 2, 3, 4, 5, 6]
  {
    hide U32;
    U32Table();
  }

  lemma HrpStateOfVector()
    ensures HrpState([97, 98, 99, 100, 101, 102]) == 0x3be80e6a
  {
    hide Run, Feed, Step, HighWords, LowWords, U32;
    HrpWords();
    HrpFeeds();
    RunOfSix(1, [3, 3, 3, 3, 3, 3]);
    RunOfSix(0x4dcbcd9, [1, 2, 3, 4, 5, 6]);
  }

  lemma DataFeeds()
    ensures Feed(0x3be80e6a, 0) == 0xf9cd266 && Feed(0xf9cd266, 1) == 0x30018ce4
    ensures Feed(0x30018ce4, 2) == 0x1767cdec && Feed(0x1767cdec, 3) == 0xc815781
    ensures Feed(0xc815781, 4) == 0x28db67b3 && Feed(0x28db67b3, 5) == 0x2fd98d2c
    ensures Feed(0x2fd98d2c, 6) == 0x12be0710 && Feed(0x12be0710, 7) == 0x11e88668
    ensures Feed(0x11e88668, 8) == 0x52fed5 && Feed(0x52fed5, 9) == 0xa5fdaa9
    ensures Feed(0xa5fdaa9, 10) == 0x2e301b62 && Feed(0x2e301b62, 11) == 0x2f8ccedd
    ensures Feed(0x2f8ccedd, 12) == 0x1816793a && Feed(0x1816793a, 13) == 0x212c0d6a
    ensures Feed(0x212c0d6a, 14) == 0xf95cffd && Feed(0xf95cffd, 15) == 0x31223f8a
    ensures Feed(0x31223f8a, 16) == 0x3311a03e && Feed(0x3311a03e, 17) == 0xe08010d
    ensures Feed(0xe08010d, 18) == 0x29be197 && Feed(0x29be197, 19) == 0x28166541
    ensures Feed(0x28166541, 20) == 0x3679d37d && Feed(0x3679d37d, 21) == 0x556e704
    ensures Feed(0x556e704, 22) == 0xc8c6efb && Feed(0xc8c6efb, 23) == 0x297c48e0
    ensures Feed(0x297c48e0, 24) == 0x1b3c6751 && Feed(0x1b3c6751, 25) == 0x3f0597ac
    ensures Feed(0x3f0597ac, 26) == 0x347f64d1 && Feed(0x347f64d1, 27) == 0x3eea4538
    ensures Feed(0x3eea4538, 28) == 0x9853657 && Feed(0x9853657, 29) == 0x2e07d307
    ensures Feed(0x2e07d307, 30) == 0x2975c268 && Feed(0x2975c268, 31) == 0x1a0d3656
    ensures Feed(0x1a0d3656, 27) == 0x192fb74e && Feed(0x192fb74e, 0) == 0x615c3e7
    ensures Feed(0x615c3e7, 0) == 0x1f82a53f && Feed(0x1f82a53f, 0) == 0xe8d5418
    ensures Feed(0xe8d5418, 6) == 0x12314323 && Feed(0x12314323, 14) == 0x1
  {
  }

  lemma StateOfTwo(hrp: seq<Char>, a: int, b: int)
    ensures DataState(hrp, [a, b]) == Feed(Feed(HrpState(hrp), U32(a)), U32(b))
  {
    hide U32, Feed, HrpState;
    assert Words([a, b])[..1] == [U32(a)] && Words([a, b])[..1][..0] == [];
    assert Run(HrpState(hrp), Words([a, b])[..1]) == Feed(HrpState(hrp), U32(a));
  }

  /** The register over the data part: two symbols, then six at a time. */
  lemma VectorState()
    ensures DataState([97, 98, 99, 100, 101, 102],
                      [0, 1] + [2, 3, 4, 5, 6, 7] + [8, 9, 10, 11, 12, 13] + [14, 15, 16, 17, 18, 19]
                      + [20, 21, 22, 23, 24, 25] + [26, 27, 28, 29, 30, 31] + [27, 0, 0, 0, 6, 14]) == 1
  {
    hide U32, Feed, HrpState, Run, Words;
    U32Table();
    DataFeeds();
    HrpStateOfVector();
    var hrp: seq<Char> := [97, 98, 99, 100, 101, 102];
    StateOfTwo(hrp, 0, 1);
    var data := [0, 1];
    NextSix(hrp, data, [2, 3, 4, 5, 6, 7],
            0x30018ce4, 0x1767cdec, 0xc815781, 0x28db67b3, 0x2fd98d2c, 0x12be0710, 0x11e88668);
    data := data + [2, 3, 4, 5, 6, 7];
    NextSix(hrp, data, [8, 9, 10, 11, 12, 13],
            0x11e88668, 0x52fed5, 0xa5fdaa9, 0x2e301b62, 0x2f8ccedd, 0x1816793a, 0x212c0d6a);
    data := data + [8, 9, 10, 11, 12, 13];
    NextSix(hrp, data, [14, 15, 16, 17, 18, 19],
            0x212c0d6a, 0xf95cffd, 0x31223f8a, 0x3311a03e, 0xe08010d, 0x29be197, 0x28166541);
    data := data + [14, 15, 16, 17, 18, 19];
    NextSix(hrp, data, [20, 21, 22, 23, 24, 25],
            0x28166541, 0x3679d37d, 0x556e704, 0xc8c6efb, 0x297c48e0, 0x1b3c6751, 0x3f0597ac);
    data := data + [20, 21, 22, 23, 24, 25];
    NextSix(hrp, data, [26, 27, 28, 29, 30, 31],
            0x3f0597ac, 0x347f64d1, 0x3eea4538, 0x9853657, 0x2e07d307, 0x2975c268, 0x1a0d3656);
    data := data + [26, 27, 28, 29, 30, 31];
    NextSix(hrp, data, [27, 0, 0, 0, 6, 14],
            0x1a0d3656, 0x192fb74e, 0x615c3e7, 0x1f82a53f, 0xe8d5418, 0x12314323, 0x1);
  }

  lemma UptoInParts()
    ensures seq(32, i => i)
         == [0, 1] + [2, 3, 4, 5, 6, 7] + [8, 9, 10, 11, 12, 13]
            + [14, 15, 16, 17, 18, 19] + [20, 21, 22, 23, 24, 25] + [26, 27, 28, 29, 30, 31]
  {
  }

  /** 0 to 31 and the checksum of that, as characters. */
  lemma VectorChars()
    ensures AreFiveBit(seq(32, i => i)) && Chars(seq(32, i => i)) == Ascii("qpzry9x8gf2tvdw0s3jn54khce6mua7l")
    ensures AreFiveBit([27, 0, 0, 0, 6, 14]) && Chars([27, 0, 0, 0, 6, 14]) == Ascii("mqqqxw")
  {
  }

  lemma EncodedHrp()
    ensures Ascii("abcdef") == [97, 98, 99, 100, 101, 102] && Ascii("1") == [SEPARATOR]
  {
  }

  /** A valid string that holds every data character: its data is 0 to 31, in both directions. */
  lemma AllCharacters()
    ensures var hrp := Ascii("abcdef");
      var text := hrp + Ascii("1") + (Ascii("qpzry9x8gf2tvdw0s3jn54khce6mua7l") + Ascii("mqqqxw"));
      Encode(hrp, seq(32, i => i)) == Some(text) && Decode(text) == Some((hrp, seq(32, i => i)))
  {
    hide DataState, Chars, HrpState, ChecksumInts, Encode, Decode, Ascii;
    var hrp, data, p := Ascii("abcdef"), seq(32, i => i), [27, 0, 0, 0, 6, 14];
    EncodedHrp();
    VectorState();
    UptoInParts();
    VectorChars();
    assert AreFiveBit(p);
    ChecksumCloses(hrp, data, p);
    EncodedText(hrp, data, p);
    DecodeOfEncode(hrp, data);
  }

  lemma EncodedText(hrp: seq<Char>, data: seq<int>, p: seq<int>)
    requires HrpEncodable(hrp) && AreFiveBit(data) && AreFiveBit(p) && p == ChecksumInts(hrp, data)
    ensures Encode(hrp, data) == Some(hrp + [SEPARATOR] + (Chars(data) + Chars(p)))
  {
    hide ChecksumInts, Charset;
    assert Chars(data + p) == Chars(data) + Chars(p);
  }
}
