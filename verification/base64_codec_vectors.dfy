/** The vectors of interpreter/function/shared/base64_codec_test.go, stated as
    lemmas about the model. Each lemma takes its strings as parameters bound by its
    precondition and reaches the decoders through the general round-trip and
    success lemmas rather than by evaluating them on the literal. */
module Base64CodecVectors {
  import opened Wrappers
  import opened Base64
  import opened Base64Codec

  /** The bytes of an ASCII string literal. */
  function Bytes(s: string): seq<byte>
    requires forall i :: 0 <= i < |s| ==> s[i] as int < 128
  {
    seq(|s|, i requires 0 <= i < |s| => s[i] as int)
  }

  lemma EncodeHelloBytes(enc: Encoding)
    ensures EncodeToString(enc, [104, 101, 108, 108, 111])
         == [97, 71, 86, 115, 98, 71, 56] + (if enc.padded then [Pad] else [])
  {
    EncodeHel(enc);
    EncodeLo(enc);
    EncodeAppend(enc, [104, 101, 108], [108, 111]);
    assert [104, 101, 108] + [108, 111] == [104, 101, 108, 108, 111];
  }

  lemma EncodeHel(enc: Encoding)
    ensures EncodeToString(enc, [104, 101, 108]) == [97, 71, 86, 115]
  {
    assert EncodeGroup([104, 101, 108]) == [26, 6, 21, 44];
  }

  lemma EncodeLo(enc: Encoding)
    ensures EncodeToString(enc, [108, 111]) == [98, 71, 56] + (if enc.padded then [Pad] else [])
  {
    assert EncodeGroup([108, 111]) == [27, 6, 60];
    assert Pads(1) == [Pad];
  }

  lemma EncodeHello(enc: Encoding, b: seq<byte>)
    requires b == Bytes("hello")
    ensures EncodeToString(enc, b) == Bytes("aGVsbG8") + (if enc.padded then [Pad] else [])
  {
    EncodeHelloBytes(enc);
    assert b == [104, 101, 108, 108, 111];
    assert Bytes("aGVsbG8") == [97, 71, 86, 115, 98, 71, 56];
  }

  lemma EncodeAbcdBytes(enc: Encoding)
    ensures EncodeToString(enc, [97, 98, 99, 100])
         == [89, 87, 74, 106, 90, 65] + (if enc.padded then [Pad, Pad] else [])
  {
    EncodeAbc(enc);
    EncodeD(enc);
    EncodeAppend(enc, [97, 98, 99], [100]);
    assert [97, 98, 99] + [100] == [97, 98, 99, 100];
  }

  lemma EncodeAbc(enc: Encoding)
    ensures EncodeToString(enc, [97, 98, 99]) == [89, 87, 74, 106]
  {
    assert EncodeGroup([97, 98, 99]) == [24, 22, 9, 35];
  }

  lemma EncodeD(enc: Encoding)
    ensures EncodeToString(enc, [100]) == [90, 65] + (if enc.padded then [Pad, Pad] else [])
  {
    assert EncodeGroup([100]) == [25, 0];
    assert Pads(2) == [Pad, Pad];
  }

  lemma EncodeAbcd(enc: Encoding, b: seq<byte>)
    requires b == Bytes("abcd")
    ensures EncodeToString(enc, b) == Bytes("YWJjZA") + (if enc.padded then [Pad, Pad] else [])
  {
    EncodeAbcdBytes(enc);
    assert b == [97, 98, 99, 100];
    assert Bytes("YWJjZA") == [89, 87, 74, 106, 90, 65];
  }

  /** base64_codec_test.go:85-86, 137-138 and 189-190. */
  lemma DecodeHello(padded: seq<byte>, raw: seq<byte>, want: seq<byte>)
    requires padded == Bytes("aGVsbG8=") && raw == Bytes("aGVsbG8") && want == Bytes("hello")
    ensures Base64Decode(padded) == Success(Base64DecodeResult(want, false))
    ensures Base64UrlDecode(padded) == Success(Base64DecodeResult(want, false))
    ensures Base64UrlDecodeNoPad(raw) == Success(Base64DecodeResult(want, false))
  {
    EncodeHello(StdEncoding, want);
    EncodeHello(URLEncoding, want);
    EncodeHello(RawURLEncoding, want);
    assert Bytes("aGVsbG8") + [Pad] == padded;
    assert Bytes("aGVsbG8") + [] == raw;
    assert NullByte !in want;
    Base64RoundTrip(want);
    Base64UrlRoundTrip(want);
    Base64UrlNoPadRoundTrip(want);
  }

  /** base64_codec_test.go:185-186: "YWJjZA" decodes to "abcd" without padding; its
      padded form passes the padded decoder and fails the unpadded one, whose
      character set has no '='. */
  lemma DecodeAbcd(padded: seq<byte>, raw: seq<byte>, want: seq<byte>)
    requires padded == Bytes("YWJjZA==") && raw == Bytes("YWJjZA") && want == Bytes("abcd")
    ensures Base64UrlDecodeNoPad(raw) == Success(Base64DecodeResult(want, false))
    ensures Base64Decode(padded) == Success(Base64DecodeResult(want, false))
    ensures Base64UrlDecodeNoPad(padded) == Failure(InvalidBase64)
  {
    EncodeAbcd(StdEncoding, want);
    EncodeAbcd(RawURLEncoding, want);
    assert Bytes("YWJjZA") + [Pad, Pad] == padded;
    assert Bytes("YWJjZA") + [] == raw;
    assert NullByte !in want;
    Base64RoundTrip(want);
    Base64UrlNoPadRoundTrip(want);
    assert !IsValidBase64UrlNoPadChar(padded[6]);
  }

  /** base64_codec_test.go:81-82 and 133-134: the 'B' of "ZB==" carries the leftover
      bits 0001, which the non-strict decoder drops; the canonical encoding of "abcd"
      ends in "ZA==" instead. */
  lemma DecodeNonCanonical(src: seq<byte>, want: seq<byte>)
    requires src == Bytes("YWJjZB==") && want == Bytes("abcd")
    ensures Base64Decode(src) == Success(Base64DecodeResult(want, false))
    ensures Base64UrlDecode(src) == Success(Base64DecodeResult(want, false))
    ensures src != Base64Encode(want)
  {
    NonCanonicalBytes(src, want);
    DecodeYWJjZB(Standard, src, want);
    DecodeYWJjZB(UrlSafe, src, want);
    DecodedWithoutNull(src, want);
    NonCanonicalIsNotTheEncoding(src, want);
  }

  lemma NonCanonicalBytes(src: seq<byte>, want: seq<byte>)
    requires src == Bytes("YWJjZB==") && want == Bytes("abcd")
    ensures src == [89, 87, 74, 106, 90, 66, 61, 61] && want == [97, 98, 99, 100]
    ensures ValidStd(src) && ValidUrl(src) && NullByte !in want
  {
  }

  lemma NonCanonicalIsNotTheEncoding(src: seq<byte>, want: seq<byte>)
    requires src == Bytes("YWJjZB==") && want == Bytes("abcd")
    ensures src != Base64Encode(want)
  {
    EncodeAbcd(StdEncoding, want);
    assert src[5] != Base64Encode(want)[5];
  }

  /** A valid input whose padded decoding has no 0 byte comes back whole from both
      padded decoders. */
  lemma DecodedWithoutNull(src: seq<byte>, want: seq<byte>)
    requires ValidStd(src) && ValidUrl(src)
    requires DecodePadded(Standard, src) == Some(want) && DecodePadded(UrlSafe, src) == Some(want)
    requires NullByte !in want
    ensures Base64Decode(src) == Success(Base64DecodeResult(want, false))
    ensures Base64UrlDecode(src) == Success(Base64DecodeResult(want, false))
  {
    NoNewlines(src);
    var r := ToDecodeResult(want);
    CutAtFirstNullIsUnique(want, r.value, r.hadEmbeddedNulByte, want, false);
  }

  lemma DecodeYWJjZB(a: Alphabet, src: seq<byte>, want: seq<byte>)
    requires src == [89, 87, 74, 106, 90, 66, 61, 61] && want == [97, 98, 99, 100]
    ensures DecodePadded(a, src) == Some(want)
  {
    assert Symbols(a, [24, 22, 9, 35]) == src[..4];
    ValuesOfSymbols(a, [24, 22, 9, 35]);
    assert DecodeGroup([24, 22, 9, 35]) == [97, 98, 99];
    DecodeLastQuantumZB(a, src[4..]);
    assert [97, 98, 99] + [100] == want;
  }

  /** "ZB==" decodes to "d", the byte 'Z' and the top two bits of 'B' make. */
  lemma DecodeLastQuantumZB(a: Alphabet, q: seq<byte>)
    requires q == [90, 66, 61, 61]
    ensures DecodePadded(a, q) == Some([100])
  {
    assert Symbols(a, [25, 1]) == q[..2];
    ValuesOfSymbols(a, [25, 1]);
    assert DecodeGroup([25, 1]) == [100];
  }

  /** Decoding stops at an embedded 0 byte: "YQBi" is the encoding of 'a', 0, 'b'. */
  lemma DecodeEmbeddedNull(src: seq<byte>, b: seq<byte>)
    requires src == Bytes("YQBi") && b == [97, 0, 98]
    ensures Base64Decode(src) == Success(Base64DecodeResult(Bytes("a"), true))
    ensures Base64UrlDecode(src) == Success(Base64DecodeResult(Bytes("a"), true))
    ensures Base64UrlDecodeNoPad(src) == Success(Base64DecodeResult(Bytes("a"), true))
  {
    assert EncodeToString(StdEncoding, [97, 0, 98]) == src;
    assert EncodeToString(URLEncoding, [97, 0, 98]) == src;
    assert EncodeToString(RawURLEncoding, [97, 0, 98]) == src;
    var cut := TerminateNullByte(b);
    assert CutAtFirstNull(b, Bytes("a"), true);
    CutAtFirstNullIsUnique(b, cut.0, cut.1, Bytes("a"), true);
    Base64RoundTrip(b);
    Base64UrlRoundTrip(b);
    Base64UrlNoPadRoundTrip(b);
    CutAtFirstNullIsUnique(b, Base64Decode(src).value.value, Base64Decode(src).value.hadEmbeddedNulByte, cut.0, cut.1);
    CutAtFirstNullIsUnique(b, Base64UrlDecode(src).value.value, Base64UrlDecode(src).value.hadEmbeddedNulByte, cut.0, cut.1);
    CutAtFirstNullIsUnique(b, Base64UrlDecodeNoPad(src).value.value, Base64UrlDecodeNoPad(src).value.hadEmbeddedNulByte, cut.0, cut.1);
  }

  /** base64_codec_test.go:103-105, 155-157 and 207-208: a byte outside the character
      set is refused by the validator. */
  lemma RejectedCharacters(s1: seq<byte>, s2: seq<byte>, s3: seq<byte>, s4: seq<byte>, s5: seq<byte>)
    requires s1 == Bytes("QU&|*#()JDRA==") && s2 == Bytes("QU&==|*#()JDRA==") && s3 == Bytes("QU&=|*#()JDRA==")
    requires s4 == Bytes("QU&|*#()JDRA") && s5 == Bytes("invalid!!chars")
    ensures Base64Decode(s1) == Failure(InvalidBase64)
    ensures Base64Decode(s2) == Failure(InvalidBase64)
    ensures Base64Decode(s3) == Failure(InvalidBase64)
    ensures Base64UrlDecode(s1) == Failure(InvalidBase64)
    ensures Base64UrlDecode(s2) == Failure(InvalidBase64)
    ensures Base64UrlDecode(s3) == Failure(InvalidBase64)
    ensures Base64UrlDecodeNoPad(s4) == Failure(InvalidBase64)
    ensures Base64UrlDecodeNoPad(s5) == Failure(InvalidBase64)
  {
    assert !IsValidBase64Char(s1[2]) && !IsValidBase64UrlChar(s1[2]);
    assert !IsValidBase64Char(s2[2]) && !IsValidBase64UrlChar(s2[2]);
    assert !IsValidBase64Char(s3[2]) && !IsValidBase64UrlChar(s3[2]);
    assert !IsValidBase64UrlNoPadChar(s4[2]);
    assert !IsValidBase64UrlNoPadChar(s5[7]);
  }

  /** base64_codec_test.go:106 and 158: every byte of "aGVsbG8=0" is in the character
      set, but the transform refuses a symbol after the padding. */
  lemma RejectedTrailingData(src: seq<byte>)
    requires src == Bytes("aGVsbG8=0")
    ensures ValidStd(src) && ValidUrl(src)
    ensures Base64Decode(src) == Failure(InvalidBase64)
    ensures Base64UrlDecode(src) == Failure(InvalidBase64)
  {
    TrailingDataBytes(src);
    Base64DecodeSucceedsIff(src);
    Base64UrlDecodeSucceedsIff(src);
  }

  lemma TrailingDataBytes(src: seq<byte>)
    requires src == Bytes("aGVsbG8=0")
    ensures ValidStd(src) && ValidUrl(src) && |src| == 9
  {
  }

  lemma StripLineFeed(src: seq<byte>, head: seq<byte>, tail: seq<byte>)
    requires head == [97, 71, 86, 115] && tail == [98, 71, 56, 61]
    requires src == head + [LineFeed] + tail
    ensures StripNewlines(src) == head + tail
  {
    StripNewlinesAppend(head + [LineFeed], tail);
    StripNewlinesAppend(head, [LineFeed]);
    assert StripNewlines([LineFeed]) == [];
  }

  /** Validation runs before the transform and is stricter than it: Go's transform
      skips the '\n' in "aGVs\nbG8=", which the validator refuses. */
  lemma ValidationIsStricterThanTransform(src: seq<byte>, want: seq<byte>)
    requires src == Bytes("aGVs\nbG8=") && want == Bytes("hello")
    ensures DecodeString(StdEncoding, src) == Some(want)
    ensures Base64Decode(src) == Failure(InvalidBase64)
  {
    var head, tail: seq<byte> := [97, 71, 86, 115], [98, 71, 56, 61];
    assert src == head + [LineFeed] + tail;
    StripLineFeed(src, head, tail);
    assert Bytes("aGVsbG8") + [Pad] == head + tail;
    EncodeHello(StdEncoding, want);
    DecodeStringRoundTrip(StdEncoding, want);
    assert !IsValidBase64Char(src[4]);
  }

  /** The UTF-8 bytes of "Καλώς ορίσατε" (base64_codec_test.go:15). */
  const GreekText: seq<byte> := [206, 154, 206, 177, 206, 187, 207, 142, 207, 130, 32, 206, 191, 207, 129, 206, 175, 207, 131, 206, 177, 207, 132, 206, 181]

  /** "some data with ", a 0 byte, " and " and the UTF-8 byte order mark: the bytes
      that "c29tZSBkYXRhIHdpdGggACBhbmQg77u/" encodes (base64_codec_test.go:77). */
  const SomeDataText: seq<byte> := [115, 111, 109, 101, 32, 100, 97, 116, 97, 32, 119, 105, 116, 104, 32, 0, 32, 97, 110, 100, 32, 239, 187, 191]

  /** The bytes of either input, written group by group. */
  lemma InGroups(b: seq<byte>)
    ensures b == GreekText ==> b == [206, 154, 206] + ([177, 206, 187] + ([207, 142, 207] + ([130, 32, 206] + ([191, 207, 129] + ([206, 175, 207] + ([131, 206, 177] + ([207, 132, 206] + ([181]))))))))
    ensures b == SomeDataText ==> b == [115, 111, 109] + ([101, 32, 100] + ([97, 116, 97] + ([32, 119, 105] + ([116, 104, 32] + ([0, 32, 97] + ([110, 100, 32] + ([239, 187, 191])))))))
  {
  }

  /** The 6-bit values of `GreekText`, one 3-byte group per step. */
  lemma GreekSextets0(s: seq<byte>)
    requires s == [206, 154, 206] + ([177, 206, 187] + ([207, 142, 207] + ([130, 32, 206] + ([191, 207, 129] + ([206, 175, 207] + ([131, 206, 177] + ([207, 132, 206] + ([181]))))))))
    ensures Sextets(s) == [51, 41, 43, 14] + ([44, 28, 58, 59] + ([51, 56, 59, 15] + ([32, 34, 3, 14] + ([47, 60, 62, 1] + ([51, 42, 63, 15] + ([32, 60, 58, 49] + ([51, 56, 19, 14] + ([45, 16]))))))))
  {
    GreekSextets1(s[3..]);
  }

  lemma GreekSextets1(s: seq<byte>)
    requires s == [177, 206, 187] + ([207, 142, 207] + ([130, 32, 206] + ([191, 207, 129] + ([206, 175, 207] + ([131, 206, 177] + ([207, 132, 206] + ([181])))))))
    ensures Sextets(s) == [44, 28, 58, 59] + ([51, 56, 59, 15] + ([32, 34, 3, 14] + ([47, 60, 62, 1] + ([51, 42, 63, 15] + ([32, 60, 58, 49] + ([51, 56, 19, 14] + ([45, 16])))))))
  {
    GreekSextets2(s[3..]);
  }

  lemma GreekSextets2(s: seq<byte>)
    requires s == [207, 142, 207] + ([130, 32, 206] + ([191, 207, 129] + ([206, 175, 207] + ([131, 206, 177] + ([207, 132, 206] + ([181]))))))
    ensures Sextets(s) == [51, 56, 59, 15] + ([32, 34, 3, 14] + ([47, 60, 62, 1] + ([51, 42, 63, 15] + ([32, 60, 58, 49] + ([51, 56, 19, 14] + ([45, 16]))))))
  {
    GreekSextets3(s[3..]);
  }

  lemma GreekSextets3(s: seq<byte>)
    requires s == [130, 32, 206] + ([191, 207, 129] + ([206, 175, 207] + ([131, 206, 177] + ([207, 132, 206] + ([181])))))
    ensures Sextets(s) == [32, 34, 3, 14] + ([47, 60, 62, 1] + ([51, 42, 63, 15] + ([32, 60, 58, 49] + ([51, 56, 19, 14] + ([45, 16])))))
  {
    GreekSextets4(s[3..]);
  }

  lemma GreekSextets4(s: seq<byte>)
    requires s == [191, 207, 129] + ([206, 175, 207] + ([131, 206, 177] + ([207, 132, 206] + ([181]))))
    ensures Sextets(s) == [47, 60, 62, 1] + ([51, 42, 63, 15] + ([32, 60, 58, 49] + ([51, 56, 19, 14] + ([45, 16]))))
  {
    GreekSextets5(s[3..]);
  }

  lemma GreekSextets5(s: seq<byte>)
    requires s == [206, 175, 207] + ([131, 206, 177] + ([207, 132, 206] + ([181])))
    ensures Sextets(s) == [51, 42, 63, 15] + ([32, 60, 58, 49] + ([51, 56, 19, 14] + ([45, 16])))
  {
    GreekSextets6(s[3..]);
  }

  lemma GreekSextets6(s: seq<byte>)
    requires s == [131, 206, 177] + ([207, 132, 206] + ([181]))
    ensures Sextets(s) == [32, 60, 58, 49] + ([51, 56, 19, 14] + ([45, 16]))
  {
    GreekSextets7(s[3..]);
  }

  lemma GreekSextets7(s: seq<byte>)
    requires s == [207, 132, 206] + ([181])
    ensures Sextets(s) == [51, 56, 19, 14] + ([45, 16])
  {
    GreekSextets8(s[3..]);
  }

  lemma GreekSextets8(s: seq<byte>)
    requires s == [181]
    ensures Sextets(s) == [45, 16]
  {
  }

  /** The symbols for the values of `GreekText`, four at a time; the fifth and sixth groups hold the values 62 and 63. */
  lemma GreekSymbols0(a: Alphabet, v: seq<sextet>)
    requires v == [51, 41, 43, 14] + ([44, 28, 58, 59] + ([51, 56, 59, 15] + ([32, 34, 3, 14] + ([47, 60, 62, 1] + ([51, 42, 63, 15] + ([32, 60, 58, 49] + ([51, 56, 19, 14] + ([45, 16]))))))))
    ensures Symbols(a, v) == [122, 112, 114, 79] + ([115, 99, 54, 55] + ([122, 52, 55, 80] + ([103, 105, 68, 79] + ([118, 56, Symbol62(a), 66] + ([122, 113, Symbol63(a), 80] + ([103, 56, 54, 120] + ([122, 52, 84, 79] + ([116, 81]))))))))
  {
    SymbolsAppend(a, v[..4], v[4..]);
    GreekSymbols1(a, v[4..]);
  }

  lemma GreekSymbols1(a: Alphabet, v: seq<sextet>)
    requires v == [44, 28, 58, 59] + ([51, 56, 59, 15] + ([32, 34, 3, 14] + ([47, 60, 62, 1] + ([51, 42, 63, 15] + ([32, 60, 58, 49] + ([51, 56, 19, 14] + ([45, 16])))))))
    ensures Symbols(a, v) == [115, 99, 54, 55] + ([122, 52, 55, 80] + ([103, 105, 68, 79] + ([118, 56, Symbol62(a), 66] + ([122, 113, Symbol63(a), 80] + ([103, 56, 54, 120] + ([122, 52, 84, 79] + ([116, 81])))))))
  {
    SymbolsAppend(a, v[..4], v[4..]);
    GreekSymbols2(a, v[4..]);
  }

  lemma GreekSymbols2(a: Alphabet, v: seq<sextet>)
    requires v == [51, 56, 59, 15] + ([32, 34, 3, 14] + ([47, 60, 62, 1] + ([51, 42, 63, 15] + ([32, 60, 58, 49] + ([51, 56, 19, 14] + ([45, 16]))))))
    ensures Symbols(a, v) == [122, 52, 55, 80] + ([103, 105, 68, 79] + ([118, 56, Symbol62(a), 66] + ([122, 113, Symbol63(a), 80] + ([103, 56, 54, 120] + ([122, 52, 84, 79] + ([116, 81]))))))
  {
    SymbolsAppend(a, v[..4], v[4..]);
    GreekSymbols3(a, v[4..]);
  }

  lemma GreekSymbols3(a: Alphabet, v: seq<sextet>)
    requires v == [32, 34, 3, 14] + ([47, 60, 62, 1] + ([51, 42, 63, 15] + ([32, 60, 58, 49] + ([51, 56, 19, 14] + ([45, 16])))))
    ensures Symbols(a, v) == [103, 105, 68, 79] + ([118, 56, Symbol62(a), 66] + ([122, 113, Symbol63(a), 80] + ([103, 56, 54, 120] + ([122, 52, 84, 79] + ([116, 81])))))
  {
    SymbolsAppend(a, v[..4], v[4..]);
    GreekSymbols4(a, v[4..]);
  }

  lemma GreekSymbols4(a: Alphabet, v: seq<sextet>)
    requires v == [47, 60, 62, 1] + ([51, 42, 63, 15] + ([32, 60, 58, 49] + ([51, 56, 19, 14] + ([45, 16]))))
    ensures Symbols(a, v) == [118, 56, Symbol62(a), 66] + ([122, 113, Symbol63(a), 80] + ([103, 56, 54, 120] + ([122, 52, 84, 79] + ([116, 81]))))
  {
    SymbolsAppend(a, v[..4], v[4..]);
    GreekSymbols5(a, v[4..]);
  }

  lemma GreekSymbols5(a: Alphabet, v: seq<sextet>)
    requires v == [51, 42, 63, 15] + ([32, 60, 58, 49] + ([51, 56, 19, 14] + ([45, 16])))
    ensures Symbols(a, v) == [122, 113, Symbol63(a), 80] + ([103, 56, 54, 120] + ([122, 52, 84, 79] + ([116, 81])))
  {
    SymbolsAppend(a, v[..4], v[4..]);
    GreekSymbols6(a, v[4..]);
  }

  lemma GreekSymbols6(a: Alphabet, v: seq<sextet>)
    requires v == [32, 60, 58, 49] + ([51, 56, 19, 14] + ([45, 16]))
    ensures Symbols(a, v) == [103, 56, 54, 120] + ([122, 52, 84, 79] + ([116, 81]))
  {
    SymbolsAppend(a, v[..4], v[4..]);
    GreekSymbols7(a, v[4..]);
  }

  lemma GreekSymbols7(a: Alphabet, v: seq<sextet>)
    requires v == [51, 56, 19, 14] + ([45, 16])
    ensures Symbols(a, v) == [122, 52, 84, 79] + ([116, 81])
  {
    SymbolsAppend(a, v[..4], v[4..]);
    GreekSymbols8(a, v[4..]);
  }

  lemma GreekSymbols8(a: Alphabet, v: seq<sextet>)
    requires v == [45, 16]
    ensures Symbols(a, v) == [116, 81]
  {
  }

  lemma EncodeGreekWith(enc: Encoding, b: seq<byte>)
    requires b == [206, 154, 206] + ([177, 206, 187] + ([207, 142, 207] + ([130, 32, 206] + ([191, 207, 129] + ([206, 175, 207] + ([131, 206, 177] + ([207, 132, 206] + ([181]))))))))
    ensures EncodeToString(enc, b) == (var a := enc.alphabet; [122, 112, 114, 79] + ([115, 99, 54, 55] + ([122, 52, 55, 80] + ([103, 105, 68, 79] + ([118, 56, Symbol62(a), 66] + ([122, 113, Symbol63(a), 80] + ([103, 56, 54, 120] + ([122, 52, 84, 79] + ([116, 81] + (if enc.padded then [Pad, Pad] else []))))))))))
  {
    GreekSextets0(b);
    GreekSymbols0(enc.alphabet, Sextets(b));
    EncodeIsSymbols(enc, b);
    assert Pads(2) == [Pad, Pad];
  }

  lemma GreekStandardText(x: seq<byte>)
    requires x == [122, 112, 114, 79] + ([115, 99, 54, 55] + ([122, 52, 55, 80] + ([103, 105, 68, 79] + ([118, 56, Symbol62(Standard), 66] + ([122, 113, Symbol63(Standard), 80] + ([103, 56, 54, 120] + ([122, 52, 84, 79] + ([116, 81] + [Pad, Pad]))))))))
    ensures x == Bytes("zprOsc67z47PgiDOv8+Bzq/Pg86xz4TOtQ==")
  {
  }

  lemma GreekUrlSafeText(x: seq<byte>)
    requires x == [122, 112, 114, 79] + ([115, 99, 54, 55] + ([122, 52, 55, 80] + ([103, 105, 68, 79] + ([118, 56, Symbol62(UrlSafe), 66] + ([122, 113, Symbol63(UrlSafe), 80] + ([103, 56, 54, 120] + ([122, 52, 84, 79] + ([116, 81] + [Pad, Pad]))))))))
    ensures x == Bytes("zprOsc67z47PgiDOv8-Bzq_Pg86xz4TOtQ==")
  {
  }

  lemma GreekUrlSafeNoPadText(x: seq<byte>)
    requires x == [122, 112, 114, 79] + ([115, 99, 54, 55] + ([122, 52, 55, 80] + ([103, 105, 68, 79] + ([118, 56, Symbol62(UrlSafe), 66] + ([122, 113, Symbol63(UrlSafe), 80] + ([103, 56, 54, 120] + ([122, 52, 84, 79] + ([116, 81] + []))))))))
    ensures x == Bytes("zprOsc67z47PgiDOv8-Bzq_Pg86xz4TOtQ")
  {
  }

  /** base64_codec_test.go:15-16: the standard encoder on "Καλώς ορίσατε". The
      output holds the symbols for 62 and 63, where the two alphabets differ. */
  lemma EncodeGreekStandard(b: seq<byte>, std: seq<byte>)
    requires b == GreekText
    requires std == Bytes("zprOsc67z47PgiDOv8+Bzq/Pg86xz4TOtQ==")
    ensures Base64Encode(b) == std
  {
    InGroups(b);
    EncodeGreekWith(StdEncoding, b);
    GreekStandardText([122, 112, 114, 79] + ([115, 99, 54, 55] + ([122, 52, 55, 80] + ([103, 105, 68, 79] + ([118, 56, Symbol62(Standard), 66] + ([122, 113, Symbol63(Standard), 80] + ([103, 56, 54, 120] + ([122, 52, 84, 79] + ([116, 81] + [Pad, Pad])))))))));
  }

  /** base64_codec_test.go:34-35: the URL-safe encoder writes '-' and '_' where the
      standard one writes '+' and '/'. */
  lemma EncodeGreekUrlSafe(b: seq<byte>, url: seq<byte>)
    requires b == GreekText
    requires url == Bytes("zprOsc67z47PgiDOv8-Bzq_Pg86xz4TOtQ==")
    ensures Base64UrlEncode(b) == url
  {
    InGroups(b);
    EncodeGreekWith(URLEncoding, b);
    GreekUrlSafeText([122, 112, 114, 79] + ([115, 99, 54, 55] + ([122, 52, 55, 80] + ([103, 105, 68, 79] + ([118, 56, Symbol62(UrlSafe), 66] + ([122, 113, Symbol63(UrlSafe), 80] + ([103, 56, 54, 120] + ([122, 52, 84, 79] + ([116, 81] + [Pad, Pad])))))))));
  }

  /** base64_codec_test.go:53-54: the unpadded URL-safe encoder leaves out the "==". */
  lemma EncodeGreekUrlSafeNoPad(b: seq<byte>, raw: seq<byte>)
    requires b == GreekText
    requires raw == Bytes("zprOsc67z47PgiDOv8-Bzq_Pg86xz4TOtQ")
    ensures Base64UrlEncodeNoPad(b) == raw
  {
    InGroups(b);
    EncodeGreekWith(RawURLEncoding, b);
    GreekUrlSafeNoPadText([122, 112, 114, 79] + ([115, 99, 54, 55] + ([122, 52, 55, 80] + ([103, 105, 68, 79] + ([118, 56, Symbol62(UrlSafe), 66] + ([122, 113, Symbol63(UrlSafe), 80] + ([103, 56, 54, 120] + ([122, 52, 84, 79] + ([116, 81] + [])))))))));
  }

  lemma GreekHasNoNull(b: seq<byte>)
    requires b == GreekText
    ensures NullByte !in b
  {
  }

  /** base64_codec_test.go:73-74: the standard decoder gives "Καλώς ορίσατε" back. */
  lemma DecodeGreekStandard(std: seq<byte>, want: seq<byte>)
    requires std == Bytes("zprOsc67z47PgiDOv8+Bzq/Pg86xz4TOtQ==")
    requires want == GreekText
    ensures Base64Decode(std) == Success(Base64DecodeResult(want, false))
  {
    EncodeGreekStandard(want, std);
    GreekHasNoNull(want);
    Base64RoundTrip(want);
  }

  /** base64_codec_test.go:125-126: the URL-safe decoder gives "Καλώς ορίσατε" back. */
  lemma DecodeGreekUrlSafe(url: seq<byte>, want: seq<byte>)
    requires url == Bytes("zprOsc67z47PgiDOv8-Bzq_Pg86xz4TOtQ==")
    requires want == GreekText
    ensures Base64UrlDecode(url) == Success(Base64DecodeResult(want, false))
  {
    EncodeGreekUrlSafe(want, url);
    GreekHasNoNull(want);
    Base64UrlRoundTrip(want);
  }

  /** base64_codec_test.go:177-178: the unpadded URL-safe decoder gives
      "Καλώς ορίσατε" back. */
  lemma DecodeGreekUrlSafeNoPad(raw: seq<byte>, want: seq<byte>)
    requires raw == Bytes("zprOsc67z47PgiDOv8-Bzq_Pg86xz4TOtQ")
    requires want == GreekText
    ensures Base64UrlDecodeNoPad(raw) == Success(Base64DecodeResult(want, false))
  {
    EncodeGreekUrlSafeNoPad(want, raw);
    GreekHasNoNull(want);
    Base64UrlNoPadRoundTrip(want);
  }

  /** The 6-bit values of `SomeDataText`, one 3-byte group per step. */
  lemma SomeDataSextets0(s: seq<byte>)
    requires s == [115, 111, 109] + ([101, 32, 100] + ([97, 116, 97] + ([32, 119, 105] + ([116, 104, 32] + ([0, 32, 97] + ([110, 100, 32] + ([239, 187, 191])))))))
    ensures Sextets(s) == [28, 54, 61, 45] + ([25, 18, 1, 36] + ([24, 23, 17, 33] + ([8, 7, 29, 41] + ([29, 6, 32, 32] + ([0, 2, 1, 33] + ([27, 38, 16, 32] + ([59, 59, 46, 63])))))))
  {
    SomeDataSextets1(s[3..]);
  }

  lemma SomeDataSextets1(s: seq<byte>)
    requires s == [101, 32, 100] + ([97, 116, 97] + ([32, 119, 105] + ([116, 104, 32] + ([0, 32, 97] + ([110, 100, 32] + ([239, 187, 191]))))))
    ensures Sextets(s) == [25, 18, 1, 36] + ([24, 23, 17, 33] + ([8, 7, 29, 41] + ([29, 6, 32, 32] + ([0, 2, 1, 33] + ([27, 38, 16, 32] + ([59, 59, 46, 63]))))))
  {
    SomeDataSextets2(s[3..]);
  }

  lemma SomeDataSextets2(s: seq<byte>)
    requires s == [97, 116, 97] + ([32, 119, 105] + ([116, 104, 32] + ([0, 32, 97] + ([110, 100, 32] + ([239, 187, 191])))))
    ensures Sextets(s) == [24, 23, 17, 33] + ([8, 7, 29, 41] + ([29, 6, 32, 32] + ([0, 2, 1, 33] + ([27, 38, 16, 32] + ([59, 59, 46, 63])))))
  {
    SomeDataSextets3(s[3..]);
  }

  lemma SomeDataSextets3(s: seq<byte>)
    requires s == [32, 119, 105] + ([116, 104, 32] + ([0, 32, 97] + ([110, 100, 32] + ([239, 187, 191]))))
    ensures Sextets(s) == [8, 7, 29, 41] + ([29, 6, 32, 32] + ([0, 2, 1, 33] + ([27, 38, 16, 32] + ([59, 59, 46, 63]))))
  {
    SomeDataSextets4(s[3..]);
  }

  lemma SomeDataSextets4(s: seq<byte>)
    requires s == [116, 104, 32] + ([0, 32, 97] + ([110, 100, 32] + ([239, 187, 191])))
    ensures Sextets(s) == [29, 6, 32, 32] + ([0, 2, 1, 33] + ([27, 38, 16, 32] + ([59, 59, 46, 63])))
  {
    SomeDataSextets5(s[3..]);
  }

  lemma SomeDataSextets5(s: seq<byte>)
    requires s == [0, 32, 97] + ([110, 100, 32] + ([239, 187, 191]))
    ensures Sextets(s) == [0, 2, 1, 33] + ([27, 38, 16, 32] + ([59, 59, 46, 63]))
  {
    SomeDataSextets6(s[3..]);
  }

  lemma SomeDataSextets6(s: seq<byte>)
    requires s == [110, 100, 32] + ([239, 187, 191])
    ensures Sextets(s) == [27, 38, 16, 32] + ([59, 59, 46, 63])
  {
    SomeDataSextets7(s[3..]);
  }

  lemma SomeDataSextets7(s: seq<byte>)
    requires s == [239, 187, 191]
    ensures Sextets(s) == [59, 59, 46, 63]
  {
  }

  /** The symbols for the values of `SomeDataText`, four at a time; the last is the value 63. */
  lemma SomeDataSymbols0(a: Alphabet, v: seq<sextet>)
    requires v == [28, 54, 61, 45] + ([25, 18, 1, 36] + ([24, 23, 17, 33] + ([8, 7, 29, 41] + ([29, 6, 32, 32] + ([0, 2, 1, 33] + ([27, 38, 16, 32] + ([59, 59, 46, 63])))))))
    ensures Symbols(a, v) == [99, 50, 57, 116] + ([90, 83, 66, 107] + ([89, 88, 82, 104] + ([73, 72, 100, 112] + ([100, 71, 103, 103] + ([65, 67, 66, 104] + ([98, 109, 81, 103] + ([55, 55, 117, Symbol63(a)])))))))
  {
    SymbolsAppend(a, v[..4], v[4..]);
    SomeDataSymbols1(a, v[4..]);
  }

  lemma SomeDataSymbols1(a: Alphabet, v: seq<sextet>)
    requires v == [25, 18, 1, 36] + ([24, 23, 17, 33] + ([8, 7, 29, 41] + ([29, 6, 32, 32] + ([0, 2, 1, 33] + ([27, 38, 16, 32] + ([59, 59, 46, 63]))))))
    ensures Symbols(a, v) == [90, 83, 66, 107] + ([89, 88, 82, 104] + ([73, 72, 100, 112] + ([100, 71, 103, 103] + ([65, 67, 66, 104] + ([98, 109, 81, 103] + ([55, 55, 117, Symbol63(a)]))))))
  {
    SymbolsAppend(a, v[..4], v[4..]);
    SomeDataSymbols2(a, v[4..]);
  }

  lemma SomeDataSymbols2(a: Alphabet, v: seq<sextet>)
    requires v == [24, 23, 17, 33] + ([8, 7, 29, 41] + ([29, 6, 32, 32] + ([0, 2, 1, 33] + ([27, 38, 16, 32] + ([59, 59, 46, 63])))))
    ensures Symbols(a, v) == [89, 88, 82, 104] + ([73, 72, 100, 112] + ([100, 71, 103, 103] + ([65, 67, 66, 104] + ([98, 109, 81, 103] + ([55, 55, 117, Symbol63(a)])))))
  {
    SymbolsAppend(a, v[..4], v[4..]);
    SomeDataSymbols3(a, v[4..]);
  }

  lemma SomeDataSymbols3(a: Alphabet, v: seq<sextet>)
    requires v == [8, 7, 29, 41] + ([29, 6, 32, 32] + ([0, 2, 1, 33] + ([27, 38, 16, 32] + ([59, 59, 46, 63]))))
    ensures Symbols(a, v) == [73, 72, 100, 112] + ([100, 71, 103, 103] + ([65, 67, 66, 104] + ([98, 109, 81, 103] + ([55, 55, 117, Symbol63(a)]))))
  {
    SymbolsAppend(a, v[..4], v[4..]);
    SomeDataSymbols4(a, v[4..]);
  }

  lemma SomeDataSymbols4(a: Alphabet, v: seq<sextet>)
    requires v == [29, 6, 32, 32] + ([0, 2, 1, 33] + ([27, 38, 16, 32] + ([59, 59, 46, 63])))
    ensures Symbols(a, v) == [100, 71, 103, 103] + ([65, 67, 66, 104] + ([98, 109, 81, 103] + ([55, 55, 117, Symbol63(a)])))
  {
    SymbolsAppend(a, v[..4], v[4..]);
    SomeDataSymbols5(a, v[4..]);
  }

  lemma SomeDataSymbols5(a: Alphabet, v: seq<sextet>)
    requires v == [0, 2, 1, 33] + ([27, 38, 16, 32] + ([59, 59, 46, 63]))
    ensures Symbols(a, v) == [65, 67, 66, 104] + ([98, 109, 81, 103] + ([55, 55, 117, Symbol63(a)]))
  {
    SymbolsAppend(a, v[..4], v[4..]);
    SomeDataSymbols6(a, v[4..]);
  }

  lemma SomeDataSymbols6(a: Alphabet, v: seq<sextet>)
    requires v == [27, 38, 16, 32] + ([59, 59, 46, 63])
    ensures Symbols(a, v) == [98, 109, 81, 103] + ([55, 55, 117, Symbol63(a)])
  {
    SymbolsAppend(a, v[..4], v[4..]);
    SomeDataSymbols7(a, v[4..]);
  }

  lemma SomeDataSymbols7(a: Alphabet, v: seq<sextet>)
    requires v == [59, 59, 46, 63]
    ensures Symbols(a, v) == [55, 55, 117, Symbol63(a)]
  {
  }

  lemma EncodeSomeDataWith(enc: Encoding, b: seq<byte>)
    requires b == [115, 111, 109] + ([101, 32, 100] + ([97, 116, 97] + ([32, 119, 105] + ([116, 104, 32] + ([0, 32, 97] + ([110, 100, 32] + ([239, 187, 191])))))))
    ensures EncodeToString(enc, b) == (var a := enc.alphabet; [99, 50, 57, 116] + ([90, 83, 66, 107] + ([89, 88, 82, 104] + ([73, 72, 100, 112] + ([100, 71, 103, 103] + ([65, 67, 66, 104] + ([98, 109, 81, 103] + ([55, 55, 117, Symbol63(a)]))))))))
  {
    SomeDataSextets0(b);
    SomeDataSymbols0(enc.alphabet, Sextets(b));
    EncodeIsSymbols(enc, b);
  }

  lemma SomeDataStandardText(x: seq<byte>)
    requires x == [99, 50, 57, 116] + ([90, 83, 66, 107] + ([89, 88, 82, 104] + ([73, 72, 100, 112] + ([100, 71, 103, 103] + ([65, 67, 66, 104] + ([98, 109, 81, 103] + ([55, 55, 117, Symbol63(Standard)])))))))
    ensures x == Bytes("c29tZSBkYXRhIHdpdGggACBhbmQg77u/")
  {
  }

  lemma SomeDataUrlSafeText(x: seq<byte>)
    requires x == [99, 50, 57, 116] + ([90, 83, 66, 107] + ([89, 88, 82, 104] + ([73, 72, 100, 112] + ([100, 71, 103, 103] + ([65, 67, 66, 104] + ([98, 109, 81, 103] + ([55, 55, 117, Symbol63(UrlSafe)])))))))
    ensures x == Bytes("c29tZSBkYXRhIHdpdGggACBhbmQg77u_")
  {
  }

  /** Each decoder, on its own encoder's output, stops at the first 0 byte. */
  lemma DecodesBackCut(b: seq<byte>, std: seq<byte>, url: seq<byte>, raw: seq<byte>, want: seq<byte>)
    requires CutAtFirstNull(b, want, true)
    requires Base64Encode(b) == std && Base64UrlEncode(b) == url && Base64UrlEncodeNoPad(b) == raw
    ensures Base64Decode(std) == Success(Base64DecodeResult(want, true))
    ensures Base64UrlDecode(url) == Success(Base64DecodeResult(want, true))
    ensures Base64UrlDecodeNoPad(raw) == Success(Base64DecodeResult(want, true))
  {
    Base64RoundTrip(b);
    Base64UrlRoundTrip(b);
    Base64UrlNoPadRoundTrip(b);
    var rs, ru, rr := Base64Decode(std), Base64UrlDecode(url), Base64UrlDecodeNoPad(raw);
    CutAtFirstNullIsUnique(b, rs.value.value, rs.value.hadEmbeddedNulByte, want, true);
    CutAtFirstNullIsUnique(b, ru.value.value, ru.value.hadEmbeddedNulByte, want, true);
    CutAtFirstNullIsUnique(b, rr.value.value, rr.value.hadEmbeddedNulByte, want, true);
  }

  /** `SomeDataText` holds its first 0 byte at index 15. */
  lemma SomeDataCut(b: seq<byte>, want: seq<byte>)
    requires b == SomeDataText
    requires want == Bytes("some data with ")
    ensures CutAtFirstNull(b, want, true)
  {
    assert want == b[..15];
  }

  /** base64_codec_test.go:77-78, 129-130 and 181-182: decoding stops at the 0 byte
      after "some data with " and reports it, in all three decoders. The URL-safe
      input is 32 symbols, so it is also what the unpadded encoder writes. */
  lemma DecodeSomeData(std: seq<byte>, url: seq<byte>, b: seq<byte>, want: seq<byte>)
    requires std == Bytes("c29tZSBkYXRhIHdpdGggACBhbmQg77u/")
    requires url == Bytes("c29tZSBkYXRhIHdpdGggACBhbmQg77u_")
    requires b == SomeDataText
    requires want == Bytes("some data with ")
    ensures Base64Decode(std) == Success(Base64DecodeResult(want, true))
    ensures Base64UrlDecode(url) == Success(Base64DecodeResult(want, true))
    ensures Base64UrlDecodeNoPad(url) == Success(Base64DecodeResult(want, true))
  {
    EncodeSomeData(b, std, url);
    SomeDataCut(b, want);
    DecodesBackCut(b, std, url, url, want);
  }

  /** The three encoders on `SomeDataText`; it fills whole groups, so the padded and
      unpadded URL-safe encoders agree. */
  lemma EncodeSomeData(b: seq<byte>, std: seq<byte>, url: seq<byte>)
    requires b == SomeDataText
    requires std == Bytes("c29tZSBkYXRhIHdpdGggACBhbmQg77u/")
    requires url == Bytes("c29tZSBkYXRhIHdpdGggACBhbmQg77u_")
    ensures Base64Encode(b) == std
    ensures Base64UrlEncode(b) == url
    ensures Base64UrlEncodeNoPad(b) == url
  {
    InGroups(b);
    EncodeSomeDataWith(StdEncoding, b);
    EncodeSomeDataWith(URLEncoding, b);
    EncodeSomeDataWith(RawURLEncoding, b);
    SomeDataStandardText([99, 50, 57, 116] + ([90, 83, 66, 107] + ([89, 88, 82, 104] + ([73, 72, 100, 112] + ([100, 71, 103, 103] + ([65, 67, 66, 104] + ([98, 109, 81, 103] + ([55, 55, 117, Symbol63(Standard)]))))))));
    SomeDataUrlSafeText([99, 50, 57, 116] + ([90, 83, 66, 107] + ([89, 88, 82, 104] + ([73, 72, 100, 112] + ([100, 71, 103, 103] + ([65, 67, 66, 104] + ([98, 109, 81, 103] + ([55, 55, 117, Symbol63(UrlSafe)]))))))));
  }
}
