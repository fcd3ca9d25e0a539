/** The codec of interpreter/function/shared/base64_codec.go: three encoders, three
    character-set validators, and three decoders that validate, decode and then cut
    the decoded bytes at the first 0 byte. Go strings are byte sequences here. */
module Base64Codec {
  import opened Wrappers
  import opened Base64

  /** The package's single error value, `ErrInvalidBase64`. */
  datatype Error = InvalidBase64

  datatype Base64DecodeResult = Base64DecodeResult(value: seq<byte>, hadEmbeddedNulByte: bool)

  const NullByte: byte := 0

  /** `before` and `found` are what cutting `decoded` at its first 0 byte yields:
      `before` is the longest prefix free of 0 bytes, and `found` says whether a 0
      byte follows it. */
  predicate CutAtFirstNull(decoded: seq<byte>, before: seq<byte>, found: bool)
  {
    && before <= decoded
    && NullByte !in before
    && (found <==> |before| < |decoded|)
    && (found ==> decoded[|before|] == NullByte)
  }

  /** The cut is determined by the decoded bytes, and it reports a 0 byte exactly
      when there is one. */
  lemma CutAtFirstNullIsUnique(decoded: seq<byte>, b1: seq<byte>, f1: bool, b2: seq<byte>, f2: bool)
    requires CutAtFirstNull(decoded, b1, f1) && CutAtFirstNull(decoded, b2, f2)
    ensures b1 == b2 && f1 == f2
    ensures f1 <==> NullByte in decoded
  {
    if !f1 {
      assert b1 == decoded;
    }
  }

  /** Go's `terminateNullByte`, which is `bytes.Cut(decoded, []byte{0})` without the
      part after the cut. */
  function TerminateNullByte(decoded: seq<byte>): (r: (seq<byte>, bool))
    ensures CutAtFirstNull(decoded, r.0, r.1)
  {
    if decoded == [] then ([], false)
    else if decoded[0] == NullByte then ([], true)
    else
      var (before, found) := TerminateNullByte(decoded[1..]);
      ([decoded[0]] + before, found)
  }

  /** Go's `addPadding`: the fewest '=' that make the length a multiple of 4, and
      none at all for a length of the form 4k + 1, which no padding can repair. */
  function AddPadding(s: seq<byte>): (r: seq<byte>)
    ensures s <= r && |r| - |s| < 4
    ensures forall i :: |s| <= i < |r| ==> r[i] == Pad
    ensures |s| % 4 != 1 ==> |r| % 4 == 0
    ensures |s| % 4 == 1 ==> r == s
  {
    match |s| % 4
    case 2 => s + [Pad, Pad]
    case 3 => s + [Pad]
    case _ => s
  }

  /** Go's `isValidBase64Char`: the standard alphabet and '='. */
  predicate IsValidBase64Char(b: byte)
    ensures IsValidBase64Char(b) <==> InAlphabet(Standard, b) || b == Pad
  {
    || ('A' as int <= b <= 'Z' as int)
    || ('a' as int <= b <= 'z' as int)
    || ('0' as int <= b <= '9' as int)
    || b == '+' as int || b == '/' as int || b == '=' as int
  }

  /** Go's `isValidBase64UrlChar`: the URL-safe alphabet and '='. */
  predicate IsValidBase64UrlChar(b: byte)
    ensures IsValidBase64UrlChar(b) <==> InAlphabet(UrlSafe, b) || b == Pad
  {
    || ('A' as int <= b <= 'Z' as int)
    || ('a' as int <= b <= 'z' as int)
    || ('0' as int <= b <= '9' as int)
    || b == '-' as int || b == '_' as int || b == '=' as int
  }

  /** Go's `isValidBase64UrlNoPadChar`: the URL-safe alphabet, without '='. */
  predicate IsValidBase64UrlNoPadChar(b: byte)
    ensures IsValidBase64UrlNoPadChar(b) <==> InAlphabet(UrlSafe, b)
  {
    || ('A' as int <= b <= 'Z' as int)
    || ('a' as int <= b <= 'z' as int)
    || ('0' as int <= b <= '9' as int)
    || b == '-' as int || b == '_' as int
  }

  /** How the three character sets relate: '=' is in the two padded sets only, the
      standard and URL-safe sets differ only in '+' and '/' against '-' and '_', and
      no set holds '\r' or '\n', the bytes Go's decoder would skip. */
  lemma CharacterSetsCompared(b: byte)
    ensures IsValidBase64Char(Pad) && IsValidBase64UrlChar(Pad) && !IsValidBase64UrlNoPadChar(Pad)
    ensures b !in {'+' as int, '/' as int, '-' as int, '_' as int} ==>
              (IsValidBase64Char(b) <==> IsValidBase64UrlChar(b))
    ensures IsValidBase64Char('+' as int) && IsValidBase64Char('/' as int)
    ensures !IsValidBase64Char('-' as int) && !IsValidBase64Char('_' as int)
    ensures IsValidBase64UrlChar('-' as int) && IsValidBase64UrlChar('_' as int)
    ensures !IsValidBase64UrlChar('+' as int) && !IsValidBase64UrlChar('/' as int)
    ensures IsValidBase64UrlNoPadChar(b) <==> IsValidBase64UrlChar(b) && b != Pad
    ensures !IsValidBase64UrlChar(CarriageReturn) && !IsValidBase64UrlChar(LineFeed)
    ensures !IsValidBase64Char(CarriageReturn) && !IsValidBase64Char(LineFeed)
  {
  }

  predicate ValidStd(src: seq<byte>)
  {
    forall i :: 0 <= i < |src| ==> IsValidBase64Char(src[i])
  }

  predicate ValidUrl(src: seq<byte>)
  {
    forall i :: 0 <= i < |src| ==> IsValidBase64UrlChar(src[i])
  }

  predicate ValidUrlNoPad(src: seq<byte>)
  {
    forall i :: 0 <= i < |src| ==> IsValidBase64UrlNoPadChar(src[i])
  }

  /** Go's `validateBase64Std`: scans the input and stops at the first byte outside
      the standard set. */
  method ValidateBase64Std(src: seq<byte>) returns (err: Outcome<Error>)
    ensures err.Pass? <==> ValidStd(src)
  {
    for i := 0 to |src|
      invariant forall j :: 0 <= j < i ==> IsValidBase64Char(src[j])
    {
      if !IsValidBase64Char(src[i]) {
        return Fail(InvalidBase64);
      }
    }
    return Pass;
  }

  /** Go's `validateBase64Url`. */
  method ValidateBase64Url(src: seq<byte>) returns (err: Outcome<Error>)
    ensures err.Pass? <==> ValidUrl(src)
  {
    for i := 0 to |src|
      invariant forall j :: 0 <= j < i ==> IsValidBase64UrlChar(src[j])
    {
      if !IsValidBase64UrlChar(src[i]) {
        return Fail(InvalidBase64);
      }
    }
    return Pass;
  }

  /** Go's `validateBase64UrlNoPad`. */
  method ValidateBase64UrlNoPad(src: seq<byte>) returns (err: Outcome<Error>)
    ensures err.Pass? <==> ValidUrlNoPad(src)
  {
    for i := 0 to |src|
      invariant forall j :: 0 <= j < i ==> IsValidBase64UrlNoPadChar(src[j])
    {
      if !IsValidBase64UrlNoPadChar(src[i]) {
        return Fail(InvalidBase64);
      }
    }
    return Pass;
  }

  /** Go's `Base64Encode`: standard alphabet, padded. */
  function Base64Encode(src: seq<byte>): (r: seq<byte>)
    ensures |r| == (|src| + 2) / 3 * 4
    ensures ValidStd(r)
  {
    EncodeToString(StdEncoding, src)
  }

  /** Go's `Base64UrlEncode`: URL-safe alphabet, padded. */
  function Base64UrlEncode(src: seq<byte>): (r: seq<byte>)
    ensures |r| == (|src| + 2) / 3 * 4
    ensures ValidUrl(r)
  {
    EncodeToString(URLEncoding, src)
  }

  /** Go's `Base64UrlEncodeNoPad`: URL-safe alphabet, no padding. */
  function Base64UrlEncodeNoPad(src: seq<byte>): (r: seq<byte>)
    ensures |r| == |src| / 3 * 4 + (|src| % 3 * 8 + 5) / 6
    ensures ValidUrlNoPad(r)
  {
    EncodeToString(RawURLEncoding, src)
  }

  /** The result built from decoded bytes: the bytes before the first 0, and whether there was one. */
  function ToDecodeResult(dec: seq<byte>): (r: Base64DecodeResult)
    ensures CutAtFirstNull(dec, r.value, r.hadEmbeddedNulByte)
  {
    var (result, hadNull) := TerminateNullByte(dec);
    Base64DecodeResult(result, hadNull)
  }

  /** Go's `Base64Decode`: empty check, standard validation, `StdEncoding.DecodeString`,
      cut at the first 0 byte. */
  function Base64Decode(src: seq<byte>): (r: Result<Base64DecodeResult, Error>)
    ensures src == [] ==> r == Success(Base64DecodeResult([], false))
    ensures !ValidStd(src) ==> r == Failure(InvalidBase64)
    ensures r.Success? ==> NullByte !in r.value.value
  {
    if src == [] then Success(Base64DecodeResult([], false))
    else if !ValidStd(src) then Failure(InvalidBase64)
    else
      match DecodeString(StdEncoding, src)
      case None => Failure(InvalidBase64)
      case Some(dec) => Success(ToDecodeResult(dec))
  }

  /** Go's `Base64UrlDecode`: as `Base64Decode`, with the URL-safe set and `URLEncoding`. */
  function Base64UrlDecode(src: seq<byte>): (r: Result<Base64DecodeResult, Error>)
    ensures src == [] ==> r == Success(Base64DecodeResult([], false))
    ensures !ValidUrl(src) ==> r == Failure(InvalidBase64)
    ensures r.Success? ==> NullByte !in r.value.value
  {
    if src == [] then Success(Base64DecodeResult([], false))
    else if !ValidUrl(src) then Failure(InvalidBase64)
    else
      match DecodeString(URLEncoding, src)
      case None => Failure(InvalidBase64)
      case Some(dec) => Success(ToDecodeResult(dec))
  }

  /** Go's `Base64UrlDecodeNoPad`: after validation, `RawURLEncoding.DecodeString` is
      tried on the padded input first and, if that fails, on the input itself. */
  function Base64UrlDecodeNoPad(src: seq<byte>): (r: Result<Base64DecodeResult, Error>)
    ensures src == [] ==> r == Success(Base64DecodeResult([], false))
    ensures !ValidUrlNoPad(src) ==> r == Failure(InvalidBase64)
    ensures r.Success? ==> NullByte !in r.value.value
  {
    if src == [] then Success(Base64DecodeResult([], false))
    else if !ValidUrlNoPad(src) then Failure(InvalidBase64)
    else
      var padded := AddPadding(src);
      var dec := match DecodeString(RawURLEncoding, padded)
        case Some(d) => Some(d)
        case None => DecodeString(RawURLEncoding, src);
      match dec
      case None => Failure(InvalidBase64)
      case Some(d) => Success(ToDecodeResult(d))
  }

  lemma NoNewlines(src: seq<byte>)
    requires ValidStd(src) || ValidUrl(src)
    ensures StripNewlines(src) == src
  {
    forall i | 0 <= i < |src| ensures src[i] != CarriageReturn && src[i] != LineFeed {
      CharacterSetsCompared(src[i]);
    }
  }

  /** The standard decoder succeeds exactly on well-formed padded input, and then
      returns the transform's bytes cut at the first 0 byte. */
  lemma Base64DecodeSucceedsIff(src: seq<byte>)
    ensures Base64Decode(src).Success? <==> WellFormedPadded(Standard, src)
    ensures Base64Decode(src).Success? ==>
              DecodePadded(Standard, src).Some? &&
              CutAtFirstNull(DecodePadded(Standard, src).value,
                             Base64Decode(src).value.value, Base64Decode(src).value.hadEmbeddedNulByte)
  {
    DecodePaddedSucceedsIff(Standard, src);
    if ValidStd(src) {
      NoNewlines(src);
    } else {
      var i :| 0 <= i < |src| && !IsValidBase64Char(src[i]);
      assert !WellFormedPadded(Standard, src);
    }
  }

  /** The URL-safe padded decoder succeeds exactly on well-formed padded input. */
  lemma Base64UrlDecodeSucceedsIff(src: seq<byte>)
    ensures Base64UrlDecode(src).Success? <==> WellFormedPadded(UrlSafe, src)
    ensures Base64UrlDecode(src).Success? ==>
              DecodePadded(UrlSafe, src).Some? &&
              CutAtFirstNull(DecodePadded(UrlSafe, src).value,
                             Base64UrlDecode(src).value.value, Base64UrlDecode(src).value.hadEmbeddedNulByte)
  {
    DecodePaddedSucceedsIff(UrlSafe, src);
    if ValidUrl(src) {
      NoNewlines(src);
    } else {
      var i :| 0 <= i < |src| && !IsValidBase64UrlChar(src[i]);
      assert !WellFormedPadded(UrlSafe, src);
    }
  }

  /** The first attempt of the unpadded decoder succeeds only when `addPadding` added
      nothing, because the raw transform rejects '='; so the decoder's outcome is
      always that of the raw transform on the input itself. */
  lemma NoPadFallbackIsRawDecode(src: seq<byte>)
    requires ValidUrlNoPad(src)
    ensures DecodeString(RawURLEncoding, AddPadding(src)).Some? <==> |src| % 4 == 0
    ensures (match DecodeString(RawURLEncoding, AddPadding(src))
             case Some(d) => Some(d)
             case None => DecodeString(RawURLEncoding, src))
         == DecodeRaw(UrlSafe, src)
  {
    var padded := AddPadding(src);
    assert forall i :: 0 <= i < |src| ==> src[i] != CarriageReturn && src[i] != LineFeed;
    assert forall i :: 0 <= i < |padded| ==> padded[i] != CarriageReturn && padded[i] != LineFeed;
    DecodeRawSucceedsIff(UrlSafe, padded);
    DecodeRawSucceedsIff(UrlSafe, src);
    if padded != src {
      PadNotInAlphabet(UrlSafe);
      assert !InAlphabet(UrlSafe, padded[|src|]);
    }
  }

  /** The unpadded decoder succeeds exactly when the input is URL-safe symbols only and
      its length is not of the form 4k + 1, and then returns the raw transform's bytes
      cut at the first 0 byte. */
  lemma Base64UrlDecodeNoPadSucceedsIff(src: seq<byte>)
    ensures Base64UrlDecodeNoPad(src).Success? <==> WellFormedRaw(UrlSafe, src)
    ensures Base64UrlDecodeNoPad(src).Success? ==>
              DecodeRaw(UrlSafe, src).Some? &&
              CutAtFirstNull(DecodeRaw(UrlSafe, src).value,
                             Base64UrlDecodeNoPad(src).value.value,
                             Base64UrlDecodeNoPad(src).value.hadEmbeddedNulByte)
  {
    DecodeRawSucceedsIff(UrlSafe, src);
    if src != [] && ValidUrlNoPad(src) {
      NoPadFallbackIsRawDecode(src);
    } else if !ValidUrlNoPad(src) {
      var i :| 0 <= i < |src| && !IsValidBase64UrlNoPadChar(src[i]);
      assert !WellFormedRaw(UrlSafe, src);
    }
  }

  /** Decoding the standard encoding of any bytes gives them back up to the first 0
      byte, and flags the 0 byte exactly when there is one. */
  lemma Base64RoundTrip(b: seq<byte>)
    ensures Base64Decode(Base64Encode(b)).Success?
    ensures CutAtFirstNull(b, Base64Decode(Base64Encode(b)).value.value,
                           Base64Decode(Base64Encode(b)).value.hadEmbeddedNulByte)
    ensures Base64Decode(Base64Encode(b)).value.hadEmbeddedNulByte <==> NullByte in b
    ensures NullByte !in b ==> Base64Decode(Base64Encode(b)) == Success(Base64DecodeResult(b, false))
  {
    var r := Base64Decode(Base64Encode(b));
    DecodeStringRoundTrip(StdEncoding, b);
    var cut := TerminateNullByte(b);
    CutAtFirstNullIsUnique(b, r.value.value, r.value.hadEmbeddedNulByte, cut.0, cut.1);
    if NullByte !in b {
      CutAtFirstNullIsUnique(b, r.value.value, r.value.hadEmbeddedNulByte, b, false);
    }
  }

  lemma Base64UrlRoundTrip(b: seq<byte>)
    ensures Base64UrlDecode(Base64UrlEncode(b)).Success?
    ensures CutAtFirstNull(b, Base64UrlDecode(Base64UrlEncode(b)).value.value,
                           Base64UrlDecode(Base64UrlEncode(b)).value.hadEmbeddedNulByte)
    ensures Base64UrlDecode(Base64UrlEncode(b)).value.hadEmbeddedNulByte <==> NullByte in b
    ensures NullByte !in b ==> Base64UrlDecode(Base64UrlEncode(b)) == Success(Base64DecodeResult(b, false))
  {
    var r := Base64UrlDecode(Base64UrlEncode(b));
    DecodeStringRoundTrip(URLEncoding, b);
    var cut := TerminateNullByte(b);
    CutAtFirstNullIsUnique(b, r.value.value, r.value.hadEmbeddedNulByte, cut.0, cut.1);
    if NullByte !in b {
      CutAtFirstNullIsUnique(b, r.value.value, r.value.hadEmbeddedNulByte, b, false);
    }
  }

  lemma Base64UrlNoPadRoundTrip(b: seq<byte>)
    ensures Base64UrlDecodeNoPad(Base64UrlEncodeNoPad(b)).Success?
    ensures CutAtFirstNull(b, Base64UrlDecodeNoPad(Base64UrlEncodeNoPad(b)).value.value,
                           Base64UrlDecodeNoPad(Base64UrlEncodeNoPad(b)).value.hadEmbeddedNulByte)
    ensures Base64UrlDecodeNoPad(Base64UrlEncodeNoPad(b)).value.hadEmbeddedNulByte <==> NullByte in b
    ensures NullByte !in b ==>
              Base64UrlDecodeNoPad(Base64UrlEncodeNoPad(b)) == Success(Base64DecodeResult(b, false))
  {
    var s := Base64UrlEncodeNoPad(b);
    var r := Base64UrlDecodeNoPad(s);
    RawRoundTrip(UrlSafe, b);
    DecodeRawSucceedsIff(UrlSafe, s);
    Base64UrlDecodeNoPadSucceedsIff(s);
    var cut := TerminateNullByte(b);
    CutAtFirstNullIsUnique(b, r.value.value, r.value.hadEmbeddedNulByte, cut.0, cut.1);
    if NullByte !in b {
      CutAtFirstNullIsUnique(b, r.value.value, r.value.hadEmbeddedNulByte, b, false);
    }
  }
}
