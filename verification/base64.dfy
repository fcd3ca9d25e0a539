/** The part of Go's `encoding/base64` package that the codec relies on: the three
    predefined encodings `StdEncoding`, `URLEncoding` and `RawURLEncoding`, their
    `EncodeToString`, and their default (non-strict) `DecodeString`.

    The alphabets are those of RFC 4648, section 4 (standard) and section 5
    (URL and filename safe); padding with '=' follows RFC 4648, section 3.2.
    Decoding is not strict in the sense of RFC 4648, section 3.5: leftover bits
    of the last symbol are dropped, whatever their value. */
module Base64 {
  import opened Wrappers

  /** A Go `byte`. */
  type byte = x: int | 0 <= x < 256

  /** The 6-bit value carried by one base64 symbol. */
  type sextet = x: int | 0 <= x < 64

  const Pad: byte := '=' as int
  const CarriageReturn: byte := '\r' as int
  const LineFeed: byte := '\n' as int

  datatype Alphabet = Standard | UrlSafe

  /** An encoding is an alphabet and a padding policy (Go's `padChar` is '=' or `NoPadding`). */
  datatype Encoding = Encoding(alphabet: Alphabet, padded: bool)

  const StdEncoding := Encoding(Standard, true)
  const URLEncoding := Encoding(UrlSafe, true)
  const RawURLEncoding := Encoding(UrlSafe, false)

  /** The symbols for values 62 and 63: the only ones on which the two alphabets differ. */
  function Symbol62(a: Alphabet): byte
  {
    if a == Standard then '+' as int else '-' as int
  }

  function Symbol63(a: Alphabet): byte
  {
    if a == Standard then '/' as int else '_' as int
  }

  /** The symbol that writes value `v` in alphabet `a`. */
  function Symbol(a: Alphabet, v: sextet): (c: byte)
    ensures c != Pad && c != CarriageReturn && c != LineFeed
  {
    if v < 26 then 'A' as int + v
    else if v < 52 then 'a' as int + (v - 26)
    else if v < 62 then '0' as int + (v - 52)
    else if v == 62 then Symbol62(a)
    else Symbol63(a)
  }

  /** The decoding table (Go's `decodeMap`): the value a byte stands for, or None
      for a byte outside the alphabet. */
  function ValueOf(a: Alphabet, c: byte): (r: Option<sextet>)
    ensures r.Some? ==> Symbol(a, r.value) == c
  {
    if 'A' as int <= c <= 'Z' as int then Some(c - 'A' as int)
    else if 'a' as int <= c <= 'z' as int then Some(c - 'a' as int + 26)
    else if '0' as int <= c <= '9' as int then Some(c - '0' as int + 52)
    else if c == Symbol62(a) then Some(62)
    else if c == Symbol63(a) then Some(63)
    else None
  }

  predicate InAlphabet(a: Alphabet, c: byte)
  {
    ValueOf(a, c).Some?
  }

  predicate AllInAlphabet(a: Alphabet, q: seq<byte>)
  {
    forall i :: 0 <= i < |q| ==> InAlphabet(a, q[i])
  }

  /** Decoding a symbol gives back its value: the tables are inverse to each other. */
  lemma ValueOfSymbol(a: Alphabet, v: sextet)
    ensures ValueOf(a, Symbol(a, v)) == Some(v)
  {
  }

  /** The symbols writing the values `v`. */
  function Symbols(a: Alphabet, v: seq<sextet>): (r: seq<byte>)
    ensures |r| == |v|
    ensures forall i :: 0 <= i < |r| ==> InAlphabet(a, r[i])
  {
    seq(|v|, i requires 0 <= i < |v| => ValueOfSymbol(a, v[i]); Symbol(a, v[i]))
  }

  /** The values of the symbols `q`, or None if one of them is outside the alphabet. */
  function Values(a: Alphabet, q: seq<byte>): (r: Option<seq<sextet>>)
    ensures r.Some? <==> AllInAlphabet(a, q)
    ensures r.Some? ==> Symbols(a, r.value) == q
  {
    if q == [] then Some([])
    else
      match (ValueOf(a, q[0]), Values(a, q[1..]))
      case (Some(v), Some(vs)) =>
        assert Symbols(a, [v] + vs) == [q[0]] + q[1..];
        Some([v] + vs)
      case _ => None
  }

  lemma {:induction false} ValuesOfSymbols(a: Alphabet, v: seq<sextet>)
    ensures Values(a, Symbols(a, v)) == Some(v)
  {
    if v != [] {
      var q := Symbols(a, v);
      assert q[1..] == Symbols(a, v[1..]);
      ValueOfSymbol(a, v[0]);
      ValuesOfSymbols(a, v[1..]);
      assert [v[0]] + v[1..] == v;
    }
  }

  function Pads(n: nat): (r: seq<byte>)
    ensures |r| == n && forall i :: 0 <= i < n ==> r[i] == Pad
  {
    seq(n, _ => Pad)
  }

  /** Splits 1 to 3 bytes into 2 to 4 sextets, most significant bits first; the
      bits missing from a short group are zero. */
  function EncodeGroup(b: seq<byte>): (v: seq<sextet>)
    requires 1 <= |b| <= 3
    ensures |v| == |b| + 1
  {
    var b1 := if |b| > 1 then b[1] else 0;
    var b2 := if |b| > 2 then b[2] else 0;
    var q: seq<sextet> := [b[0] / 4, b[0] % 4 * 16 + b1 / 16, b1 % 16 * 4 + b2 / 64, b2 % 64];
    q[..|b| + 1]
  }

  /** Joins 2 to 4 sextets into 1 to 3 bytes; the bits of the last sextet that do
      not fill a whole byte are dropped (Go's non-strict decoding). */
  function DecodeGroup(v: seq<sextet>): (b: seq<byte>)
    requires 2 <= |v| <= 4
    ensures |b| == |v| - 1
  {
    var v2: int := if |v| > 2 then v[2] else 0;
    var v3: int := if |v| > 3 then v[3] else 0;
    var q: seq<byte> := [v[0] as int * 4 + v[1] / 16, v[1] as int % 16 * 16 + v2 / 4, v2 % 4 * 64 + v3];
    q[..|v| - 1]
  }

  /** How many of the low bits of the last sextet of a group of `n` sextets are leftover. */
  function LeftoverModulus(n: nat): nat
  {
    if n == 2 then 16 else if n == 3 then 4 else 1
  }

  /** The group with its leftover bits cleared: what an encoder would have written. */
  function Canonical(v: seq<sextet>): (c: seq<sextet>)
    requires 2 <= |v| <= 4
    ensures |c| == |v| && c[..|v| - 1] == v[..|v| - 1]
  {
    var last := v[|v| - 1];
    v[..|v| - 1] + [last - last % LeftoverModulus(|v|)]
  }

  lemma GroupRoundTrip(b: seq<byte>)
    requires 1 <= |b| <= 3
    ensures DecodeGroup(EncodeGroup(b)) == b
  {
  }

  /** Non-strict decoding: a group decodes as its canonical form does, and the
      canonical form is exactly what encoding the decoded bytes writes. Groups that
      differ only in their leftover bits therefore decode to the same bytes. */
  lemma LeftoverBitsIgnored(v: seq<sextet>)
    requires 2 <= |v| <= 4
    ensures DecodeGroup(Canonical(v)) == DecodeGroup(v)
    ensures EncodeGroup(DecodeGroup(v)) == Canonical(v)
  {
    if |v| == 2 {
      LeftoverBitsIgnoredInPair(v);
    } else if |v| == 3 {
      LeftoverBitsIgnoredInTriple(v);
    } else {
      LeftoverBitsIgnoredInQuad(v);
    }
  }

  lemma LeftoverBitsIgnoredInQuad(v: seq<sextet>)
    requires |v| == 4
    ensures DecodeGroup(Canonical(v)) == DecodeGroup(v)
    ensures EncodeGroup(DecodeGroup(v)) == Canonical(v)
  {
    var b0: int, b1: int, b2: int := v[0] as int * 4 + v[1] as int / 16, v[1] as int % 16 * 16 + v[2] as int / 4, v[2] as int % 4 * 64 + v[3];
    assert DecodeGroup(v) == [b0, b1, b2];
    assert b0 / 4 == v[0] && b0 % 4 == v[1] / 16;
    assert b1 / 16 == v[1] % 16 && b1 % 16 == v[2] / 4;
    assert b2 / 64 == v[2] % 4 && b2 % 64 == v[3];
  }

  lemma LeftoverBitsIgnoredInPair(v: seq<sextet>)
    requires |v| == 2
    ensures DecodeGroup(Canonical(v)) == DecodeGroup(v)
    ensures EncodeGroup(DecodeGroup(v)) == Canonical(v)
  {
    var b0: int := v[0] as int * 4 + v[1] as int / 16;
    assert DecodeGroup(v) == [b0];
    assert b0 / 4 == v[0] && b0 % 4 == v[1] / 16;
  }

  lemma LeftoverBitsIgnoredInTriple(v: seq<sextet>)
    requires |v| == 3
    ensures DecodeGroup(Canonical(v)) == DecodeGroup(v)
    ensures EncodeGroup(DecodeGroup(v)) == Canonical(v)
  {
    var b0: int, b1: int := v[0] as int * 4 + v[1] as int / 16, v[1] as int % 16 * 16 + v[2] as int / 4;
    assert DecodeGroup(v) == [b0, b1];
    assert b0 / 4 == v[0] && b0 % 4 == v[1] / 16;
    assert b1 / 16 == v[1] % 16 && b1 % 16 == v[2] / 4;
  }

  /** Go's `EncodedLen`. */
  function EncodedLen(enc: Encoding, n: nat): (r: nat)
    ensures enc.padded ==> r % 4 == 0 && 4 * n <= 3 * r <= 4 * n + 8
    ensures !enc.padded ==> 8 * n <= 6 * r < 8 * n + 6
  {
    if enc.padded then (n + 2) / 3 * 4 else n / 3 * 4 + (n % 3 * 8 + 5) / 6
  }

  /** Go's `EncodeToString`: every 3 bytes become 4 symbols; a final group of 1 or 2
      bytes becomes 2 or 3 symbols, followed by "==" or "=" when the encoding pads. */
  function EncodeToString(enc: Encoding, src: seq<byte>): (r: seq<byte>)
    ensures |r| == EncodedLen(enc, |src|)
    ensures forall i :: 0 <= i < |r| ==> InAlphabet(enc.alphabet, r[i]) || (enc.padded && r[i] == Pad)
    decreases |src|
  {
    if |src| == 0 then []
    else if |src| < 3 then
      Symbols(enc.alphabet, EncodeGroup(src)) + (if enc.padded then Pads(3 - |src|) else [])
    else
      Symbols(enc.alphabet, EncodeGroup(src[..3])) + EncodeToString(enc, src[3..])
  }

  /** The input with every '\r' and '\n' removed: Go's decoder skips them wherever they are. */
  function StripNewlines(s: seq<byte>): (r: seq<byte>)
    ensures |r| <= |s|
    ensures forall i :: 0 <= i < |r| ==> r[i] != CarriageReturn && r[i] != LineFeed
    ensures (forall i :: 0 <= i < |s| ==> s[i] != CarriageReturn && s[i] != LineFeed) ==> r == s
  {
    if s == [] then []
    else if s[0] == CarriageReturn || s[0] == LineFeed then StripNewlines(s[1..])
    else [s[0]] + StripNewlines(s[1..])
  }

  /** Decoding with padding required: whole quanta of 4 symbols, the last of which
      may end in "=" or "==", with nothing after the padding. */
  function DecodePadded(a: Alphabet, s: seq<byte>): (r: Option<seq<byte>>)
    ensures r.Some? ==> |s| % 4 == 0 && |r.value| == |s| / 4 * 3 - PadCount(s)
    decreases |s|
  {
    if |s| == 0 then Some([])
    else if |s| < 4 then None
    else if s[3] != Pad then
      match (Values(a, s[..4]), DecodePadded(a, s[4..]))
      case (Some(v), Some(rest)) => PaddedLengthStep(s); Some(DecodeGroup(v) + rest)
      case _ => None
    else if |s| > 4 then None
    else if s[2] == Pad then
      match Values(a, s[..2])
      case Some(v) => Some(DecodeGroup(v))
      case None => None
    else
      match Values(a, s[..3])
      case Some(v) => Some(DecodeGroup(v))
      case None => None
  }

  /** A full quantum in front adds 3 decoded bytes and no padding. */
  lemma PaddedLengthStep(s: seq<byte>)
    requires |s| >= 4 && s[3] != Pad
    ensures |s| % 4 == |s[4..]| % 4
    ensures |s| / 4 * 3 - PadCount(s) == |s[4..]| / 4 * 3 - PadCount(s[4..]) + 3
  {
    if |s| > 4 {
      assert s[|s| - 1] == s[4..][|s| - 5];
      assert |s| >= 6 ==> s[|s| - 2] == s[4..][|s| - 6];
    }
  }

  /** Four symbols in front add 3 decoded bytes. */
  lemma RawLengthStep(n: nat)
    requires n >= 4
    ensures (n - 4) % 4 == n % 4
    ensures (n - 4) * 6 / 8 + 3 == n * 6 / 8
  {
  }

  /** Decoding without padding: '=' is an illegal symbol, and a final group of 2 or 3
      symbols stands for 1 or 2 bytes; a final group of 1 symbol is an error. */
  function DecodeRaw(a: Alphabet, s: seq<byte>): (r: Option<seq<byte>>)
    ensures r.Some? ==> |s| % 4 != 1 && |r.value| == |s| * 6 / 8
    decreases |s|
  {
    if |s| == 0 then Some([])
    else if |s| == 1 then None
    else if |s| < 4 then
      match Values(a, s)
      case Some(v) => Some(DecodeGroup(v))
      case None => None
    else
      match (Values(a, s[..4]), DecodeRaw(a, s[4..]))
      case (Some(v), Some(rest)) => RawLengthStep(|s|); Some(DecodeGroup(v) + rest)
      case _ => None
  }

  /** Go's `DecodeString` on the default (non-strict) encodings: it succeeds exactly
      when the input, once its line breaks are dropped, is well formed for the
      encoding's padding policy. */
  function DecodeString(enc: Encoding, s: seq<byte>): (r: Option<seq<byte>>)
    ensures r.Some? <==>
              if enc.padded then WellFormedPadded(enc.alphabet, StripNewlines(s))
              else WellFormedRaw(enc.alphabet, StripNewlines(s))
  {
    var t := StripNewlines(s);
    DecodePaddedSucceedsIff(enc.alphabet, t);
    DecodeRawSucceedsIff(enc.alphabet, t);
    if enc.padded then DecodePadded(enc.alphabet, t) else DecodeRaw(enc.alphabet, t)
  }

  /** The number of '=' ending a padded string (at most two count). */
  function PadCount(s: seq<byte>): nat
  {
    if |s| >= 1 && s[|s| - 1] == Pad then
      (if |s| >= 2 && s[|s| - 2] == Pad then 2 else 1)
    else 0
  }

  /** What a padded decoder accepts, stated without recursion: a length that is a
      multiple of 4, and symbols of the alphabet everywhere except for a '=' in the
      last position or "==" in the last two positions. */
  predicate WellFormedPadded(a: Alphabet, s: seq<byte>)
  {
    && |s| % 4 == 0
    && forall i :: 0 <= i < |s| ==>
         InAlphabet(a, s[i]) || (s[i] == Pad && |s| - 2 <= i && (i == |s| - 2 ==> s[|s| - 1] == Pad))
  }

  /** What a raw decoder accepts: symbols of the alphabet only, and no length of the
      form 4k + 1. */
  predicate WellFormedRaw(a: Alphabet, s: seq<byte>)
  {
    |s| % 4 != 1 && AllInAlphabet(a, s)
  }

  lemma PadNotInAlphabet(a: Alphabet)
    ensures !InAlphabet(a, Pad)
  {
  }

  /** A padded string whose first quantum is not padded is well formed exactly when
      that quantum is four symbols and the rest is well formed. */
  lemma WellFormedPaddedSplit(a: Alphabet, s: seq<byte>)
    requires |s| >= 4 && s[3] != Pad
    ensures WellFormedPadded(a, s) <==> AllInAlphabet(a, s[..4]) && WellFormedPadded(a, s[4..])
  {
    var t := s[4..];
    PadNotInAlphabet(a);
    if WellFormedPadded(a, s) {
      forall i | 0 <= i < |t|
        ensures InAlphabet(a, t[i]) || (t[i] == Pad && |t| - 2 <= i && (i == |t| - 2 ==> t[|t| - 1] == Pad))
      {
        assert t[i] == s[i + 4];
      }
      forall i | 0 <= i < 4 ensures InAlphabet(a, s[..4][i]) {
        assert s[..4][i] == s[i];
      }
    }
    if AllInAlphabet(a, s[..4]) && WellFormedPadded(a, t) {
      forall i | 0 <= i < |s|
        ensures InAlphabet(a, s[i]) || (s[i] == Pad && |s| - 2 <= i && (i == |s| - 2 ==> s[|s| - 1] == Pad))
      {
        if i < 4 {
          assert s[i] == s[..4][i];
        } else {
          assert s[i] == t[i - 4];
        }
      }
    }
  }

  /** The accepted forms of a final padded quantum, "xx==" and "xxx=". */
  lemma WellFormedPaddedLastQuantum(a: Alphabet, s: seq<byte>)
    requires |s| == 4 && s[3] == Pad
    ensures s[2] == Pad ==> (WellFormedPadded(a, s) <==> AllInAlphabet(a, s[..2]))
    ensures s[2] != Pad ==> (WellFormedPadded(a, s) <==> AllInAlphabet(a, s[..3]))
  {
    PadNotInAlphabet(a);
    assert forall i :: 0 <= i < 2 ==> s[..2][i] == s[i];
    assert forall i :: 0 <= i < 3 ==> s[..3][i] == s[i];
  }

  lemma {:induction false} DecodePaddedSucceedsIff(a: Alphabet, s: seq<byte>)
    ensures DecodePadded(a, s).Some? <==> WellFormedPadded(a, s)
    ensures DecodePadded(a, s).Some? ==> |DecodePadded(a, s).value| == |s| / 4 * 3 - PadCount(s)
    decreases |s|
  {
    if |s| >= 4 && s[3] != Pad {
      var t := s[4..];
      DecodePaddedSucceedsIff(a, t);
      WellFormedPaddedSplit(a, s);
      assert |t| > 0 ==> PadCount(s) == PadCount(t);
    } else if |s| == 4 && s[3] == Pad {
      WellFormedPaddedLastQuantum(a, s);
    } else if |s| > 4 && s[3] == Pad {
      PadNotInAlphabet(a);
      assert !WellFormedPadded(a, s) by {
        if |s| % 4 == 0 {
          assert !InAlphabet(a, s[3]) && 3 < |s| - 2;
        }
      }
    }
  }

  /** A raw string of at least one quantum is well formed exactly when its first
      quantum is four symbols and the rest is well formed. */
  lemma WellFormedRawSplit(a: Alphabet, s: seq<byte>)
    requires |s| >= 4
    ensures WellFormedRaw(a, s) <==> AllInAlphabet(a, s[..4]) && WellFormedRaw(a, s[4..])
  {
    var t := s[4..];
    if WellFormedRaw(a, s) {
      assert forall i :: 0 <= i < |t| ==> t[i] == s[i + 4];
      assert forall i :: 0 <= i < 4 ==> s[..4][i] == s[i];
    }
    if AllInAlphabet(a, s[..4]) && WellFormedRaw(a, t) {
      forall i | 0 <= i < |s| ensures InAlphabet(a, s[i]) {
        if i < 4 {
          assert s[i] == s[..4][i];
        } else {
          assert s[i] == t[i - 4];
        }
      }
    }
  }

  lemma {:induction false} DecodeRawSucceedsIff(a: Alphabet, s: seq<byte>)
    ensures DecodeRaw(a, s).Some? <==> WellFormedRaw(a, s)
    ensures DecodeRaw(a, s).Some? ==> |DecodeRaw(a, s).value| == |s| * 6 / 8
    decreases |s|
  {
    if |s| >= 4 {
      DecodeRawSucceedsIff(a, s[4..]);
      WellFormedRawSplit(a, s);
    }
  }

  /** Encoding works block by block: input split after a whole number of 3-byte
      groups encodes as the two parts do. */
  lemma {:induction false} EncodeAppend(enc: Encoding, x: seq<byte>, y: seq<byte>)
    requires |x| % 3 == 0
    ensures EncodeToString(enc, x + y) == EncodeToString(enc, x) + EncodeToString(enc, y)
    decreases |x|
  {
    if x == [] {
      assert x + y == y;
    } else {
      assert (x + y)[..3] == x[..3];
      assert (x + y)[3..] == x[3..] + y;
      EncodeAppend(enc, x[3..], y);
    }
  }

  lemma SymbolsAppend(a: Alphabet, v: seq<sextet>, w: seq<sextet>)
    ensures Symbols(a, v + w) == Symbols(a, v) + Symbols(a, w)
  {
  }

  /** The 6-bit values an encoder writes, group after group, before they are
      turned into symbols. */
  function Sextets(b: seq<byte>): seq<sextet>
    decreases |b|
  {
    if |b| == 0 then []
    else if |b| < 3 then EncodeGroup(b)
    else EncodeGroup(b[..3]) + Sextets(b[3..])
  }

  /** An encoding is the symbols of the input's 6-bit values, then the padding:
      the alphabet only decides how each value is written. */
  lemma {:induction false} EncodeIsSymbols(enc: Encoding, b: seq<byte>)
    ensures EncodeToString(enc, b)
         == Symbols(enc.alphabet, Sextets(b)) + (if enc.padded then Pads((3 - |b| % 3) % 3) else [])
    decreases |b|
  {
    if |b| >= 3 {
      assert |b[3..]| % 3 == |b| % 3;
      EncodeIsSymbols(enc, b[3..]);
      EncodeIsSymbolsStep(enc, b);
    } else if |b| > 0 {
      EncodeIsSymbolsLast(enc, b);
    }
  }

  lemma EncodeIsSymbolsLast(enc: Encoding, b: seq<byte>)
    requires 0 < |b| < 3
    ensures EncodeToString(enc, b)
         == Symbols(enc.alphabet, Sextets(b)) + (if enc.padded then Pads((3 - |b| % 3) % 3) else [])
  {
    assert (3 - |b| % 3) % 3 == 3 - |b|;
  }

  lemma EncodeIsSymbolsStep(enc: Encoding, b: seq<byte>)
    requires |b| >= 3
    requires EncodeToString(enc, b[3..])
          == Symbols(enc.alphabet, Sextets(b[3..])) + (if enc.padded then Pads((3 - |b| % 3) % 3) else [])
    ensures EncodeToString(enc, b)
         == Symbols(enc.alphabet, Sextets(b)) + (if enc.padded then Pads((3 - |b| % 3) % 3) else [])
  {
    var g := EncodeGroup(b[..3]);
    SymbolsAppend(enc.alphabet, g, Sextets(b[3..]));
  }

  /** The standard and URL-safe encodings of the same bytes, with the same padding
      policy, differ only where one writes '+' or '/' and the other '-' or '_'. */
  lemma StandardAndUrlSafeEncodings(padded: bool, b: seq<byte>)
    ensures |EncodeToString(Encoding(Standard, padded), b)| == |EncodeToString(Encoding(UrlSafe, padded), b)|
    ensures forall i :: 0 <= i < |EncodeToString(Encoding(Standard, padded), b)| ==>
              var c, d := EncodeToString(Encoding(Standard, padded), b)[i], EncodeToString(Encoding(UrlSafe, padded), b)[i];
              c == d || (c == '+' as int && d == '-' as int) || (c == '/' as int && d == '_' as int)
  {
    EncodeIsSymbols(Encoding(Standard, padded), b);
    EncodeIsSymbols(Encoding(UrlSafe, padded), b);
  }

  /** `StripNewlines` works piecewise. */
  lemma {:induction false} StripNewlinesAppend(x: seq<byte>, y: seq<byte>)
    ensures StripNewlines(x + y) == StripNewlines(x) + StripNewlines(y)
    decreases |x|
  {
    if x == [] {
      assert x + y == y;
    } else {
      assert (x + y)[0] == x[0];
      assert (x + y)[1..] == x[1..] + y;
      StripNewlinesAppend(x[1..], y);
    }
  }

  /** A padded encoding is the raw encoding followed by the padding RFC 4648,
      section 3.2 asks for. */
  lemma {:induction false} PaddedIsRawPlusPads(a: Alphabet, b: seq<byte>)
    ensures EncodeToString(Encoding(a, true), b)
         == EncodeToString(Encoding(a, false), b) + Pads((3 - |b| % 3) % 3)
    decreases |b|
  {
    if |b| >= 3 {
      var head := Symbols(a, EncodeGroup(b[..3]));
      var k := (3 - |b| % 3) % 3;
      assert k == (3 - |b[3..]| % 3) % 3;
      calc {
        EncodeToString(Encoding(a, true), b);
        head + EncodeToString(Encoding(a, true), b[3..]);
        { PaddedIsRawPlusPads(a, b[3..]); }
        head + (EncodeToString(Encoding(a, false), b[3..]) + Pads(k));
        (head + EncodeToString(Encoding(a, false), b[3..])) + Pads(k);
        EncodeToString(Encoding(a, false), b) + Pads(k);
      }
    }
  }

  lemma {:induction false} PaddedRoundTrip(a: Alphabet, b: seq<byte>)
    ensures DecodePadded(a, EncodeToString(Encoding(a, true), b)) == Some(b)
    decreases |b|
  {
    var s := EncodeToString(Encoding(a, true), b);
    if 0 < |b| < 3 {
      var v := EncodeGroup(b);
      ValuesOfSymbols(a, v);
      GroupRoundTrip(b);
      if |b| == 1 {
        assert s[..2] == Symbols(a, v);
      } else {
        assert s[..3] == Symbols(a, v);
      }
    } else if |b| >= 3 {
      var v := EncodeGroup(b[..3]);
      ValuesOfSymbols(a, v);
      GroupRoundTrip(b[..3]);
      PaddedRoundTrip(a, b[3..]);
      assert s[..4] == Symbols(a, v);
      assert s[4..] == EncodeToString(Encoding(a, true), b[3..]);
      assert b[..3] + b[3..] == b;
    }
  }

  lemma {:induction false} RawRoundTrip(a: Alphabet, b: seq<byte>)
    ensures DecodeRaw(a, EncodeToString(Encoding(a, false), b)) == Some(b)
    decreases |b|
  {
    var s := EncodeToString(Encoding(a, false), b);
    if 0 < |b| < 3 {
      ValuesOfSymbols(a, EncodeGroup(b));
      GroupRoundTrip(b);
      assert s == Symbols(a, EncodeGroup(b));
    } else if |b| >= 3 {
      var v := EncodeGroup(b[..3]);
      ValuesOfSymbols(a, v);
      GroupRoundTrip(b[..3]);
      RawRoundTrip(a, b[3..]);
      assert s[..4] == Symbols(a, v);
      assert s[4..] == EncodeToString(Encoding(a, false), b[3..]);
      assert b[..3] + b[3..] == b;
    }
  }

  /** `DecodeString` undoes `EncodeToString` for each of the three encodings. */
  lemma DecodeStringRoundTrip(enc: Encoding, b: seq<byte>)
    ensures DecodeString(enc, EncodeToString(enc, b)) == Some(b)
  {
    var s := EncodeToString(enc, b);
    assert forall i :: 0 <= i < |s| ==> s[i] != CarriageReturn && s[i] != LineFeed;
    if enc.padded {
      PaddedRoundTrip(enc.alphabet, b);
    } else {
      RawRoundTrip(enc.alphabet, b);
    }
  }
}
