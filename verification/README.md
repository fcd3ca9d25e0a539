# Base64 codec of falco's interpreter, in Dafny

This project models the Base64 codec behind the interpreter's `digest.base64*` built-ins, `interpreter/function/shared/base64_codec.go`. It is made of:

- three encoders: standard padded, URL-safe padded and URL-safe unpadded;
- three character-set validators;
- three decoders. Each decoder accepts an empty input as an empty result. Otherwise it validates the input against its character set, runs Go's `encoding/base64` transform (for the unpadded decoder: first on the input with `addPadding` applied, then on the input as given), and cuts the decoded bytes at the first 0 byte, reporting whether it cut.

Go strings are byte sequences here: `byte` is the integers 0..255.

The files:

- `wrappers.dfy`: `Option`, `Result` and `Outcome`.
- `base64.dfy`: module `Base64`, the part of Go's `encoding/base64` that the codec calls.
  - The encodings are `StdEncoding`, `URLEncoding` and `RawURLEncoding`.
  - The alphabets are those of RFC 4648, sections 4 and 5, and '=' padding follows section 3.2.
  - `EncodeToString` works group by group.
  - `DecodeString` first drops '\r' and '\n', as Go's decoder does, and then decodes padded or raw.
  - Decoding is non-strict in the sense of RFC 4648, section 3.5: leftover bits are dropped.
  - Proved here:
    - when each decoder succeeds (iff) and how long its result is;
    - round trips;
    - that leftover bits are ignored;
    - that a padded encoding is the raw encoding plus padding;
    - that the standard and URL-safe encodings of the same bytes differ only where one writes '+' or '/' and the other '-' or '_'.
- `base64_codec.dfy`: module `Base64Codec`, the core file.
  - `terminateNullByte`, `addPadding`, the three character predicates, the validators (as methods with loops), the encoders and the decoders.
  - Lemmas saying exactly when each decoder succeeds and what it returns, and the three encode/decode round trips.
- `base64_codec_vectors.dfy`: the vectors of `interpreter/function/shared/base64_codec_test.go`, as lemmas about the model. The two long vectors (the UTF-8 Greek text and the 24 bytes with an embedded 0) are worked out one 3-byte group at a time.

### The unpadded decoder's two attempts

`Base64UrlDecodeNoPad` first decodes `addPadding(src)` with `RawURLEncoding` and falls back to decoding `src`. Read quickly, this looks like a best-effort fallback that widens what is accepted. It does less than that:

- `RawURLEncoding` has no padding, so '=' is an illegal symbol for it.
- So on valid input the first attempt succeeds exactly when `len(src) % 4 == 0`. For lengths 4k + 2 and 4k + 3, `addPadding` appends '=', which the decoder refuses. For 4k + 1 it appends nothing, and the raw decode refuses a lone final symbol. When the first attempt succeeds, `addPadding` appended nothing, so its result equals the fallback's.
- The decoder's outcome is therefore always the raw decode of `src` (`NoPadFallbackIsRawDecode`). Lengths of the form 4k + 1 are refused.


## Model

| member | source | states |
|---|---|---|
| Base64Codec.TerminateNullByte | interpreter/function/shared/base64_codec.go:13-16 | the result is the cut of the decoded bytes at their first 0 byte: a 0-free prefix, followed in the input by a 0 byte exactly when the flag is set |
| Base64Codec.CutAtFirstNullIsUnique | interpreter/function/shared/base64_codec.go:13-16 | the cut is unique, and its flag is set exactly when the input contains a 0 byte |
| Base64Codec.AddPadding | interpreter/function/shared/base64_codec.go:18-27 | the input is a prefix of the output, with fewer than 4 '=' appended; the length becomes a multiple of 4 unless it is 4k + 1, in which case nothing is added |
| Base64Codec.IsValidBase64Char | interpreter/function/shared/base64_codec.go:29-34 | accepts exactly the standard alphabet plus '=' |
| Base64Codec.IsValidBase64UrlChar | interpreter/function/shared/base64_codec.go:36-41 | accepts exactly the URL-safe alphabet plus '=' |
| Base64Codec.IsValidBase64UrlNoPadChar | interpreter/function/shared/base64_codec.go:43-48 | accepts exactly the URL-safe alphabet, without '=' |
| Base64Codec.CharacterSetsCompared | interpreter/function/shared/base64_codec.go:29-48 | '=' is only in the padded sets; the standard and URL-safe sets differ only in '+' and '/' against '-' and '_'; no set holds '\r' or '\n' |
| Base64Codec.ValidateBase64Std | interpreter/function/shared/base64_codec.go:50-57 | returns no error iff every byte is in the standard set plus '=' |
| Base64Codec.ValidateBase64Url | interpreter/function/shared/base64_codec.go:59-66 | returns no error iff every byte is in the URL-safe set plus '=' |
| Base64Codec.ValidateBase64UrlNoPad | interpreter/function/shared/base64_codec.go:68-75 | returns no error iff every byte is in the URL-safe set |
| Base64Codec.Base64Encode | interpreter/function/shared/base64_codec.go:77-79 | output length is 4 per started 3-byte group, and the output passes the standard validator |
| Base64Codec.Base64UrlEncode | interpreter/function/shared/base64_codec.go:81-83 | output length is 4 per started 3-byte group, and the output passes the URL-safe validator |
| Base64Codec.Base64UrlEncodeNoPad | interpreter/function/shared/base64_codec.go:85-87 | output length is Go's unpadded `EncodedLen`, and the output passes the unpadded validator |
| Base64Codec.ToDecodeResult | interpreter/function/shared/base64_codec.go:108-112 | the result's value and flag are the cut of the decoded bytes at the first 0 byte |
| Base64Codec.Base64Decode | interpreter/function/shared/base64_codec.go:94-113 | empty input gives an empty, unflagged result; input failing the standard validator gives the error; a successful value has no 0 byte |
| Base64Codec.Base64UrlDecode | interpreter/function/shared/base64_codec.go:115-134 | empty input gives an empty, unflagged result; input failing the URL-safe validator gives the error; a successful value has no 0 byte |
| Base64Codec.Base64UrlDecodeNoPad | interpreter/function/shared/base64_codec.go:136-160 | empty input gives an empty, unflagged result; input failing the unpadded validator gives the error; a successful value has no 0 byte |
| Base64Codec.NoNewlines | interpreter/function/shared/base64_codec.go:99-103 | input that passed either padded validator has no '\r' or '\n', so the transform's newline skipping has no effect on it |
| Base64Codec.Base64DecodeSucceedsIff | interpreter/function/shared/base64_codec.go:94-113 | succeeds iff the input is well-formed padded standard base64; then returns the padded decode cut at the first 0 byte |
| Base64Codec.Base64UrlDecodeSucceedsIff | interpreter/function/shared/base64_codec.go:115-134 | succeeds iff the input is well-formed padded URL-safe base64; then returns the padded decode cut at the first 0 byte |
| Base64Codec.NoPadFallbackIsRawDecode | interpreter/function/shared/base64_codec.go:145-153 | on valid input the padded attempt succeeds iff the length is a multiple of 4, and the two attempts together give the raw decode of the input |
| Base64Codec.Base64UrlDecodeNoPadSucceedsIff | interpreter/function/shared/base64_codec.go:136-160 | succeeds iff the input is URL-safe symbols only and its length is not 4k + 1; then returns the raw decode cut at the first 0 byte |
| Base64Codec.Base64RoundTrip | interpreter/function/shared/base64_codec.go:94-113 | decoding the standard encoding of any bytes succeeds, gives them back up to the first 0 byte, flags exactly when they contain a 0 byte, and gives them back whole when they do not |
| Base64Codec.Base64UrlRoundTrip | interpreter/function/shared/base64_codec.go:115-134 | the same for the URL-safe padded encoder and decoder |
| Base64Codec.Base64UrlNoPadRoundTrip | interpreter/function/shared/base64_codec.go:136-160 | the same for the unpadded encoder and decoder |
| Base64.Symbol | interpreter/function/shared/base64_codec.go:78 | the symbol for a 6-bit value is never '=', '\r' or '\n' |
| Base64.ValueOf | interpreter/function/shared/base64_codec.go:103 | a byte that the decoding table maps to a value is that value's symbol |
| Base64.ValueOfSymbol | interpreter/function/shared/base64_codec.go:103 | the decoding table inverts the alphabet |
| Base64.Symbols | interpreter/function/shared/base64_codec.go:78 | the symbols of a run of values, one per value, all in the alphabet |
| Base64.Values | interpreter/function/shared/base64_codec.go:103 | a run of bytes has values iff every byte is in the alphabet, and then the values' symbols are those bytes |
| Base64.ValuesOfSymbols | interpreter/function/shared/base64_codec.go:103 | reading back the symbols of a run of values gives those values |
| Base64.Pads | interpreter/function/shared/base64_codec.go:78 | n padding bytes, each '=' |
| Base64.EncodeGroup | interpreter/function/shared/base64_codec.go:78 | a group of 1 to 3 bytes becomes one more 6-bit value than it has bytes |
| Base64.DecodeGroup | interpreter/function/shared/base64_codec.go:103 | 2 to 4 values become one byte fewer than there are values |
| Base64.Canonical | interpreter/function/shared/base64_codec.go:103 | clearing the leftover bits keeps every value but the last |
| Base64.GroupRoundTrip | interpreter/function/shared/base64_codec.go:78 | decoding the values of an encoded group gives the group back |
| Base64.LeftoverBitsIgnored | interpreter/function/shared/base64_codec_test.go:81-82 | a group decodes as its canonical form does, and re-encoding the decoded bytes gives the canonical form (non-strict decoding) |
| Base64.EncodeToString | interpreter/function/shared/base64_codec.go:77-87 | output length is Go's `EncodedLen`, and every output byte is an alphabet symbol or, for a padded encoding, '=' |
| Base64.StripNewlines | interpreter/function/shared/base64_codec.go:103 | the result is no longer than the input and has no '\r' or '\n'; input without them is unchanged |
| Base64.PadNotInAlphabet | interpreter/function/shared/base64_codec.go:147 | '=' is not a symbol of either alphabet |
| Base64.WellFormedPaddedSplit | interpreter/function/shared/base64_codec.go:103 | an unpadded first quantum splits off a well-formed padded string |
| Base64.WellFormedPaddedLastQuantum | interpreter/function/shared/base64_codec.go:103 | a padded final quantum is well formed iff it is "xx==" or "xxx=" with symbols of the alphabet |
| Base64.DecodePaddedSucceedsIff | interpreter/function/shared/base64_codec.go:103-106 | padded decoding succeeds iff the input is whole quanta of symbols with at most "=" or "==" at the end; the result has 3 bytes per quantum minus the padding |
| Base64.WellFormedRawSplit | interpreter/function/shared/base64_codec.go:147 | a first quantum splits off a well-formed raw string |
| Base64.DecodeRawSucceedsIff | interpreter/function/shared/base64_codec.go:147-152 | raw decoding succeeds iff the input is symbols only and its length is not 4k + 1; the result has floor(6n/8) bytes |
| Base64.EncodedLen | interpreter/function/shared/base64_codec.go:77-87 | padded: the least multiple of 4 symbols that holds 8n bits at 6 bits per symbol (4 per started 3-byte group); unpadded: the least number of 6-bit symbols that holds 8n bits |
| Base64.DecodePadded | interpreter/function/shared/base64_codec.go:103 | a successful padded decode had an input length that is a multiple of 4, and gives 3 bytes per quantum less one per '=' |
| Base64.DecodeRaw | interpreter/function/shared/base64_codec.go:147-149 | a successful raw decode had an input length not of the form 4k + 1, and gives floor(6n/8) bytes |
| Base64.DecodeString | interpreter/function/shared/base64_codec.go:103 | `DecodeString` succeeds iff the input, with '\r' and '\n' dropped, is well formed for the encoding's padding policy (the same call at lines 124, 147 and 149) |
| Base64.SymbolsAppend | interpreter/function/shared/base64_codec.go:78 | the symbols of two runs of values, joined, are the symbols of the joined runs |
| Base64.EncodeIsSymbols | interpreter/function/shared/base64_codec.go:77-87 | every encoding is the symbols of the input's 6-bit values followed by the padding, so the alphabet only decides how each value is written |
| Base64.StandardAndUrlSafeEncodings | interpreter/function/shared/base64_codec.go:77-83 | the standard and URL-safe encodings of the same bytes have the same length and differ only at '+' against '-' and '/' against '_' |
| Base64.EncodeAppend | interpreter/function/shared/base64_codec.go:78 | encoding input split after whole 3-byte groups is the concatenation of the parts' encodings |
| Base64.StripNewlinesAppend | interpreter/function/shared/base64_codec.go:103 | newline stripping distributes over concatenation |
| Base64.PaddedIsRawPlusPads | interpreter/function/shared/base64_codec.go:82-86 | the padded encoding is the unpadded encoding followed by the '=' that RFC 4648 section 3.2 requires |
| Base64.PaddedRoundTrip | interpreter/function/shared/base64_codec.go:103 | padded decoding undoes padded encoding, for either alphabet |
| Base64.RawRoundTrip | interpreter/function/shared/base64_codec.go:147 | raw decoding undoes unpadded encoding, for either alphabet |
| Base64.DecodeStringRoundTrip | interpreter/function/shared/base64_codec.go:103 | `DecodeString` undoes `EncodeToString` for every encoding |
| Base64CodecVectors.EncodeHello | interpreter/function/shared/base64_codec_test.go:85-86 | "hello" encodes to "aGVsbG8", followed by "=" for the padded encodings |
| Base64CodecVectors.EncodeAbcd | interpreter/function/shared/base64_codec_test.go:185-186 | "abcd" encodes to "YWJjZA", followed by "==" for the padded encodings |
| Base64CodecVectors.DecodeHello | interpreter/function/shared/base64_codec_test.go:85-86 | "aGVsbG8=" decodes to "hello" with both padded decoders, and "aGVsbG8" does with the unpadded one |
| Base64CodecVectors.DecodeAbcd | interpreter/function/shared/base64_codec_test.go:185-186 | "YWJjZA" decodes to "abcd" without padding; "YWJjZA==" decodes with the standard decoder and is refused by the unpadded one |
| Base64CodecVectors.DecodeNonCanonical | interpreter/function/shared/base64_codec_test.go:81-82 | "YWJjZB==" decodes to "abcd" with both padded decoders, although it is not the encoding of "abcd" |
| Base64CodecVectors.DecodedWithoutNull | interpreter/function/shared/base64_codec.go:103-112 | a valid input whose padded decode has no 0 byte comes back whole from both padded decoders |
| Base64CodecVectors.DecodeEmbeddedNull | interpreter/function/shared/base64_codec.go:108-112 | "YQBi" (the bytes 'a', 0, 'b') decodes to "a" with the flag set, with all three decoders |
| Base64CodecVectors.EncodeGreekStandard | interpreter/function/shared/base64_codec_test.go:15-16 | the UTF-8 bytes of "Καλώς ορίσατε" encode to "zprOsc67z47PgiDOv8+Bzq/Pg86xz4TOtQ==" |
| Base64CodecVectors.EncodeGreekUrlSafe | interpreter/function/shared/base64_codec_test.go:34-35 | the same bytes encode to "zprOsc67z47PgiDOv8-Bzq_Pg86xz4TOtQ==" with the URL-safe alphabet |
| Base64CodecVectors.EncodeGreekUrlSafeNoPad | interpreter/function/shared/base64_codec_test.go:53-54 | the same bytes encode to "zprOsc67z47PgiDOv8-Bzq_Pg86xz4TOtQ" with the unpadded encoder |
| Base64CodecVectors.DecodeGreekStandard | interpreter/function/shared/base64_codec_test.go:73-74 | "zprOsc67z47PgiDOv8+Bzq/Pg86xz4TOtQ==" decodes to "Καλώς ορίσατε", unflagged |
| Base64CodecVectors.DecodeGreekUrlSafe | interpreter/function/shared/base64_codec_test.go:125-126 | "zprOsc67z47PgiDOv8-Bzq_Pg86xz4TOtQ==" decodes to "Καλώς ορίσατε" with the URL-safe decoder, unflagged |
| Base64CodecVectors.DecodeGreekUrlSafeNoPad | interpreter/function/shared/base64_codec_test.go:177-178 | "zprOsc67z47PgiDOv8-Bzq_Pg86xz4TOtQ" decodes to "Καλώς ορίσατε" with the unpadded decoder, unflagged |
| Base64CodecVectors.EncodeSomeData | interpreter/function/shared/base64_codec_test.go:77 | "some data with ", a 0 byte, " and " and the UTF-8 byte order mark encode to "c29tZSBkYXRhIHdpdGggACBhbmQg77u/", and to "c29tZSBkYXRhIHdpdGggACBhbmQg77u_" with both URL-safe encoders |
| Base64CodecVectors.DecodeSomeData | interpreter/function/shared/base64_codec_test.go:77-78 | "c29tZSBkYXRhIHdpdGggACBhbmQg77u/" decodes to "some data with " with the flag set; so does the "_" form with the URL-safe and unpadded decoders (lines 129-130 and 181-182) |
| Base64CodecVectors.DecodesBackCut | interpreter/function/shared/base64_codec.go:108-112 | each decoder, given its own encoder's output, returns the bytes before the first 0 byte with the flag set |
| Base64CodecVectors.RejectedCharacters | interpreter/function/shared/base64_codec_test.go:103-105 | inputs holding a byte outside the character set, such as '&' or '!', are refused by each decoder the tests run them through |
| Base64CodecVectors.RejectedTrailingData | interpreter/function/shared/base64_codec_test.go:106 | "aGVsbG8=0" passes both padded validators and is refused by both padded decoders |
| Base64CodecVectors.StripLineFeed | interpreter/function/shared/base64_codec.go:103 | dropping the '\n' from "aGVs\nbG8=" leaves "aGVsbG8=" |
| Base64CodecVectors.ValidationIsStricterThanTransform | interpreter/function/shared/base64_codec.go:99-103 | Go's transform decodes "aGVs\nbG8=" to "hello", but the standard decoder refuses it at validation |

## Left out

- Go's error values are one `InvalidBase64`. The `CorruptInputError` offset that `encoding/base64` reports is dropped, as the codec drops it.
- Only the three predefined encodings in their default, non-strict mode are modelled. `Strict()`, custom alphabets and custom padding characters are not used by the codec.
- The conversions between Go `string` and `[]byte` are the identity on bytes. The model has no notion of UTF-8 validity, which the codec does not check either.
- `TerminateNullByte` models only the two results the codec keeps from `bytes.Cut`. The part after the cut is discarded by the source.
- Go's decoder skips '\r' and '\n' as it reads. `DecodeString` removes them before decoding; the accepted inputs and the results are the same.
