# utf8-unicode: a verified model of the UTF-8 codec

`utf8-unicode.js` converts between one code point and its UTF-8 form. It
uses the original six-tier scheme of RFC 2279, section 2. Code points go up
to 0x7FFFFFFF, and encodings take one to six bytes. It has two functions:

- `unicodeutf8` (the encoder) picks a tier by comparing the code point
  against fixed thresholds. It then builds the bytes from 6-bit slices and
  packs them big-endian into one integer, so bytes C2 80 become 0xC280.
- `utf8unicode` (the decoder) picks a tier by the numeric range of the
  packed integer. It then reassembles the payload bits.

The model works on unbounded natural numbers. A shift is division or
multiplication by a power of two. `& (2^k - 1)` is `% 2^k`. `| tag` and
`+=` are addition, because the bits combined never overlap. When no branch
matches, the source leaves its result unassigned. The model returns an
explicit error instead: `InvalidCodepoint` from the encoder and
`InvalidEncoding` from the decoder.

Modules:

- `Outcomes` (outcomes.dfy): `Option`, `Error` and `Result`.
- `Tiers` (tiers.dfy): the six-row table. It holds each tier's length, tag,
  lead payload, code-point interval and packed decoder range, plus the two
  tier-selection chains.
- `Bytes` (bytes.dfy): big-endian `Pack`/`Unpack` between byte sequences and
  integers, and the division facts the proofs use.
- `Layout` (layout.dfy): a reference definition of the RFC 2279 bit layout
  on byte sequences. `RefBytes` gives the pattern of a code point,
  `RefValue` gives the code point a pattern spells, and `WellFormed` is the
  shape a pattern must have. This layer does not depend on the source's
  formulas. Both directions of the round trip are proved here.
- `Codec` (codec.dfy): the encoder and decoder, one formula per branch, as
  the header table intends them. The branch structure, thresholds, ranges,
  tags and masks are the source's; JavaScript's 32-bit operator semantics
  are not (see "Left out").
- `Bridge` (bridge.dfy): proofs that each branch's shift-and-mask formula
  equals the reference layout.
- `CodecProperties` (properties.dfy): the properties of the codec.

## Model

| member | source | states |
|---|---|---|
| Tiers.SelectTier | utf8-unicode.js:23-73 | The encoder's threshold chain puts the code point in the one tier whose interval holds it (Floor <= cp <= Ceiling). It fails exactly when cp reaches the last branch's bound. |
| Tiers.PackedTier | utf8-unicode.js:99-133 | The decoder's range chain returns a tier whose packed range holds h. It fails exactly when no one of the six ranges holds h. |
| Tiers.PackedRangesDisjoint | utf8-unicode.js:99-133 | No two decoder ranges overlap, so the first range that matches is the only one. |
| Tiers.SelectTierUnique | utf8-unicode.js:23-73 | Any tier whose interval holds cp is the tier the chain selects. |
| Codec.Encode | utf8-unicode.js:18-88 | The encoder as written fails with InvalidCodepoint exactly when cp >= 0x7FFFFFFF. Below 0x80 it returns cp unchanged. |
| Codec.EncodeFull | utf8-unicode.js:3-11 | The encoder with the whole table: it fails exactly when cp > 0x7FFFFFFF, and it is the identity below 0x80. |
| Codec.PackTwo | utf8-unicode.js:31-34 | The 2-byte branch: every code point up to 0x7FF, overlong ones included, packs into the decoder's 2-byte range 0xC080..0xDFBF. |
| Codec.PackThree | utf8-unicode.js:41-45 | The 3-byte branch: every code point up to 0xFFFF packs into the decoder's 3-byte range 0xE08080..0xEFBFBF. |
| Codec.PackFour | utf8-unicode.js:52-57 | The 4-byte branch: every code point up to 0x1FFFFF packs into the decoder's 4-byte range 0xF0808080..0xF7BFBFBF. |
| Codec.PackFive | utf8-unicode.js:64-70 | The 5-byte branch: every code point up to 0x3FFFFFF packs into the decoder's 5-byte range 0xF880808080..0xFBBFBFBFBF. |
| Codec.PackSix | utf8-unicode.js:77-84 | The 6-byte branch: every code point up to 0x7FFFFFFF packs into the decoder's 6-byte range 0xFC8080808080..0xFDBFBFBFBFBF. |
| Codec.PackTier | utf8-unicode.js:27-85 | The per-branch shift-and-mask formulas of the encoder. Every pattern a tier can carry, overlong ones included, lies in that tier's decoder range. Bridge.PackTierIsRef pins each formula to the table's byte pattern. |
| Codec.Reassemble | utf8-unicode.js:104-140 | The per-branch shift-and-mask formulas of the decoder. Past tier 1, whatever the input, the masks keep the result at most the tier's ceiling. Bridge.ReassembleIsRef pins each formula to the payload bits the table assigns. |
| Codec.Decode | utf8-unicode.js:95-141 | It fails with InvalidEncoding exactly when h lies in none of the six ranges. It returns h unchanged for h <= 0x7F. |
| Layout.RefBytes | utf8-unicode.js:3-11 | The table's pattern for a code point is well formed: a lead byte carrying the tier tag, then bytes of the form 10xxxxxx, all below 256. |
| Layout.RefValueBound | utf8-unicode.js:3-11 | Whatever bytes fill a tier's pattern, they spell a code point no larger than that tier's ceiling. |
| Layout.RefValueOfRefBytes | utf8-unicode.js:3-11 | Reading the payload bits of a code point's pattern gives the code point back. |
| Layout.RefBytesOfRefValue | utf8-unicode.js:3-11 | Every well-formed pattern is the pattern of the code point it spells. |
| Bridge.PackTierIsRef | utf8-unicode.js:27-85 | Each encoder branch packs exactly the table's bytes for its code point. |
| Bridge.PackedRangeEnds | utf8-unicode.js:104-133 | Each decoder range's lower bound is the packed pattern of code point 0 in that tier, and its upper bound is the pattern of the tier's ceiling, so the six hand-written ranges are exactly the tiers' pattern spans. |
| Bridge.ReassembleIsRef | utf8-unicode.js:99-140 | For any h in a tier's range, that decoder branch reads exactly the payload bits the table assigns to h's bytes. |
| CodecProperties.EncodeLength | utf8-unicode.js:23-85 | A code point in tier n encodes to an n-byte value: below 256^n and, for n >= 2, at least 256^(n-1). |
| CodecProperties.EncodeByteForm | utf8-unicode.js:27-85 | Every output byte after the first lies in 0x80..0xBF. The first byte carries the tier tag: C0..DF, E0..EF, F0..F7, F8..FB or FC..FD. |
| CodecProperties.EncodeFullIsLayout | utf8-unicode.js:18-85 | The encoder's output is the packed reference pattern of the tier its thresholds select. |
| CodecProperties.EncodeInDecoderRange | utf8-unicode.js:23-133 | The encoder's output for tier n falls in the decoder's range for tier n. |
| CodecProperties.DecodeIsLayout | utf8-unicode.js:99-140 | Every accepted value decodes to the code point that the reference layout reads from its bytes. |
| CodecProperties.DecodeBound | utf8-unicode.js:104-140 | A value accepted in tier n decodes to at most that tier's ceiling, e.g. <= 0x7FF for 2 bytes and <= 0xFFFF for 3. |
| CodecProperties.EncodeFullRoundTrip | utf8-unicode.js:3-140 | For every cp <= 0x7FFFFFFF, decoding the full-table encoding gives cp back. |
| CodecProperties.EncodeRoundTrip | utf8-unicode.js:18-140 | For every cp < 0x7FFFFFFF, decoding what the encoder as written produces gives cp back. |
| CodecProperties.EncodeCanonical | utf8-unicode.js:18-85 | Every encoder output is canonical: a well-formed pattern that is not overlong. |
| CodecProperties.CanonicalIsEncoding | utf8-unicode.js:95-140 | A canonical value decodes to a code point whose encoding is that same value. |
| CodecProperties.CanonicalInverse | utf8-unicode.js:18-140 | EncodeFull(cp) == Ok(h) exactly when Decode(h) == Ok(cp) and h is canonical. |
| CodecProperties.DecodeAcceptsOverlong | utf8-unicode.js:104-140 | Every tier longer than 1 also decodes the overlong form of each smaller code point. That form is not what the encoder produces, so encode after decode is not the identity. |
| CodecProperties.KnownVectors | utf8-unicode.js:18-140 | 0x41 -> 0x41, 0x80 -> 0xC280, 0x20AC -> 0xE282AC and 0x1F600 -> 0xF09F9880, and the decoder maps them back. |
| CodecProperties.TierBoundaries | utf8-unicode.js:23-73 | 0x7F/0x80, 0x7FF/0x800, 0xFFFF/0x10000, 0x1FFFFF/0x200000 and 0x3FFFFFF/0x4000000 each fall on either side of a tier boundary. |
| CodecProperties.RejectedInputs | utf8-unicode.js:95-141 | 0x80, 0xBF, 0xE0 and 0xC07F are refused by the decoder, and 0x80000000 by the encoder. |
| CodecProperties.DecodeIsPermissive | utf8-unicode.js:104-110 | The overlong 0xC080 and the malformed 0xC0C0 both decode to 0, and neither is canonical. |
| CodecProperties.EncodeRefusesTableMaximum | utf8-unicode.js:73 | The encoder as written refuses 0x7FFFFFFF. The decoder returns it from 0xFDBFBFBFBFBF, and the full-table encoder produces that value. |

## Left out

- JavaScript string handling is not modelled. The encoder's input
  `char.charCodeAt(0)` (line 20) is a UTF-16 code unit of at most 0xFFFF.
  Its output `hex.toString(16)` (line 87) is a hexadecimal string. The
  decoder's `String.fromCharCode` (line 141) keeps only the low 16 bits.
  The model takes and returns code points as numbers, with the packed
  integer as the encoded form.
- The decoder's input is modelled as a non-negative number. The source
  documents it as a string and compares it with numbers, which relies on
  JavaScript's coercion. Negative and non-integer inputs are not modelled.
  That coercion does not accept the encoder's own output: `toString(16)`
  (line 87) writes no `0x` prefix, so `"c280"` coerces to NaN and matches
  no branch, and `"41"` is read as decimal 41. The source's round trip on
  strings therefore does not hold; the model's round trip is on the packed
  number.
- JavaScript's 32-bit bitwise operators are not modelled. The formulas are
  the ones the header table intends, on unbounded integers. JavaScript
  truncates the operand of `<<`, `>>` and `>>>` to 32 bits and takes the
  shift count mod 32. As written:
  - `<< 24` on a lead byte of 0xF0 or more gives a negative result (line 52).
  - `<< 24` on a continuation byte of 0x80..0xBF gives a negative result
    (lines 67, 81).
  - `<< 32` and `<< 40` shift by 0 and 8 (lines 64, 77, 80).
  - `>>> 32` and `>>> 40` act on the value truncated to 32 bits (lines 126,
    134).
  - `hex >> 32 & 0x3F` reads bits 0 to 5, the last byte's payload, instead
    of bits 32 to 37 (line 135).

  So tiers 4 to 6 of the encoder do not compute what the table says. Nor
  do the lead byte of decoder tier 5, or the lead byte and first
  continuation byte of decoder tier 6. Through `charCodeAt`, the encoder
  never reaches tier 4. Through `fromCharCode`, the decoder's bits above 16
  are discarded anyway.
- On no match, the source throws from `undefined.toString` or returns
  "\0". The model returns an explicit error value instead.
- Unicode-level validity is not modelled, because the source does not
  check it: surrogates, the 0x10FFFF limit, and text longer than one
  character.
- The header comment puts the end of tier 4 at 0x10FFFF. The code's
  threshold is 0x200000, and the model follows the code: tier 4 covers
  0x10000..0x1FFFFF.

## Findings

| source | as written | input that shows it | evidently intended | confidence | as-written member | corrected member |
|---|---|---|---|---|---|---|
| utf8-unicode.js:73 | the last encoder branch tests `unicode < 0x7FFFFFFF` | 0x7FFFFFFF matches no branch. The header table (line 11) lists it, and the decoder returns it from 0xFDBFBFBFBFBF. | `unicode <= 0x7FFFFFFF`, so the whole table is encoded | medium, not executed; `charCodeAt` never yields a value this large | Codec.Encode, shown by CodecProperties.EncodeRefusesTableMaximum | Codec.EncodeFull, with CodecProperties.EncodeFullRoundTrip and CodecProperties.CanonicalInverse |
