/**
  The two conversions of utf8-unicode.js: `unicodeutf8` (code point to
  packed UTF-8) and `utf8unicode` (packed UTF-8 to code point).

  The encoded form is the packed integer the source computes, whose
  hexadecimal digit pairs are the bytes in big-endian order (C2 80 is
  0xC280). A shift `>>> k` or `>> k` of a non-negative value is division
  by 2^k, `<< k` is multiplication by 2^k, `& (2^k - 1)` is `% 2^k`, and
  `| tag` and `+=` are addition because the bits combined never overlap.
  Arithmetic is unbounded: the 32-bit truncation JavaScript applies to
  `<<`, `>>` and `>>>` is not modelled (it breaks tiers 4 to 6 of the
  encoder and tiers 5 and 6 of the decoder); the formulas below are the
  ones the header table intends.
 */
module Codec {
  import opened Outcomes
  import opened Tiers

  /** The bound of the encoder's last branch as written: a strict `< 0x7FFFFFFF`. */
  const EncodeLimit: nat := 0x7FFF_FFFF

  /** The bound the header table implies for the last branch: every code point up to 0x7FFFFFFF. */
  const TableLimit: nat := 0x8000_0000

  /** The encoder's 2-byte branch: 110xxxxx 10xxxxxx. */
  function PackTwo(cp: nat): (r: nat)
    requires cp <= 0x7FF
    ensures 0xC080 <= r <= 0xDFBF
  {
    (cp / 0x40 + 0xC0) * 0x100
    + (cp % 0x40 + 0x80)
  }

  /** The encoder's 3-byte branch: 1110xxxx 10xxxxxx 10xxxxxx. */
  function PackThree(cp: nat): (r: nat)
    requires cp <= 0xFFFF
    ensures 0xE0_8080 <= r <= 0xEF_BFBF
  {
    (cp / 0x1000 + 0xE0) * 0x1_0000
    + (cp / 0x40 % 0x40 + 0x80) * 0x100
    + (cp % 0x40 + 0x80)
  }

  /** The encoder's 4-byte branch: 11110xxx and three 10xxxxxx. */
  function PackFour(cp: nat): (r: nat)
    requires cp <= 0x1F_FFFF
    ensures 0xF080_8080 <= r <= 0xF7BF_BFBF
  {
    (cp / 0x4_0000 + 0xF0) * 0x100_0000
    + (cp / 0x1000 % 0x40 + 0x80) * 0x1_0000
    + (cp / 0x40 % 0x40 + 0x80) * 0x100
    + (cp % 0x40 + 0x80)
  }

  /** The encoder's 5-byte branch: 111110xx and four 10xxxxxx. */
  function PackFive(cp: nat): (r: nat)
    requires cp <= 0x3FF_FFFF
    ensures 0xF8_8080_8080 <= r <= 0xFB_BFBF_BFBF
  {
    (cp / 0x100_0000 + 0xF8) * 0x1_0000_0000
    + (cp / 0x4_0000 % 0x40 + 0x80) * 0x100_0000
    + (cp / 0x1000 % 0x40 + 0x80) * 0x1_0000
    + (cp / 0x40 % 0x40 + 0x80) * 0x100
    + (cp % 0x40 + 0x80)
  }

  /** The encoder's 6-byte branch: 1111110x and five 10xxxxxx. */
  function PackSix(cp: nat): (r: nat)
    requires cp <= 0x7FFF_FFFF
    ensures 0xFC80_8080_8080 <= r <= 0xFDBF_BFBF_BFBF
  {
    (cp / 0x4000_0000 + 0xFC) * 0x100_0000_0000
    + (cp / 0x100_0000 % 0x40 + 0x80) * 0x1_0000_0000
    + (cp / 0x4_0000 % 0x40 + 0x80) * 0x100_0000
    + (cp / 0x1000 % 0x40 + 0x80) * 0x1_0000
    + (cp / 0x40 % 0x40 + 0x80) * 0x100
    + (cp % 0x40 + 0x80)
  }

  /**
    The byte pattern of one tier, packed big-endian, as each branch of the
    encoder builds it. Every pattern a tier can carry, overlong ones
    included, lies in that tier's decoder range.
   */
  function PackTier(t: Tier, cp: nat): (r: nat)
    requires cp <= t.Ceiling()
    ensures InPackedRange(t, r)
  {
    match t
    case One => cp
    case Two => PackTwo(cp)
    case Three => PackThree(cp)
    case Four => PackFour(cp)
    case Five => PackFive(cp)
    case Six => PackSix(cp)
  }

  /**
    `unicodeutf8` as written: the tier chain ends with `< 0x7FFFFFFF`, and
    a code point no branch matches leaves the result unassigned, modelled
    here as `InvalidCodepoint`.
   */
  function Encode(cp: nat): (r: Result<nat>)
    ensures r.Err? <==> cp >= EncodeLimit
    ensures r.Err? ==> r.error == InvalidCodepoint
    ensures cp < 0x80 ==> r == Ok(cp)
  {
    match SelectTier(cp, EncodeLimit)
    case None => Err(InvalidCodepoint)
    case Some(t) => Ok(PackTier(t, cp))
  }

  /** The encoder with the last branch widened to the whole table, so 0x7FFFFFFF is encoded too. */
  function EncodeFull(cp: nat): (r: Result<nat>)
    ensures r.Err? <==> cp > 0x7FFF_FFFF
    ensures r.Err? ==> r.error == InvalidCodepoint
    ensures cp < 0x80 ==> r == Ok(cp)
  {
    match SelectTier(cp, TableLimit)
    case None => Err(InvalidCodepoint)
    case Some(t) => Ok(PackTier(t, cp))
  }

  /**
    The payload bits of a packed value, as each branch of the decoder
    collects them. Past tier 1, whatever `h` holds, the masks keep the
    result at most the tier's ceiling; an overlong value falls below the
    tier's floor.
   */
  function Reassemble(t: Tier, h: nat): (r: nat)
    ensures t != One ==> r <= t.Ceiling()
  {
    match t
    case One => h
    case Two =>
      (h / 0x100 % 0x20) * 0x40
      + h % 0x40
    case Three =>
      (h / 0x1_0000 % 0x10) * 0x1000
      + (h / 0x100 % 0x40) * 0x40
      + h % 0x40
    case Four =>
      (h / 0x100_0000 % 0x08) * 0x4_0000
      + (h / 0x1_0000 % 0x40) * 0x1000
      + (h / 0x100 % 0x40) * 0x40
      + h % 0x40
    case Five =>
      (h / 0x1_0000_0000 % 0x04) * 0x100_0000
      + (h / 0x100_0000 % 0x40) * 0x4_0000
      + (h / 0x1_0000 % 0x40) * 0x1000
      + (h / 0x100 % 0x40) * 0x40
      + h % 0x40
    case Six =>
      (h / 0x100_0000_0000 % 0x02) * 0x4000_0000
      + (h / 0x1_0000_0000 % 0x40) * 0x100_0000
      + (h / 0x100_0000 % 0x40) * 0x4_0000
      + (h / 0x1_0000 % 0x40) * 0x1000
      + (h / 0x100 % 0x40) * 0x40
      + h % 0x40
  }

  /**
    `utf8unicode`: the tier is chosen by numeric range of the whole packed
    value, never by the shape of its bytes; a value outside all six ranges
    leaves the result unassigned, modelled here as `InvalidEncoding`.
   */
  function Decode(h: nat): (r: Result<nat>)
    ensures r.Err? <==> forall t: Tier :: !InPackedRange(t, h)
    ensures r.Err? ==> r.error == InvalidEncoding
    ensures h <= 0x7F ==> r == Ok(h)
  {
    match PackedTier(h)
    case None => Err(InvalidEncoding)
    case Some(t) => Ok(Reassemble(t, h))
  }
}
