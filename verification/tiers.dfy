/**
  The six-row length table of the original (RFC 2279, section 2) UTF-8
  scheme, shared by the encoder and the decoder of utf8-unicode.js.

    n | code points           | bytes
    1 | 0000 0000 - 0000 007F | 0xxxxxxx
    2 | 0000 0080 - 0000 07FF | 110xxxxx 10xxxxxx
    3 | 0000 0800 - 0000 FFFF | 1110xxxx 10xxxxxx 10xxxxxx
    4 | 0001 0000 - 001F FFFF | 11110xxx 10xxxxxx 10xxxxxx 10xxxxxx
    5 | 0020 0000 - 03FF FFFF | 111110xx 10xxxxxx 10xxxxxx 10xxxxxx 10xxxxxx
    6 | 0400 0000 - 7FFF FFFF | 1111110x 10xxxxxx 10xxxxxx 10xxxxxx 10xxxxxx 10xxxxxx
 */
module Tiers {
  import opened Outcomes

  datatype Tier = One | Two | Three | Four | Five | Six {

    /** Number of bytes in the encoded form. */
    function Length(): nat {
      match this
      case One => 1
      case Two => 2
      case Three => 3
      case Four => 4
      case Five => 5
      case Six => 6
    }

    /** The fixed high bits of the leading byte (`110xxxxx` gives 0xC0). */
    function Tag(): nat {
      match this
      case One => 0x00
      case Two => 0xC0
      case Three => 0xE0
      case Four => 0xF0
      case Five => 0xF8
      case Six => 0xFC
    }

    /** How many values the payload bits of the leading byte can hold. */
    function LeadSpan(): nat {
      match this
      case One => 0x80
      case Two => 0x20
      case Three => 0x10
      case Four => 0x08
      case Five => 0x04
      case Six => 0x02
    }

    /** Smallest code point the table assigns to this tier. */
    function Floor(): nat {
      match this
      case One => 0
      case Two => 0x80
      case Three => 0x800
      case Four => 0x1_0000
      case Five => 0x20_0000
      case Six => 0x400_0000
    }

    /** Largest code point the tier's bit pattern can carry. */
    function Ceiling(): nat {
      match this
      case One => 0x7F
      case Two => 0x7FF
      case Three => 0xFFFF
      case Four => 0x1F_FFFF
      case Five => 0x3FF_FFFF
      case Six => 0x7FFF_FFFF
    }

    /** Lower end of the packed-integer range the decoder accepts for this tier. */
    function PackedLo(): nat {
      match this
      case One => 0
      case Two => 0xC080
      case Three => 0xE0_8080
      case Four => 0xF080_8080
      case Five => 0xF8_8080_8080
      case Six => 0xFC80_8080_8080
    }

    /** Upper end of the packed-integer range the decoder accepts for this tier. */
    function PackedHi(): nat {
      match this
      case One => 0x7F
      case Two => 0xDFBF
      case Three => 0xEF_BFBF
      case Four => 0xF7BF_BFBF
      case Five => 0xFB_BFBF_BFBF
      case Six => 0xFDBF_BFBF_BFBF
    }
  }

  /** True when the packed integer `h` lies in the decoder's range for `t`. */
  predicate InPackedRange(t: Tier, h: nat) {
    t.PackedLo() <= h <= t.PackedHi()
  }

  /**
    The encoder's tier selection: a chain of strict comparisons against
    0x80, 0x800, 0x10000, 0x200000, 0x4000000 and finally `sixLimit`, the
    bound of the last branch. The source writes that bound as 0x7FFFFFFF;
    the header table implies 0x80000000.
   */
  function SelectTier(cp: nat, sixLimit: nat): (t: Option<Tier>)
    requires 0x400_0000 < sixLimit <= 0x8000_0000
    ensures t.None? <==> cp >= sixLimit
    ensures t.Some? ==> t.value.Floor() <= cp <= t.value.Ceiling()
  {
    if cp < 0x80 then Some(One)
    else if cp < 0x800 then Some(Two)
    else if cp < 0x1_0000 then Some(Three)
    else if cp < 0x20_0000 then Some(Four)
    else if cp < 0x400_0000 then Some(Five)
    else if cp < sixLimit then Some(Six)
    else None
  }

  /** The decoder's tier selection: the first packed range that holds `h`. */
  function PackedTier(h: nat): (t: Option<Tier>)
    ensures t.Some? ==> InPackedRange(t.value, h)
    ensures t.None? <==> forall u: Tier :: !InPackedRange(u, h)
  {
    if h <= 0x7F then assert InPackedRange(One, h); Some(One)
    else if InPackedRange(Two, h) then Some(Two)
    else if InPackedRange(Three, h) then Some(Three)
    else if InPackedRange(Four, h) then Some(Four)
    else if InPackedRange(Five, h) then Some(Five)
    else if InPackedRange(Six, h) then Some(Six)
    else None
  }

  /** The six packed ranges are pairwise disjoint, so the first match is the only one. */
  lemma PackedRangesDisjoint(t: Tier, u: Tier, h: nat)
    requires InPackedRange(t, h) && InPackedRange(u, h)
    ensures t == u
  {}

  /** The tier chosen for a code point is the unique tier whose interval holds it. */
  lemma SelectTierUnique(cp: nat, sixLimit: nat, t: Tier)
    requires 0x400_0000 < sixLimit <= 0x8000_0000
    requires cp < sixLimit && t.Floor() <= cp <= t.Ceiling()
    ensures SelectTier(cp, sixLimit) == Some(t)
  {}
}
