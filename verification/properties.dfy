/**
  What the codec promises: tier selection and size, byte form, agreement
  between the encoder's output and the decoder's ranges, the round trip,
  the decoder's bounds and permissiveness, and the exact inverse on
  canonical patterns.
 */
module CodecProperties {
  import opened Outcomes
  import opened Tiers
  import opened Bytes
  import opened Layout
  import opened Codec
  import opened Bridge

  /** The tier the table assigns to a code point. */
  function TierOf(cp: nat): (t: Tier)
    requires cp <= 0x7FFF_FFFF
    ensures t.Floor() <= cp <= t.Ceiling()
  {
    SelectTier(cp, TableLimit).value
  }

  /**
    `h` is the shortest well-formed pattern of the code point it carries:
    it lies in a decoder range, its bytes have the shape of that tier, and
    the code point is not small enough for a shorter tier.
   */
  predicate Canonical(h: nat) {
    match PackedTier(h)
    case None => false
    case Some(t) =>
      var bs := Unpack(h, t.Length());
      WellFormed(t, bs) && t.Floor() <= RefValue(t, bs)
  }

  // ---------------------------------------------------------------------
  // Encoder

  /** A decoder range of `n` bytes holds only values of exactly `n` bytes. */
  lemma PackedRangeWidth(t: Tier)
    ensures t.PackedHi() < Pow256(t.Length())
    ensures t != One ==> Pow256(t.Length() - 1) <= t.PackedLo()
  {
    Pow256Values();
  }

  /** Below 0x7FFFFFFF the encoder as written and the full-table encoder agree. */
  lemma EncodeAgreesBelowLimit(cp: nat)
    requires cp < EncodeLimit
    ensures Encode(cp) == EncodeFull(cp)
  {}

  /** The encoder's output is the packed reference pattern of the tier its thresholds select. */
  lemma EncodeFullIsLayout(cp: nat)
    requires cp <= 0x7FFF_FFFF
    ensures EncodeFull(cp) == Ok(Pack(RefBytes(TierOf(cp), cp)))
  {
    PackTierIsRef(TierOf(cp), cp);
  }

  /** A code point in tier `n` encodes to exactly `n` bytes: below 256^n and, past tier 1, at least 256^(n-1). */
  lemma EncodeLength(cp: nat)
    requires cp < EncodeLimit
    ensures var t, h := TierOf(cp), Encode(cp).value;
      && h < Pow256(t.Length())
      && (t != One ==> Pow256(t.Length() - 1) <= h)
  {
    PackedRangeWidth(TierOf(cp));
  }

  /** Every byte after the first is 10xxxxxx and the first carries the tag of the tier. */
  lemma EncodeByteForm(cp: nat)
    requires cp <= 0x7FFF_FFFF
    ensures var t := TierOf(cp);
      WellFormed(t, Unpack(EncodeFull(cp).value, t.Length()))
  {
    var t := TierOf(cp);
    EncodeFullIsLayout(cp);
    UnpackPack(RefBytes(t, cp));
  }

  /** The encoder's output for tier `n` lies in the decoder's range for tier `n`. */
  lemma EncodeInDecoderRange(cp: nat)
    requires cp <= 0x7FFF_FFFF
    ensures PackedTier(EncodeFull(cp).value) == Some(TierOf(cp))
  {
    var t := TierOf(cp);
    PackedRangesDisjoint(t, PackedTier(PackTier(t, cp)).value, PackTier(t, cp));
  }

  // ---------------------------------------------------------------------
  // Decoder

  /** Within a range, the decoder reads the payload bits of the bytes the reference layout assigns. */
  lemma DecodeIsLayout(h: nat)
    requires PackedTier(h).Some?
    ensures var t := PackedTier(h).value;
      Decode(h) == Ok(RefValue(t, Unpack(h, t.Length())))
  {
    ReassembleIsRef(PackedTier(h).value, h);
  }

  /** A value accepted in tier `n` decodes to a code point no larger than tier `n`'s ceiling. */
  lemma DecodeBound(h: nat)
    requires Decode(h).Ok?
    ensures Decode(h).value <= PackedTier(h).value.Ceiling()
  {
    var t := PackedTier(h).value;
    DecodeIsLayout(h);
    RefValueBound(t, Unpack(h, t.Length()));
  }

  // ---------------------------------------------------------------------
  // Round trip and inverse

  /** Decoding the full-table encoding of any code point up to 0x7FFFFFFF gives it back. */
  lemma EncodeFullRoundTrip(cp: nat)
    requires cp <= 0x7FFF_FFFF
    ensures EncodeFull(cp).Ok?
    ensures Decode(EncodeFull(cp).value) == Ok(cp)
  {
    var t := TierOf(cp);
    var bs := RefBytes(t, cp);
    EncodeFullIsLayout(cp);
    EncodeInDecoderRange(cp);
    DecodeIsLayout(Pack(bs));
    UnpackPack(bs);
    RefValueOfRefBytes(t, cp);
  }

  /** Decoding what the encoder as written produces gives the code point back. */
  lemma EncodeRoundTrip(cp: nat)
    requires cp < EncodeLimit
    ensures Encode(cp).Ok?
    ensures Decode(Encode(cp).value) == Ok(cp)
  {
    EncodeAgreesBelowLimit(cp);
    EncodeFullRoundTrip(cp);
  }

  /** The encoder's output is always canonical. */
  lemma EncodeCanonical(cp: nat)
    requires cp <= 0x7FFF_FFFF
    ensures Canonical(EncodeFull(cp).value)
  {
    var t := TierOf(cp);
    EncodeInDecoderRange(cp);
    EncodeByteForm(cp);
    EncodeFullIsLayout(cp);
    UnpackPack(RefBytes(t, cp));
    RefValueOfRefBytes(t, cp);
  }

  /** A canonical pattern is the encoding of the code point it decodes to. */
  lemma CanonicalIsEncoding(h: nat)
    requires Canonical(h)
    ensures Decode(h).Ok?
    ensures EncodeFull(Decode(h).value) == Ok(h)
  {
    var t := PackedTier(h).value;
    var n := t.Length();
    var bs := Unpack(h, n);
    var cp := RefValue(t, bs);
    DecodeIsLayout(h);
    ReassembleIsRef(t, h);
    RefBytesOfRefValue(t, bs);
    SelectTierUnique(cp, TableLimit, t);
    PackTierIsRef(t, cp);
    PackUnpack(h, n);
  }

  /** On canonical patterns the decoder and the full-table encoder are exact inverses. */
  lemma CanonicalInverse(cp: nat, h: nat)
    ensures EncodeFull(cp) == Ok(h) <==> (Decode(h) == Ok(cp) && Canonical(h))
  {
    if EncodeFull(cp) == Ok(h) {
      EncodeFullRoundTrip(cp);
      EncodeCanonical(cp);
    }
    if Decode(h) == Ok(cp) && Canonical(h) {
      CanonicalIsEncoding(h);
    }
  }

  /**
    The decoder accepts the overlong form of every code point in every
    longer tier, so encoding a decoded value need not give the input back.
   */
  lemma DecodeAcceptsOverlong(t: Tier, cp: nat)
    requires t != One && cp < t.Floor()
    ensures Decode(PackTier(t, cp)) == Ok(cp)
    ensures EncodeFull(cp) != Ok(PackTier(t, cp))
  {
    var bs := RefBytes(t, cp);
    PackTierIsRef(t, cp);
    PackedRangesDisjoint(t, PackedTier(Pack(bs)).value, Pack(bs));
    DecodeIsLayout(Pack(bs));
    UnpackPack(bs);
    RefValueOfRefBytes(t, cp);
    EncodeInDecoderRange(cp);
  }

  // ---------------------------------------------------------------------
  // Concrete cases

  /** Known encodings, checked in both directions. */
  lemma KnownVectors()
    ensures Encode(0x41) == Ok(0x41)
    ensures Encode(0x80) == Ok(0xC280)
    ensures Encode(0x20AC) == Ok(0xE2_82AC)
    ensures Encode(0x1_F600) == Ok(0xF09F_9880)
    ensures Decode(0xC280) == Ok(0x80)
    ensures Decode(0xE2_82AC) == Ok(0x20AC)
    ensures Decode(0xF09F_9880) == Ok(0x1_F600)
  {}

  /** The last code point of each tier and the first of the next. */
  lemma TierBoundaries()
    ensures TierOf(0x7F) == One && TierOf(0x80) == Two
    ensures TierOf(0x7FF) == Two && TierOf(0x800) == Three
    ensures TierOf(0xFFFF) == Three && TierOf(0x1_0000) == Four
    ensures TierOf(0x1F_FFFF) == Four && TierOf(0x20_0000) == Five
    ensures TierOf(0x3FF_FFFF) == Five && TierOf(0x400_0000) == Six
  {}

  /** Inputs that match no branch of either conversion. */
  lemma RejectedInputs()
    ensures Decode(0x80) == Err(InvalidEncoding)
    ensures Decode(0xBF) == Err(InvalidEncoding)
    ensures Decode(0xE0) == Err(InvalidEncoding)
    ensures Decode(0xC07F) == Err(InvalidEncoding)
    ensures Encode(0x8000_0000) == Err(InvalidCodepoint)
  {}

  /** The decoder takes an overlong pattern and a pattern with a malformed continuation byte alike. */
  lemma DecodeIsPermissive()
    ensures Decode(0xC080) == Ok(0) && !Canonical(0xC080)
    ensures Decode(0xC0C0) == Ok(0) && !Canonical(0xC0C0)
    ensures Encode(0) == Ok(0)
  {}

  /**
    The encoder as written refuses 0x7FFFFFFF, the last code point of the
    table, although the decoder produces it from the table's last pattern;
    the full-table encoder closes the gap.
   */
  lemma EncodeRefusesTableMaximum()
    ensures Encode(0x7FFF_FFFF) == Err(InvalidCodepoint)
    ensures Decode(0xFDBF_BFBF_BFBF) == Ok(0x7FFF_FFFF)
    ensures EncodeFull(0x7FFF_FFFF) == Ok(0xFDBF_BFBF_BFBF)
  {
    assert SelectTier(0x7FFF_FFFF, TableLimit) == Some(Six);
    assert PackSix(0x7FFF_FFFF) == 0xFDBF_BFBF_BFBF;
  }
}
