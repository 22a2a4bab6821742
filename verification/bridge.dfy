/**
  The source's per-tier shift-and-mask formulas coincide with the
  reference bit layout of RFC 2279 stated on byte sequences.
 */
module Bridge {
  import opened Tiers
  import opened Bytes
  import opened Layout
  import opened Codec

  /** Packing the first `k` bytes, one byte at a time, up to the whole sequence. */
  lemma PackUpTo(bs: seq<nat>, k: nat)
    requires k <= |bs|
    ensures k == |bs| ==> Pack(bs[..k]) == Pack(bs)
    ensures 0 < k ==> Pack(bs[..k]) == Pack(bs[..k - 1]) * 0x100 + bs[k - 1]
  {
    assert bs[..|bs|] == bs;
    if k > 0 {
      PackStep(bs, k - 1);
    }
  }

  /** The packed value of up to six bytes, written out. */
  lemma PackWritten(bs: seq<nat>)
    requires 1 <= |bs| <= 6
    ensures |bs| == 1 ==> Pack(bs) == bs[0]
    ensures |bs| == 2 ==> Pack(bs) == bs[0] * 0x100 + bs[1]
    ensures |bs| == 3 ==> Pack(bs) == bs[0] * 0x1_0000 + bs[1] * 0x100 + bs[2]
    ensures |bs| == 4 ==> Pack(bs) == bs[0] * 0x100_0000 + bs[1] * 0x1_0000 + bs[2] * 0x100 + bs[3]
    ensures |bs| == 5 ==>
      Pack(bs) == bs[0] * 0x1_0000_0000 + bs[1] * 0x100_0000 + bs[2] * 0x1_0000 + bs[3] * 0x100 + bs[4]
    ensures |bs| == 6 ==>
      Pack(bs) == bs[0] * 0x100_0000_0000 + bs[1] * 0x1_0000_0000 + bs[2] * 0x100_0000
                  + bs[3] * 0x1_0000 + bs[4] * 0x100 + bs[5]
  {
    var n := |bs|;
    PackUpTo(bs, 0);
    PackUpTo(bs, 1);
    if n >= 2 { PackUpTo(bs, 2); }
    if n >= 3 { PackUpTo(bs, 3); }
    if n >= 4 { PackUpTo(bs, 4); }
    if n >= 5 { PackUpTo(bs, 5); }
    if n >= 6 { PackUpTo(bs, 6); }
    PackUpTo(bs, n);
  }

  /** The reference bytes of each multi-byte tier, written out with literal shifts. */
  lemma RefBytesTwo(cp: nat)
    requires cp <= 0x7FF
    ensures RefBytes(Two, cp) == [
      0xC0 + cp / 0x40,
      0x80 + cp % 0x40]
  {
    Pow64Values();
    RefBytesAt(Two, cp, 0);
    RefBytesAt(Two, cp, 1);
  }

  lemma RefBytesThree(cp: nat)
    requires cp <= 0xFFFF
    ensures RefBytes(Three, cp) == [
      0xE0 + cp / 0x1000,
      0x80 + cp / 0x40 % 0x40,
      0x80 + cp % 0x40]
  {
    Pow64Values();
    RefBytesAt(Three, cp, 0);
    RefBytesAt(Three, cp, 1);
    RefBytesAt(Three, cp, 2);
  }

  lemma RefBytesFour(cp: nat)
    requires cp <= 0x1F_FFFF
    ensures RefBytes(Four, cp) == [
      0xF0 + cp / 0x4_0000,
      0x80 + cp / 0x1000 % 0x40,
      0x80 + cp / 0x40 % 0x40,
      0x80 + cp % 0x40]
  {
    Pow64Values();
    RefBytesAt(Four, cp, 0);
    RefBytesAt(Four, cp, 1);
    RefBytesAt(Four, cp, 2);
    RefBytesAt(Four, cp, 3);
  }

  lemma RefBytesFive(cp: nat)
    requires cp <= 0x3FF_FFFF
    ensures RefBytes(Five, cp) == [
      0xF8 + cp / 0x100_0000,
      0x80 + cp / 0x4_0000 % 0x40,
      0x80 + cp / 0x1000 % 0x40,
      0x80 + cp / 0x40 % 0x40,
      0x80 + cp % 0x40]
  {
    Pow64Values();
    RefBytesAt(Five, cp, 0);
    RefBytesAt(Five, cp, 1);
    RefBytesAt(Five, cp, 2);
    RefBytesAt(Five, cp, 3);
    RefBytesAt(Five, cp, 4);
  }

  lemma RefBytesSix(cp: nat)
    requires cp <= 0x7FFF_FFFF
    ensures RefBytes(Six, cp) == [
      0xFC + cp / 0x4000_0000,
      0x80 + cp / 0x100_0000 % 0x40,
      0x80 + cp / 0x4_0000 % 0x40,
      0x80 + cp / 0x1000 % 0x40,
      0x80 + cp / 0x40 % 0x40,
      0x80 + cp % 0x40]
  {
    Pow64Values();
    RefBytesAt(Six, cp, 0);
    RefBytesAt(Six, cp, 1);
    RefBytesAt(Six, cp, 2);
    RefBytesAt(Six, cp, 3);
    RefBytesAt(Six, cp, 4);
    RefBytesAt(Six, cp, 5);
  }

  /** Each branch of the encoder packs exactly the reference bytes of its code point. */
  lemma PackTierIsRef(t: Tier, cp: nat)
    requires cp <= t.Ceiling()
    ensures PackTier(t, cp) == Pack(RefBytes(t, cp))
  {
    var bs := RefBytes(t, cp);
    PackWritten(bs);
    match t
    case One => RefBytesAt(t, cp, 0);
    case Two => RefBytesTwo(cp);
    case Three => RefBytesThree(cp);
    case Four => RefBytesFour(cp);
    case Five => RefBytesFive(cp);
    case Six => RefBytesSix(cp);
  }

  /** The payload the reference reads from up to six bytes, written out. */
  lemma HornerWritten(t: Tier, bs: seq<nat>)
    requires |bs| == t.Length()
    ensures |bs| == 1 ==> (RefValue(t, bs) ==
      bs[0] % t.LeadSpan())
    ensures |bs| == 2 ==> (RefValue(t, bs) ==
      (bs[0] % t.LeadSpan()) * 0x40
      + bs[1] % 0x40)
    ensures |bs| == 3 ==> (RefValue(t, bs) ==
      (bs[0] % t.LeadSpan()) * 0x1000
      + (bs[1] % 0x40) * 0x40
      + bs[2] % 0x40)
    ensures |bs| == 4 ==> (RefValue(t, bs) ==
      (bs[0] % t.LeadSpan()) * 0x4_0000
      + (bs[1] % 0x40) * 0x1000
      + (bs[2] % 0x40) * 0x40
      + bs[3] % 0x40)
    ensures |bs| == 5 ==> (RefValue(t, bs) ==
      (bs[0] % t.LeadSpan()) * 0x100_0000
      + (bs[1] % 0x40) * 0x4_0000
      + (bs[2] % 0x40) * 0x1000
      + (bs[3] % 0x40) * 0x40
      + bs[4] % 0x40)
    ensures |bs| == 6 ==> (RefValue(t, bs) ==
      (bs[0] % t.LeadSpan()) * 0x4000_0000
      + (bs[1] % 0x40) * 0x100_0000
      + (bs[2] % 0x40) * 0x4_0000
      + (bs[3] % 0x40) * 0x1000
      + (bs[4] % 0x40) * 0x40
      + bs[5] % 0x40)
  {
    var n := |bs|;
    assert Horner(t, bs, 1) == bs[0] % t.LeadSpan();
    if n >= 2 { assert Horner(t, bs, 2) == Horner(t, bs, 1) * 0x40 + bs[1] % 0x40; }
    if n >= 3 { assert Horner(t, bs, 3) == Horner(t, bs, 2) * 0x40 + bs[2] % 0x40; }
    if n >= 4 { assert Horner(t, bs, 4) == Horner(t, bs, 3) * 0x40 + bs[3] % 0x40; }
    if n >= 5 { assert Horner(t, bs, 5) == Horner(t, bs, 4) * 0x40 + bs[4] % 0x40; }
    if n >= 6 { assert Horner(t, bs, 6) == Horner(t, bs, 5) * 0x40 + bs[5] % 0x40; }
  }

  /** A byte of `h` masked to its low bits is `h` shifted and masked to the same bits. */
  lemma ByteBits(h: nat, shift: nat, span: nat, rest: nat)
    requires shift > 0 && span > 0 && rest > 0 && span * rest == 0x100
    ensures h / shift % 0x100 % span == h / shift % span
  {
    DivNonneg(h, shift);
    ModMod(h / shift, span, rest);
  }

  lemma ReassembleTwo(h: nat)
    requires InPackedRange(Two, h)
    ensures Reassemble(Two, h) == RefValue(Two, Unpack(h, 2))
  {
    var bs := Unpack(h, 2);
    Pow256Values();
    HornerWritten(Two, bs);
    UnpackAt(h, 2, 0);
    UnpackAt(h, 2, 1);
    ByteBits(h, 0x100, 0x20, 8);
    ByteBits(h, 0x1, 0x40, 4);
  }

  lemma ReassembleThree(h: nat)
    requires InPackedRange(Three, h)
    ensures Reassemble(Three, h) == RefValue(Three, Unpack(h, 3))
  {
    var bs := Unpack(h, 3);
    Pow256Values();
    HornerWritten(Three, bs);
    UnpackAt(h, 3, 0);
    UnpackAt(h, 3, 1);
    UnpackAt(h, 3, 2);
    ByteBits(h, 0x1_0000, 0x10, 0x10);
    ByteBits(h, 0x100, 0x40, 4);
    ByteBits(h, 0x1, 0x40, 4);
  }

  lemma ReassembleFour(h: nat)
    requires InPackedRange(Four, h)
    ensures Reassemble(Four, h) == RefValue(Four, Unpack(h, 4))
  {
    var bs := Unpack(h, 4);
    Pow256Values();
    HornerWritten(Four, bs);
    UnpackAt(h, 4, 0);
    UnpackAt(h, 4, 1);
    UnpackAt(h, 4, 2);
    UnpackAt(h, 4, 3);
    ByteBits(h, 0x100_0000, 0x08, 0x20);
    ByteBits(h, 0x1_0000, 0x40, 4);
    ByteBits(h, 0x100, 0x40, 4);
    ByteBits(h, 0x1, 0x40, 4);
  }

  lemma ReassembleFive(h: nat)
    requires InPackedRange(Five, h)
    ensures Reassemble(Five, h) == RefValue(Five, Unpack(h, 5))
  {
    var bs := Unpack(h, 5);
    Pow256Values();
    HornerWritten(Five, bs);
    UnpackAt(h, 5, 0);
    UnpackAt(h, 5, 1);
    UnpackAt(h, 5, 2);
    UnpackAt(h, 5, 3);
    UnpackAt(h, 5, 4);
    ByteBits(h, 0x1_0000_0000, 0x04, 0x40);
    ByteBits(h, 0x100_0000, 0x40, 4);
    ByteBits(h, 0x1_0000, 0x40, 4);
    ByteBits(h, 0x100, 0x40, 4);
    ByteBits(h, 0x1, 0x40, 4);
  }

  lemma ReassembleSix(h: nat)
    requires InPackedRange(Six, h)
    ensures Reassemble(Six, h) == RefValue(Six, Unpack(h, 6))
  {
    var bs := Unpack(h, 6);
    Pow256Values();
    HornerWritten(Six, bs);
    UnpackAt(h, 6, 0);
    UnpackAt(h, 6, 1);
    UnpackAt(h, 6, 2);
    UnpackAt(h, 6, 3);
    UnpackAt(h, 6, 4);
    UnpackAt(h, 6, 5);
    ByteBits(h, 0x100_0000_0000, 0x02, 0x80);
    ByteBits(h, 0x1_0000_0000, 0x40, 4);
    ByteBits(h, 0x100_0000, 0x40, 4);
    ByteBits(h, 0x1_0000, 0x40, 4);
    ByteBits(h, 0x100, 0x40, 4);
    ByteBits(h, 0x1, 0x40, 4);
  }

  /**
    Each decoder range runs exactly from the tier's smallest pattern, that
    of code point 0, to its largest, that of the tier's ceiling.
   */
  lemma PackedRangeEnds(t: Tier)
    ensures t.PackedLo() == Pack(RefBytes(t, 0))
    ensures t.PackedHi() == Pack(RefBytes(t, t.Ceiling()))
  {
    PackTierIsRef(t, 0);
    PackTierIsRef(t, t.Ceiling());
    assert PackTier(t, 0) == t.PackedLo() by { PackTierEnds(t); }
    assert PackTier(t, t.Ceiling()) == t.PackedHi() by { PackTierEnds(t); }
  }

  /** The encoder's formulas at a tier's first and last code point. */
  lemma PackTierEnds(t: Tier)
    ensures PackTier(t, 0) == t.PackedLo()
    ensures PackTier(t, t.Ceiling()) == t.PackedHi()
  {
    match t
    case One =>
    case Two =>
    case Three =>
    case Four =>
    case Five =>
    case Six =>
  }

  /** Each branch of the decoder reads the payload the reference layout assigns to the bytes of `h`. */
  lemma ReassembleIsRef(t: Tier, h: nat)
    requires InPackedRange(t, h)
    ensures h < Pow256(t.Length())
    ensures Reassemble(t, h) == RefValue(t, Unpack(h, t.Length()))
  {
    Pow256Values();
    match t
    case One =>
      UnpackAt(h, 1, 0);
      assert Unpack(h, 1)[0] == h;
    case Two => ReassembleTwo(h);
    case Three => ReassembleThree(h);
    case Four => ReassembleFour(h);
    case Five => ReassembleFive(h);
    case Six => ReassembleSix(h);
  }
}
