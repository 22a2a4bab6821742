/**
  The bit layout of the original UTF-8 scheme (RFC 2279, section 2) stated
  directly on byte sequences, independently of the source's per-tier shift
  and mask formulas. The codec is proved equal to this reference.
 */
module Layout {
  import opened Tiers
  import opened Bytes

  /** A continuation byte has the form 10xxxxxx. */
  predicate IsContinuation(b: nat) {
    0x80 <= b <= 0xBF
  }

  /** The leading byte carries the tier's tag in its high bits. */
  predicate IsLead(t: Tier, b: nat) {
    t.Tag() <= b < t.Tag() + t.LeadSpan()
  }

  /** `bs` has the shape the table gives tier `t`: a tagged lead and continuations. */
  predicate WellFormed(t: Tier, bs: seq<nat>) {
    && |bs| == t.Length()
    && IsLead(t, bs[0])
    && forall i :: 1 <= i < |bs| ==> IsContinuation(bs[i])
  }

  /** The tier's code points fill exactly the bits its pattern has room for. */
  lemma CeilingFillsPayload(t: Tier)
    ensures t.Ceiling() + 1 == t.LeadSpan() * Pow64(t.Length() - 1)
    ensures t.Tag() % t.LeadSpan() == 0
    ensures t.Tag() + t.LeadSpan() <= 0x100
  {
    Pow64Values();
  }

  /** The 6-bit group `j` of `cp`, counted from the least significant. */
  function Group(cp: nat, j: nat): (g: nat)
    ensures g < 0x40
  {
    cp / Pow64(j) % 0x40
  }

  /** Byte `i` of the table's pattern for `cp` in tier `t`, most significant first. */
  function RefByte(t: Tier, cp: nat, i: nat): nat
    requires i < t.Length()
  {
    DivNonneg(cp, Pow64(t.Length() - 1));
    if i == 0 then t.Tag() + cp / Pow64(t.Length() - 1)
    else 0x80 + Group(cp, t.Length() - 1 - i)
  }

  /** The high bits under the tag fit the lead byte's payload. */
  lemma LeadBitsFit(t: Tier, cp: nat)
    requires cp <= t.Ceiling()
    ensures cp / Pow64(t.Length() - 1) < t.LeadSpan()
  {
    CeilingFillsPayload(t);
    DivBelow(cp, t.LeadSpan(), Pow64(t.Length() - 1));
  }

  /**
    The bytes the table gives code point `cp` in tier `t`: the leading
    byte takes the high bits under the tag, and each continuation byte one
    6-bit group, most significant group first.
   */
  function RefBytes(t: Tier, cp: nat): (bs: seq<nat>)
    requires cp <= t.Ceiling()
    ensures WellFormed(t, bs) && AllBytes(bs)
  {
    LeadBitsFit(t, cp);
    CeilingFillsPayload(t);
    seq(t.Length(), i requires 0 <= i < t.Length() => RefByte(t, cp, i))
  }

  /** The elements of the reference bytes, one by one. */
  lemma RefBytesAt(t: Tier, cp: nat, i: nat)
    requires cp <= t.Ceiling() && i < t.Length()
    ensures i == 0 ==> RefBytes(t, cp)[i] == t.Tag() + cp / Pow64(t.Length() - 1)
    ensures i > 0 ==> RefBytes(t, cp)[i] == 0x80 + cp / Pow64(t.Length() - 1 - i) % 0x40
  {
    assert RefBytes(t, cp)[i] == RefByte(t, cp, i);
  }

  /**
    The payload bits of the first `k` bytes of `bs` read as one number:
    the lead byte's low bits, then six bits per continuation byte.
   */
  function Horner(t: Tier, bs: seq<nat>, k: nat): nat
    requires 1 <= k <= |bs|
  {
    if k == 1 then bs[0] % t.LeadSpan() else Horner(t, bs, k - 1) * 0x40 + bs[k - 1] % 0x40
  }

  /** The code point the bit pattern of `bs` spells out. */
  function RefValue(t: Tier, bs: seq<nat>): nat
    requires |bs| == t.Length()
  {
    Horner(t, bs, |bs|)
  }

  /** The payload of `k` bytes has room for `LeadSpan * 64^(k-1)` values. */
  lemma {:induction false} HornerBound(t: Tier, bs: seq<nat>, k: nat)
    requires 1 <= k <= |bs|
    ensures Horner(t, bs, k) < t.LeadSpan() * Pow64(k - 1)
  {
    if k > 1 {
      HornerBound(t, bs, k - 1);
      var p := Pow64(k - 2);
      assert Horner(t, bs, k - 1) <= t.LeadSpan() * p - 1;
      assert t.LeadSpan() * Pow64(k - 1) == (t.LeadSpan() * p) * 0x40;
    }
  }

  /** Whatever bytes fill a tier's pattern, they spell a code point no larger than its ceiling. */
  lemma RefValueBound(t: Tier, bs: seq<nat>)
    requires |bs| == t.Length()
    ensures RefValue(t, bs) <= t.Ceiling()
  {
    HornerBound(t, bs, |bs|);
    CeilingFillsPayload(t);
  }

  /** The tag and the lead payload do not overlap: the payload is read back unchanged. */
  lemma LeadPayload(t: Tier, d: nat)
    requires d < t.LeadSpan()
    ensures (t.Tag() + d) % t.LeadSpan() == d
  {
    match t
    case One =>
    case Two => DivModUnique(t.Tag() + d, 0x20, 6, d);
    case Three => DivModUnique(t.Tag() + d, 0x10, 0xE, d);
    case Four => DivModUnique(t.Tag() + d, 0x08, 0x1E, d);
    case Five => DivModUnique(t.Tag() + d, 0x04, 0x3E, d);
    case Six => DivModUnique(t.Tag() + d, 0x02, 0x7E, d);
  }

  /** A leading byte is its tag plus its payload bits. */
  lemma LeadSplit(t: Tier, b: nat)
    requires IsLead(t, b)
    ensures t.Tag() + b % t.LeadSpan() == b
  {
    LeadPayload(t, b - t.Tag());
  }

  /** A 6-bit group tagged 10xxxxxx is read back unchanged. */
  lemma ContinuationPayload(g: nat)
    requires g < 0x40
    ensures (0x80 + g) % 0x40 == g
  {
    DivModUnique(0x80 + g, 0x40, 2, g);
  }

  /** A continuation byte is its 10xxxxxx tag plus its six payload bits. */
  lemma ContinuationSplit(b: nat)
    requires IsContinuation(b)
    ensures 0x80 + b % 0x40 == b
  {
    DivModUnique(b, 0x40, 2, b - 0x80);
  }

  /** The last six bits of a payload come from its last byte. */
  lemma HornerStep(t: Tier, bs: seq<nat>, m: nat)
    requires 2 <= m <= |bs|
    ensures Horner(t, bs, m) / 0x40 == Horner(t, bs, m - 1)
    ensures Horner(t, bs, m) % 0x40 == bs[m - 1] % 0x40
  {
    DivModUnique(Horner(t, bs, m), 0x40, Horner(t, bs, m - 1), bs[m - 1] % 0x40);
  }

  /** Reading back the first `k` reference bytes gives the code point without its low groups. */
  lemma {:induction false} HornerOfRefBytes(t: Tier, cp: nat, k: nat)
    requires cp <= t.Ceiling() && 1 <= k <= t.Length()
    ensures Horner(t, RefBytes(t, cp), k) == cp / Pow64(t.Length() - k)
  {
    if k == 1 {
      HornerOfRefBytesLead(t, cp);
    } else {
      HornerOfRefBytes(t, cp, k - 1);
      HornerOfRefBytesStep(t, cp, k);
    }
  }

  lemma HornerOfRefBytesLead(t: Tier, cp: nat)
    requires cp <= t.Ceiling()
    ensures Horner(t, RefBytes(t, cp), 1) == cp / Pow64(t.Length() - 1)
  {
    var n, bs := t.Length(), RefBytes(t, cp);
    var d := cp / Pow64(n - 1);
    DivNonneg(cp, Pow64(n - 1));
    LeadBitsFit(t, cp);
    RefBytesAt(t, cp, 0);
    LeadPayload(t, d);
    assert Horner(t, bs, 1) == bs[0] % t.LeadSpan();
  }

  lemma HornerOfRefBytesStep(t: Tier, cp: nat, k: nat)
    requires cp <= t.Ceiling() && 2 <= k <= t.Length()
    requires Horner(t, RefBytes(t, cp), k - 1) == cp / Pow64(t.Length() - (k - 1))
    ensures Horner(t, RefBytes(t, cp), k) == cp / Pow64(t.Length() - k)
  {
    var n, bs := t.Length(), RefBytes(t, cp);
    var p := Pow64(n - k);
    var y := cp / p;
    DivNonneg(cp, p);
    assert Pow64(n - (k - 1)) == 0x40 * p;
    DivDiv(cp, p, 0x40);
    assert Horner(t, bs, k - 1) == y / 0x40;
    RefBytesAt(t, cp, k - 1);
    assert bs[k - 1] == 0x80 + y % 0x40;
    ContinuationPayload(y % 0x40);
    assert Horner(t, bs, k) == (y / 0x40) * 0x40 + y % 0x40;
  }

  /** Decoding the reference bytes of a code point gives it back. */
  lemma RefValueOfRefBytes(t: Tier, cp: nat)
    requires cp <= t.Ceiling()
    ensures RefValue(t, RefBytes(t, cp)) == cp
  {
    HornerOfRefBytes(t, cp, t.Length());
  }

  /** Dropping the low `m - k` groups of the payload of `m` bytes leaves the payload of `k` bytes. */
  lemma {:induction false} HornerPrefix(t: Tier, bs: seq<nat>, k: nat, m: nat)
    requires 1 <= k <= m <= |bs|
    ensures Horner(t, bs, m) / Pow64(m - k) == Horner(t, bs, k)
  {
    if m > k {
      HornerPrefix(t, bs, k, m - 1);
      HornerStep(t, bs, m);
      DivDiv(Horner(t, bs, m), 0x40, Pow64(m - 1 - k));
    }
  }

  /** The leading byte of a well-formed pattern is recovered from the code point it spells. */
  lemma LeadOfRefValue(t: Tier, bs: seq<nat>)
    requires WellFormed(t, bs)
    ensures RefValue(t, bs) <= t.Ceiling()
    ensures RefBytes(t, RefValue(t, bs))[0] == bs[0]
  {
    var n, v := t.Length(), RefValue(t, bs);
    RefValueBound(t, bs);
    HornerPrefix(t, bs, 1, n);
    assert v / Pow64(n - 1) == bs[0] % t.LeadSpan();
    RefBytesAt(t, v, 0);
    LeadSplit(t, bs[0]);
  }

  /** A continuation byte of a well-formed pattern is recovered from the code point it spells. */
  lemma ContinuationOfRefValue(t: Tier, bs: seq<nat>, i: nat)
    requires WellFormed(t, bs) && 1 <= i < |bs|
    ensures RefValue(t, bs) <= t.Ceiling()
    ensures RefBytes(t, RefValue(t, bs))[i] == bs[i]
  {
    var n, v := t.Length(), RefValue(t, bs);
    RefValueBound(t, bs);
    HornerPrefix(t, bs, i + 1, n);
    assert v / Pow64(n - (i + 1)) == Horner(t, bs, i + 1);
    HornerStep(t, bs, i + 1);
    assert Horner(t, bs, i + 1) % 0x40 == bs[i] % 0x40;
    RefBytesAt(t, v, i);
    assert RefBytes(t, v)[i] == 0x80 + Horner(t, bs, i + 1) % 0x40;
    ContinuationSplit(bs[i]);
  }

  /** Re-encoding the code point a well-formed pattern spells gives the same bytes. */
  lemma RefBytesOfRefValue(t: Tier, bs: seq<nat>)
    requires WellFormed(t, bs)
    ensures RefValue(t, bs) <= t.Ceiling()
    ensures RefBytes(t, RefValue(t, bs)) == bs
  {
    RefValueBound(t, bs);
    var rs := RefBytes(t, RefValue(t, bs));
    forall i | 0 <= i < |bs|
      ensures rs[i] == bs[i]
    {
      if i == 0 {
        LeadOfRefValue(t, bs);
      } else {
        ContinuationOfRefValue(t, bs, i);
      }
    }
  }
}
