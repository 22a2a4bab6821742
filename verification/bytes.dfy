/**
  Big-endian packing of a byte sequence into one integer (the codec's
  external form: bytes C2 80 are carried as 0xC280), its inverse, and the
  division facts the rest of the model rests on.
 */
module Bytes {

  function Pow256(n: nat): (r: nat)
    ensures r > 0
  {
    if n == 0 then 1 else 0x100 * Pow256(n - 1)
  }

  function Pow64(n: nat): (r: nat)
    ensures r > 0
  {
    if n == 0 then 1 else 0x40 * Pow64(n - 1)
  }

  /** The powers the source writes as literal shifts. */
  lemma Pow64Values()
    ensures Pow64(1) == 0x40 && Pow64(2) == 0x1000 && Pow64(3) == 0x4_0000
    ensures Pow64(4) == 0x100_0000 && Pow64(5) == 0x4000_0000
  {}

  lemma Pow256Values()
    ensures Pow256(1) == 0x100 && Pow256(2) == 0x1_0000 && Pow256(3) == 0x100_0000
    ensures Pow256(4) == 0x1_0000_0000 && Pow256(5) == 0x100_0000_0000
    ensures Pow256(6) == 0x1_0000_0000_0000
  {}

  predicate AllBytes(bs: seq<nat>) {
    forall i :: 0 <= i < |bs| ==> bs[i] < 0x100
  }

  /** The bytes read as one big-endian integer: the first byte is the most significant. */
  function Pack(bs: seq<nat>): nat
    decreases |bs|
  {
    if |bs| == 0 then 0 else Pack(bs[..|bs| - 1]) * 0x100 + bs[|bs| - 1]
  }

  /** The low `n` bytes of `h`, most significant first. */
  function Unpack(h: nat, n: nat): (bs: seq<nat>)
    ensures |bs| == n && AllBytes(bs)
  {
    if n == 0 then [] else Unpack(h / 0x100, n - 1) + [h % 0x100]
  }

  // ---------------------------------------------------------------------
  // Division facts

  lemma MulAtLeast(k: int, d: int)
    requires k >= 1 && d > 0
    ensures k * d >= d
  {}

  lemma DivNonneg(x: nat, d: nat)
    requires d > 0
    ensures x / d >= 0
  {}

  /** Quotient and remainder are determined by `x == q * d + r` with `0 <= r < d`. */
  lemma DivModUnique(x: int, d: int, q: int, r: int)
    requires 0 < d && 0 <= r < d && x == q * d + r
    ensures x / d == q && x % d == r
  {
    var q', r' := x / d, x % d;
    assert q * d + r == q' * d + r';
    assert (q - q') * d == r' - r;
    if q > q' {
      MulAtLeast(q - q', d);
      assert false;
    } else if q < q' {
      MulAtLeast(q' - q, d);
      assert false;
    }
  }

  /** Dividing by `a * b` is dividing by `a`, then by `b`. */
  lemma DivDiv(x: nat, a: nat, b: nat)
    requires a > 0 && b > 0
    ensures x / (a * b) == x / a / b
  {
    var q, r2, r1 := x / a / b, x / a % b, x % a;
    assert x == (q * b + r2) * a + r1;
    assert r2 * a <= (b - 1) * a;
    assert x == q * (a * b) + (r2 * a + r1);
    DivModUnique(x, a * b, q, r2 * a + r1);
  }

  /** Masking to the low bits of a byte keeps the low bits of the whole value. */
  lemma ModMod(x: nat, a: nat, b: nat)
    requires a > 0 && b > 0
    ensures x % (a * b) % a == x % a
  {
    var q, r := x / (a * b), x % (a * b);
    assert x == (q * b + r / a) * a + r % a;
    DivModUnique(x, a, q * b + r / a, r % a);
  }

  /** A quotient below the bound `a * b` divided by `b` stays below `a`. */
  lemma DivBelow(x: nat, a: nat, b: nat)
    requires b > 0 && x < a * b
    ensures x / b < a
  {
  }

  // ---------------------------------------------------------------------
  // Pack and Unpack

  /** Packing one more byte shifts the value up by eight bits. */
  lemma PackStep(bs: seq<nat>, k: nat)
    requires k < |bs|
    ensures Pack(bs[..k + 1]) == Pack(bs[..k]) * 0x100 + bs[k]
  {
    assert bs[..k + 1][..k] == bs[..k];
  }

  /** Unpacking a packed sequence gives the sequence back. */
  lemma {:induction false} UnpackPack(bs: seq<nat>)
    requires AllBytes(bs)
    ensures Unpack(Pack(bs), |bs|) == bs
  {
    if |bs| > 0 {
      var init, last := bs[..|bs| - 1], bs[|bs| - 1];
      assert AllBytes(init);
      DivModUnique(Pack(bs), 0x100, Pack(init), last);
      UnpackPack(init);
      assert bs == init + [last];
    }
  }

  /** Packing the low `n` bytes of a value below 256^n gives the value back. */
  lemma {:induction false} PackUnpack(h: nat, n: nat)
    requires h < Pow256(n)
    ensures Pack(Unpack(h, n)) == h
  {
    if n > 0 {
      var q, r := h / 0x100, h % 0x100;
      var bs := Unpack(h, n);
      assert bs == Unpack(q, n - 1) + [r];
      assert bs[..n - 1] == Unpack(q, n - 1);
      assert q < Pow256(n - 1) by { DivBelow(h, Pow256(n - 1), 0x100); }
      PackUnpack(q, n - 1);
      assert Pack(bs) == Pack(Unpack(q, n - 1)) * 0x100 + r;
    }
  }

  /** Byte `i` of the unpacked form (counted from the most significant) is the matching byte of `h`. */
  lemma {:induction false} UnpackAt(h: nat, n: nat, i: nat)
    requires i < n
    ensures Unpack(h, n)[i] == h / Pow256(n - 1 - i) % 0x100
  {
    if i < n - 1 {
      UnpackAt(h / 0x100, n - 1, i);
      DivDiv(h, 0x100, Pow256(n - 2 - i));
    }
  }
}
