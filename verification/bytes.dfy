/** Little-endian byte strings and the width conversions a C assignment performs
    between integer fields of different sizes. All architectures the translator
    supports (x86, x86-64, AArch64) store integers little-endian. */
module Bytes {

  type Byte = b: int | 0 <= b < 256

  /** 256^n, the number of values an n-byte field can hold. */
  function Pow256(n: nat): (p: nat)
    ensures p >= 1
  {
    if n == 0 then 1 else 256 * Pow256(n - 1)
  }

  /** The unsigned value of a little-endian byte string. */
  function Unsigned(bs: seq<Byte>): (v: nat)
    ensures v < Pow256(|bs|)
  {
    if bs == [] then 0 else bs[0] + 256 * Unsigned(bs[1..])
  }

  /** The two's-complement value of a little-endian byte string. */
  function Signed(bs: seq<Byte>): int
  {
    if bs != [] && bs[|bs| - 1] >= 128 then Unsigned(bs) - Pow256(|bs|) else Unsigned(bs)
  }

  /** n copies of the byte b. */
  function Fill(b: Byte, n: nat): (r: seq<Byte>)
    ensures |r| == n && forall i :: 0 <= i < n ==> r[i] == b
  {
    if n == 0 then [] else [b] + Fill(b, n - 1)
  }

  /** The byte a widening conversion pads with: 0xff for a negative signed value, 0 otherwise. */
  function ExtensionByte(bs: seq<Byte>, signed: bool): Byte
  {
    if signed && bs != [] && bs[|bs| - 1] >= 128 then 255 else 0
  }

  /** The bytes of a w-byte field assigned from the field held in bs: narrowing keeps
      the low-order bytes, widening zero-extends (sign-extends a signed field). */
  function Resize(bs: seq<Byte>, w: nat, signed: bool): (r: seq<Byte>)
    ensures |r| == w
    ensures forall i :: 0 <= i < w && i < |bs| ==> r[i] == bs[i]
    ensures forall i :: |bs| <= i < w ==> r[i] == ExtensionByte(bs, signed)
  {
    if w <= |bs| then bs[..w] else bs + Fill(ExtensionByte(bs, signed), w - |bs|)
  }

  /** r with bs written over it from offset on, one byte at a time. */
  function Splice(r: seq<Byte>, offset: nat, bs: seq<Byte>): (r': seq<Byte>)
    requires offset + |bs| <= |r|
    ensures |r'| == |r|
    decreases |bs|
  {
    if bs == [] then r else Splice(r[offset := bs[0]], offset + 1, bs[1..])
  }

  /** Splicing replaces exactly the bytes [offset, offset + |bs|) and keeps the rest. */
  lemma {:induction false} SpliceContents(r: seq<Byte>, offset: nat, bs: seq<Byte>)
    requires offset + |bs| <= |r|
    ensures Splice(r, offset, bs) == r[..offset] + bs + r[offset + |bs|..]
    decreases |bs|
  {
    if bs != [] {
      SpliceContents(r[offset := bs[0]], offset + 1, bs[1..]);
      assert r[offset := bs[0]][..offset + 1] == r[..offset] + [bs[0]];
      assert [bs[0]] + bs[1..] == bs;
    }
  }

  /** Byte by byte: inside the window the spliced bytes, outside it the old ones. */
  lemma SpliceAt(r: seq<Byte>, offset: nat, bs: seq<Byte>)
    requires offset + |bs| <= |r|
    ensures Splice(r, offset, bs)[offset .. offset + |bs|] == bs
    ensures forall i :: offset <= i < offset + |bs| ==> Splice(r, offset, bs)[i] == bs[i - offset]
    ensures forall i :: 0 <= i < |r| && !(offset <= i < offset + |bs|) ==> Splice(r, offset, bs)[i] == r[i]
  {
    SpliceContents(r, offset, bs);
    assert Splice(r, offset, bs)[offset .. offset + |bs|] == (r[..offset] + bs + r[offset + |bs|..])[offset .. offset + |bs|];
  }

  lemma {:induction false} Pow256Add(a: nat, b: nat)
    ensures Pow256(a + b) == Pow256(a) * Pow256(b)
  {
    if a > 0 {
      Pow256Add(a - 1, b);
      calc {
        Pow256(a + b);
        256 * Pow256(a - 1 + b);
        256 * (Pow256(a - 1) * Pow256(b));
        (256 * Pow256(a - 1)) * Pow256(b);
      }
    }
  }

  lemma {:induction false} UnsignedAppend(a: seq<Byte>, b: seq<Byte>)
    ensures Unsigned(a + b) == Unsigned(a) + Pow256(|a|) * Unsigned(b)
  {
    if a == [] {
      assert a + b == b;
    } else {
      var a' := a[1..];
      assert (a + b)[1..] == a' + b;
      UnsignedAppend(a', b);
      var u, p, v := Unsigned(a'), Pow256(|a'|), Unsigned(b);
      assert Unsigned(a + b) == a[0] + 256 * (u + p * v);
      assert Unsigned(a) == a[0] + 256 * u;
      assert Pow256(|a|) == 256 * p;
      ScaleSum(u, p, v);
    }
  }

  lemma UnsignedSplit(bs: seq<Byte>, k: nat)
    requires k <= |bs|
    ensures Unsigned(bs) == Unsigned(bs[..k]) + Pow256(k) * Unsigned(bs[k..])
  {
    assert bs == bs[..k] + bs[k..];
    UnsignedAppend(bs[..k], bs[k..]);
  }

  lemma ScaleSum(u: int, p: int, v: int)
    ensures 256 * (u + p * v) == 256 * u + (256 * p) * v
  {
  }

  lemma {:induction false} UnsignedFill(b: Byte, n: nat)
    ensures b == 0 ==> Unsigned(Fill(b, n)) == 0
    ensures b == 255 ==> Unsigned(Fill(b, n)) == Pow256(n) - 1
  {
    if n > 0 {
      UnsignedFill(b, n - 1);
      assert Fill(b, n)[1..] == Fill(b, n - 1);
    }
  }

  /** x % m == r whenever x is r plus a multiple of m and r is a remainder. */
  lemma ModOfMultiplePlus(x: int, m: int, q: int, r: int)
    requires m > 0 && 0 <= r < m && x == q * m + r
    ensures x % m == r
  {
    var k, s := x / m, x % m;
    assert (q - k) * m == s - r;
    if q - k > 0 {
      MulAtLeast(q - k, m);
    } else if q - k < 0 {
      MulAtLeast(k - q, m);
    }
  }

  lemma MulAtLeast(d: int, m: int)
    requires d >= 1 && m > 0
    ensures d * m >= m
  {
  }

  /** The width conversion of a C assignment: the stored value is the source value
      (read as signed or unsigned, as the field's type says) reduced modulo 2^(8w).
      Narrowing therefore keeps the low-order bits and widening preserves the value. */
  lemma ResizeValue(bs: seq<Byte>, w: nat, signed: bool)
    ensures Unsigned(Resize(bs, w, signed)) == (if signed then Signed(bs) else Unsigned(bs)) % Pow256(w)
  {
    if w <= |bs| {
      NarrowValue(bs, w, signed);
    } else {
      WidenValue(bs, w, signed);
    }
  }

  lemma NarrowValue(bs: seq<Byte>, w: nat, signed: bool)
    requires w <= |bs|
    ensures Unsigned(bs[..w]) == (if signed then Signed(bs) else Unsigned(bs)) % Pow256(w)
  {
    var n := |bs|;
    UnsignedSplit(bs, w);
    Pow256Add(w, n - w);
    var negative := signed && n > 0 && bs[n - 1] >= 128;
    DropMultiples(if signed then Signed(bs) else Unsigned(bs), Unsigned(bs), Unsigned(bs[..w]),
      Unsigned(bs[w..]), Pow256(w), Pow256(n - w), negative);
  }

  /** The arithmetic behind NarrowValue: a value that differs from u by multiples of pw
      leaves remainder u. */
  lemma DropMultiples(v: int, whole: int, u: int, q: int, pw: int, ph: int, negative: bool)
    requires pw > 0 && 0 <= u < pw && whole == u + pw * q
    requires v == if negative then whole - pw * ph else whole
    ensures v % pw == u
  {
    if negative {
      Regroup(u, pw, q, ph);
      ModOfMultiplePlus(v, pw, q - ph, u);
    } else {
      assert v == q * pw + u;
      ModOfMultiplePlus(v, pw, q, u);
    }
  }

  lemma Regroup(u: int, pw: int, q: int, ph: int)
    ensures u + pw * q - pw * ph == (q - ph) * pw + u
  {
  }

  lemma WidenValue(bs: seq<Byte>, w: nat, signed: bool)
    requires |bs| < w
    ensures Unsigned(Resize(bs, w, signed)) == (if signed then Signed(bs) else Unsigned(bs)) % Pow256(w)
  {
    var n := |bs|;
    var e := ExtensionByte(bs, signed);
    var r := Resize(bs, w, signed);
    assert r == bs + Fill(e, w - n);
    UnsignedAppend(bs, Fill(e, w - n));
    UnsignedFill(e, w - n);
    Pow256Add(n, w - n);
    AddWrap(if signed then Signed(bs) else Unsigned(bs), Unsigned(bs), Unsigned(Fill(e, w - n)),
      Unsigned(r), Pow256(n), Pow256(w - n), e == 255);
  }

  /** The arithmetic behind WidenValue: padding with 0xff bytes adds 2^(8w) - 2^(8n),
      which is the signed value plus one full wrap. */
  lemma AddWrap(v: int, u: int, pad: int, ur: int, pn: int, pe: int, ones: bool)
    requires pn > 0 && pe > 0 && 0 <= u < pn && 0 <= ur < pn * pe
    requires ur == u + pn * pad
    requires if ones then pad == pe - 1 && v == u - pn else pad == 0 && v == u
    ensures v % (pn * pe) == ur
  {
    if ones {
      Expand(pn, pe);
      ModOfMultiplePlus(v, pn * pe, -1, ur);
    } else {
      ModOfMultiplePlus(v, pn * pe, 0, ur);
    }
  }

  lemma Expand(pn: int, pe: int)
    ensures pn * (pe - 1) == pn * pe - pn
  {
  }

  /** Widening a signed field preserves its signed value (sign extension). */
  lemma SignExtendPreservesValue(bs: seq<Byte>, w: nat)
    requires 0 < |bs| <= w
    ensures Signed(Resize(bs, w, true)) == Signed(bs)
  {
    var n := |bs|;
    if n < w {
      var e := ExtensionByte(bs, true);
      var r := Resize(bs, w, true);
      assert r == bs + Fill(e, w - n);
      UnsignedAppend(bs, Fill(e, w - n));
      UnsignedFill(e, w - n);
      Pow256Add(n, w - n);
      var pn, pe := Pow256(n), Pow256(w - n);
      assert r[w - 1] == e;
      if e == 255 {
        assert Unsigned(r) == Unsigned(bs) + pn * (pe - 1);
        Expand(pn, pe);
      } else {
        assert Unsigned(r) == Unsigned(bs) + pn * 0;
      }
    } else {
      assert Resize(bs, w, true) == bs;
    }
  }
}
