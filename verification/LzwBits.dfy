/**
 The two byte-buffer operations that compress.c builds from shifts and masks: putting an
 n-bit code at a bit offset of a buffer, and reading one back.
 */
module LzwBits {
  import opened Bits

  /** Bit p of a sequence of bytes, the low bit of the first byte being bit 0. */
  predicate BitAt(z: seq<byte>, p: nat)
    requires p < 8 * |z|
  {
    Bit(z[p / 8], p % 8)
  }

  /** The n bits of z from bit offset on are those of code. */
  predicate FieldAt(z: seq<byte>, offset: nat, n: nat, code: nat)
  {
    offset + n <= 8 * |z| && forall b | 0 <= b < n :: BitAt(z, offset + b) == Bit(code, b)
  }

  lemma FieldsAgree(z: seq<byte>, offset: nat, n: nat, c: nat, d: nat)
    requires FieldAt(z, offset, n, c) && FieldAt(z, offset, n, d)
    requires c < Pow2(n) && d < Pow2(n)
    ensures c == d
  {
    forall b | 0 <= b < n
      ensures Bit(c, b) == Bit(d, b)
    {
      assert BitAt(z, offset + b) == Bit(c, b);
    }
    BitsDetermine(c, d, n);
  }

  /** Bit j of a byte is bit s + j of the code. */
  predicate SameBit(b: byte, code: nat, s: int, j: nat)
    requires 0 <= s + j
  {
    Bit(b, j) == Bit(code, s + j)
  }

  /** Bits lo..hi of a byte are bits s + lo..s + hi of the code. */
  predicate Matches(b: byte, code: nat, s: int, lo: nat, hi: nat)
    requires 0 <= s + lo
  {
    forall j: nat | lo <= j < hi :: SameBit(b, code, s, j)
  }

  /** How many bits of byte t of a field that starts in byte 0 and ends before bit e. */
  function Upto(t: nat, e: nat): nat {
    if e <= 8 * t then 0 else if e < 8 * t + 8 then e - 8 * t else 8
  }

  /** A field of 9 to 16 bits is checked byte by byte; it reaches two or three of them. */
  lemma FieldFromBytes(z: seq<byte>, q: nat, r: nat, n: nat, code: nat)
    requires r < 8 && 9 <= n <= 16 && 8 * q + r + n <= 8 * |z|
    requires Matches(z[q], code, 0 - r, r, 8)
    requires Matches(z[q + 1], code, 8 - r, 0, Upto(1, r + n))
    requires r + n > 16 ==> Matches(z[q + 2], code, 16 - r, 0, Upto(2, r + n))
    ensures FieldAt(z, 8 * q + r, n, code)
  {
    forall b | 0 <= b < n
      ensures BitAt(z, 8 * q + r + b) == Bit(code, b)
    {
      var t, j := (r + b) / 8, (r + b) % 8;
      assert (8 * q + r + b) / 8 == q + t && (8 * q + r + b) % 8 == j;
      if t == 0 {
        assert SameBit(z[q], code, 0 - r, j);
      } else if t == 1 {
        assert SameBit(z[q + 1], code, 8 - r, j);
      } else {
        assert SameBit(z[q + 2], code, 16 - r, j);
      }
    }
  }

  lemma FirstByteBits(was: byte, code: nat, r: nat)
    requires r < 8
    ensures Low(was, r) + Low(Shl(code, r), 8) < 256
    ensures forall j: nat | j < 8 ::
              Bit(Low(was, r) + Low(Shl(code, r), 8), j) == if j < r then Bit(was, j) else Bit(code, j - r)
  {
    hide Bit, Low, Shl, Pow2;
    LowOfShl(code, r, 8 - r);
    var x := Low(was, r) + Shl(Low(code, 8 - r), r);
    JoinFits(Low(was, r), Low(code, 8 - r), r, 8 - r);
    OneByte(x);
    forall j: nat | j < 8
      ensures Bit(x, j) == if j < r then Bit(was, j) else Bit(code, j - r)
    {
      BitOfJoin(Low(was, r), Low(code, 8 - r), r, j);
      if j < r {
        BitOfLow(was, r, j);
      } else {
        BitOfLow(code, 8 - r, j - r);
      }
    }
  }

  /** (was & rmask[r]) | (code << r) & lmask[r], cut to a byte. */
  function FirstByte(was: byte, code: nat, r: nat): (b: byte)
    requires r < 8
    ensures forall j: nat | j < 8 :: Bit(b, j) == if j < r then Bit(was, j) else Bit(code, j - r)
  {
    FirstByteBits(was, code, r);
    Low(was, r) + Low(Shl(code, r), 8)
  }

  /** A store into a char. */
  function ToByte(x: nat): (b: byte)
    ensures forall j: nat | j < 8 :: Bit(b, j) == Bit(x, j)
    ensures x < 256 ==> b == x
  {
    OneByte(Low(x, 8));
    OneByte(x);
    assert x < 256 ==> Low(x, 8) == x by {
      if x < 256 {
        LowOfSmall(x, 8);
      }
    }
    assert forall j: nat | j < 8 :: Bit(Low(x, 8), j) == Bit(x, j) by {
      forall j: nat | j < 8
        ensures Bit(Low(x, 8), j) == Bit(x, j)
      {
        BitOfLow(x, 8, j);
      }
    }
    Low(x, 8)
  }

  /** The bytes that output() leaves make up the code. */
  lemma InsertedBytes(z: seq<byte>, was: byte, q: nat, r: nat, n: nat, code: nat)
    requires r < 8 && 9 <= n <= 16 && 8 * q + r + n <= 8 * |z|
    requires z[q] == FirstByte(was, code, r)
    requires z[q + 1] == ToByte(Shr(code, 8 - r))
    requires r + n > 16 ==> z[q + 2] == ToByte(Shr(Shr(code, 8 - r), 8))
    ensures FieldAt(z, 8 * q + r, n, code)
  {
    hide Bit, Shr;
    var s0, s1, s2 := 0 - r, 8 - r, 16 - r;
    assert Matches(z[q], code, s0, r, 8);
    assert Matches(z[q + 1], code, s1, 0, 8) by {
      var b := z[q + 1];
      forall j: nat | j < 8
        ensures SameBit(b, code, s1, j)
      {
        BitOfShr(code, 8 - r, j);
      }
    }
    if r + n > 16 {
      var b := z[q + 2];
      forall j: nat | j < 8
        ensures SameBit(b, code, s2, j)
      {
        BitOfShr(Shr(code, 8 - r), 8, j);
        BitOfShr(code, 8 - r, 8 + j);
      }
    }
    FieldFromBytes(z, q, r, n, code);
  }

  lemma KeptBits(z: seq<byte>, was: seq<byte>, q: nat, r: nat, code: nat)
    requires r < 8 && q < |z| == |was|
    requires z[..q] == was[..q] && z[q] == FirstByte(was[q], code, r)
    ensures forall p | 0 <= p < 8 * q + r :: BitAt(z, p) == BitAt(was, p)
  {
    forall p | 0 <= p < 8 * q + r
      ensures BitAt(z, p) == BitAt(was, p)
    {
      if p / 8 < q {
        assert z[p / 8] == z[..q][p / 8] == was[p / 8];
      }
    }
  }

  /** output() of compress.c, the part that inserts the code: bits below the offset stay,
      the next n bits become the code. */
  method InsertCode(buf: array<byte>, offset: nat, n: nat, code: nat)
    requires 9 <= n <= 16 && offset + n <= 8 * buf.Length
    modifies buf
    ensures forall p | 0 <= p < offset :: BitAt(buf[..], p) == old(BitAt(buf[..], p))
    ensures FieldAt(buf[..], offset, n, code)
  {
    hide Bit, Low, Pow2, FieldAt;
    var bp, r := offset / 8, offset % 8;
    var bits, rest := n, code;
    ghost var q, was := bp, buf[..];
    buf[bp] := FirstByte(buf[bp], code, r);
    bp := bp + 1;
    bits := bits - (8 - r);
    rest := Shr(rest, 8 - r);
    if bits >= 8 {
      buf[bp] := ToByte(rest);
      bp := bp + 1;
      rest := Shr(rest, 8);
      bits := bits - 8;
    }
    if bits > 0 {
      buf[bp] := ToByte(rest);
    }
    assert offset == 8 * q + r;
    ghost var z := buf[..];
    assert z[q] == FirstByte(was[q], code, r);
    assert z[q + 1] == ToByte(Shr(code, 8 - r));
    assert r + n > 16 ==> z[q + 2] == ToByte(Shr(Shr(code, 8 - r), 8));
    InsertedBytes(z, was[q], q, r, n, code);
    KeptBits(z, was, q, r, code);
  }

  /** What getcode() assembles: the high 8 - r bits of one byte, the next byte or its low
      bits, and the low bits of a third. */
  lemma ExtractedBytes(z: seq<byte>, q: nat, r: nat, n: nat, c0: nat, c1: nat, code: nat)
    requires r < 8 && 9 <= n <= 16 && 8 * q + r + n <= 8 * |z|
    requires c0 == Shr(z[q], r)
    requires c1 == c0 + Shl(Low(z[q + 1], Upto(1, r + n)), 8 - r)
    requires code == c1 + if r + n > 16 then Shl(Low(z[q + 2], r + n - 16), 16 - r) else 0
    ensures code < Pow2(n) && FieldAt(z, 8 * q + r, n, code)
  {
    hide Shr, Shl, Low;
    TwoBytes(z[q], z[q + 1], r, Upto(1, r + n), c0, c1);
    if r + n > 16 {
      ThirdByte(z[q], z[q + 1], z[q + 2], r, r + n - 16, c1, code);
    }
    FieldFromBytes(z, q, r, n, code);
  }

  lemma TwoBytes(x0: byte, x1: byte, r: nat, w: nat, c0: nat, c1: nat)
    requires r < 8 && c0 == Shr(x0, r) && c1 == c0 + Shl(Low(x1, w), 8 - r)
    ensures c1 < Pow2(8 - r + w)
    ensures Matches(x0, c1, 0 - r, r, 8) && Matches(x1, c1, 8 - r, 0, w)
  {
    FirstPart(x0, r);
    MatchesBelow(x0, c0, Low(x1, w), 8 - r, 0 - r, r, 8);
    MatchesAbove(x1, c0, 8 - r, w);
  }

  lemma ThirdByte(x0: byte, x1: byte, x2: byte, r: nat, w: nat, c1: nat, code: nat)
    requires r < 8 && c1 < Pow2(16 - r) && code == c1 + Shl(Low(x2, w), 16 - r)
    requires Matches(x0, c1, 0 - r, r, 8) && Matches(x1, c1, 8 - r, 0, 8)
    ensures code < Pow2(16 - r + w)
    ensures Matches(x0, code, 0 - r, r, 8) && Matches(x1, code, 8 - r, 0, 8) && Matches(x2, code, 16 - r, 0, w)
  {
    MatchesBelow(x0, c1, Low(x2, w), 16 - r, 0 - r, r, 8);
    MatchesBelow(x1, c1, Low(x2, w), 16 - r, 8 - r, 0, 8);
    MatchesAbove(x2, c1, 16 - r, w);
  }

  lemma FirstPart(x: byte, r: nat)
    requires r < 8
    ensures Shr(x, r) < Pow2(8 - r) && Matches(x, Shr(x, r), 0 - r, r, 8)
  {
    OneByte(x);
    ShrFits(x, r, 8 - r);
    var c, s := Shr(x, r), 0 - r;
    forall j: nat | r <= j < 8
      ensures SameBit(x, c, s, j)
    {
      BitOfShr(x, r, j - r);
    }
  }

  /** Joining bits above position k changes nothing below it. */
  lemma MatchesBelow(x: byte, lo: nat, hi: nat, k: nat, s: int, a: nat, b: nat)
    requires lo < Pow2(k) && 0 <= s + a && s + b <= k
    requires Matches(x, lo, s, a, b)
    ensures Matches(x, lo + Shl(hi, k), s, a, b)
  {
    var c := lo + Shl(hi, k);
    forall j: nat | a <= j < b
      ensures SameBit(x, c, s, j)
    {
      assert SameBit(x, lo, s, j);
      BitOfJoin(lo, hi, k, s + j);
    }
  }

  lemma MatchesAbove(x: byte, lo: nat, k: nat, w: nat)
    requires lo < Pow2(k)
    ensures lo + Shl(Low(x, w), k) < Pow2(k + w)
    ensures Matches(x, lo + Shl(Low(x, w), k), k, 0, w)
  {
    var hi := Low(x, w);
    var c := lo + Shl(hi, k);
    JoinFits(lo, hi, k, w);
    forall j: nat | j < w
      ensures SameBit(x, c, k, j)
    {
      BitOfJoin(lo, hi, k, k + j);
      BitOfLow(x, w, j);
    }
  }

  /** getcode() of compress.c, the part that extracts the n bits at the offset.  Where the
      field ends on a byte boundary the C also reads the byte after it and masks it away. */
  method ExtractCode(buf: array<byte>, offset: nat, n: nat) returns (code: nat)
    requires 9 <= n <= 16 && offset + n <= 8 * buf.Length
    ensures code < Pow2(n)
    ensures FieldAt(buf[..], offset, n, code)
  {
    hide Bit, Pow2;
    var bp, r, bits := offset / 8, offset % 8, n;
    ghost var q, r0 := bp, r;
    assert offset == 8 * q + r0;
    code := Shr(buf[bp], r);
    bp := bp + 1;
    bits := bits - (8 - r);
    r := 8 - r;
    ghost var c0, c1 := code, code + Shl(Low(buf[bp], Upto(1, r0 + n)), r);
    if bits >= 8 {
      LowOfByte(buf[bp]);
      code := code + Shl(buf[bp], r);
      bp := bp + 1;
      r := r + 8;
      bits := bits - 8;
    }
    if bits > 0 {
      code := code + Shl(Low(buf[bp], bits), r);
    }
    ExtractedBytes(buf[..], q, r0, n, c0, c1, code);
  }

  lemma LowOfByte(b: byte)
    ensures Low(b, 8) == b
  {
    OneByte(b);
    LowOfSmall(b, 8);
  }
}
