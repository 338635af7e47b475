/** The bit maps of fsck.c. */
module FsckMap {
  import opened Bits

  /** The block numbers below 8 * |s| whose bit is set. */
  ghost function BlocksIn(s: seq<byte>): (b: set<nat>)
    ensures forall n: nat :: n in b <==> n < 8 * |s| && Bit(s[n / 8], n % 8)
  {
    set n: nat | n < 8 * |s| && Bit(s[n / 8], n % 8)
  }

  lemma SetIn(s: seq<byte>, n: nat, v: byte)
    requires n < 8 * |s| && v == WithBit(s[n / 8], n % 8)
    ensures BlocksIn(s[n / 8 := v]) == BlocksIn(s) + {n}
  {
    forall m: nat | m < 8 * |s|
      ensures m in BlocksIn(s[n / 8 := v]) <==> m == n || m in BlocksIn(s)
    {
      WithBitSets(s[n / 8], n % 8, m % 8);
    }
  }

  lemma ClearIn(s: seq<byte>, n: nat, v: byte)
    requires n < 8 * |s| && v == WithoutBit(s[n / 8], n % 8)
    ensures BlocksIn(s[n / 8 := v]) == BlocksIn(s) - {n}
  {
    forall m: nat | m < 8 * |s|
      ensures m in BlocksIn(s[n / 8 := v]) <==> m != n && m in BlocksIn(s)
    {
      WithoutBitClears(s[n / 8], n % 8, m % 8);
    }
  }

  /** domap() for one map. */
  class BitMap {
    const bytes: array<byte>

    ghost function Blocks(): set<nat>
      reads bytes
    {
      BlocksIn(bytes[..])
    }

    /** A map cleared by setup(). */
    constructor (fmax: nat)
      ensures bytes.Length == (fmax + 7) / 8 && fresh(bytes) && Blocks() == {}
    {
      bytes := new byte[(fmax + 7) / 8](i => 0);
      new;
      forall n: nat | n < 8 * bytes.Length
        ensures n !in Blocks()
      {
        ZeroHasNoBits(n % 8);
      }
    }

    lemma Bounds()
      ensures forall n | n in Blocks() :: n < 8 * bytes.Length
    {
    }

    /** copy() of another map */
    constructor Copy(m: BitMap)
      ensures bytes.Length == m.bytes.Length && fresh(bytes) && Blocks() == m.Blocks()
    {
      bytes := new byte[m.bytes.Length](i requires 0 <= i < m.bytes.Length reads m.bytes => m.bytes[i]);
      new;
      assert bytes[..] == m.bytes[..];
    }

    method Set(n: nat)
      requires n < 8 * bytes.Length
      modifies bytes
      ensures Blocks() == old(Blocks()) + {n}
    {
      ghost var s := bytes[..];
      WithBitSets(bytes[n / 8], n % 8, 0);
      bytes[n / 8] := WithBit(bytes[n / 8], n % 8);
      SetIn(s, n, bytes[n / 8]);
      assert bytes[..] == s[n / 8 := bytes[n / 8]];
    }

    method Get(n: nat) returns (r: bool)
      requires n < 8 * bytes.Length
      ensures r == (n in Blocks())
    {
      r := Bit(bytes[n / 8], n % 8);
    }

    method Clear(n: nat)
      requires n < 8 * bytes.Length
      modifies bytes
      ensures Blocks() == old(Blocks()) - {n}
    {
      ghost var s := bytes[..];
      bytes[n / 8] := WithoutBit(bytes[n / 8], n % 8);
      ClearIn(s, n, bytes[n / 8]);
      assert bytes[..] == s[n / 8 := bytes[n / 8]];
    }
  }
}
