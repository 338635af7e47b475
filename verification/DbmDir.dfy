/** The directory of dbm.c: one bit for each inner node of the trie, read and written
    through a buffer of one block. */
module DbmDir {
  import opened Bits

  const DBLKSIZ := 8192
  const BYTESIZ := 8

  // ----- the file

  function Zeros(): (z: seq<byte>)
    ensures |z| == DBLKSIZ && forall i | 0 <= i < |z| :: z[i] == 0
  {
    seq(DBLKSIZ, i => 0)
  }

  /** A block of the file; what was never written reads as zeros. */
  function Block(f: map<nat, seq<byte>>, b: nat): seq<byte> {
    if b in f then f[b] else Zeros()
  }

  ghost predicate Blocks(f: map<nat, seq<byte>>) {
    forall b | b in f :: |f[b]| == DBLKSIZ
  }

  function BlockOf(n: nat): nat { n / BYTESIZ / DBLKSIZ }
  function ByteOf(n: nat): nat { n / BYTESIZ % DBLKSIZ }
  function PlaceOf(n: nat): nat { n % BYTESIZ }

  predicate FileBit(f: map<nat, seq<byte>>, n: nat)
    requires Blocks(f)
  {
    Bit(Block(f, BlockOf(n))[ByteOf(n)], PlaceOf(n))
  }

  /** Writing the one byte sets the one bit of the file. */
  lemma OneBitSet(f: map<nat, seq<byte>>, n: nat, v: byte)
    requires Blocks(f) && v == WithBit(Block(f, BlockOf(n))[ByteOf(n)], PlaceOf(n))
    ensures var f' := f[BlockOf(n) := Block(f, BlockOf(n))[ByteOf(n) := v]];
            Blocks(f') && forall m: nat :: FileBit(f', m) == (m == n || FileBit(f, m))
  {
    var f' := f[BlockOf(n) := Block(f, BlockOf(n))[ByteOf(n) := v]];
    forall m: nat
      ensures FileBit(f', m) == (m == n || FileBit(f, m))
    {
      WithBitSets(Block(f, BlockOf(n))[ByteOf(n)], PlaceOf(n), PlaceOf(m));
    }
  }

  lemma EmptyFile()
    ensures Blocks(map[]) && forall n: nat :: !FileBit(map[], n)
  {
    forall n: nat
      ensures !FileBit(map[], n)
    {
      ZeroHasNoBits(PlaceOf(n));
    }
  }

  class Directory {
    var dirf: map<nat, seq<byte>>
    const dirbuf: array<byte>
    var oldb: int
    var maxbno: int

    ghost predicate Valid()
      reads this, dirbuf
    {
      && dirbuf.Length == DBLKSIZ && Blocks(dirf)
      && (oldb >= 0 ==> dirbuf[..] == Block(dirf, oldb))
      && (forall n: nat | FileBit(dirf, n) :: n <= maxbno)
    }

    /** The inner nodes: the bits that are set. */
    ghost function Inner(): (D: set<nat>)
      requires Valid()
      reads this, dirbuf
      ensures forall n: nat :: n in D <==> FileBit(dirf, n)
    {
      set n: nat | n <= maxbno && FileBit(dirf, n)
    }

    /** dbminit(): the directory as it is on file. */
    constructor (f: map<nat, seq<byte>>, size: nat)
      requires Blocks(f) && forall n: nat | FileBit(f, n) :: n < size * BYTESIZ
      ensures Valid() && fresh(dirbuf) && dirf == f
    {
      dirf := f;
      dirbuf := new byte[DBLKSIZ];
      oldb := -1;
      maxbno := size * BYTESIZ - 1;
    }

    method GetBit(bitno: nat) returns (r: bool)
      requires Valid()
      modifies this`oldb, dirbuf
      ensures Valid() && Inner() == old(Inner()) && r == (bitno in Inner())
      ensures bitno <= maxbno ==> oldb == BlockOf(bitno)
    {
      if bitno > maxbno {
        return false;
      }
      var n := bitno % BYTESIZ;
      var bn := bitno / BYTESIZ;
      var i := bn % DBLKSIZ;
      var b := bn / DBLKSIZ;
      if b != oldb {
        var block := Block(dirf, b);
        for j := 0 to DBLKSIZ
          invariant forall k | 0 <= k < j :: dirbuf[k] == block[k]
        {
          dirbuf[j] := block[j];
        }
        oldb := b;
        assert dirbuf[..] == block;
      }
      assert dirbuf[i] == dirbuf[..][i];
      r := Bit(dirbuf[i], n);
    }

    /** setbit(): the buffer holds the block of the bit asked for last. */
    method SetBit(bitno: nat)
      requires Valid() && (bitno <= maxbno ==> oldb == BlockOf(bitno))
      modifies this`dirf, this`oldb, this`maxbno, dirbuf
      ensures Valid() && Inner() == old(Inner()) + {bitno}
    {
      if bitno > maxbno {
        maxbno := bitno;
        var _ := GetBit(bitno);
      }
      var n := bitno % BYTESIZ;
      var bn := bitno / BYTESIZ;
      var i := bn % DBLKSIZ;
      var b := bn / DBLKSIZ;
      ghost var block := dirbuf[..];
      WithBitSets(dirbuf[i], n, 0);
      OneBitSet(dirf, bitno, WithBit(block[i], n));
      dirbuf[i] := WithBit(dirbuf[i], n);
      dirf := dirf[b := dirbuf[..]];
      assert dirbuf[..] == block[i := WithBit(block[i], n)];
    }
  }
}
