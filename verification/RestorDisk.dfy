/** dread() and dwrite() of restor.c: a small cache in front of the device. */
module RestorDisk {
  import opened Bits
  import opened FreeList

  const NCACHE := 3

  /** What a block holds, by its use: nothing but zeros, addresses of other blocks, a part of
      the free list, or the contents of a file. */
  datatype Block = Zeros | Indirect(entry: seq<int>) | ListPart(f: FBlk) | Data(bytes: seq<byte>)

  type Device = map<int, Block>

  function At(fi: Device, b: int): Block {
    if b in fi then fi[b] else Zeros
  }

  /** The number of a cache slot m steps after slot cur. */
  function Slot(cur: nat, m: nat): nat {
    if cur + m < NCACHE then cur + m else cur + m - NCACHE
  }

  class Cache {
    var fi: Device
    const c_bno: array<int>
    const c_time: array<int>
    const c_block: array<Block>
    var curcache: nat

    /** A slot holds what is on the device; no block is in two slots. */
    ghost predicate Valid()
      reads this, c_bno, c_time, c_block
    {
      && c_bno.Length == c_time.Length == c_block.Length == NCACHE && c_bno != c_time && curcache < NCACHE
      && (forall i | 0 <= i < NCACHE && c_bno[i] != 0 :: c_block[i] == At(fi, c_bno[i]))
      && (forall i, j | 0 <= i < j < NCACHE && c_bno[i] != 0 :: c_bno[i] != c_bno[j])
    }

    constructor (fi: Device)
      ensures Valid() && this.fi == fi && fresh(c_bno) && fresh(c_time) && fresh(c_block)
    {
      this.fi := fi;
      c_bno := new int[NCACHE](i => 0);
      c_time := new int[NCACHE](i => 0);
      c_block := new Block[NCACHE](i => Zeros);
      curcache := 0;
      new;
    }

    /** dwrite() */
    method Write(bno: int, b: Block)
      requires Valid()
      modifies this`fi, c_time, c_block
      ensures Valid() && fi == old(fi)[bno := b]
    {
      var i := 0;
      while i < NCACHE
        invariant i <= NCACHE && fi == old(fi)
        invariant forall k | 0 <= k < i :: c_bno[k] != bno
        invariant forall k | 0 <= k < NCACHE :: c_block[k] == old(c_block[k])
        invariant forall k | 0 <= k < NCACHE :: c_bno[k] == old(c_bno[k])
      {
        if c_bno[i] == bno {
          c_block[i] := b;
          c_time[i] := 0;
          break;
        }
        c_time[i] := c_time[i] + 1;
        i := i + 1;
      }
      fi := fi[bno := b];
    }

    /** dread() */
    method Read(bno: int) returns (b: Block)
      requires Valid() && bno != 0
      modifies this`curcache, c_bno, c_time, c_block
      ensures Valid() && b == At(fi, bno)
    {
      var i, j: nat := 0, 0;
      ghost var start := Slot(curcache, 1);
      while i < NCACHE
        invariant i <= NCACHE && j < NCACHE && curcache < NCACHE && start < NCACHE
        invariant Slot(curcache, 1) == Slot(start, i)
        invariant forall m | 0 <= m < i :: c_bno[Slot(start, m)] != bno
        invariant Valid() && c_bno[..] == old(c_bno[..])
      {
        curcache := curcache + 1;
        if curcache >= NCACHE {
          curcache := 0;
        }
        assert curcache == Slot(start, i);
        if c_bno[curcache] == bno {
          c_time[curcache] := 0;
          return c_block[curcache];
        }
        c_time[curcache] := c_time[curcache] + 1;
        if c_time[j] < c_time[curcache] {
          j := curcache;
        }
        i := i + 1;
      }
      forall k | 0 <= k < NCACHE
        ensures c_bno[k] != bno
      {
        assert k == Slot(start, if k >= start then k - start else k + NCACHE - start);
      }
      c_block[j] := At(fi, bno);
      c_time[j] := 0;
      c_bno[j] := bno;
      return c_block[j];
    }
  }
}
