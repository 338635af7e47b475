/** balloc() and bfree() of restor.c: the free list as a stack. */
module RestorFree {
  import opened Bits
  import opened Options
  import opened FreeList
  import opened RestorDisk

  /** The parts of the free list on the device. */
  ghost function Parts(fi: Device): Disk {
    map b | b in fi && fi[b].ListPart? :: fi[b].f
  }

  lemma ListedApart(fi: Device, fi': Device, c: FBlk, t: seq<int>)
    requires Listed(Parts(fi), c, t) && forall b | b in t :: At(fi', b) == At(fi, b)
    ensures Listed(Parts(fi'), c, t)
  {
    forall b | b in t
      ensures Read(Parts(fi'), b) == Read(Parts(fi), b)
    {
      assert At(fi', b) == At(fi, b);
    }
    ListedAgree(Parts(fi), Parts(fi'), c, t);
  }

  /** What a block holds when it is read as part of the list. */
  function AsPart(b: Block): FBlk {
    if b.ListPart? then b.f else ZeroBlk()
  }

  class Store {
    const cache: Cache
    var s_nfree: int
    const s_free: array<int>
    /** The free blocks, the next one to be allocated first. */
    ghost var t: seq<int>

    ghost function Super(): FBlk
      reads this, s_free
    {
      FBlk(s_nfree, s_free[..])
    }

    ghost predicate Valid()
      reads this, s_free, cache, cache.c_bno, cache.c_time, cache.c_block
    {
      && cache.Valid() && s_free != cache.c_bno && s_free != cache.c_time
      && Listed(Parts(cache.fi), Super(), t) && 0 !in t
    }

    constructor (cache: Cache, super: FBlk, ghost t: seq<int>)
      requires cache.Valid() && Listed(Parts(cache.fi), super, t) && 0 !in t
      ensures Valid() && this.cache == cache && this.t == t && fresh(s_free)
    {
      this.cache := cache;
      ListBounds(Parts(cache.fi), super, t);
      s_nfree := super.nfree;
      s_free := new int[NICFREE](i requires 0 <= i < |super.free| => super.free[i]);
      this.t := t;
      new;
      assert s_free[..] == super.free;
    }

    /** balloc(): None when the program gives up. */
    method Balloc() returns (bno: Option<int>)
      requires Valid() && (t != [] ==> t[0] !in t[1..])
      modifies this`s_nfree, this`t, s_free, cache, cache.c_bno, cache.c_time, cache.c_block
      ensures bno == None <==> old(t) == []
      ensures bno == None ==> cache.fi == old(cache.fi) && t == []
      ensures bno != None ==> Valid() && bno.value == old(t)[0] != 0 && t == old(t)[1..]
      ensures bno != None ==> cache.fi == old(cache.fi)[bno.value := Zeros]
    {
      hide Listed;
      ghost var disk, c, t0 := Parts(cache.fi), Super(), t;
      ListBounds(disk, c, t);
      Popped(disk, c, t);
      TopOrNone(disk, c, t);
      var b := 0;
      if s_nfree != 0 {
        s_nfree := s_nfree - 1;
        b := s_free[s_nfree];
      }
      if b == 0 {
        return None;
      }
      if s_nfree == 0 {
        var fbuf := cache.Read(b);
        var f := AsPart(fbuf);
        ListBounds(disk, f, t[1..]);
        s_nfree := f.nfree;
        LoadFree(f.free);
      }
      t := t[1..];
      cache.Write(b, Zeros);
      ListedApart(old(cache.fi), cache.fi, Super(), t);
      return Some(b);
    }

    /** dwrite() to a block that is not on the list */
    method Put(b: int, x: Block)
      requires Valid() && b !in t
      modifies cache, cache.c_time, cache.c_block
      ensures Valid() && cache.fi == old(cache.fi)[b := x]
    {
      hide Listed;
      cache.Write(b, x);
      ListedApart(old(cache.fi), cache.fi, Super(), t);
    }

    method LoadFree(free: seq<int>)
      requires s_free.Length == NICFREE == |free|
      modifies s_free
      ensures s_free[..] == free
    {
      for i := 0 to NICFREE
        invariant forall k | 0 <= k < i :: s_free[k] == free[k]
      {
        s_free[i] := free[i];
      }
    }

    /** bfree() */
    method Bfree(bn: int)
      requires Valid() && bn != 0 && bn !in t
      modifies this`s_nfree, this`t, s_free, cache, cache.c_bno, cache.c_time, cache.c_block
      ensures Valid() && t == [bn] + old(t)
      ensures forall b | b != bn :: At(cache.fi, b) == At(old(cache.fi), b)
    {
      hide Listed;
      ghost var disk, c := Parts(cache.fi), Super();
      ListBounds(disk, c, t);
      if s_nfree >= NICFREE {
        var fbuf := FBlk(s_nfree, s_free[..]);
        s_nfree := 0;
        cache.Write(bn, ListPart(fbuf));
        s_free[s_nfree] := bn;
        s_nfree := s_nfree + 1;
        Spilled(disk, c, t, bn, Super());
        assert Parts(cache.fi) == disk[bn := c];
      } else {
        Pushed(disk, c, t, bn);
        s_free[s_nfree] := bn;
        s_nfree := s_nfree + 1;
        assert Super() == FBlk(c.nfree + 1, c.free[c.nfree := bn]);
      }
      t := [bn] + t;
    }
  }

  /** A zero on top means that there is nothing more. */
  lemma TopOrNone(disk: Disk, c: FBlk, t: seq<int>)
    requires Listed(disk, c, t) && 0 !in t
    ensures t == [] <==> c.free[c.nfree - 1] == 0
  {
    Popped(disk, c, t);
    assert t != [] ==> t[0] in t;
  }

  lemma ListBounds(disk: Disk, c: FBlk, t: seq<int>)
    requires Listed(disk, c, t)
    ensures 1 <= c.nfree <= NICFREE == |c.free|
  {
  }
}
