/** freechk() and pass5() of fsck.c, which check the free list. */
module FsckFree {
  import opened FsckMap
  import opened FsckClaims
  import opened FsckDup
  import opened FreeList
  import opened Sequences

  /** The list that starts in the superblock may be empty without a word. */
  ghost predicate ListFrom(disk: Disk, c: FBlk, t: seq<int>) {
    if c.nfree == 0 then t == [] else Listed(disk, c, t)
  }

  /** Every block of the list is a valid one, not in use and there once. */
  ghost predicate Clean(v: Volume, used: set<nat>, t: seq<int>) {
    && (forall i | 0 <= i < |t| :: InRange(v, t[i]) && t[i] !in used)
    && NoneTwice(t)
  }

  // ----- what freechk() has found out

  /** One more block of the list is marked and counted, if it is valid and not yet marked. */
  ghost predicate Counted(v: Volume, blocks: set<nat>, blocks': set<nat>, n: nat, n': nat, blk: int) {
    if InRange(v, blk) && blk !in blocks then blocks' == blocks + {blk} && n' == n + 1 else blocks' == blocks && n' == n
  }

  /** Nothing wrong with the blocks visited, all of which are marked and counted. */
  ghost predicate Sofar(v: Volume, used: set<nat>, vis: seq<int>, blocks: set<nat>, n: nat) {
    Clean(v, used, vis) && n == |vis| && forall b: nat :: b in blocks <==> b in used || b in vis
  }

  /** The lists that start in c0 are those that go on from c after the blocks visited. */
  ghost predicate Leads(disk: Disk, c0: FBlk, c: FBlk, vis: seq<int>) {
    forall t :: ListFrom(disk, c0, t) <==> vis <= t && Listed(disk, c, t[|vis|..])
  }

  ghost predicate NoCleanList(v: Volume, used: set<nat>, disk: Disk, c0: FBlk) {
    forall t :: ListFrom(disk, c0, t) ==> !Clean(v, used, t)
  }

  /** The verdict on the blocks visited is right. */
  ghost predicate Judged(v: Volume, used: set<nat>, disk: Disk, c0: FBlk, vis: seq<int>, blocks: set<nat>, n: nat, fix: bool) {
    if fix then NoCleanList(v, used, disk, c0) else Sofar(v, used, vis, blocks, n)
  }

  /** Before list block c. */
  ghost predicate Going(v: Volume, used: set<nat>, disk: Disk, c0: FBlk, c: FBlk, vis: seq<int>,
                        blocks: set<nat>, n: nat, fix: bool) {
    Leads(disk, c0, c, vis) && Judged(v, used, disk, c0, vis, blocks, n, fix)
  }

  /** In list block c, down to entry ap. */
  ghost predicate Within(v: Volume, used: set<nat>, disk: Disk, c0: FBlk, c: FBlk, vis: seq<int>, ap: nat,
                         blocks: set<nat>, n: nat, fix: bool) {
    && 1 <= ap <= c.nfree <= NICFREE == |c.free|
    && Leads(disk, c0, c, vis) && Judged(v, used, disk, c0, vis + Tops(c, ap), blocks, n, fix)
  }

  lemma BlockBegins(v: Volume, used: set<nat>, disk: Disk, c0: FBlk, c: FBlk, vis: seq<int>,
                    blocks: set<nat>, n: nat, fix: bool)
    requires Going(v, used, disk, c0, c, vis, blocks, n, fix) && 1 <= c.nfree <= NICFREE == |c.free|
    ensures Within(v, used, disk, c0, c, vis, c.nfree, blocks, n, fix)
  {
    assert vis + Tops(c, c.nfree) == vis;
  }

  lemma NextSofar(v: Volume, used: set<nat>, vis: seq<int>, blk: int, blocks: set<nat>, blocks': set<nat>, n: nat, n': nat)
    requires Sofar(v, used, vis, blocks, n) && Counted(v, blocks, blocks', n, n', blk)
    requires InRange(v, blk) && blk !in blocks
    ensures Sofar(v, used, vis + [blk], blocks', n')
  {
  }

  /** A list with a wrong block in it after a good beginning is not clean. */
  lemma Spoilt(v: Volume, used: set<nat>, vis: seq<int>, blk: int, blocks: set<nat>, n: nat, t: seq<int>)
    requires Sofar(v, used, vis, blocks, n) && (!InRange(v, blk) || blk in blocks) && vis + [blk] <= t
    ensures !Clean(v, used, t)
  {
    assert t[|vis|] == blk;
    if InRange(v, blk) && blk !in used {
      var i :| 0 <= i < |vis| && vis[i] == blk;
      assert t[i] == vis[i];
    }
  }

  /** The verdict after one more block of every list. */
  lemma JudgedOne(v: Volume, used: set<nat>, disk: Disk, c0: FBlk, vis: seq<int>, blk: int,
                  blocks: set<nat>, blocks': set<nat>, n: nat, n': nat, fix: bool)
    requires Judged(v, used, disk, c0, vis, blocks, n, fix) && Counted(v, blocks, blocks', n, n', blk)
    requires forall t :: ListFrom(disk, c0, t) ==> vis + [blk] <= t
    ensures Judged(v, used, disk, c0, vis + [blk], blocks', n', fix || !InRange(v, blk) || blk in blocks)
  {
    if fix {
    } else if !InRange(v, blk) || blk in blocks {
      forall t | ListFrom(disk, c0, t)
        ensures !Clean(v, used, t)
      {
        Spoilt(v, used, vis, blk, blocks, n, t);
      }
    } else {
      NextSofar(v, used, vis, blk, blocks, blocks', n, n');
    }
  }

  lemma OneEntry(v: Volume, used: set<nat>, disk: Disk, c0: FBlk, c: FBlk, vis: seq<int>, ap: nat,
                 blocks: set<nat>, blocks': set<nat>, n: nat, n': nat, fix: bool)
    requires 1 <= ap < c.nfree && Within(v, used, disk, c0, c, vis, ap + 1, blocks, n, fix)
    requires Counted(v, blocks, blocks', n, n', c.free[ap])
    ensures Within(v, used, disk, c0, c, vis, ap, blocks', n', fix || !InRange(v, c.free[ap]) || c.free[ap] in blocks)
  {
    hide Clean, Counted;
    var blk := c.free[ap];
    assert vis + Tops(c, ap + 1) + [blk] == vis + Tops(c, ap);
    forall t | ListFrom(disk, c0, t)
      ensures vis + Tops(c, ap + 1) + [blk] <= t
    {
      var r := t[|vis|..];
      assert t == vis + r && Listed(disk, c, r);
      assert Tops(c, ap) <= r;
    }
    JudgedOne(v, used, disk, c0, vis + Tops(c, ap + 1), blk, blocks, blocks', n, n', fix);
  }

  lemma NoneClean(v: Volume, used: set<nat>, disk: Disk, c0: FBlk, c: FBlk, vis: seq<int>, ap: nat, blocks: set<nat>, n: nat)
    requires Within(v, used, disk, c0, c, vis, ap, blocks, n, true)
    ensures NoCleanList(v, used, disk, c0)
  {
  }

  lemma JudgedBad(v: Volume, used: set<nat>, disk: Disk, c0: FBlk, c: FBlk, vis: seq<int>, blocks: set<nat>, n: nat)
    requires Going(v, used, disk, c0, c, vis, blocks, n, true)
    ensures NoCleanList(v, used, disk, c0)
  {
  }

  lemma EmptyList(v: Volume, used: set<nat>, disk: Disk, c0: FBlk)
    requires c0.nfree == 0
    ensures ListFrom(disk, c0, []) && Sofar(v, used, [], used, 0)
  {
  }

  lemma ListBegins(v: Volume, used: set<nat>, disk: Disk, c0: FBlk)
    requires c0.nfree != 0
    ensures Going(v, used, disk, c0, c0, [], used, 0, false)
  {
    assert forall t: seq<int> :: t[0..] == t;
  }

  lemma BadCount(v: Volume, used: set<nat>, disk: Disk, c0: FBlk, c: FBlk, vis: seq<int>, blocks: set<nat>, n: nat, fix: bool)
    requires Going(v, used, disk, c0, c, vis, blocks, n, fix) && (c.nfree <= 0 || c.nfree > NICFREE)
    ensures NoCleanList(v, used, disk, c0)
  {
  }

  lemma LastBlock(v: Volume, used: set<nat>, disk: Disk, c0: FBlk, c: FBlk, vis: seq<int>,
                  blocks: set<nat>, n: nat, fix: bool)
    requires Within(v, used, disk, c0, c, vis, 1, blocks, n, fix) && c.free[0] == 0
    ensures fix ==> NoCleanList(v, used, disk, c0)
    ensures !fix ==> ListFrom(disk, c0, vis + Tops(c, 1)) && Sofar(v, used, vis + Tops(c, 1), blocks, n)
  {
    var t := vis + Tops(c, 1);
    assert t[|vis|..] == Tops(c, 1);
    assert Listed(disk, c, Tops(c, 1));
  }

  lemma NextBlock(v: Volume, used: set<nat>, disk: Disk, c0: FBlk, c: FBlk, vis: seq<int>,
                  blocks: set<nat>, blocks': set<nat>, n: nat, n': nat, fix: bool)
    requires Within(v, used, disk, c0, c, vis, 1, blocks, n, fix) && c.free[0] != 0
    requires Counted(v, blocks, blocks', n, n', c.free[0])
    ensures Going(v, used, disk, c0, Read(disk, c.free[0]), vis + Tops(c, 1) + [c.free[0]], blocks', n',
                  fix || !InRange(v, c.free[0]) || c.free[0] in blocks)
  {
    hide Clean, Counted;
    var blk, tops := c.free[0], Tops(c, 1);
    var vis' := vis + tops + [blk];
    forall t
      ensures ListFrom(disk, c0, t) <==> vis' <= t && Listed(disk, Read(disk, blk), t[|vis'|..])
    {
      if vis <= t {
        AfterBlock(disk, c, t[|vis|..]);
        assert t == vis + t[|vis|..];
        assert vis' <= t <==> tops + [blk] <= t[|vis|..];
        if vis' <= t {
          assert t[|vis|..][c.nfree..] == t[|vis'|..];
        }
      }
    }
    JudgedOne(v, used, disk, c0, vis + tops, blk, blocks, blocks', n, n', fix);
  }

  /** What a list looks like after its first block. */
  lemma AfterBlock(disk: Disk, c: FBlk, r: seq<int>)
    requires 1 <= c.nfree <= NICFREE == |c.free| && c.free[0] != 0
    ensures Listed(disk, c, r) <==>
            Tops(c, 1) + [c.free[0]] <= r && Listed(disk, Read(disk, c.free[0]), r[c.nfree..])
  {
    var tops := Tops(c, 1);
    if Listed(disk, c, r) {
      assert tops + [c.free[0]] == r[..c.nfree];
    }
  }

  lemma Shrinks(b0: set<nat>, b1: set<nat>, b2: set<nat>, m: nat)
    requires b0 <= b1 <= b2 && forall b | b in b2 :: b < m
    ensures |b0| <= |b1| <= |b2| <= m && (b1 != b2 ==> |b1| < |b2|)
  {
    Subset(b0, b1);
    Subset(b1, b2);
    Bounded(b2, m);
  }

  lemma {:induction false} Subset(a: set<nat>, b: set<nat>)
    requires a <= b
    ensures |a| <= |b| && (a != b ==> |a| < |b|)
    decreases a
  {
    if a != {} {
      var x :| x in a;
      Subset(a - {x}, b - {x});
    }
  }

  lemma {:induction false} Bounded(b: set<nat>, m: nat)
    requires forall x | x in b :: x < m
    ensures |b| <= m
  {
    if m == 0 {
      assert b == {};
    } else {
      Bounded(b - {m - 1}, m - 1);
      if m - 1 !in b {
        assert b - {m - 1} == b;
      }
    }
  }

  // ----- pass5()

  class FreeCheck {
    const v: Volume
    const freemap: BitMap
    var n_free: nat
    var badblk: nat
    var dupblk: nat
    var fixfree: bool
    /** What is in use according to the passes before. */
    ghost const used: set<nat>

    ghost predicate Valid()
      reads this, freemap.bytes
    {
      v.fmax <= 8 * freemap.bytes.Length && dupblk <= DUPTBLSIZE && used <= freemap.Blocks()
    }

    /** Phase 5 begins with a copy of the map of blocks in use. */
    constructor (v: Volume, blkmap: BitMap)
      requires v.fmax <= 8 * blkmap.bytes.Length
      ensures this.v == v && Valid() && used == freemap.Blocks() == blkmap.Blocks()
      ensures n_free == badblk == dupblk == 0 && !fixfree && fresh(freemap) && fresh(freemap.bytes)
    {
      this.v := v;
      freemap := new BitMap.Copy(blkmap);
      used := blkmap.Blocks();
      n_free, badblk, dupblk, fixfree := 0, 0, 0, false;
    }

    method Pass5(blk: int) returns (r: Answer)
      requires Valid() && dupblk < DUPTBLSIZE
      modifies this`n_free, this`badblk, this`dupblk, this`fixfree, freemap.bytes
      ensures Valid() && (r != STOP ==> dupblk < DUPTBLSIZE)
      ensures fixfree == (old(fixfree) || !InRange(v, blk) || blk in old(freemap.Blocks())) && (r != KEEPON ==> fixfree)
      ensures Counted(v, old(freemap.Blocks()), freemap.Blocks(), old(n_free), n_free, blk)
      ensures old(freemap.Blocks()) <= freemap.Blocks() && old(dupblk) <= dupblk
      ensures r == KEEPON ==> dupblk > old(dupblk) || freemap.Blocks() != old(freemap.Blocks())
    {
      hide BlocksIn;
      if !InRange(v, blk) {
        fixfree := true;
        badblk := badblk + 1;
        return if badblk >= MAXBAD then STOP else SKIP;
      }
      var taken := freemap.Get(blk);
      if taken {
        fixfree := true;
        dupblk := dupblk + 1;
        return if dupblk >= DUPTBLSIZE then STOP else KEEPON;
      }
      n_free := n_free + 1;
      freemap.Set(blk);
      return KEEPON;
    }

    /** The inner loop of freechk(): the entries of a list block but for number 0. */
    method Entries(disk: Disk, c: FBlk, ghost c0: FBlk, ghost vis: seq<int>) returns (stop: bool)
      requires Valid() && dupblk < DUPTBLSIZE && 1 <= c.nfree <= NICFREE && |c.free| == NICFREE
      requires Going(v, used, disk, c0, c, vis, freemap.Blocks(), n_free, fixfree)
      modifies this`n_free, this`badblk, this`dupblk, this`fixfree, freemap.bytes
      ensures Valid() && (stop ==> fixfree) && (!stop ==> dupblk < DUPTBLSIZE && old(dupblk) <= dupblk)
      ensures old(freemap.Blocks()) <= freemap.Blocks()
      ensures stop ==> NoCleanList(v, used, disk, c0)
      ensures !stop ==> Within(v, used, disk, c0, c, vis, 1, freemap.Blocks(), n_free, fixfree)
    {
      hide BlocksIn, Going, Within, Counted, ListFrom, Clean, Listed;
      var ap := c.nfree;
      BlockBegins(v, used, disk, c0, c, vis, freemap.Blocks(), n_free, fixfree);
      while ap > 1
        invariant 1 <= ap <= c.nfree && Valid() && old(dupblk) <= dupblk < DUPTBLSIZE
        invariant old(freemap.Blocks()) <= freemap.Blocks()
        invariant Within(v, used, disk, c0, c, vis, ap, freemap.Blocks(), n_free, fixfree)
      {
        ap := ap - 1;
        ghost var blocks, n, fix := freemap.Blocks(), n_free, fixfree;
        var r := Pass5(c.free[ap]);
        OneEntry(v, used, disk, c0, c, vis, ap, blocks, freemap.Blocks(), n, n_free, fix);
        if r == STOP {
          NoneClean(v, used, disk, c0, c, vis, ap, freemap.Blocks(), n_free);
          return true;
        }
      }
      return false;
    }

    /** freechk(), on the list that starts in c0. */
    method FreeChk(disk: Disk, c0: FBlk) returns (ghost t: seq<int>)
      requires Valid() && Blocks50(disk) && |c0.free| == NICFREE && dupblk == n_free == 0 && !fixfree
      requires used == freemap.Blocks()
      modifies this`n_free, this`badblk, this`dupblk, this`fixfree, freemap.bytes
      ensures Valid()
      ensures fixfree ==> NoCleanList(v, used, disk, c0)
      ensures !fixfree ==> ListFrom(disk, c0, t) && Sofar(v, used, t, freemap.Blocks(), n_free)
    {
      hide BlocksIn, Going, Within, Counted, ListFrom, Clean, Listed, NoCleanList, Sofar, Leads, Judged;
      t := [];
      var cur := c0;
      if cur.nfree == 0 {
        EmptyList(v, used, disk, c0);
        return;
      }
      ListBegins(v, used, disk, c0);
      while true
        invariant Valid() && dupblk < DUPTBLSIZE && |cur.free| == NICFREE
        invariant Going(v, used, disk, c0, cur, t, freemap.Blocks(), n_free, fixfree)
        decreases 8 * freemap.bytes.Length - |freemap.Blocks()| + DUPTBLSIZE - dupblk
      {
        if cur.nfree <= 0 || cur.nfree > NICFREE {
          BadCount(v, used, disk, c0, cur, t, freemap.Blocks(), n_free, fixfree);
          fixfree := true;
          return;
        }
        ghost var blocks0 := freemap.Blocks();
        var stop := Entries(disk, cur, c0, t);
        if stop {
          return;
        }
        var ap := cur.free[0];
        if ap == 0 {
          LastBlock(v, used, disk, c0, cur, t, freemap.Blocks(), n_free, fixfree);
          t := t + Tops(cur, 1);
          return;
        }
        ghost var blocks, n, fix := freemap.Blocks(), n_free, fixfree;
        var r := Pass5(ap);
        NextBlock(v, used, disk, c0, cur, t, blocks, freemap.Blocks(), n, n_free, fix);
        t := t + Tops(cur, 1) + [ap];
        if r != KEEPON {
          JudgedBad(v, used, disk, c0, Read(disk, ap), t, freemap.Blocks(), n_free);
          return;
        }
        freemap.Bounds();
        Shrinks(blocks0, blocks, freemap.Blocks(), 8 * freemap.bytes.Length);
        cur := Read(disk, ap);
      }
    }
  }
}
