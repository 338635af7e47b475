/** The list of free blocks that the file system chains through its own free blocks: the
    superblock holds the top of it, and a full part is written to the next block freed. */
module FreeList {

  const NICFREE := 50

  /** A list block: how many of the entries count, and the entries. */
  datatype FBlk = FBlk(nfree: int, free: seq<int>)

  type Disk = map<int, FBlk>

  ghost predicate Blocks50(disk: Disk) {
    forall b | b in disk :: |disk[b].free| == 50
  }

  function ZeroBlk(): (z: FBlk)
    ensures z.nfree == 0 && |z.free| == NICFREE && forall i | 0 <= i < NICFREE :: z.free[i] == 0
  {
    FBlk(0, seq(NICFREE, i => 0))
  }

  /** What a block holds when read as part of the list. */
  function Read(disk: Disk, b: int): FBlk {
    if b in disk then disk[b] else ZeroBlk()
  }

  // ----- the list that is chained together

  /** t is the list from its top down: the entries of the block from the last to number 1,
      then the block of entry 0, which holds the rest, unless entry 0 is zero. */
  ghost predicate Listed(disk: Disk, c: FBlk, t: seq<int>)
    decreases |t|
  {
    && 1 <= c.nfree <= 50 && |c.free| == 50
    && |t| >= c.nfree - 1 && (forall i | 1 <= i < c.nfree :: t[c.nfree - 1 - i] == c.free[i])
    && if c.free[0] == 0 then |t| == c.nfree - 1
       else |t| >= c.nfree && t[c.nfree - 1] == c.free[0] && Listed(disk, Read(disk, c.free[0]), t[c.nfree..])
  }

  /** The list depends on nothing but the blocks on it. */
  lemma {:induction false} ListedAgree(disk: Disk, disk': Disk, c: FBlk, t: seq<int>)
    requires Listed(disk, c, t) && forall b | b in t :: Read(disk', b) == Read(disk, b)
    ensures Listed(disk', c, t)
    decreases |t|
  {
    if c.free[0] != 0 {
      ListedAgree(disk, disk', Read(disk, c.free[0]), t[c.nfree..]);
    }
  }

  lemma ListedElsewhere(disk: Disk, c: FBlk, t: seq<int>, b: int, x: FBlk)
    requires Listed(disk, c, t) && b !in t
    ensures Listed(disk[b := x], c, t)
  {
    ListedAgree(disk, disk[b := x], c, t);
  }

  /** The entries of a list block from the last down to number ap. */
  function Tops(c: FBlk, ap: nat): (t: seq<int>)
    requires 1 <= ap <= c.nfree <= |c.free|
    ensures |t| == c.nfree - ap && forall j | 0 <= j < |t| :: t[j] == c.free[c.nfree - 1 - j]
  {
    seq(c.nfree - ap, j requires 0 <= j < c.nfree - ap => c.free[c.nfree - 1 - j])
  }

  // ----- taking a block off and putting one on

  lemma EmptyListed(disk: Disk)
    ensures Listed(disk, ZeroBlk().(nfree := 1), [])
  {
  }

  /** There is room in the block at hand. */
  lemma Pushed(disk: Disk, c: FBlk, t: seq<int>, blk: int)
    requires Listed(disk, c, t) && c.nfree < NICFREE
    ensures Listed(disk, FBlk(c.nfree + 1, c.free[c.nfree := blk]), [blk] + t)
  {
    if c.free[0] != 0 {
      assert ([blk] + t)[c.nfree + 1..] == t[c.nfree..];
    }
  }

  /** The full part goes to the new block, which is then all there is at hand. */
  lemma Spilled(disk: Disk, c: FBlk, t: seq<int>, blk: int, c': FBlk)
    requires Listed(disk, c, t) && blk !in t && blk != 0
    requires c'.nfree == 1 && |c'.free| == NICFREE && c'.free[0] == blk
    ensures Listed(disk[blk := c], c', [blk] + t)
  {
    ListedElsewhere(disk, c, t, blk, c);
    assert ([blk] + t)[1..] == t;
  }

  /** The top of the list, and what is left without it. */
  lemma Popped(disk: Disk, c: FBlk, t: seq<int>)
    requires Listed(disk, c, t)
    ensures t == [] <==> c.nfree == 1 && c.free[0] == 0
    ensures t != [] ==> t[0] == c.free[c.nfree - 1]
    ensures t != [] ==> Listed(disk, if c.nfree > 1 then c.(nfree := c.nfree - 1) else Read(disk, t[0]), t[1..])
  {
    if c.nfree > 1 && c.free[0] != 0 {
      assert t[1..][c.nfree - 1..] == t[c.nfree..];
    }
  }

  // ----- there is one list to a block

  lemma {:induction false} OneList(disk: Disk, c: FBlk, t: seq<int>, u: seq<int>)
    requires Listed(disk, c, t) && Listed(disk, c, u)
    ensures u == t
    decreases |t|
  {
    FirstEntries(disk, c, t);
    FirstEntries(disk, c, u);
    if c.free[0] != 0 {
      OneList(disk, Read(disk, c.free[0]), t[c.nfree..], u[c.nfree..]);
      assert t == t[..c.nfree] + t[c.nfree..] && u == u[..c.nfree] + u[c.nfree..];
    }
  }

  lemma FirstEntries(disk: Disk, c: FBlk, t: seq<int>)
    requires Listed(disk, c, t)
    ensures c.free[0] == 0 ==> t == Tops(c, 1)
    ensures c.free[0] != 0 ==> t[..c.nfree] == Tops(c, 1) + [c.free[0]]
  {
  }

  /** An example: of three entries the last two are free blocks, the last one on top; then comes the block of
      entry 0, which has one entry more. */
  lemma SmallList(disk: Disk, c: FBlk)
    requires |c.free| == 50 && c.nfree == 3 && c.free[..3] == [7, 5, 6]
    requires 7 in disk && |disk[7].free| == 50 && disk[7].nfree == 2 && disk[7].free[..2] == [0, 3]
    ensures Listed(disk, c, [6, 5, 7, 3])
  {
    assert c.free[0] == c.free[..3][0] && c.free[1] == c.free[..3][1] && c.free[2] == c.free[..3][2];
    assert disk[7].free[0] == disk[7].free[..2][0] && disk[7].free[1] == disk[7].free[..2][1];
    assert [6, 5, 7, 3][3..] == [3] && [3][1..] == [];
    assert Listed(disk, disk[7], [3]);
  }
}
