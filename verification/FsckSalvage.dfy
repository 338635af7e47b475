/** makefree() of fsck.c: a new free list of all the blocks not in use, interleaved. */
module FsckSalvage {
  import opened Arith
  import opened FsckMap
  import opened FsckClaims
  import opened FsckDup
  import opened FsckFree
  import opened FreeList
  import opened Sequences

  const STEPSIZE := 9
  const CYLSIZE := 400
  const MAXCYL := 500

  // ----- the order within a cylinder

  /** Each of 1 to cyl once. */
  ghost predicate Permutes(addr: seq<int>, cyl: nat) {
    && |addr| == cyl && NoneTwice(addr) && (forall k | 0 <= k < cyl :: 1 <= addr[k] <= cyl)
    && forall x | 1 <= x <= cyl :: x in addr
  }

  lemma NextSlot(i: nat, k: nat, cyl: nat)
    requires i < cyl && k <= cyl
    ensures (i + k) % cyl == if i + k < cyl then i + k else i + k - cyl
  {
    if i + k < cyl {
      DivUnique(i + k, cyl, 0, i + k);
    } else if i + k < 2 * cyl {
      DivUnique(i + k, cyl, 1, i + k - cyl);
    }
  }

  /** A slot that is still free, when fewer than all are taken. */
  lemma {:induction false} FreeSlot(flg: seq<bool>, taken: nat) returns (f: nat)
    requires Taken(flg, |flg|) == taken < |flg|
    ensures f < |flg| && !flg[f]
  {
    f := |flg| - 1;
    if flg[f] {
      TakenFront(flg, f);
      f := FreeSlot(flg[..f], taken - 1);
    }
  }

  function Taken(flg: seq<bool>, n: nat): nat
    requires n <= |flg|
  {
    if n == 0 then 0 else Taken(flg, n - 1) + if flg[n - 1] then 1 else 0
  }

  lemma {:induction false} TakenFront(flg: seq<bool>, n: nat)
    requires n <= |flg|
    ensures Taken(flg[..n], n) == Taken(flg, n)
  {
    TakenUpto(flg, n, n);
  }

  lemma {:induction false} TakenUpto(flg: seq<bool>, n: nat, k: nat)
    requires k <= n <= |flg|
    ensures Taken(flg[..n], k) == Taken(flg, k)
  {
    if k > 0 {
      TakenUpto(flg, n, k - 1);
    }
  }

  lemma {:induction false} TakeOne(flg: seq<bool>, i: nat, n: nat)
    requires i < |flg| && n <= |flg| && !flg[i]
    ensures Taken(flg[i := true], n) == Taken(flg, n) + if i < n then 1 else 0
  {
    if n > 0 {
      TakeOne(flg, i, n - 1);
    }
  }

  function Distance(i: nat, f: nat, cyl: nat): int {
    if i <= f then f - i else f + cyl - i
  }

  /** The slots taken are those of the addresses given out. */
  ghost predicate Placed(flg: seq<bool>, addr: seq<int>, cyl: nat) {
    && |flg| == cyl && Taken(flg, cyl) == |addr| && NoneTwice(addr)
    && (forall k | 0 <= k < |addr| :: 1 <= addr[k] <= cyl && flg[addr[k] - 1])
    && (forall f | 0 <= f < cyl && flg[f] :: f + 1 in addr)
  }

  lemma PlaceOne(flg: seq<bool>, addr: seq<int>, cyl: nat, i: nat)
    requires Placed(flg, addr, cyl) && i < cyl && !flg[i]
    ensures Placed(flg[i := true], addr + [i + 1], cyl)
  {
    TakeOne(flg, i, cyl);
  }

  lemma AllPlaced(flg: seq<bool>, addr: seq<int>, cyl: nat)
    requires Placed(flg, addr, cyl) && |addr| == cyl
    ensures Permutes(addr, cyl)
  {
    AllTaken(flg, cyl);
    forall x | 1 <= x <= cyl
      ensures x in addr
    {
      assert flg[x - 1];
    }
  }

  /** Where the search for address number j begins: step places behind the one before. */
  function Begin(addr: seq<int>, j: nat, step: nat, cyl: nat): int
    requires j <= |addr| && cyl > 0
  {
    if j == 0 then 0 else (addr[j - 1] - 1 + step) % cyl
  }

  /** Address j is the first that is not among those before it, d places on, going round. */
  ghost predicate FirstFree(addr: seq<int>, j: nat, step: nat, cyl: nat, d: nat)
    requires j < |addr| && cyl > 0
  {
    && d < cyl && addr[j] == Slot(Begin(addr, j, step, cyl), d, cyl) + 1
    && addr[j] !in addr[..j] && forall e: nat | e < d :: GivenOut(addr, j, step, cyl, e)
  }

  /** The slot d places on from i, going round. */
  function Slot(i: int, d: nat, cyl: nat): int
    requires cyl > 0
  {
    (i + d) % cyl
  }

  ghost predicate GivenOut(addr: seq<int>, j: nat, step: nat, cyl: nat, e: nat)
    requires j <= |addr| && cyl > 0
  {
    Slot(Begin(addr, j, step, cyl), e, cyl) + 1 in addr[..j]
  }

  ghost predicate SpacedAt(addr: seq<int>, j: nat, step: nat, cyl: nat)
    requires j < |addr| && cyl > 0
  {
    exists d: nat :: FirstFree(addr, j, step, cyl, d)
  }

  ghost predicate Spaced(addr: seq<int>, step: nat, cyl: nat)
    requires cyl > 0
  {
    forall j | 0 <= j < |addr| :: SpacedAt(addr, j, step, cyl)
  }

  lemma SpacedMore(addr: seq<int>, x: int, step: nat, cyl: nat, d: nat)
    requires cyl > 0 && Spaced(addr, step, cyl) && FirstFree(addr + [x], |addr|, step, cyl, d)
    ensures Spaced(addr + [x], step, cyl)
  {
    var more := addr + [x];
    forall j | 0 <= j < |more|
      ensures SpacedAt(more, j, step, cyl)
    {
      if j < |addr| {
        assert SpacedAt(addr, j, step, cyl);
        var e: nat :| FirstFree(addr, j, step, cyl, e);
        SameBefore(addr, x, j, step, cyl, e);
      }
    }
  }

  lemma SameBefore(addr: seq<int>, x: int, j: nat, step: nat, cyl: nat, d: nat)
    requires cyl > 0 && j < |addr| && FirstFree(addr, j, step, cyl, d)
    ensures FirstFree(addr + [x], j, step, cyl, d)
  {
    assert (addr + [x])[..j] == addr[..j];
    hide Slot, Begin;
    BeginSame(addr, x, j, step, cyl);
    forall e: nat | e < d
      ensures GivenOut(addr + [x], j, step, cyl, e)
    {
      assert GivenOut(addr, j, step, cyl, e);
    }
  }

  lemma BeginSame(addr: seq<int>, x: int, j: nat, step: nat, cyl: nat)
    requires cyl > 0 && j <= |addr|
    ensures Begin(addr + [x], j, step, cyl) == Begin(addr, j, step, cyl)
  {
  }

  lemma NextBegin(addr: seq<int>, i: nat, step: nat, cyl: nat)
    requires cyl > 0
    ensures Begin(addr + [i + 1], |addr| + 1, step, cyl) == (i + step) % cyl && 0 <= (i + step) % cyl < cyl
  {
  }

  /** What the search found, as the next address. */
  lemma FoundIsFirst(flg: seq<bool>, addr: seq<int>, step: nat, cyl: nat, i0: nat, d: nat, i: nat)
    requires 0 < cyl && Placed(flg, addr, cyl) && i0 < cyl && i0 == Begin(addr, |addr|, step, cyl)
    requires d < cyl && i == Slot(i0, d, cyl) && i < cyl && !flg[i]
    requires forall e: nat | e < d :: TakenAt(flg, i0, e, cyl)
    ensures FirstFree(addr + [i + 1], |addr|, step, cyl, d)
  {
    hide Slot, Begin;
    var more := addr + [i + 1];
    assert more[..|addr|] == addr;
    BeginSame(addr, i + 1, |addr|, step, cyl);
    forall e: nat | e < d
      ensures GivenOut(more, |addr|, step, cyl, e)
    {
      assert TakenAt(flg, i0, e, cyl);
    }
  }

  predicate TakenAt(flg: seq<bool>, i0: nat, e: nat, cyl: nat)
    requires cyl > 0
  {
    var i := Slot(i0, e, cyl);
    0 <= i < |flg| && flg[i]
  }

  method Spacing(step: nat, cyl: nat) returns (addr: array<int>)
    requires 0 < step <= cyl <= MAXCYL
    ensures addr.Length == MAXCYL && fresh(addr) && Permutes(addr[..cyl], cyl) && Spaced(addr[..cyl], step, cyl)
  {
    hide Permutes, NoneTwice, Spaced, FirstFree, Placed, Begin, Slot, TakenAt, Taken;
    var flg := new bool[MAXCYL](i => false);
    addr := new int[MAXCYL];
    var i: nat := 0;
    NonePlaced(flg[..cyl], cyl);
    NoneSpaced(step, cyl);
    assert addr[..0] == [];
    for j := 0 to cyl
      invariant i < cyl && Placed(flg[..cyl], addr[..j], cyl)
      invariant Spaced(addr[..j], step, cyl) && i == Begin(addr[..j], j, step, cyl)
    {
      ghost var was, a, i0 := flg[..cyl], addr[..j], i;
      PlacedCount(was, a, cyl);
      ghost var d;
      i, d := FindSlot(flg, i, j, cyl);
      assert flg[..cyl] == was;
      FoundIsFirst(was, a, step, cyl, i0, d, i);
      SpacedMore(a, i + 1, step, cyl, d);
      PlaceOne(was, a, cyl, i);
      addr[j] := i + 1;
      flg[i] := true;
      assert addr[..j + 1] == a + [i + 1] && flg[..cyl] == was[i := true];
      NextBegin(a, i, step, cyl);
      i := (i + step) % cyl;
    }
    AllPlaced(flg[..cyl], addr[..cyl], cyl);
  }

  lemma NonePlaced(flg: seq<bool>, cyl: nat)
    requires |flg| == cyl && forall i | 0 <= i < |flg| :: !flg[i]
    ensures Placed(flg, [], cyl)
  {
    NoneTaken(flg, cyl);
  }

  lemma {:induction false} NoneTaken(flg: seq<bool>, n: nat)
    requires n <= |flg| && forall i | 0 <= i < |flg| :: !flg[i]
    ensures Taken(flg, n) == 0
  {
    if n > 0 {
      NoneTaken(flg, n - 1);
    }
  }

  lemma NoneSpaced(step: nat, cyl: nat)
    requires cyl > 0
    ensures Spaced([], step, cyl) && Begin([], 0, step, cyl) == 0
  {
  }

  lemma PlacedCount(flg: seq<bool>, addr: seq<int>, cyl: nat)
    requires Placed(flg, addr, cyl)
    ensures |flg| == cyl && Taken(flg, cyl) == |addr|
  {
  }

  /** The search for a free slot ends with the first one, going round. */
  method FindSlot(flg: array<bool>, i0: nat, j: nat, cyl: nat) returns (i: nat, ghost d: nat)
    requires i0 < cyl <= flg.Length && j < cyl && Taken(flg[..cyl], cyl) == j
    ensures i < cyl && !flg[i] && d < cyl && i == Slot(i0, d, cyl)
    ensures forall e: nat | e < d :: TakenAt(flg[..cyl], i0, e, cyl)
  {
    ghost var f := FreeSlot(flg[..cyl], j);
    i, d := i0, 0;
    NextSlot(i0, 0, cyl);
    while flg[i]
      invariant i < cyl && d + Distance(i, f, cyl) == Distance(i0, f, cyl) < cyl && i == Slot(i0, d, cyl)
      invariant forall e: nat | e < d :: TakenAt(flg[..cyl], i0, e, cyl)
      decreases Distance(i, f, cyl)
    {
      assert TakenAt(flg[..cyl], i0, d, cyl);
      NextSlot(i, 1, cyl);
      NextSlot(i0, d, cyl);
      NextSlot(i0, d + 1, cyl);
      i := (i + 1) % cyl;
      d := d + 1;
    }
  }

  /** When as many slots are taken as there are, each is. */
  lemma {:induction false} AllTaken(flg: seq<bool>, n: nat)
    requires n <= |flg|
    ensures Taken(flg, n) <= n && (Taken(flg, n) == n ==> forall f | 0 <= f < n :: flg[f])
  {
    if n > 0 {
      AllTaken(flg, n - 1);
    }
  }

  // ----- the list

  /** The list has each unused block from number base on, and of the cylinder below those
      whose turn has come. */
  ghost predicate Gathered(v: Volume, used: set<nat>, base: int, addr: seq<int>, i: nat, t: seq<int>) {
    && i <= |addr| && Clean(v, used, t)
    && forall b: nat :: b in t <==> InRange(v, b) && b !in used && (b >= base || base - b in addr[..i])
  }

  lemma GatherOne(v: Volume, used: set<nat>, base: int, addr: seq<int>, i: nat, t: seq<int>)
    requires Gathered(v, used, base, addr, i, t) && Permutes(addr, |addr|) && i < |addr|
    ensures var blk := base - addr[i];
            if InRange(v, blk) && blk !in used then blk !in t && Gathered(v, used, base, addr, i + 1, [blk] + t)
            else Gathered(v, used, base, addr, i + 1, t)
  {
    var blk := base - addr[i];
    assert addr[..i + 1] == addr[..i] + [addr[i]];
    assert addr[i] !in addr[..i];
    assert blk !in t;
    assert blk >= 0 ==> base - (blk as nat) == addr[i];
  }

  /** Block x was put on the list after block y: its cylinder comes before that of y, or its turn in the
      same one later. */
  ghost predicate Later(addr: seq<int>, x: int, y: int)
    requires addr != []
  {
    var cyl := |addr|;
    x / cyl < y / cyl ||
    (x / cyl == y / cyl && exists k, l :: 0 <= l < k < cyl && addr[k] == cyl - x % cyl && addr[l] == cyl - y % cyl)
  }

  /** The list is in the order of the cylinders, and in each of them interleaved. */
  ghost predicate Interleaved(addr: seq<int>, t: seq<int>)
    requires addr != []
  {
    forall i, j | 0 <= i < j < |t| :: Later(addr, t[i], t[j])
  }

  lemma CylinderOf(q: nat, cyl: nat, x: int, b: nat)
    requires cyl > 0 && 1 <= x <= cyl && b == q * cyl - x
    ensures b / cyl == q - 1 && b % cyl == cyl - x
  {
    assert b == (q - 1) * cyl + (cyl - x);
    assert q > 0;
    DivUnique(b, cyl, q - 1, cyl - x);
  }

  lemma NotBefore(q: nat, cyl: nat, b: int)
    requires cyl > 0 && b >= q * cyl
    ensures b / cyl >= q
  {
    if b / cyl < q {
      var d := b / cyl;
      assert b == d * cyl + b % cyl;
      assert (d + 1) * cyl <= q * cyl by { MulMono(d + 1, q, cyl); }
    }
  }

  /** The block whose turn it is comes later than all on the list. */
  lemma InterleaveOne(v: Volume, used: set<nat>, q: nat, addr: seq<int>, i: nat, t: seq<int>)
    requires Gathered(v, used, q * |addr|, addr, i, t) && Permutes(addr, |addr|) && i < |addr| && Interleaved(addr, t)
    requires q * |addr| - addr[i] >= 0
    ensures Interleaved(addr, [q * |addr| - addr[i]] + t)
  {
    hide Later, Clean, Permutes;
    GatheredPositive(v, used, q * |addr|, addr, i, t);
    var cyl := |addr|;
    var base := q * cyl;
    TurnBounds(addr, i);
    CylinderOf(q, cyl, addr[i], base - addr[i]);
    forall b | b in t
      ensures Later(addr, base - addr[i], b)
    {
      assert b >= base || base - b in addr[..i] by { assert (b as nat) in t; }
      if b >= base {
        NotBefore(q, cyl, b);
        BeforeIsLater(addr, base - addr[i], b);
      } else {
        var l :| 0 <= l < i && addr[l] == base - b;
        TurnBounds(addr, l);
        CylinderOf(q, cyl, addr[l], b);
        TurnIsLater(addr, base - addr[i], b, i, l);
      }
    }
    var more := [base - addr[i]] + t;
    forall m, n | 0 <= m < n < |more|
      ensures Later(addr, more[m], more[n])
    {
      assert more[n] == t[n - 1] && t[n - 1] in t;
    }
  }

  lemma GatheredPositive(v: Volume, used: set<nat>, base: int, addr: seq<int>, i: nat, t: seq<int>)
    requires Gathered(v, used, base, addr, i, t)
    ensures forall b | b in t :: b >= 0
  {
  }

  lemma TurnBounds(addr: seq<int>, i: nat)
    requires Permutes(addr, |addr|) && i < |addr|
    ensures 1 <= addr[i] <= |addr|
  {
  }

  lemma BeforeIsLater(addr: seq<int>, x: int, y: int)
    requires addr != [] && x / |addr| < y / |addr|
    ensures Later(addr, x, y)
  {
  }

  lemma TurnIsLater(addr: seq<int>, x: int, y: int, k: nat, l: nat)
    requires addr != [] && x / |addr| == y / |addr| && l < k < |addr|
    requires addr[k] == |addr| - x % |addr| && addr[l] == |addr| - y % |addr|
    ensures Later(addr, x, y)
  {
  }

  lemma NextCylinder(v: Volume, used: set<nat>, base: int, addr: seq<int>, t: seq<int>)
    requires Gathered(v, used, base, addr, |addr|, t) && Permutes(addr, |addr|)
    ensures Gathered(v, used, base - |addr|, addr, 0, t)
  {
    assert addr[..|addr|] == addr;
    forall b: nat
      ensures b in t <==> InRange(v, b) && b !in used && b >= base - |addr|
    {
      assert base - |addr| <= b < base ==> 1 <= base - b <= |addr|;
    }
  }

  lemma NoneGathered(v: Volume, used: set<nat>, base: int, addr: seq<int>)
    requires v.fmax <= base
    ensures Gathered(v, used, base, addr, 0, []) && (addr != [] ==> Interleaved(addr, []))
  {
  }

  lemma RoundUp(x: nat, y: nat)
    requires y > 0
    ensures (x + (y - 1)) / y * y >= x
  {
    var q, r := (x + (y - 1)) / y, (x + (y - 1)) % y;
    assert x + (y - 1) == y * q + r;
    assert y * q == q * y;
  }

  /** The spacing asked for, or that of the superblock, if it makes sense. */
  function ChosenStep(step: int, cyl: int): nat {
    if 0 < step <= cyl <= 500 then step else 9
  }

  function ChosenCyl(step: int, cyl: int): (r: nat)
    ensures r > 0
  {
    if 0 < step <= cyl <= 500 then cyl else 400
  }

  /** makefree(): step and cyl as asked for or from the superblock. */
  method MakeFree(v: Volume, blkmap: BitMap, step0: int, cyl0: int, disk0: Disk)
    returns (disk: Disk, c: FBlk, tfree: nat, ghost t: seq<int>, ghost turns: seq<int>)
    requires 0 < v.fmin < v.fmax <= 8 * blkmap.bytes.Length && Blocks50(disk0)
    ensures Blocks50(disk) && Listed(disk, c, t) && tfree == |t| && Clean(v, blkmap.Blocks(), t)
    ensures forall b: nat :: b in t <==> InRange(v, b) && b !in blkmap.Blocks()
    ensures |turns| == ChosenCyl(step0, cyl0) && Permutes(turns, |turns|)
    ensures Spaced(turns, ChosenStep(step0, cyl0), |turns|) && Interleaved(turns, t)
  {
    hide Listed, Clean, Permutes, Gathered, BlocksIn, Spaced, Interleaved;
    var step, cyl := step0, cyl0;
    if step > cyl || step <= 0 || cyl <= 0 || cyl > MAXCYL {
      step, cyl := STEPSIZE, CYLSIZE;
    }
    var addr := Spacing(step, cyl);
    ghost var a, used := addr[..cyl], blkmap.Blocks();
    RoundUp(v.fmax, cyl);
    var baseblk := (v.fmax + (cyl - 1)) / cyl * cyl;
    ghost var q: int := (v.fmax + (cyl - 1)) / cyl;
    turns := a;
    disk, c, tfree, t := disk0, ZeroBlk().(nfree := 1), 0, [];
    EmptyListed(disk);
    NoneGathered(v, used, baseblk, a);
    while baseblk > 0
      invariant addr[..cyl] == a && Permutes(a, cyl) && Gathered(v, used, baseblk, a, 0, t)
      invariant Blocks50(disk) && Listed(disk, c, t) && tfree == |t|
      invariant baseblk == q * cyl && Interleaved(a, t)
    {
      PositiveTimes(q, cyl);
      disk, c, tfree, t := OneCylinder(v, blkmap, q, baseblk, addr, cyl, disk, c, tfree, t);
      assert (q - 1) * cyl == q * cyl - cyl;
      baseblk := baseblk - cyl;
      q := q - 1;
    }
    AllGathered(v, used, baseblk, a, t);
  }

  /** The inner loop over one cylinder. */
  method OneCylinder(v: Volume, blkmap: BitMap, ghost q: nat, baseblk: int, addr: array<int>, cyl: nat,
                     disk0: Disk, c0: FBlk, tfree0: nat, ghost t0: seq<int>)
    returns (disk: Disk, c: FBlk, tfree: nat, ghost t: seq<int>)
    requires 0 < v.fmin < v.fmax <= 8 * blkmap.bytes.Length && cyl <= addr.Length && Permutes(addr[..cyl], cyl)
    requires Gathered(v, blkmap.Blocks(), baseblk, addr[..cyl], 0, t0)
    requires 0 < cyl && baseblk == q * cyl && Interleaved(addr[..cyl], t0)
    ensures Interleaved(addr[..cyl], t)
    requires Blocks50(disk0) && Listed(disk0, c0, t0) && tfree0 == |t0|
    ensures Gathered(v, blkmap.Blocks(), baseblk - cyl, addr[..cyl], 0, t)
    ensures Blocks50(disk) && Listed(disk, c, t) && tfree == |t|
  {
    hide Listed, Clean, Permutes, Gathered, BlocksIn, Interleaved;
    ghost var a, used := addr[..cyl], blkmap.Blocks();
    disk, c, tfree, t := disk0, c0, tfree0, t0;
    for i := 0 to cyl
      invariant Gathered(v, used, baseblk, a, i, t)
      invariant Blocks50(disk) && Listed(disk, c, t) && tfree == |t| && Interleaved(a, t)
    {
      var blk := baseblk - addr[i];
      GatherOne(v, used, baseblk, a, i, t);
      if InRange(v, blk) {
        InterleaveOne(v, used, q, a, i, t);
        var taken := blkmap.Get(blk);
        if !taken {
          tfree := tfree + 1;
          ListBlock(disk, c, t);
          if c.nfree >= NICFREE {
            var full := c;
            c := ZeroBlk();
            c := FBlk(c.nfree + 1, c.free[c.nfree := blk]);
            Spilled(disk, full, t, blk, c);
            disk := disk[blk := full];
          } else {
            Pushed(disk, c, t, blk);
            c := FBlk(c.nfree + 1, c.free[c.nfree := blk]);
          }
          t := [blk] + t;
        }
      }
    }
    NextCylinder(v, used, baseblk, a, t);
  }

  lemma PositiveTimes(q: int, cyl: nat)
    requires q * cyl > 0
    ensures q > 0
  {
  }

  lemma ListBlock(disk: Disk, c: FBlk, t: seq<int>)
    requires Listed(disk, c, t)
    ensures 1 <= c.nfree <= NICFREE == |c.free|
  {
  }

  lemma AllGathered(v: Volume, used: set<nat>, base: int, addr: seq<int>, t: seq<int>)
    requires Gathered(v, used, base, addr, 0, t) && base <= 0
    ensures Clean(v, used, t) && forall b: nat :: b in t <==> InRange(v, b) && b !in used
  {
  }

  // ----- the new list passes the old check

  /** Phase 6 followed by phase 5: the new list has no bad and no duplicate block, none is
      missing, and the count in the superblock is right. */
  method SalvageAndCheck(v: Volume, blkmap: BitMap, n_blks: nat, step: int, cyl: int, disk0: Disk)
    returns (check: FreeCheck, tfree: nat)
    requires 0 < v.fmin < v.fmax <= 8 * blkmap.bytes.Length && Blocks50(disk0)
    requires n_blks == |blkmap.Blocks()| && forall b | b in blkmap.Blocks() :: InRange(v, b)
    ensures !check.fixfree && check.n_free == tfree && n_blks + check.n_free == v.fmax - v.fmin
  {
    hide Listed, Clean, BlocksIn;
    var disk, c;
    ghost var t, turns;
    disk, c, tfree, t, turns := MakeFree(v, blkmap, step, cyl, disk0);
    check := new FreeCheck(v, blkmap);
    ListBlock(disk, c, t);
    ghost var t' := check.FreeChk(disk, c);
    assert ListFrom(disk, c, t);
    if !check.fixfree {
      OneList(disk, c, t, t');
    }
    CountAll(v, blkmap.Blocks(), t);
  }

  /** Blocks in use and blocks on the list together are all blocks. */
  lemma CountAll(v: Volume, used: set<nat>, t: seq<int>)
    requires v.fmin < v.fmax && Clean(v, used, t) && forall b | b in used :: InRange(v, b)
    requires forall b: nat :: b in t <==> InRange(v, b) && b !in used
    ensures |used| + |t| == v.fmax - v.fmin
  {
    var free := set b: nat | b < v.fmax && b in t;
    CountDistinct(t, free);
    CountRange(used + free, v.fmin, v.fmax);
    assert |used + free| == |used| + |free| by {
      assert used * free == {};
    }
  }

  lemma {:induction false} CountDistinct(t: seq<int>, s: set<nat>)
    requires NoneTwice(t) && forall b: int :: b in t <==> b >= 0 && b in s
    ensures |s| == |t|
    decreases |t|
  {
    if t != [] {
      var last, front := t[|t| - 1], t[..|t| - 1];
      assert t == front + [last];
      assert last in t;
      forall b: int
        ensures b in front <==> b >= 0 && b in s - {last}
      {
        assert b in t <==> b in front || b == last;
      }
      CountDistinct(front, s - {last});
    } else {
      assert forall b: nat :: b !in s;
      assert s == {};
    }
  }

  lemma {:induction false} CountRange(s: set<nat>, lo: nat, hi: nat)
    requires lo <= hi && forall b: nat :: b in s <==> lo <= b < hi
    ensures |s| == hi - lo
    decreases hi
  {
    if lo == hi {
      assert s == {};
    } else {
      CountRange(s - {hi - 1}, lo, hi - 1);
    }
  }
}
