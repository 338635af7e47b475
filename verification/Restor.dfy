/** bmap(), itrunc() and the writing of a file in restor.c. */
module Restor {
  import opened Bits
  import opened Options
  import opened RestorDisk
  import opened RestorFree
  import opened RestorTree
  import opened RestorFile
  import opened RestorGrow
  import opened RestorRead

  /** The file with addresses iaddr and the free list share out the blocks in total. */
  ghost predicate Holds(s: Store, iaddr: array<int>, roots: seq<Tree>, total: multiset<int>)
    reads s, s.s_free, s.cache, s.cache.c_bno, s.cache.c_time, s.cache.c_block, iaddr
  {
    && s.Valid() && iaddr != s.s_free && iaddr != s.cache.c_bno && iaddr != s.cache.c_time
    && State(s.cache.fi, iaddr[..], roots, s.t, total)
  }

  /** How many levels, and what is left of the block number. */
  method FindLevel(bn: nat) returns (j: nat, sh: nat, off: nat)
    requires bn >= NADDR - 3
    ensures j <= 3 && (j == 0 <==> bn >= MaxBlocks())
    ensures j > 0 ==> Locate(bn) == Place(NADDR - j, 4 - j, off) && sh == NSHIFT * (4 - j)
  {
    LocateWithin(bn);
    sh := 0;
    var nb := 1;
    off := bn - (NADDR - 3);
    j := 3;
    while j > 0
      invariant j <= 3 && sh == NSHIFT * (3 - j) && nb == Size(3 - j)
      invariant Locate(bn) == Levels(off, 4 - j)
    {
      sh := sh + NSHIFT;
      nb := nb * NINDIR;
      if off < nb {
        return;
      }
      off := off - nb;
      j := j - 1;
    }
  }

  /** Where the way through the indirect blocks has come to. */
  ghost predicate Underway(roots: seq<Tree>, r: nat, p: seq<nat>, nb: int) {
    |roots| == NADDR && r < NADDR && Leads(roots[r], p) && !SubAt(roots[r], p).Hole? && SubAt(roots[r], p).addr == nb
  }

  /** The first address, allocated if it is not there. */
  method FetchRoot(s: Store, iaddr: array<int>, r: nat, ghost roots: seq<Tree>, ghost total: multiset<int>)
    returns (nb: Option<int>, ghost roots': seq<Tree>)
    requires Holds(s, iaddr, roots, total) && NADDR - 3 <= r < NADDR
    modifies s`s_nfree, s`t, s.s_free, s.cache, s.cache.c_bno, s.cache.c_time, s.cache.c_block, iaddr
    ensures nb == None ==> s.t == []
    ensures nb != None ==>
              && Holds(s, iaddr, roots', total) && |roots| == |roots'| == NADDR && SameWalks(roots, roots')
              && Underway(roots', r, [], nb.value) && DataKept(old(s.cache.fi), s.cache.fi, roots)
  {
    hide State, Shape, On, Blocks, KidsBlocks, Fresh, WalkFile, Distinct, DataKept;
    roots' := roots;
    StateGives(s.cache.fi, iaddr[..], roots, s.t, total, r);
    if iaddr[r] != 0 {
      KeptAsIs(s.cache.fi, roots);
      return Some(iaddr[r]), roots;
    }
    if s.t != [] {
      StateFree(s.cache.fi, iaddr[..], roots, s.t, total);
      RootPut(s.cache.fi, iaddr[..], roots, s.t, total, r);
      RootPutWalks(roots, r, s.t[0]);
      TopNotZero(s);
      KeptByFree(s.cache.fi, iaddr[..], roots, s.t, total);
    }
    ghost var fi, ia, t := s.cache.fi, iaddr[..], s.t;
    nb := s.Balloc();
    if nb != None {
      FreshBlocks(nb.value, LevelOf(r));
      iaddr[r] := nb.value;
      assert iaddr[..] == ia[r := nb.value];
      roots' := roots[r := Fresh(nb.value, LevelOf(r))];
      FreshIsNode(nb.value, LevelOf(r));
    }
  }

  lemma StateGives(fi: Device, ia: seq<int>, roots: seq<Tree>, t: seq<int>, total: multiset<int>, r: nat)
    requires State(fi, ia, roots, t, total) && r < NADDR
    ensures |ia| == |roots| == NADDR && ia[r] == Addr(roots[r]) && On(fi, roots[r]) && Shape(roots[r], LevelOf(r))
    ensures roots[r].Hole? <==> ia[r] == 0
  {
  }

  lemma StateFree(fi: Device, ia: seq<int>, roots: seq<Tree>, t: seq<int>, total: multiset<int>)
    requires State(fi, ia, roots, t, total) && t != []
    ensures t[0] !in t[1..]
  {
    NextFree(roots, t, total);
  }

  lemma FreshIsNode(b: int, l: nat)
    ensures !Fresh(b, l).Hole? && Fresh(b, l).addr == b
  {
  }

  /** A node on the way, as its block shows it. */
  lemma NodeOnDevice(fi: Device, ia: seq<int>, roots: seq<Tree>, t: seq<int>, total: multiset<int>,
                     r: nat, p: seq<nat>, nb: int)
    requires State(fi, ia, roots, t, total) && Underway(roots, r, p, nb) && |p| < LevelOf(r)
    ensures nb != 0 && SubAt(roots[r], p).Node? && |SubAt(roots[r], p).kids| == NINDIR
    ensures Entries(At(fi, nb)) == Addrs(SubAt(roots[r], p).kids)
    ensures forall i | 0 <= i < NINDIR :: SubAt(roots[r], p).kids[i] == Hole <==> Entries(At(fi, nb))[i] == 0
  {
    SubShape(roots[r], p, LevelOf(r));
    SubOn(fi, roots[r], p);
  }

  /** One turn of the loop of bmap() through the indirect blocks. */
  method NextEntry(s: Store, ghost iaddr: array<int>, ghost r: nat, ghost p: seq<nat>, nb: int, i: nat,
                   ghost roots: seq<Tree>, ghost total: multiset<int>)
    returns (nnb: Option<int>, ghost roots': seq<Tree>)
    requires Holds(s, iaddr, roots, total) && Underway(roots, r, p, nb) && |p| < LevelOf(r) && i < NINDIR
    modifies s`s_nfree, s`t, s.s_free, s.cache, s.cache.c_bno, s.cache.c_time, s.cache.c_block
    ensures nnb == None ==> s.t == []
    ensures nnb != None ==> Holds(s, iaddr, roots', total) && Underway(roots', r, p + [i], nnb.value)
    ensures nnb != None ==> |roots| == |roots'| == NADDR && DataKept(old(s.cache.fi), s.cache.fi, roots)
    ensures nnb != None && |p| + 1 < LevelOf(r) ==> SameWalks(roots, roots')
    ensures nnb != None && |p| + 1 == LevelOf(r) ==>
              roots' == roots || forall n: nat | Reaches(n, r, p + [i]) :: Added(roots, roots', n, nnb.value)
    ensures nnb != None && roots' == roots ==> Walk(roots[r], p + [i]) == nnb.value
  {
    hide State, Shape, On, Blocks, KidsBlocks, Fresh, WalkFile, Distinct, DataKept, PutAt, Addrs, Entries, Walk;
    roots' := roots;
    NodeOnDevice(s.cache.fi, iaddr[..], roots, s.t, total, r, p, nb);
    LeadsOn(roots[r], p, i);
    ghost var kids := SubAt(roots[r], p).kids;
    ghost var fi, ia, t := s.cache.fi, iaddr[..], s.t;
    var b := s.cache.Read(nb);
    var indir := Entries(b);
    if indir[i] != 0 {
      KidAt(kids, i);
      WalkThere(roots[r], p + [i]);
      KeptAsIs(s.cache.fi, roots);
      return Some(indir[i]), roots;
    }
    NotFree(fi, ia, roots, t, total, r, p, nb);
    if s.t != [] {
      StateFree(fi, ia, roots, t, total);
      TopNotZero(s);
      EntryPut(fi, ia, roots, t, total, r, p, i, nb, indir);
      EntryPutWalks(roots, r, p + [i], s.t[0]);
      KeptByEntry(fi, ia, roots, t, total, r, p, indir, i);
    }
    nnb := s.Balloc();
    if nnb != None {
      var d := nnb.value;
      s.Put(nb, Indirect(indir[i := d]));
      assert s.cache.fi == Entered(fi, nb, indir, i, d);
      roots' := roots[r := PutAt(roots[r], p + [i], Fresh(d, LevelOf(r) - |p| - 1))];
      PutThere(roots[r], p + [i], Fresh(d, LevelOf(r) - |p| - 1));
      FreshIsNode(d, LevelOf(r) - |p| - 1);
    }
  }

  lemma KidAt(kids: seq<Tree>, i: nat)
    requires i < |kids|
    ensures Addrs(kids)[i] == Addr(kids[i])
  {
  }

  lemma {:induction false} WalkThere(t: Tree, p: seq<nat>)
    requires Leads(t, p)
    ensures Walk(t, p) == Addr(SubAt(t, p))
    decreases |p|
  {
    if p != [] {
      WalkThere(t.kids[p[0]], p[1..]);
    }
  }

  lemma {:induction false} PutThere(t: Tree, p: seq<nat>, x: Tree)
    requires Leads(t, p)
    ensures Leads(PutAt(t, p, x), p) && SubAt(PutAt(t, p, x), p) == x
    decreases |p|
  {
    if p != [] {
      PutThere(t.kids[p[0]], p[1..], x);
    }
  }

  /** A block of the file is not free. */
  lemma NotFree(fi: Device, ia: seq<int>, roots: seq<Tree>, t: seq<int>, total: multiset<int>,
                r: nat, p: seq<nat>, nb: int)
    requires State(fi, ia, roots, t, total) && Underway(roots, r, p, nb)
    ensures nb !in t && (t != [] ==> nb !in t[1..])
  {
    SubWithin(roots[r], p, nb);
    assert nb in Blocks(SubAt(roots[r], p));
    KidWithin(roots, r, nb);
    if t != [] {
      NextFree(roots, t, total);
    }
  }

  lemma TopNotZero(s: Store)
    requires s.Valid() && s.t != []
    ensures s.t[0] != 0
  {
    assert s.t[0] in s.t;
  }

  /** Logical block bn is at d now, and the others are where they were. */
  ghost predicate Mapped(roots: seq<Tree>, roots': seq<Tree>, bn: nat, d: int) {
    && |roots| == |roots'| == NADDR && (WalkFile(roots, bn) == 0 || WalkFile(roots, bn) == d)
    && forall k: nat :: WalkFile(roots', k) == if k == bn then d else WalkFile(roots, k)
  }

  ghost predicate Arrived(roots: seq<Tree>, bn: nat, d: int) {
    Locate(bn).Place? && Underway(roots, Locate(bn).root, Path(Locate(bn).off, Locate(bn).level), d)
  }

  /** What bmap() starts from: a direct block that is there already is given up. */
  function Without(roots: seq<Tree>, bn: nat): seq<Tree>
    requires |roots| == NADDR
  {
    if bn < NADDR - 3 then roots[bn := Hole] else roots
  }

  /** The block given up belongs to nobody any more. */
  function Lost(roots: seq<Tree>, bn: nat): multiset<int>
    requires |roots| == NADDR
  {
    if bn < NADDR - 3 && WalkFile(roots, bn) != 0 then multiset{WalkFile(roots, bn)} else multiset{}
  }

  /** bmap(): the address of logical block bn, with all the indirect blocks there; 0 for a
      block beyond the largest file, None when there is no more space. */
  method Bmap(s: Store, iaddr: array<int>, bn: nat, ghost roots: seq<Tree>, ghost total: multiset<int>)
    returns (d: Option<int>, ghost roots': seq<Tree>)
    requires Holds(s, iaddr, roots, total) && |roots| == NADDR
    modifies s`s_nfree, s`t, s.s_free, s.cache, s.cache.c_bno, s.cache.c_time, s.cache.c_block, iaddr
    ensures d == None ==> s.t == []
    ensures d != None ==> Holds(s, iaddr, roots', total - Lost(roots, bn)) && (d.value == 0 <==> bn >= MaxBlocks())
    ensures d != None && bn < MaxBlocks() ==>
              Mapped(Without(roots, bn), roots', bn, d.value) && Arrived(roots', bn, d.value)
    ensures d == Some(0) ==> roots' == roots
    ensures d != None ==> DataKept(old(s.cache.fi), s.cache.fi, Without(roots, bn))
  {
    hide State, Shape, On, Blocks, KidsBlocks, Fresh, WalkFile, Distinct, DataKept, PutAt, Addrs, Entries, Walk, Locate, Path,
         SameWalks, Mapped, Underway, Holds, Reaches, Added, Arrived, Leads, SubAt, Size, Low, Shr;
    LocateWithin(bn);
    if bn < NADDR - 3 {
      d, roots' := Direct(s, iaddr, bn, roots, total);
      return;
    }
    NothingLost(s, iaddr, roots, total, bn);
    var j, sh, off := FindLevel(bn);
    if j == 0 {
      KeptAsIs(s.cache.fi, roots);
      return Some(0), roots;
    }
    ghost var r, l := NADDR - j, 4 - j;
    ghost var path := Path(off, l);
    PathLength(off, l);
    var nb;
    nb, roots' := FetchRoot(s, iaddr, NADDR - j, roots, total);
    if nb == None {
      return None, roots';
    }
    d := nb;
    ghost var p: seq<nat> := [];
    while j <= 3
      invariant 1 <= j <= 4 && |p| + 4 == l + j && sh == NSHIFT * (4 - j) && p == path[..|p|]
      invariant d != None && Holds(s, iaddr, roots', total) && Underway(roots', r, p, d.value)
      invariant j <= 3 ==> |roots| == |roots'| == NADDR && SameWalks(roots, roots')
      invariant j == 4 ==> Mapped(roots, roots', bn, d.value)
      invariant |roots| == NADDR && DataKept(old(s.cache.fi), s.cache.fi, roots)
      decreases 4 - j
    {
      sh := sh - NSHIFT;
      var i := Low(Shr(off, sh), NSHIFT);
      PathDigit(off, l, |p|);
      assert path[..|p| + 1] == p + [i];
      ghost var mid, fi1 := roots', s.cache.fi;
      d, roots' := NextEntry(s, iaddr, r, p, d.value, i, mid, total);
      if d == None {
        return None, roots';
      }
      p := p + [i];
      j := j + 1;
      KeptTwice(old(s.cache.fi), fi1, s.cache.fi, roots, mid);
      EntryMade(roots, mid, roots', bn, p, off, r, l, d.value);
    }
    assert p == path;
    ArrivedThere(s, iaddr, roots', total, bn, r, off, l, d.value);
  }

  lemma KeptAsIs(fi: Device, roots: seq<Tree>)
    ensures |roots| == NADDR ==> DataKept(fi, fi, roots)
  {
  }

  lemma PathLength(off: nat, l: nat)
    ensures |Path(off, l)| == l && forall k | 0 <= k < l :: Path(off, l)[k] < NINDIR
  {
  }

  /** What one more entry on the way does to the addresses found. */
  lemma EntryMade(roots: seq<Tree>, mid: seq<Tree>, roots': seq<Tree>, bn: nat, p: seq<nat>, off: nat, r: nat, l: nat, d: int)
    requires |roots| == |mid| == |roots'| == NADDR && SameWalks(roots, mid) && Locate(bn) == Place(r, l, off) && l == LevelOf(r)
    requires |p| <= l && p == Path(off, l)[..|p|]
    requires |p| < l ==> SameWalks(mid, roots')
    requires |p| == l ==> (roots' == mid && Walk(mid[r], p) == d) || forall n: nat | Reaches(n, r, p) :: Added(mid, roots', n, d)
    ensures |p| < l ==> SameWalks(roots, roots')
    ensures |p| == l ==> Mapped(roots, roots', bn, d)
  {
    if |p| == l {
      assert p == Path(off, l);
      assert Reaches(bn, r, p);
    }
  }

  lemma ArrivedThere(s: Store, iaddr: array<int>, roots: seq<Tree>, total: multiset<int>,
                     bn: nat, r: nat, off: nat, l: nat, d: int)
    requires Holds(s, iaddr, roots, total) && Locate(bn) == Place(r, l, off) && Underway(roots, r, Path(off, l), d)
    ensures Arrived(roots, bn, d) && d != 0
  {
    SubShape(roots[r], Path(off, l), l);
  }

  /** The first addresses of the inode are those of data blocks. */
  method Direct(s: Store, iaddr: array<int>, bn: nat, ghost roots: seq<Tree>, ghost total: multiset<int>)
    returns (d: Option<int>, ghost roots': seq<Tree>)
    requires Holds(s, iaddr, roots, total) && |roots| == NADDR && bn < NADDR - 3
    modifies s`s_nfree, s`t, s.s_free, s.cache, s.cache.c_bno, s.cache.c_time, s.cache.c_block, iaddr
    ensures d == None ==> s.t == []
    ensures d != None ==> Holds(s, iaddr, roots', total - Lost(roots, bn)) && d.value != 0
    ensures d != None ==> Mapped(Without(roots, bn), roots', bn, d.value) && Arrived(roots', bn, d.value)
    ensures d != None ==> DataKept(old(s.cache.fi), s.cache.fi, Without(roots, bn))
  {
    hide State, Shape, On, Blocks, KidsBlocks, Fresh, WalkFile, Distinct, DataKept, Lost;
    ghost var fi, t := s.cache.fi, s.t;
    GivenUp(fi, iaddr[..], roots, t, total, bn);
    ghost var ia, left, total' := iaddr[..][bn := 0], Without(roots, bn), total - Lost(roots, bn);
    if s.t != [] {
      StateFree(fi, ia, left, t, total');
      RootPut(fi, ia, left, t, total', bn);
      RootPutWalks(left, bn, t[0]);
      TopNotZero(s);
      KeptByFree(fi, ia, left, t, total');
      FreshIsNode(t[0], 0);
    }
    d := s.Balloc();
    roots' := roots;
    if d != None {
      iaddr[bn] := d.value;
      assert iaddr[..] == ia[bn := d.value];
      roots' := left[bn := Fresh(d.value, LevelOf(bn))];
    }
  }

  /** Without the block that is at address bn the rest is in order. */
  lemma GivenUp(fi: Device, ia: seq<int>, roots: seq<Tree>, t: seq<int>, total: multiset<int>, bn: nat)
    requires State(fi, ia, roots, t, total) && |roots| == NADDR && bn < NADDR - 3
    ensures |ia| == NADDR && State(fi, ia[bn := 0], Without(roots, bn), t, total - Lost(roots, bn))
    ensures Locate(bn) == Place(bn, 0, 0) && Path(0, 0) == [] && WalkFile(Without(roots, bn), bn) == 0
  {
    hide On, KidsBlocks, Distinct;
    var x := roots[bn];
    assert Shape(x, 0) && WalkFile(roots, bn) == Addr(x) && Blocks(x) == Lost(roots, bn);
    KidReplaced(roots, bn, Hole);
    HoleIsFine(fi, LevelOf(bn));
    GivenBack(KidsBlocks(roots), KidsBlocks(roots[bn := Hole]), Lost(roots, bn), multiset(t), total);
  }

  lemma HoleIsFine(fi: Device, l: nat)
    ensures On(fi, Hole) && Shape(Hole, l) && Blocks(Hole) == multiset{}
  {
  }

  lemma NothingLost(s: Store, iaddr: array<int>, roots: seq<Tree>, total: multiset<int>, bn: nat)
    requires Holds(s, iaddr, roots, total) && |roots| == NADDR && (WalkFile(roots, bn) == 0 || bn >= NADDR - 3)
    ensures Without(roots, bn) == roots && total - Lost(roots, bn) == total
  {
    if bn < NADDR - 3 {
      assert Shape(roots[bn], 0) && WalkFile(roots, bn) == Addr(roots[bn]);
    }
  }

  lemma GivenBack(a: multiset<int>, a': multiset<int>, x: multiset<int>, t: multiset<int>, total: multiset<int>)
    requires a' + x == a + multiset{} && a + t == total && Distinct(total)
    ensures a' + t == total - x && Distinct(total - x)
  {
    forall b
      ensures (a' + t)[b] == (total - x)[b] <= 1
    {
      assert (a' + x)[b] == (a + multiset{})[b] && (a + t)[b] == total[b] <= 1;
    }
  }

  // ----- restoring a file

  /** The first n logical blocks of the file hold what was on the tape, or are holes; there is no
      place for those beyond the greatest size. */
  ghost predicate Restored(fi: Device, roots: seq<Tree>, tape: seq<Option<seq<byte>>>, n: nat)
    requires |roots| == NADDR
  {
    forall k: nat ::
      if k < n && k < |tape| && tape[k] != None && k < MaxBlocks()
      then WalkFile(roots, k) != 0 && At(fi, WalkFile(roots, k)) == Data(tape[k].value)
      else WalkFile(roots, k) == 0
  }

  /** What the blocks beyond the greatest size leave in block 0: the last of them. */
  function BlockZero(was: Block, tape: seq<Option<seq<byte>>>, n: nat): Block
    requires n <= |tape|
  {
    if n <= MaxBlocks() then was
    else if tape[n - 1] != None then Data(tape[n - 1].value)
    else BlockZero(was, tape, n - 1)
  }

  /** rstrfile(): the next block of the file is written; ok unless space has run out.  Beyond the
      greatest size bmap() gives 0, and it is block 0 that is overwritten. */
  method RstrFile(s: Store, iaddr: array<int>, curbno: nat, b: seq<byte>, ghost tape: seq<Option<seq<byte>>>,
                  ghost roots: seq<Tree>, ghost total: multiset<int>)
    returns (ok: bool, ghost roots': seq<Tree>)
    requires Holds(s, iaddr, roots, total) && |roots| == NADDR
    requires curbno < |tape| && tape[curbno] == Some(b) && Restored(s.cache.fi, roots, tape, curbno)
    modifies s`s_nfree, s`t, s.s_free, s.cache, s.cache.c_bno, s.cache.c_time, s.cache.c_block, iaddr
    ensures !ok ==> s.t == []
    ensures ok ==> Holds(s, iaddr, roots', total) && |roots'| == NADDR && Restored(s.cache.fi, roots', tape, curbno + 1)
    ensures ok ==> At(s.cache.fi, 0) == if curbno < MaxBlocks() then At(old(s.cache.fi), 0) else Data(b)
  {
    hide State, Shape, On, Blocks, KidsBlocks, WalkFile, Distinct, DataKept, Mapped, Arrived, MaxBlocks, Holds, Restored;
    NotYet(s.cache.fi, roots, tape, curbno);
    NothingLost(s, iaddr, roots, total, curbno);
    var d;
    d, roots' := Bmap(s, iaddr, curbno, roots, total);
    if d == None {
      return false, roots';
    }
    ghost var fi := s.cache.fi;
    ZeroKept(old(s.cache.fi), fi, roots);
    if d.value == 0 {
      ZeroIsNotFree(s, iaddr, roots', total);
      BlockZeroWritten(fi, iaddr[..], roots', s.t, total, Data(b));
      s.Put(0, Data(b));
      StillRestored(old(s.cache.fi), fi, roots, tape, curbno, b);
    } else {
      DataThere(s, iaddr, roots, roots', total, curbno, d.value);
      s.Put(d.value, Data(b));
      NextRestored(old(s.cache.fi), fi, roots, roots', tape, curbno, d.value, iaddr[..], s.t, total, b);
    }
    WrittenHolds(s, iaddr, roots', total);
    return true, roots';
  }

  lemma ZeroKept(fi: Device, fi': Device, roots: seq<Tree>)
    requires |roots| == NADDR && DataKept(fi, fi', roots)
    ensures At(fi', 0) == At(fi, 0)
  {
  }

  lemma ZeroIsNotFree(s: Store, iaddr: array<int>, roots: seq<Tree>, total: multiset<int>)
    requires Holds(s, iaddr, roots, total)
    ensures s.Valid() && 0 !in s.t && State(s.cache.fi, iaddr[..], roots, s.t, total)
    ensures iaddr != s.s_free && iaddr != s.cache.c_bno && iaddr != s.cache.c_time
  {
  }

  /** A block without a place in the file leaves those that have one as they are. */
  lemma StillRestored(fi0: Device, fi: Device, roots: seq<Tree>, tape: seq<Option<seq<byte>>>, n: nat, b: seq<byte>)
    requires |roots| == NADDR && Restored(fi0, roots, tape, n) && DataKept(fi0, fi, roots) && n >= MaxBlocks()
    requires forall k: nat | WalkFile(roots, k) != 0 :: At(fi[0 := Data(b)], WalkFile(roots, k)) == At(fi, WalkFile(roots, k))
    ensures Restored(fi[0 := Data(b)], roots, tape, n + 1)
  {
    hide WalkFile;
  }

  lemma NotYet(fi: Device, roots: seq<Tree>, tape: seq<Option<seq<byte>>>, n: nat)
    requires |roots| == NADDR && Restored(fi, roots, tape, n)
    ensures WalkFile(roots, n) == 0
  {
  }

  lemma DataThere(s: Store, iaddr: array<int>, roots: seq<Tree>, roots': seq<Tree>, total: multiset<int>, n: nat, d: int)
    requires Holds(s, iaddr, roots', total) && Mapped(roots, roots', n, d) && Arrived(roots', n, d) && d != 0
    ensures s.Valid() && d !in s.t && State(s.cache.fi, iaddr[..], roots', s.t, total) && WalkFile(roots', n) == d
    ensures iaddr != s.cache.c_bno && iaddr != s.cache.c_time && iaddr != s.s_free && |roots'| == NADDR
    ensures State(s.cache.fi[d := Data([])], iaddr[..], roots', s.t, total)
  {
    var w := Locate(n);
    NotFree(s.cache.fi, iaddr[..], roots', s.t, total, w.root, Path(w.off, w.level), d);
    FileDataWritten(s.cache.fi, iaddr[..], roots', s.t, total, n, Data([]));
  }

  lemma NextRestored(fi0: Device, fi: Device, roots: seq<Tree>, roots': seq<Tree>, tape: seq<Option<seq<byte>>>, n: nat,
                     d: int, ia: seq<int>, t: seq<int>, total: multiset<int>, b: seq<byte>)
    requires |roots| == |roots'| == NADDR && n < |tape| && tape[n] == Some(b) && d != 0 && n < MaxBlocks()
    requires Restored(fi0, roots, tape, n) && DataKept(fi0, fi, roots) && Mapped(roots, roots', n, d)
    requires State(fi, ia, roots', t, total)
    ensures Restored(fi[d := Data(b)], roots', tape, n + 1) && State(fi[d := Data(b)], ia, roots', t, total)
  {
    hide State, WalkFile;
    FileDataWritten(fi, ia, roots', t, total, n, Data(b));
    forall k: nat
      ensures k < n && WalkFile(roots', k) != 0 ==> WalkFile(roots', k) != d
    {
      if k != n && WalkFile(roots', k) != 0 {
        FileLeavesDiffer(fi, ia, roots', t, total, k, n);
      }
    }
  }

  lemma WrittenHolds(s: Store, iaddr: array<int>, roots: seq<Tree>, total: multiset<int>)
    requires s.Valid() && iaddr != s.s_free && iaddr != s.cache.c_bno && iaddr != s.cache.c_time
    requires State(s.cache.fi, iaddr[..], roots, s.t, total)
    ensures Holds(s, iaddr, roots, total)
  {
  }

  /** rstrskip(): a hole. */
  lemma SkipRestored(fi: Device, roots: seq<Tree>, tape: seq<Option<seq<byte>>>, n: nat)
    requires |roots| == NADDR && Restored(fi, roots, tape, n) && n < |tape| && tape[n] == None
    ensures Restored(fi, roots, tape, n + 1)
  {
  }

  /** A file from the tape, holes and all; ok unless space has run out.  Block 0 is as it was unless
      the tape has blocks beyond the greatest size; then it holds the last of these. */
  method RestoreFile(s: Store, iaddr: array<int>, tape: seq<Option<seq<byte>>>, ghost roots: seq<Tree>,
                     ghost total: multiset<int>)
    returns (ok: bool, ghost roots': seq<Tree>)
    requires Holds(s, iaddr, roots, total) && |roots| == NADDR && forall i | 0 <= i < NADDR :: roots[i] == Hole
    modifies s`s_nfree, s`t, s.s_free, s.cache, s.cache.c_bno, s.cache.c_time, s.cache.c_block, iaddr
    ensures !ok ==> s.t == []
    ensures ok ==> Holds(s, iaddr, roots', total) && |roots'| == NADDR && Restored(s.cache.fi, roots', tape, |tape|)
    ensures ok ==> At(s.cache.fi, 0) == BlockZero(At(old(s.cache.fi), 0), tape, |tape|)
    ensures ok ==> iaddr.Length == 13 && ReadsBack(s.cache.fi, iaddr[..], tape)
  {
    hide State, WalkFile, MaxBlocks, Holds, Restored;
    roots' := roots;
    EmptyRestored(s.cache.fi, roots, tape);
    ghost var was := At(s.cache.fi, 0);
    for curbno := 0 to |tape|
      invariant Holds(s, iaddr, roots', total) && |roots'| == NADDR && Restored(s.cache.fi, roots', tape, curbno)
      invariant At(s.cache.fi, 0) == BlockZero(was, tape, curbno)
    {
      ZeroStep(was, tape, curbno);
      match tape[curbno]
      case Some(b) =>
        ok, roots' := RstrFile(s, iaddr, curbno, b, tape, roots', total);
        if !ok {
          return;
        }
      case None =>
        SkipRestored(s.cache.fi, roots', tape, curbno);
    }
    RestoredReadsBack(s, iaddr, tape, roots', total);
    ok := true;
  }

  lemma RestoredReadsBack(s: Store, iaddr: array<int>, tape: seq<Option<seq<byte>>>, roots: seq<Tree>, total: multiset<int>)
    requires Holds(s, iaddr, roots, total) && |roots| == NADDR && Restored(s.cache.fi, roots, tape, |tape|)
    ensures iaddr.Length == 13 && ReadsBack(s.cache.fi, iaddr[..], tape)
  {
    hide State, WalkFile, AddressOf;
    FoundOnDevice(s.cache.fi, iaddr[..], roots, s.t, total, 0);
    PlaceOf(0);
    forall k: nat
      ensures WalkFile(roots, k) == AddressOf(s.cache.fi, iaddr[..], k)
    {
      FoundOnDevice(s.cache.fi, iaddr[..], roots, s.t, total, k);
    }
  }

  lemma ZeroStep(was: Block, tape: seq<Option<seq<byte>>>, n: nat)
    requires n < |tape|
    ensures BlockZero(was, tape, 0) == was
    ensures BlockZero(was, tape, n + 1) ==
            if n < MaxBlocks() || tape[n] == None then BlockZero(was, tape, n) else Data(tape[n].value)
  {
  }

  lemma EmptyRestored(fi: Device, roots: seq<Tree>, tape: seq<Option<seq<byte>>>)
    requires |roots| == NADDR && forall i | 0 <= i < NADDR :: roots[i] == Hole
    ensures Restored(fi, roots, tape, 0)
  {
  }
}
