/** A file on the volume being restored: thirteen addresses, and the trees below them. */
module RestorFile {
  import opened Arith
  import opened Bits
  import opened RestorDisk
  import opened RestorTree

  const NADDR := 13
  const NSHIFT := 7

  // ----- where a logical block belongs

  /** The blocks one address leads to through l indirect blocks. */
  function Size(l: nat): nat {
    if l == 0 then 1 else NINDIR * Size(l - 1)
  }

  /** The way through the indirect blocks. */
  function Path(off: nat, l: nat): (p: seq<nat>)
    ensures |p| == l && forall k | 0 <= k < l :: p[k] < NINDIR
  {
    if l == 0 then [] else Path(off / NINDIR, l - 1) + [off % NINDIR]
  }

  /** An address of the inode and the way from there. */
  datatype Place = Nowhere | Place(root: nat, level: nat, off: nat)

  function Levels(off: nat, l: nat): (w: Place)
    ensures w.Place? ==> l <= w.level <= 3 && w.root == w.level + 9 && w.off < Size(w.level)
    decreases 4 - l
  {
    if l > 3 then Nowhere
    else if off < Size(l) then Place(l + 9, l, off)
    else Levels(off - Size(l), l + 1)
  }

  function Locate(n: nat): (w: Place)
    ensures w.Place? ==> w.root < NADDR && w.level == LevelOf(w.root) && w.off < Size(w.level)
  {
    if n < NADDR - 3 then Place(n, 0, 0) else Levels(n - (NADDR - 3), 1)
  }

  function LevelOf(root: nat): nat {
    if root < NADDR - 3 then 0 else root - 9
  }

  function MaxBlocks(): nat { NADDR - 3 + Size(1) + Size(2) + Size(3) }

  lemma LocateWithin(n: nat)
    ensures Locate(n).Place? <==> n < MaxBlocks()
  {
  }

  lemma {:induction false} PathInjective(x: nat, y: nat, l: nat)
    requires x < Size(l) && y < Size(l) && Path(x, l) == Path(y, l)
    ensures x == y
  {
    if l > 0 {
      var px, py := Path(x / NINDIR, l - 1), Path(y / NINDIR, l - 1);
      assert px == Path(x, l)[..l - 1] && py == Path(y, l)[..l - 1];
      assert Path(x, l)[l - 1] == x % NINDIR && Path(y, l)[l - 1] == y % NINDIR;
      PathInjective(x / NINDIR, y / NINDIR, l - 1);
    }
  }

  lemma {:induction false} LevelsInjective(x: nat, y: nat, l: nat)
    requires Levels(x, l).Place? && Levels(x, l) == Levels(y, l)
    ensures x == y
    decreases 4 - l
  {
    if x >= Size(l) && y >= Size(l) {
      LevelsInjective(x - Size(l), y - Size(l), l + 1);
    }
  }

  /** Different blocks have different places. */
  lemma PlacesDiffer(x: nat, y: nat)
    requires Locate(x).Place? && Locate(y).Place? && x != y
    ensures Locate(x).root != Locate(y).root || Path(Locate(x).off, Locate(x).level) != Path(Locate(y).off, Locate(y).level)
  {
    var a, b := Locate(x), Locate(y);
    if a.root == b.root && Path(a.off, a.level) == Path(b.off, b.level) {
      PathInjective(a.off, b.off, a.level);
      if x >= NADDR - 3 && y >= NADDR - 3 {
        LevelsInjective(x - (NADDR - 3), y - (NADDR - 3), 1);
      }
    }
  }

  /** The index that bmap() computes by shifting and masking. */
  lemma {:induction false} PathDigit(off: nat, l: nat, k: nat)
    requires k < l
    ensures Path(off, l)[k] == Low(Shr(off, NSHIFT * (l - 1 - k)), NSHIFT)
    decreases l
  {
    if k == l - 1 {
      LowSeven(off);
    } else {
      PathDigit(off / NINDIR, l - 1, k);
      ShrSeven(off, NSHIFT * (l - 2 - k));
    }
  }

  lemma LowSeven(x: nat)
    ensures Low(x, 7) == x % 128
  {
    LowIsMod(x, 7);
    assert Pow2(7) == 128;
  }

  lemma ShrSeven(x: nat, k: nat)
    ensures Shr(x, k + 7) == Shr(x / 128, k)
  {
    assert Shr(x, k + 7) == Shr(x / 2, k + 6) == Shr(x / 4, k + 5) == Shr(x / 8, k + 4);
    assert Shr(x / 8, k + 4) == Shr(x / 16, k + 3) == Shr(x / 32, k + 2) == Shr(x / 64, k + 1);
  }
}
