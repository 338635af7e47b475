/** How the blocks of a file are found on the device, by the addresses in its inode and what the
    indirect blocks hold.  The numbers are those of the file system, written out. */
module RestorRead {
  import opened Bits
  import opened Options
  import opened RestorDisk
  import opened RestorTree
  import opened RestorFile
  import opened RestorGrow

  /** Entry i of the indirect block at b, 0 if there is none. */
  function Entry(fi: Device, b: int, i: nat): int {
    var e := Entries(At(fi, b));
    if b != 0 && i < |e| then e[i] else 0
  }

  /** The address of logical block k: ten are in the inode; 128 are found through one indirect block,
      128 times as many through two, and as many times more through three. */
  function AddressOf(fi: Device, ia: seq<int>, k: nat): int
    requires |ia| == 13
  {
    if k < 10 then ia[k]
    else if k < 138 then Entry(fi, ia[10], k - 10)
    else if k < 16522 then
      var n := k - 138;
      Entry(fi, Entry(fi, ia[11], n / 128), n % 128)
    else if k < 2113674 then
      var n := k - 16522;
      Entry(fi, Entry(fi, Entry(fi, ia[12], n / 16384), n / 128 % 128), n % 128)
    else 0
  }

  /** One step on the way through a tree is an entry of its block. */
  lemma OneStep(fi: Device, t: Tree, q: seq<nat>, l: nat) returns (kid: Tree)
    requires On(fi, t) && Shape(t, l) && |q| == l > 0 && q[0] < NINDIR
    ensures On(fi, kid) && Shape(kid, l - 1) && Walk(t, q) == Walk(kid, q[1..]) && Addr(kid) == Entry(fi, Addr(t), q[0])
  {
    kid := if t.Node? then t.kids[q[0]] else Hole;
  }

  lemma PathOne(off: nat)
    requires off < 128
    ensures Path(off, 1) == [off]
  {
    assert Path(off / 128, 0) == [];
  }

  lemma PathTwo(off: nat)
    requires off < 16384
    ensures Path(off, 2) == [off / 128, off % 128]
  {
    PathOne(off / 128);
  }

  lemma PathThree(off: nat)
    requires off < 2097152
    ensures Path(off, 3) == [off / 16384, off / 128 % 128, off % 128]
  {
    PathTwo(off / 128);
    assert off / 128 / 128 == off / 16384;
  }

  lemma PlaceOf(k: nat)
    ensures Size(1) == 128 && Size(2) == 16384 && Size(3) == 2097152
    ensures Locate(k) == if k < 10 then Place(k, 0, 0) else if k < 138 then Place(10, 1, k - 10)
                         else if k < 16522 then Place(11, 2, k - 138)
                         else if k < 2113674 then Place(12, 3, k - 16522) else Nowhere
  {
    assert Size(0) == 1;
  }

  /** The tree of a file says what is found on the device. */
  lemma FoundOnDevice(fi: Device, ia: seq<int>, roots: seq<Tree>, t: seq<int>, total: multiset<int>, k: nat)
    requires State(fi, ia, roots, t, total)
    ensures |ia| == 13 && WalkFile(roots, k) == AddressOf(fi, ia, k)
  {
    hide On, Shape, KidsBlocks, Entry, Locate, Path;
    PlaceOf(k);
    if k < 10 {
      NoPath();
    } else if k < 138 {
      PathOne(k - 10);
      ThroughOne(fi, roots[10], k - 10);
    } else if k < 16522 {
      PathTwo(k - 138);
      ThroughTwo(fi, roots[11], (k - 138) / 128, (k - 138) % 128);
    } else if k < 2113674 {
      PathThree(k - 16522);
      var n := k - 16522;
      ThroughThree(fi, roots[12], n / 16384, n / 128 % 128, n % 128);
    }
  }

  lemma NoPath()
    ensures Path(0, 0) == []
  {
  }

  lemma ThroughOne(fi: Device, t: Tree, i: nat)
    requires On(fi, t) && Shape(t, 1) && i < 128
    ensures Walk(t, [i]) == Entry(fi, Addr(t), i)
  {
    hide On, Entry;
    var kid := OneStep(fi, t, [i], 1);
    assert [i][1..] == [];
  }

  lemma ThroughTwo(fi: Device, t: Tree, i: nat, j: nat)
    requires On(fi, t) && Shape(t, 2) && i < 128 && j < 128
    ensures Walk(t, [i, j]) == Entry(fi, Entry(fi, Addr(t), i), j)
  {
    hide On, Entry, Walk;
    var kid := OneStep(fi, t, [i, j], 2);
    assert [i, j][1..] == [j];
    ThroughOne(fi, kid, j);
  }

  lemma ThroughThree(fi: Device, t: Tree, i: nat, j: nat, k: nat)
    requires On(fi, t) && Shape(t, 3) && i < 128 && j < 128 && k < 128
    ensures Walk(t, [i, j, k]) == Entry(fi, Entry(fi, Entry(fi, Addr(t), i), j), k)
  {
    hide On, Entry, Walk;
    var kid := OneStep(fi, t, [i, j, k], 3);
    assert [i, j, k][1..] == [j, k];
    ThroughTwo(fi, kid, j, k);
  }

  // ----- a file that has been restored

  /** What is found on the device is what was on the tape, and nothing where there was a hole. */
  ghost predicate ReadsBack(fi: Device, ia: seq<int>, tape: seq<Option<seq<byte>>>)
    requires |ia| == 13
  {
    forall k: nat | k < |tape| && k < 2113674 ::
      match tape[k]
      case Some(b) => AddressOf(fi, ia, k) != 0 && At(fi, AddressOf(fi, ia, k)) == Data(b)
      case None => AddressOf(fi, ia, k) == 0
  }
}
