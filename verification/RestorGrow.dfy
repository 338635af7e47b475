/** What happens to the trees of a file when bmap() of restor.c puts in a new block. */
module RestorGrow {
  import opened Bits
  import opened RestorDisk
  import opened RestorTree
  import opened RestorFile

  ghost predicate FileOk(fi: Device, ia: seq<int>, roots: seq<Tree>) {
    && |ia| == |roots| == NADDR
    && forall i | 0 <= i < NADDR :: ia[i] == Addr(roots[i]) && Shape(roots[i], LevelOf(i)) && On(fi, roots[i])
  }

  /** The file and the free list t share out the blocks in total, each of which is there once. */
  ghost predicate State(fi: Device, ia: seq<int>, roots: seq<Tree>, t: seq<int>, total: multiset<int>) {
    FileOk(fi, ia, roots) && KidsBlocks(roots) + multiset(t) == total && Distinct(total)
  }

  /** The address of logical block n, 0 for a hole. */
  function WalkFile(roots: seq<Tree>, n: nat): int
    requires |roots| == NADDR
  {
    var w := Locate(n);
    if w.Place? then Walk(roots[w.root], Path(w.off, w.level)) else 0
  }

  /** A block as balloc() leaves it: a data block, or an indirect block without entries. */
  function Fresh(b: int, l: nat): (x: Tree)
  {
    if l == 0 then Leaf(b) else Node(b, seq(NINDIR, i => Hole))
  }

  lemma {:induction false} NoBlocks(kids: seq<Tree>)
    requires forall i | 0 <= i < |kids| :: kids[i] == Hole
    ensures KidsBlocks(kids) == multiset{}
  {
    if kids != [] {
      NoBlocks(kids[..|kids| - 1]);
    }
  }

  lemma FreshBlocks(b: int, l: nat)
    ensures Blocks(Fresh(b, l)) == multiset{b} && (b != 0 ==> Shape(Fresh(b, l), l)) && Addr(Fresh(b, l)) == b
  {
    if l > 0 {
      NoBlocks(Fresh(b, l).kids);
    }
  }

  lemma FreshOn(fi: Device, b: int, l: nat)
    requires At(fi, b) == Zeros
    ensures On(fi, Fresh(b, l))
  {
    if l > 0 {
      assert Addrs(Fresh(b, l).kids) == Entries(Zeros);
    }
  }

  // ----- an entry of an indirect block

  /** The writes of bmap(): the new block is cleared, and the entry made. */
  ghost function Entered(fi: Device, nb: int, e: seq<int>, i: nat, b: int): Device
    requires i < |e|
  {
    fi[b := Zeros][nb := Indirect(e[i := b])]
  }

  lemma {:induction false} PutOn(fi: Device, t: Tree, p: seq<nat>, i: nat, b: int, l: nat, nb: int, e: seq<int>)
    requires On(fi, t) && Distinct(Blocks(t)) && Leads(t, p) && SubAt(t, p).Node? && i < |SubAt(t, p).kids|
    requires SubAt(t, p).kids[i] == Hole && b !in Blocks(t) && b != 0
    requires nb == SubAt(t, p).addr && e == Addrs(SubAt(t, p).kids)
    ensures Leads(t, p + [i]) && On(Entered(fi, nb, e, i, b), PutAt(t, p + [i], Fresh(b, l)))
    decreases |p|
  {
    hide Blocks, Entered, Fresh;
    LeadsOn(t, p, i);
    if p == [] {
      assert [i][1..] == [];
      PutOnHere(fi, t, i, b, l);
    } else {
      assert (p + [i])[1..] == p[1..] + [i];
      var kid := t.kids[p[0]];
      KidDistinct(t, p[0]);
      NotInKid(t, p[0], b);
      PutOn(fi, kid, p[1..], i, b, l, nb, e);
      PutOnBelow(fi, t, p, i, b, l, nb, e);
    }
  }

  lemma PutOnHere(fi: Device, t: Tree, i: nat, b: int, l: nat)
    requires On(fi, t) && Distinct(Blocks(t)) && t.Node? && i < |t.kids| && b !in Blocks(t)
    ensures On(Entered(fi, t.addr, Addrs(t.kids), i, b), t.(kids := t.kids[i := Fresh(b, l)]))
  {
    var fi' := Entered(fi, t.addr, Addrs(t.kids), i, b);
    forall j | 0 <= j < |t.kids| && j != i
      ensures On(fi', t.kids[j])
    {
      KidDistinct(t, j);
      Untouched(fi, t, j, t.addr, Addrs(t.kids), i, b);
    }
    assert b != t.addr by {
      assert t.addr in Blocks(t);
    }
    FreshBlocks(b, l);
    FreshOn(fi', b, l);
    assert Addrs(t.kids[i := Fresh(b, l)]) == Addrs(t.kids)[i := b];
  }

  lemma PutOnBelow(fi: Device, t: Tree, p: seq<nat>, i: nat, b: int, l: nat, nb: int, e: seq<int>)
    requires On(fi, t) && Distinct(Blocks(t)) && p != [] && Leads(t, p) && SubAt(t, p).Node? && i < |e|
    requires nb == SubAt(t, p).addr && b !in Blocks(t) && Leads(t.kids[p[0]], p[1..] + [i])
    requires On(Entered(fi, nb, e, i, b), PutAt(t.kids[p[0]], p[1..] + [i], Fresh(b, l)))
    ensures var kid' := PutAt(t.kids[p[0]], p[1..] + [i], Fresh(b, l));
            On(Entered(fi, nb, e, i, b), t.(kids := t.kids[p[0] := kid']))
  {
    hide Blocks, Fresh, Entered;
    var fi', kid := Entered(fi, nb, e, i, b), t.kids[p[0]];
    var kid' := PutAt(kid, p[1..] + [i], Fresh(b, l));
    PutAddr(kid, p[1..] + [i], Fresh(b, l));
    NodeWithin(kid, p[1..]);
    forall j | 0 <= j < |t.kids| && j != p[0]
      ensures On(fi', t.kids[j])
    {
      OtherKid(t, p[0], j, nb);
      Untouched(fi, t, j, nb, e, i, b);
    }
    KidDistinct(t, p[0]);
    EnteredElsewhere(fi, nb, e, i, b, t);
    assert Addrs(t.kids[p[0] := kid']) == Addrs(t.kids);
  }

  lemma EnteredElsewhere(fi: Device, nb: int, e: seq<int>, i: nat, b: int, t: Tree)
    requires i < |e| && t.Node? && b !in Blocks(t) && t.addr != nb
    ensures At(Entered(fi, nb, e, i, b), t.addr) == At(fi, t.addr)
  {
    assert t.addr in Blocks(t);
  }

  lemma NodeWithin(t: Tree, p: seq<nat>)
    requires Leads(t, p) && SubAt(t, p).Node?
    ensures SubAt(t, p).addr in Blocks(t)
  {
    var n := SubAt(t, p);
    SubWithin(t, p, n.addr);
    assert n.addr in Blocks(n);
  }

  lemma OtherKid(t: Tree, i: nat, j: nat, b: int)
    requires t.Node? && Distinct(Blocks(t)) && i < |t.kids| && j < |t.kids| && i != j && b in Blocks(t.kids[i])
    ensures b !in Blocks(t.kids[j])
  {
    KidsApart(t.kids, if i < j then i else j, if i < j then j else i, b);
    assert Blocks(t)[b] <= 1;
  }

  lemma NotInKid(t: Tree, i: nat, b: int)
    requires t.Node? && i < |t.kids| && b !in Blocks(t)
    ensures b !in Blocks(t.kids[i])
  {
    KidWithin(t.kids, i, b);
  }

  lemma Untouched(fi: Device, t: Tree, j: nat, nb: int, e: seq<int>, i: nat, b: int)
    requires On(fi, t) && t.Node? && j < |t.kids| && nb !in Blocks(t.kids[j]) && b !in Blocks(t) && i < |e|
    ensures On(Entered(fi, nb, e, i, b), t.kids[j])
  {
    KidWithin(t.kids, j, b);
    OnElsewhere(fi, t.kids[j], b, Zeros);
    OnElsewhere(fi[b := Zeros], t.kids[j], nb, Indirect(e[i := b]));
  }

  lemma KidDistinct(t: Tree, j: nat)
    requires t.Node? && Distinct(Blocks(t)) && j < |t.kids|
    ensures Distinct(Blocks(t.kids[j])) && t.addr !in Blocks(t.kids[j])
  {
    forall b
      ensures Blocks(t.kids[j])[b] <= 1 && (b == t.addr ==> Blocks(t.kids[j])[b] == 0)
    {
      KidWithin(t.kids, j, b);
      assert Blocks(t)[b] <= 1;
    }
  }

  /** A put below the top does not change the address of the top. */
  lemma PutAddr(t: Tree, p: seq<nat>, x: Tree)
    requires Leads(t, p) && p != []
    ensures Addr(PutAt(t, p, x)) == Addr(t)
  {
  }

  // ----- the file as a whole

  /** The next free block belongs to nobody. */
  lemma NextFree(roots: seq<Tree>, t: seq<int>, total: multiset<int>)
    requires KidsBlocks(roots) + multiset(t) == total && Distinct(total) && t != []
    ensures t[0] !in t[1..] && t[0] !in KidsBlocks(roots) && multiset(t) == multiset{t[0]} + multiset(t[1..])
    ensures Distinct(KidsBlocks(roots)) && forall b | b in t :: b !in KidsBlocks(roots)
  {
    var top := t[0];
    assert top in t[1..] <==> top in multiset(t[1..]);
    assert t == [top] + t[1..];
    assert total[top] <= 1;
    forall b
      ensures KidsBlocks(roots)[b] <= 1 && (b in t ==> b !in KidsBlocks(roots))
    {
      assert total[b] <= 1;
      assert b in t ==> b in multiset(t);
    }
  }

  lemma ShareKept(a: multiset<int>, a': multiset<int>, t: multiset<int>, t': multiset<int>, b: int, total: multiset<int>)
    requires a + t == total && a' == a + multiset{b} && t == multiset{b} + t'
    ensures a' + t' == total
  {
    assert a' + t' == a + (multiset{b} + t');
  }

  lemma RootDistinct(roots: seq<Tree>, r: nat)
    requires Distinct(KidsBlocks(roots)) && r < |roots|
    ensures Distinct(Blocks(roots[r]))
    ensures forall b, j: nat | b in Blocks(roots[r]) && j < |roots| && j != r :: b !in Blocks(roots[j])
    ensures forall b | b !in KidsBlocks(roots) :: b !in Blocks(roots[r])
  {
    forall b
      ensures Blocks(roots[r])[b] <= 1 && (b !in KidsBlocks(roots) ==> b !in Blocks(roots[r]))
    {
      KidWithin(roots, r, b);
    }
    forall b, j: nat | b in Blocks(roots[r]) && j < |roots| && j != r
      ensures b !in Blocks(roots[j])
    {
      KidsApart(roots, if r < j then r else j, if r < j then j else r, b);
    }
  }

  /** The logical blocks keep their addresses, but for block n, which was a hole. */
  ghost predicate Added(roots: seq<Tree>, roots': seq<Tree>, n: nat, d: int)
    requires |roots| == |roots'| == NADDR
  {
    WalkFile(roots, n) == 0 && forall k: nat :: WalkFile(roots', k) == if k == n then d else WalkFile(roots, k)
  }

  ghost predicate SameWalks(roots: seq<Tree>, roots': seq<Tree>)
    requires |roots| == |roots'| == NADDR
  {
    forall k: nat :: WalkFile(roots', k) == WalkFile(roots, k)
  }

  /** An address of the inode gets the next free block. */
  lemma RootPut(fi: Device, ia: seq<int>, roots: seq<Tree>, t: seq<int>, total: multiset<int>, r: nat)
    requires State(fi, ia, roots, t, total) && t != [] && t[0] != 0 && r < NADDR && roots[r] == Hole
    ensures var x := Fresh(t[0], LevelOf(r));
            State(fi[t[0] := Zeros], ia[r := t[0]], roots[r := x], t[1..], total)
  {
    hide Fresh, Blocks, KidsBlocks, On, Shape, LevelOf;
    var b, x := t[0], Fresh(t[0], LevelOf(r));
    var fi' := fi[b := Zeros];
    NextFree(roots, t, total);
    FreshBlocks(b, LevelOf(r));
    FreshOn(fi', b, LevelOf(r));
    forall j | 0 <= j < NADDR && j != r
      ensures On(fi', roots[j])
    {
      RootDistinct(roots, j);
      OnElsewhere(fi, roots[j], b, Zeros);
    }
    KidReplaced(roots, r, x);
    HoleHasNone(roots[r]);
    ShareKept(KidsBlocks(roots), KidsBlocks(roots[r := x]), multiset(t), multiset(t[1..]), b, total);
  }

  lemma HoleHasNone(t: Tree)
    requires t == Hole
    ensures forall m: multiset<int> :: m + Blocks(t) == m
  {
  }

  /** An entry of an indirect block gets the next free block. */
  lemma EntryPut(fi: Device, ia: seq<int>, roots: seq<Tree>, t: seq<int>, total: multiset<int>,
                 r: nat, p: seq<nat>, i: nat, nb: int, e: seq<int>)
    requires State(fi, ia, roots, t, total) && t != [] && t[0] != 0 && r < NADDR && |p| < LevelOf(r)
    requires Leads(roots[r], p) && SubAt(roots[r], p).Node? && i < |SubAt(roots[r], p).kids|
    requires SubAt(roots[r], p).kids[i] == Hole && nb == SubAt(roots[r], p).addr && e == Addrs(SubAt(roots[r], p).kids)
    ensures Leads(roots[r], p + [i]) && SubAt(roots[r], p + [i]) == Hole
    ensures var x := Fresh(t[0], LevelOf(r) - |p| - 1);
            State(Entered(fi, nb, e, i, t[0]), ia, roots[r := PutAt(roots[r], p + [i], x)], t[1..], total)
  {
    hide Fresh, Blocks, KidsBlocks, On, Shape, Entered, LevelOf;
    var b, l := t[0], LevelOf(r) - |p| - 1;
    var x, fi' := Fresh(b, l), Entered(fi, nb, e, i, b);
    NextFree(roots, t, total);
    RootDistinct(roots, r);
    FreshBlocks(b, l);
    LeadsOn(roots[r], p, i);
    PutOn(fi, roots[r], p, i, b, l, nb, e);
    PutShape(roots[r], p + [i], x, LevelOf(r));
    PutAddr(roots[r], p + [i], x);
    NodeWithin(roots[r], p);
    forall j | 0 <= j < NADDR && j != r
      ensures On(fi', roots[j])
    {
      RootDistinct(roots, j);
      EnteredApart(fi, roots[j], nb, e, i, b);
    }
    var y := PutAt(roots[r], p + [i], x);
    PutBlocks(roots[r], p + [i], x);
    HoleHasNone(SubAt(roots[r], p + [i]));
    KidReplaced(roots, r, y);
    OneMoreBlock(KidsBlocks(roots), KidsBlocks(roots[r := y]), Blocks(roots[r]), Blocks(y), b);
    ShareKept(KidsBlocks(roots), KidsBlocks(roots[r := y]), multiset(t), multiset(t[1..]), b, total);
  }

  lemma EnteredApart(fi: Device, t: Tree, nb: int, e: seq<int>, i: nat, b: int)
    requires On(fi, t) && nb !in Blocks(t) && b !in Blocks(t) && i < |e|
    ensures On(Entered(fi, nb, e, i, b), t)
  {
    OnElsewhere(fi, t, b, Zeros);
    OnElsewhere(fi[b := Zeros], t, nb, Indirect(e[i := b]));
  }

  lemma OneMoreBlock(m: multiset<int>, m': multiset<int>, k: multiset<int>, k': multiset<int>, b: int)
    requires m' + k == m + k' && k' == k + multiset{b}
    ensures m' == m + multiset{b}
  {
    forall x
      ensures m'[x] == (m + multiset{b})[x]
    {
      assert (m' + k)[x] == (m + k')[x];
    }
  }

  // ----- the addresses found

  lemma WalkFresh(b: int, l: nat, q: seq<nat>)
    requires |q| == l && forall k | 0 <= k < l :: q[k] < NINDIR
    ensures Walk(Fresh(b, l), q) == if l == 0 then b else 0
  {
  }

  lemma RootPutWalks(roots: seq<Tree>, r: nat, b: int)
    requires |roots| == NADDR && r < NADDR && roots[r] == Hole
    ensures var roots' := roots[r := Fresh(b, LevelOf(r))];
            if LevelOf(r) == 0 then Added(roots, roots', r, b) else SameWalks(roots, roots')
  {
    var roots' := roots[r := Fresh(b, LevelOf(r))];
    forall n: nat
      ensures WalkFile(roots', n) == if LevelOf(r) == 0 && n == r then b else WalkFile(roots, n)
    {
      var w := Locate(n);
      if w.Place? && w.root == r {
        WalkFresh(b, LevelOf(r), Path(w.off, w.level));
      }
    }
  }

  lemma EntryPutWalks(roots: seq<Tree>, r: nat, p: seq<nat>, b: int)
    requires |roots| == NADDR && r < NADDR && 0 < |p| <= LevelOf(r) && Leads(roots[r], p) && SubAt(roots[r], p) == Hole
    ensures var roots' := roots[r := PutAt(roots[r], p, Fresh(b, LevelOf(r) - |p|))];
            && (|p| < LevelOf(r) ==> SameWalks(roots, roots'))
            && forall n: nat | Locate(n).Place? && Locate(n).root == r && Path(Locate(n).off, LevelOf(r)) == p ::
                 Added(roots, roots', n, b)
  {
    var l := LevelOf(r) - |p|;
    var roots' := roots[r := PutAt(roots[r], p, Fresh(b, l))];
    forall n: nat
      ensures |p| < LevelOf(r) ==> WalkFile(roots', n) == WalkFile(roots, n)
      ensures |p| == LevelOf(r) ==>
                WalkFile(roots', n) == if Reaches(n, r, p) then b else WalkFile(roots, n)
      ensures Reaches(n, r, p) ==> WalkFile(roots, n) == 0
    {
      EntryPutWalk(roots, r, p, b, n);
    }
    forall n: nat, k: nat | Reaches(n, r, p) && Reaches(k, r, p)
      ensures n == k
    {
      if n != k {
        PlacesDiffer(n, k);
      }
    }
  }

  ghost predicate Reaches(n: nat, r: nat, p: seq<nat>) {
    Locate(n).Place? && Locate(n).root == r && Path(Locate(n).off, LevelOf(r)) == p
  }

  lemma EntryPutWalk(roots: seq<Tree>, r: nat, p: seq<nat>, b: int, n: nat)
    requires |roots| == NADDR && r < NADDR && 0 < |p| <= LevelOf(r) && Leads(roots[r], p) && SubAt(roots[r], p) == Hole
    ensures var roots' := roots[r := PutAt(roots[r], p, Fresh(b, LevelOf(r) - |p|))];
            && (WalkFile(roots', n) == if Reaches(n, r, p) then b else WalkFile(roots, n))
            && (Reaches(n, r, p) ==> WalkFile(roots, n) == 0)
  {
    var w, l := Locate(n), LevelOf(r) - |p|;
    if w.Place? && w.root == r {
      var q := Path(w.off, w.level);
      PutWalk(roots[r], p, Fresh(b, l), q);
      if p <= q {
        var rest := q[|p|..];
        assert q == p + rest;
        SubWalk(roots[r], p, rest);
        WalkFresh(b, l, rest);
        assert rest == [] <==> q == p;
      }
    }
  }

  // ----- no two addresses are the same

  lemma {:induction false} WalkWithin(t: Tree, q: seq<nat>)
    requires Walk(t, q) != 0
    ensures Walk(t, q) in Blocks(t)
    decreases |q|
  {
    if q != [] && t.Node? {
      WalkWithin(t.kids[q[0]], q[1..]);
      KidWithin(t.kids, q[0], Walk(t, q));
    }
  }

  /** A data block is no indirect block. */
  lemma {:induction false} LeafNotNode(t: Tree, p: seq<nat>, q: seq<nat>, l: nat)
    requires Shape(t, l) && Distinct(Blocks(t)) && |q| == l && Walk(t, q) != 0
    requires Leads(t, p) && SubAt(t, p).Node?
    ensures Walk(t, q) != SubAt(t, p).addr
    decreases l
  {
    if t.Node? {
      var kid := t.kids[q[0]];
      KidDistinct(t, q[0]);
      WalkWithin(kid, q[1..]);
      if p != [] {
        if p[0] == q[0] {
          LeafNotNode(kid, p[1..], q[1..], l - 1);
        } else {
          NodeWithin(t.kids[p[0]], p[1..]);
          OtherKid(t, p[0], q[0], SubAt(t, p).addr);
        }
      }
    }
  }

  /** Different logical blocks are at different addresses. */
  lemma {:induction false} LeavesDiffer(t: Tree, q: seq<nat>, q': seq<nat>, l: nat)
    requires Shape(t, l) && Distinct(Blocks(t)) && |q| == |q'| == l && q != q'
    requires Walk(t, q) != 0 && Walk(t, q') != 0
    ensures Walk(t, q) != Walk(t, q')
    decreases l
  {
    if l > 0 && t.Node? {
      KidDistinct(t, q[0]);
      if q[0] == q'[0] {
        assert q == [q[0]] + q[1..] && q' == [q'[0]] + q'[1..];
        LeavesDiffer(t.kids[q[0]], q[1..], q'[1..], l - 1);
      } else {
        WalkWithin(t.kids[q[0]], q[1..]);
        WalkWithin(t.kids[q'[0]], q'[1..]);
        OtherKid(t, q[0], q'[0], Walk(t, q));
      }
    }
  }

  lemma WalkFileWithin(roots: seq<Tree>, n: nat)
    requires |roots| == NADDR && WalkFile(roots, n) != 0
    ensures WalkFile(roots, n) in KidsBlocks(roots)
  {
    var w := Locate(n);
    WalkWithin(roots[w.root], Path(w.off, w.level));
    KidWithin(roots, w.root, WalkFile(roots, n));
  }

  lemma FileLeavesDiffer(fi: Device, ia: seq<int>, roots: seq<Tree>, t: seq<int>, total: multiset<int>, n: nat, k: nat)
    requires State(fi, ia, roots, t, total) && n != k && WalkFile(roots, n) != 0 && WalkFile(roots, k) != 0
    ensures WalkFile(roots, n) != WalkFile(roots, k)
  {
    hide On, KidsBlocks, Walk;
    StateDistinct(fi, ia, roots, t, total);
    var a, b := Locate(n), Locate(k);
    RootDistinct(roots, a.root);
    if a.root == b.root {
      PlacesDiffer(n, k);
      LeavesDiffer(roots[a.root], Path(a.off, a.level), Path(b.off, b.level), a.level);
    } else {
      WalkWithin(roots[a.root], Path(a.off, a.level));
      WalkWithin(roots[b.root], Path(b.off, b.level));
    }
  }

  lemma FileLeafNotNode(fi: Device, ia: seq<int>, roots: seq<Tree>, t: seq<int>, total: multiset<int>,
                        r: nat, p: seq<nat>, n: nat)
    requires State(fi, ia, roots, t, total) && r < NADDR && Leads(roots[r], p) && SubAt(roots[r], p).Node?
    requires WalkFile(roots, n) != 0
    ensures WalkFile(roots, n) != SubAt(roots[r], p).addr
  {
    hide On, KidsBlocks, Walk;
    StateDistinct(fi, ia, roots, t, total);
    var w := Locate(n);
    RootDistinct(roots, r);
    if w.root == r {
      LeafNotNode(roots[r], p, Path(w.off, w.level), w.level);
    } else {
      WalkWithin(roots[w.root], Path(w.off, w.level));
      NodeWithin(roots[r], p);
    }
  }

  lemma StateDistinct(fi: Device, ia: seq<int>, roots: seq<Tree>, t: seq<int>, total: multiset<int>)
    requires State(fi, ia, roots, t, total)
    ensures Distinct(KidsBlocks(roots))
  {
    forall b
      ensures KidsBlocks(roots)[b] <= 1
    {
      assert total[b] <= 1;
    }
  }

  // ----- writing data

  /** A write to a data block leaves the trees as they are. */
  lemma {:induction false} DataWritten(fi: Device, t: Tree, q: seq<nat>, l: nat, d: int, x: Block)
    requires On(fi, t) && Shape(t, l) && Distinct(Blocks(t)) && |q| == l && Walk(t, q) == d != 0
    ensures On(fi[d := x], t)
    decreases l
  {
    if t.Node? {
      KidDistinct(t, q[0]);
      WalkWithin(t.kids[q[0]], q[1..]);
      DataWritten(fi, t.kids[q[0]], q[1..], l - 1, d, x);
      forall j | 0 <= j < |t.kids| && j != q[0]
        ensures On(fi[d := x], t.kids[j])
      {
        OtherKid(t, q[0], j, d);
        OnElsewhere(fi, t.kids[j], d, x);
      }
    }
  }

  lemma FileDataWritten(fi: Device, ia: seq<int>, roots: seq<Tree>, t: seq<int>, total: multiset<int>, n: nat, x: Block)
    requires State(fi, ia, roots, t, total) && WalkFile(roots, n) != 0
    ensures State(fi[WalkFile(roots, n) := x], ia, roots, t, total)
  {
    hide On, Shape, KidsBlocks, Blocks, Walk;
    var w, d := Locate(n), WalkFile(roots, n);
    StateDistinct(fi, ia, roots, t, total);
    RootDistinct(roots, w.root);
    DataWritten(fi, roots[w.root], Path(w.off, w.level), w.level, d, x);
    WalkWithin(roots[w.root], Path(w.off, w.level));
    forall j: nat | j < NADDR && j != w.root
      ensures On(fi[d := x], roots[j])
    {
      OnElsewhere(fi, roots[j], d, x);
    }
  }

  /** What is in the data blocks of the file has not changed, and block 0 neither. */
  ghost predicate DataKept(fi: Device, fi': Device, roots: seq<Tree>)
    requires |roots| == NADDR
  {
    && (forall k: nat | WalkFile(roots, k) != 0 :: At(fi', WalkFile(roots, k)) == At(fi, WalkFile(roots, k)))
    && At(fi', 0) == At(fi, 0)
  }

  lemma KeptTwice(fi: Device, fi1: Device, fi2: Device, roots: seq<Tree>, mid: seq<Tree>)
    requires |roots| == |mid| == NADDR && SameWalks(roots, mid) && DataKept(fi, fi1, roots) && DataKept(fi1, fi2, mid)
    ensures DataKept(fi, fi2, roots)
  {
    forall k: nat | WalkFile(roots, k) != 0
      ensures At(fi2, WalkFile(roots, k)) == At(fi, WalkFile(roots, k))
    {
      assert WalkFile(mid, k) == WalkFile(roots, k);
    }
  }

  lemma KeptByFree(fi: Device, ia: seq<int>, roots: seq<Tree>, t: seq<int>, total: multiset<int>)
    requires State(fi, ia, roots, t, total) && t != [] && t[0] != 0
    ensures DataKept(fi, fi[t[0] := Zeros], roots)
  {
    NextFree(roots, t, total);
    forall k: nat | WalkFile(roots, k) != 0
      ensures WalkFile(roots, k) != t[0]
    {
      WalkFileWithin(roots, k);
    }
  }

  lemma KeptByEntry(fi: Device, ia: seq<int>, roots: seq<Tree>, t: seq<int>, total: multiset<int>,
                    r: nat, p: seq<nat>, e: seq<int>, i: nat)
    requires State(fi, ia, roots, t, total) && t != [] && t[0] != 0 && i < |e|
    requires r < NADDR && Leads(roots[r], p) && SubAt(roots[r], p).Node? && SubAt(roots[r], p).addr != 0
    ensures DataKept(fi, Entered(fi, SubAt(roots[r], p).addr, e, i, t[0]), roots)
  {
    NextFree(roots, t, total);
    forall k: nat | WalkFile(roots, k) != 0
      ensures WalkFile(roots, k) != t[0] && WalkFile(roots, k) != SubAt(roots[r], p).addr
    {
      WalkFileWithin(roots, k);
      FileLeafNotNode(fi, ia, roots, t, total, r, p, k);
    }
  }

  // ----- block 0, which is no block of the file or of the free list

  lemma {:induction false} NoBlockZero(t: Tree, l: nat)
    requires Shape(t, l)
    ensures 0 !in Blocks(t)
    decreases l
  {
    if t.Node? {
      forall i | 0 <= i < |t.kids|
        ensures 0 !in Blocks(t.kids[i])
      {
        NoBlockZero(t.kids[i], l - 1);
      }
      NotInKids(t.kids);
    }
  }

  lemma {:induction false} NotInKids(kids: seq<Tree>)
    requires forall i | 0 <= i < |kids| :: 0 !in Blocks(kids[i])
    ensures 0 !in KidsBlocks(kids)
    decreases |kids|
  {
    hide Blocks;
    if kids != [] {
      NotInKids(kids[..|kids| - 1]);
    }
  }

  lemma BlockZeroWritten(fi: Device, ia: seq<int>, roots: seq<Tree>, t: seq<int>, total: multiset<int>, x: Block)
    requires State(fi, ia, roots, t, total)
    ensures State(fi[0 := x], ia, roots, t, total)
    ensures |roots| == NADDR && forall k: nat | WalkFile(roots, k) != 0 :: At(fi[0 := x], WalkFile(roots, k)) == At(fi, WalkFile(roots, k))
  {
    hide On, Shape, Blocks, KidsBlocks, Walk;
    forall i | 0 <= i < NADDR
      ensures On(fi[0 := x], roots[i])
    {
      NoBlockZero(roots[i], LevelOf(i));
      OnElsewhere(fi, roots[i], 0, x);
    }
  }
}
