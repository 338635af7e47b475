/** itrunc() and tloop() of restor.c: all the blocks of a file go back to the free list. */
module RestorTrunc {
  import opened Bits
  import opened RestorDisk
  import opened RestorFree
  import opened RestorTree
  import opened RestorFile
  import opened RestorGrow

  /** The blocks of a tree as they come to lie on the free list, the top first. */
  function Freed(t: Tree): seq<int> {
    match t
    case Hole => []
    case Leaf(a) => [a]
    case Node(a, kids) => [a] + KidsFreed(kids)
  }

  function KidsFreed(kids: seq<Tree>): seq<int> {
    if kids == [] then [] else Freed(kids[0]) + KidsFreed(kids[1..])
  }

  lemma {:induction false} KidsFirst(kids: seq<Tree>)
    requires kids != []
    ensures KidsBlocks(kids) == Blocks(kids[0]) + KidsBlocks(kids[1..])
  {
    if |kids| == 1 {
      assert KidsBlocks(kids[..0]) == multiset{} && KidsBlocks(kids[1..]) == multiset{};
    } else {
      var front := kids[..|kids| - 1];
      KidsFirst(front);
      assert front[1..] == kids[1..][..|kids| - 2];
    }
  }

  lemma {:induction false} FreedAll(t: Tree)
    ensures multiset(Freed(t)) == Blocks(t)
  {
    if t.Node? {
      KidsFreedAll(t.kids);
    }
  }

  lemma {:induction false} KidsFreedAll(kids: seq<Tree>)
    ensures multiset(KidsFreed(kids)) == KidsBlocks(kids)
  {
    if kids != [] {
      FreedAll(kids[0]);
      KidsFreedAll(kids[1..]);
      KidsFirst(kids);
    }
  }

  /** Blocks that are in use by nobody else and not free. */
  ghost predicate Own(m: multiset<int>, t: seq<int>) {
    Distinct(m) && forall b | b in m :: b !in t
  }

  /** Nothing but the blocks m has changed on the device. */
  ghost predicate OnlyIn(fi: Device, fi': Device, m: multiset<int>) {
    forall b | b !in m :: At(fi', b) == At(fi, b)
  }

  lemma {:induction false} OnAgree(fi: Device, fi': Device, t: Tree)
    requires On(fi, t) && forall b | b in Blocks(t) :: At(fi', b) == At(fi, b)
    ensures On(fi', t)
  {
    if t.Node? {
      assert t.addr in Blocks(t);
      forall i | 0 <= i < |t.kids|
        ensures On(fi', t.kids[i])
      {
        forall b | b in Blocks(t.kids[i])
          ensures b in Blocks(t)
        {
          KidWithin(t.kids, i, b);
        }
        OnAgree(fi, fi', t.kids[i]);
      }
    }
  }

  /** While the entries of an indirect block are worked off from the last down: the trees from
      number i on are free, the others untouched. */
  ghost predicate Freeing(fi0: Device, fi: Device, kids: seq<Tree>, i: nat, t0: seq<int>, t: seq<int>) {
    i <= |kids| && t == KidsFreed(kids[i..]) + t0 && OnlyIn(fi0, fi, KidsBlocks(kids[i..]))
  }

  /** The next tree to be freed is there, and its blocks are not free. */
  lemma NextTree(fi0: Device, fi: Device, kids: seq<Tree>, i: nat, t0: seq<int>, t: seq<int>)
    requires Freeing(fi0, fi, kids, i, t0, t) && 0 < i && Own(KidsBlocks(kids), t0) && On(fi0, kids[i - 1])
    ensures On(fi, kids[i - 1]) && Own(Blocks(kids[i - 1]), t)
  {
    var kid := kids[i - 1];
    KidsFreedAll(kids[i..]);
    forall b
      ensures Blocks(kid)[b] <= 1 && (b in Blocks(kid) ==> b !in KidsBlocks(kids[i..]) && b !in t0)
    {
      KidWithin(kids, i - 1, b);
      TailApart(kids, i, b);
    }
    OnAgree(fi0, fi, kid);
    forall b | b in Blocks(kid)
      ensures b !in t
    {
      assert b in KidsFreed(kids[i..]) <==> b in multiset(KidsFreed(kids[i..]));
    }
  }

  lemma {:induction false} TailApart(kids: seq<Tree>, i: nat, b: int)
    requires 0 < i <= |kids|
    ensures Blocks(kids[i - 1])[b] + KidsBlocks(kids[i..])[b] <= KidsBlocks(kids)[b]
  {
    KidsFirst(kids[i - 1..]);
    assert kids[i - 1..][1..] == kids[i..];
    TailWithin(kids, i - 1, b);
  }

  lemma {:induction false} TailWithin(kids: seq<Tree>, i: nat, b: int)
    requires i <= |kids|
    ensures KidsBlocks(kids[i..])[b] <= KidsBlocks(kids)[b]
    decreases i
  {
    if i == 0 {
      assert kids[0..] == kids;
    } else {
      KidsFirst(kids[i - 1..]);
      assert kids[i - 1..][1..] == kids[i..];
      TailWithin(kids, i - 1, b);
    }
  }

  lemma TreeFreed(fi0: Device, fi: Device, fi': Device, kids: seq<Tree>, i: nat, t0: seq<int>, t: seq<int>, t': seq<int>)
    requires Freeing(fi0, fi, kids, i, t0, t) && 0 < i
    requires t' == Freed(kids[i - 1]) + t && OnlyIn(fi, fi', Blocks(kids[i - 1]))
    ensures Freeing(fi0, fi', kids, i - 1, t0, t')
  {
    KidsFirst(kids[i - 1..]);
    assert kids[i - 1..][1..] == kids[i..];
  }

  lemma NodeBegins(fi: Device, tree: Tree, l: nat, t: seq<int>)
    requires tree.Node? && Shape(tree, l) && On(fi, tree) && Own(Blocks(tree), t)
    ensures tree.addr != 0 && |tree.kids| == NINDIR && Entries(At(fi, tree.addr)) == Addrs(tree.kids)
    ensures forall i | 0 <= i < NINDIR :: On(fi, tree.kids[i]) && Shape(tree.kids[i], l - 1)
    ensures Freeing(fi, fi, tree.kids, NINDIR, t, t) && Own(KidsBlocks(tree.kids), t)
  {
    assert tree.kids[NINDIR..] == [];
    forall b
      ensures KidsBlocks(tree.kids)[b] <= 1 && (b in KidsBlocks(tree.kids) ==> b in Blocks(tree))
    {
      assert Blocks(tree)[b] <= 1;
    }
  }

  lemma EntryIs(kids: seq<Tree>, indir: seq<int>, i: nat, l: nat)
    requires indir == Addrs(kids) && i < |kids| && Shape(kids[i], l)
    ensures indir[i] == Addr(kids[i]) && (indir[i] == 0 <==> kids[i] == Hole)
    ensures indir[i] != 0 ==> if l == 0 then kids[i] == Leaf(indir[i]) else kids[i].Node?
  {
  }

  lemma LeafOnly(kid: Tree, t: seq<int>)
    requires kid.Leaf? && Own(Blocks(kid), t)
    ensures kid.addr !in t && Freed(kid) == [kid.addr]
  {
    assert kid.addr in Blocks(kid);
  }

  lemma LeafFreed(fi: Device, fi': Device, kid: Tree)
    requires kid.Leaf? && forall b | b != kid.addr :: At(fi', b) == At(fi, b)
    ensures OnlyIn(fi, fi', Blocks(kid))
  {
  }

  lemma HoleFreed(fi: Device, t: seq<int>)
    ensures OnlyIn(fi, fi, Blocks(Hole)) && Freed(Hole) + t == t
  {
  }

  lemma NodeNotFree(fi0: Device, fi: Device, tree: Tree, t0: seq<int>, t: seq<int>)
    requires tree.Node? && Freeing(fi0, fi, tree.kids, 0, t0, t) && Own(Blocks(tree), t0)
    ensures tree.addr !in t
  {
    var a := tree.addr;
    assert tree.kids[0..] == tree.kids;
    KidsFreedAll(tree.kids);
    assert Blocks(tree)[a] <= 1;
    assert a in Blocks(tree);
    assert a in KidsFreed(tree.kids) <==> a in multiset(KidsFreed(tree.kids));
  }

  lemma NodeFreed(fi0: Device, fi: Device, fi': Device, tree: Tree, t0: seq<int>, t: seq<int>, t': seq<int>)
    requires tree.Node? && Freeing(fi0, fi, tree.kids, 0, t0, t) && t' == [tree.addr] + t
    requires forall b | b != tree.addr :: At(fi', b) == At(fi, b)
    ensures t' == Freed(tree) + t0 && OnlyIn(fi0, fi', Blocks(tree))
  {
    assert tree.kids[0..] == tree.kids;
  }

  function LevelBy(f1: bool, f2: bool): nat {
    if !f1 then 1 else if !f2 then 2 else 3
  }

  /** tloop() */
  method Tloop(s: Store, bn: int, f1: bool, f2: bool, ghost tree: Tree)
    requires s.Valid() && tree.Node? && tree.addr == bn && Shape(tree, LevelBy(f1, f2)) && On(s.cache.fi, tree)
    requires Own(Blocks(tree), s.t)
    modifies s`s_nfree, s`t, s.s_free, s.cache, s.cache.c_bno, s.cache.c_time, s.cache.c_block
    ensures s.Valid() && s.t == Freed(tree) + old(s.t) && OnlyIn(old(s.cache.fi), s.cache.fi, Blocks(tree))
    decreases LevelBy(f1, f2)
  {
    hide KidsBlocks, Blocks, Freeing, Own, OnlyIn, Freed, Distinct, On, KidsFreed, Entries, Addrs;
    ghost var kids, fi0, t0 := tree.kids, s.cache.fi, s.t;
    NodeBegins(fi0, tree, LevelBy(f1, f2), t0);
    var ibuf := s.cache.Read(bn);
    var indir := Entries(ibuf);
    var i: nat := NINDIR;
    while i > 0
      invariant i <= NINDIR && s.Valid() && Freeing(fi0, s.cache.fi, kids, i, t0, s.t)
    {
      ghost var fi, t := s.cache.fi, s.t;
      NextTree(fi0, fi, kids, i, t0, t);
      EntryIs(kids, indir, i - 1, LevelBy(f1, f2) - 1);
      var nb := indir[i - 1];
      if nb != 0 {
        if f1 {
          Tloop(s, nb, f2, false, kids[i - 1]);
        } else {
          LeafOnly(kids[i - 1], t);
          s.Bfree(nb);
          LeafFreed(fi, s.cache.fi, kids[i - 1]);
        }
      } else {
        HoleFreed(fi, t);
      }
      TreeFreed(fi0, fi, s.cache.fi, kids, i, t0, t, s.t);
      i := i - 1;
    }
    NodeNotFree(fi0, s.cache.fi, tree, t0, s.t);
    ghost var fi, t := s.cache.fi, s.t;
    s.Bfree(bn);
    NodeFreed(fi0, fi, s.cache.fi, tree, t0, t, s.t);
  }

  /** itrunc(): the free list has the blocks of the file, and below them what it had. */
  method Itrunc(s: Store, iaddr: seq<int>, ghost roots: seq<Tree>, ghost total: multiset<int>)
    requires s.Valid() && State(s.cache.fi, iaddr, roots, s.t, total)
    modifies s`s_nfree, s`t, s.s_free, s.cache, s.cache.c_bno, s.cache.c_time, s.cache.c_block
    ensures s.Valid() && s.t == KidsFreed(roots) + old(s.t) && multiset(s.t) == total
  {
    hide KidsBlocks, Blocks, Freeing, Own, OnlyIn, Freed, Distinct, On, KidsFreed, Shape, State;
    ghost var fi0, t0 := s.cache.fi, s.t;
    RootsBegin(fi0, iaddr, roots, t0, total);
    var i: nat := NADDR;
    while i > 0
      invariant i <= NADDR && s.Valid() && Freeing(fi0, s.cache.fi, roots, i, t0, s.t)
    {
      i := i - 1;
      ghost var fi, t := s.cache.fi, s.t;
      NextTree(fi0, fi, roots, i + 1, t0, t);
      RootIs(roots[i], LevelOf(i));
      var bn := iaddr[i];
      if bn != 0 {
        if i < NADDR - 3 {
          LeafOnly(roots[i], t);
          s.Bfree(bn);
          LeafFreed(fi, s.cache.fi, roots[i]);
        } else if i == NADDR - 3 {
          Tloop(s, bn, false, false, roots[i]);
        } else if i == NADDR - 2 {
          Tloop(s, bn, true, false, roots[i]);
        } else {
          Tloop(s, bn, true, true, roots[i]);
        }
      } else {
        HoleFreed(fi, t);
      }
      TreeFreed(fi0, fi, s.cache.fi, roots, i + 1, t0, t, s.t);
    }
    AllFreed(fi0, s.cache.fi, iaddr, roots, t0, s.t, total);
  }

  lemma RootsBegin(fi: Device, ia: seq<int>, roots: seq<Tree>, t: seq<int>, total: multiset<int>)
    requires State(fi, ia, roots, t, total)
    ensures |ia| == |roots| == NADDR && Freeing(fi, fi, roots, NADDR, t, t) && Own(KidsBlocks(roots), t)
    ensures forall i | 0 <= i < NADDR :: ia[i] == Addr(roots[i]) && Shape(roots[i], LevelOf(i)) && On(fi, roots[i])
  {
    assert roots[NADDR..] == [];
    StateDistinct(fi, ia, roots, t, total);
    if t != [] {
      NextFree(roots, t, total);
    }
  }

  lemma RootIs(t: Tree, l: nat)
    requires Shape(t, l)
    ensures (Addr(t) == 0 <==> t == Hole) && (t != Hole ==> if l == 0 then t == Leaf(Addr(t)) else t.Node?)
  {
  }

  lemma AllFreed(fi0: Device, fi: Device, ia: seq<int>, roots: seq<Tree>, t0: seq<int>, t: seq<int>, total: multiset<int>)
    requires State(fi0, ia, roots, t0, total) && Freeing(fi0, fi, roots, 0, t0, t)
    ensures t == KidsFreed(roots) + t0 && multiset(t) == total
  {
    assert roots[0..] == roots;
    KidsFreedAll(roots);
  }
}
