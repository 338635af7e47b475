/** The indirect blocks of a file as a tree. */
module RestorTree {
  import opened Bits
  import opened RestorDisk

  const NINDIR := 128

  /** A hole, a data block, or an indirect block with its entries. */
  datatype Tree = Hole | Leaf(addr: int) | Node(addr: int, kids: seq<Tree>)

  function Addr(t: Tree): int {
    if t.Hole? then 0 else t.addr
  }

  /** l levels of indirection. */
  ghost predicate Shape(t: Tree, l: nat) {
    match t
    case Hole => true
    case Leaf(a) => l == 0 && a != 0
    case Node(a, kids) => l > 0 && a != 0 && |kids| == NINDIR && forall i | 0 <= i < NINDIR :: Shape(kids[i], l - 1)
  }

  function Addrs(kids: seq<Tree>): (e: seq<int>)
    ensures |e| == |kids| && forall i | 0 <= i < |kids| :: e[i] == Addr(kids[i])
  {
    seq(|kids|, i requires 0 <= i < |kids| => Addr(kids[i]))
  }

  /** What a block says when read as an indirect block. */
  function Entries(b: Block): seq<int> {
    if b.Indirect? then b.entry else seq(NINDIR, i => 0)
  }

  /** The tree is what the device holds. */
  ghost predicate On(fi: Device, t: Tree) {
    t.Node? ==>
      && (At(fi, t.addr).Zeros? || At(fi, t.addr).Indirect?) && Entries(At(fi, t.addr)) == Addrs(t.kids)
      && forall i | 0 <= i < |t.kids| :: On(fi, t.kids[i])
  }

  // ----- the blocks of a tree

  ghost function Blocks(t: Tree): multiset<int> {
    match t
    case Hole => multiset{}
    case Leaf(a) => multiset{a}
    case Node(a, kids) => KidsBlocks(kids) + multiset{a}
  }

  ghost function KidsBlocks(kids: seq<Tree>): multiset<int> {
    if kids == [] then multiset{} else KidsBlocks(kids[..|kids| - 1]) + Blocks(kids[|kids| - 1])
  }

  ghost predicate Distinct(m: multiset<int>) {
    forall b :: m[b] <= 1
  }

  lemma {:induction false} KidWithin(kids: seq<Tree>, i: nat, b: int)
    requires i < |kids|
    ensures Blocks(kids[i])[b] <= KidsBlocks(kids)[b]
  {
    if i < |kids| - 1 {
      KidWithin(kids[..|kids| - 1], i, b);
    }
  }

  lemma {:induction false} KidsApart(kids: seq<Tree>, i: nat, j: nat, b: int)
    requires i < j < |kids|
    ensures Blocks(kids[i])[b] + Blocks(kids[j])[b] <= KidsBlocks(kids)[b]
  {
    var front := kids[..|kids| - 1];
    if j < |kids| - 1 {
      KidsApart(front, i, j, b);
    } else {
      KidWithin(front, i, b);
    }
  }

  lemma Regroup(a: multiset<int>, b: multiset<int>, c: multiset<int>, d: multiset<int>, r: multiset<int>)
    requires a + b == c + d
    ensures a + r + b == c + r + d
  {
    assert a + r + b == (a + b) + r && c + r + d == (c + d) + r;
  }

  lemma Exchange(a: multiset<int>, b: multiset<int>, c: multiset<int>, d: multiset<int>, e: multiset<int>, f: multiset<int>)
    requires a + b == c + d && d + e == b + f
    ensures a + e == c + f
  {
    forall x
      ensures (a + e)[x] == (c + f)[x]
    {
      assert (a + b)[x] == (c + d)[x] && (d + e)[x] == (b + f)[x];
    }
  }

  lemma {:induction false} KidReplaced(kids: seq<Tree>, i: nat, x: Tree)
    requires i < |kids|
    ensures KidsBlocks(kids[i := x]) + Blocks(kids[i]) == KidsBlocks(kids) + Blocks(x)
  {
    var front := kids[..|kids| - 1];
    if i < |kids| - 1 {
      KidReplaced(front, i, x);
      assert kids[i := x][..|kids| - 1] == front[i := x];
      Regroup(KidsBlocks(front[i := x]), Blocks(kids[i]), KidsBlocks(front), Blocks(x), Blocks(kids[|kids| - 1]));
    } else {
      assert kids[i := x][..|kids| - 1] == front;
    }
  }

  /** Writing to a block that is not of the tree leaves the tree alone. */
  lemma {:induction false} OnElsewhere(fi: Device, t: Tree, b: int, x: Block)
    requires On(fi, t) && b !in Blocks(t)
    ensures On(fi[b := x], t)
  {
    if t.Node? {
      forall i | 0 <= i < |t.kids|
        ensures On(fi[b := x], t.kids[i])
      {
        KidWithin(t.kids, i, b);
        OnElsewhere(fi, t.kids[i], b, x);
      }
    }
  }

  // ----- following a path

  /** The address found, 0 for a hole. */
  function Walk(t: Tree, p: seq<nat>): int
    decreases |p|
  {
    if p == [] || !t.Node? then Addr(t)
    else if p[0] < |t.kids| then Walk(t.kids[p[0]], p[1..])
    else 0
  }

  ghost predicate Leads(t: Tree, p: seq<nat>)
    decreases |p|
  {
    p != [] ==> t.Node? && p[0] < |t.kids| && Leads(t.kids[p[0]], p[1..])
  }

  ghost function SubAt(t: Tree, p: seq<nat>): Tree
    requires Leads(t, p)
    decreases |p|
  {
    if p == [] then t else SubAt(t.kids[p[0]], p[1..])
  }

  ghost function PutAt(t: Tree, p: seq<nat>, x: Tree): Tree
    requires Leads(t, p)
    decreases |p|
  {
    if p == [] then x else t.(kids := t.kids[p[0] := PutAt(t.kids[p[0]], p[1..], x)])
  }

  lemma {:induction false} PutBlocks(t: Tree, p: seq<nat>, x: Tree)
    requires Leads(t, p)
    ensures Blocks(PutAt(t, p, x)) + Blocks(SubAt(t, p)) == Blocks(t) + Blocks(x)
    decreases |p|
  {
    if p != [] {
      var kid := t.kids[p[0]];
      var kid' := PutAt(kid, p[1..], x);
      PutBlocks(kid, p[1..], x);
      KidReplaced(t.kids, p[0], kid');
      var before, after := KidsBlocks(t.kids), KidsBlocks(t.kids[p[0] := kid']);
      Exchange(after, Blocks(kid), before, Blocks(kid'), Blocks(SubAt(t, p)), Blocks(x));
      Regroup(after, Blocks(SubAt(t, p)), before, Blocks(x), multiset{t.addr});
    }
  }

  lemma {:induction false} PutShape(t: Tree, p: seq<nat>, x: Tree, l: nat)
    requires Leads(t, p) && |p| <= l && Shape(t, l) && Shape(x, l - |p|)
    ensures Shape(PutAt(t, p, x), l)
    decreases |p|
  {
    if p != [] {
      PutShape(t.kids[p[0]], p[1..], x, l - 1);
    }
  }

  lemma {:induction false} SubShape(t: Tree, p: seq<nat>, l: nat)
    requires Leads(t, p) && |p| <= l && Shape(t, l)
    ensures Shape(SubAt(t, p), l - |p|)
    decreases |p|
  {
    if p != [] {
      SubShape(t.kids[p[0]], p[1..], l - 1);
    }
  }

  lemma {:induction false} PutWalk(t: Tree, p: seq<nat>, x: Tree, q: seq<nat>)
    requires Leads(t, p) && |p| <= |q|
    ensures Walk(PutAt(t, p, x), q) == if p <= q then Walk(x, q[|p|..]) else Walk(t, q)
    decreases |p|
  {
    if p != [] {
      var t' := PutAt(t, p, x);
      if q[0] == p[0] {
        PutWalk(t.kids[p[0]], p[1..], x, q[1..]);
        assert p <= q <==> p[1..] <= q[1..] by {
          assert p == [p[0]] + p[1..] && q == [q[0]] + q[1..];
        }
        assert q[1..][|p| - 1..] == q[|p|..];
      }
    } else {
      assert q[0..] == q;
    }
  }

  lemma {:induction false} SubWalk(t: Tree, p: seq<nat>, q: seq<nat>)
    requires Leads(t, p)
    ensures Walk(t, p + q) == Walk(SubAt(t, p), q)
    decreases |p|
  {
    if p == [] {
      assert p + q == q;
    } else {
      assert (p + q)[1..] == p[1..] + q;
      SubWalk(t.kids[p[0]], p[1..], q);
    }
  }

  lemma {:induction false} LeadsOn(t: Tree, p: seq<nat>, i: nat)
    requires Leads(t, p) && SubAt(t, p).Node? && i < |SubAt(t, p).kids|
    ensures Leads(t, p + [i]) && SubAt(t, p + [i]) == SubAt(t, p).kids[i]
    decreases |p|
  {
    if p == [] {
      assert [i][1..] == [];
    } else {
      assert (p + [i])[1..] == p[1..] + [i];
      LeadsOn(t.kids[p[0]], p[1..], i);
    }
  }

  lemma {:induction false} SubWithin(t: Tree, p: seq<nat>, b: int)
    requires Leads(t, p)
    ensures Blocks(SubAt(t, p))[b] <= Blocks(t)[b]
    decreases |p|
  {
    if p != [] {
      SubWithin(t.kids[p[0]], p[1..], b);
      KidWithin(t.kids, p[0], b);
    }
  }

  lemma {:induction false} SubOn(fi: Device, t: Tree, p: seq<nat>)
    requires Leads(t, p) && On(fi, t)
    ensures On(fi, SubAt(t, p))
    decreases |p|
  {
    if p != [] {
      SubOn(fi, t.kids[p[0]], p[1..]);
    }
  }
}
