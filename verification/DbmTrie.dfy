/** The trie of dbm.c: the low bits of a hash lead through the inner nodes, which are the
    bits set in the directory, to a leaf, which is a page. */
module DbmTrie {
  import opened Bits

  /** x & y */
  function And(x: nat, y: nat): (r: nat)
    decreases y
  {
    if y == 0 then 0 else (x % 2) * (y % 2) + 2 * And(x / 2, y / 2)
  }

  lemma {:induction false} AndMask(x: nat, d: nat)
    ensures And(x, Pow2(d) - 1) == Low(x, d)
    decreases d
  {
    if d > 0 {
      assert (Pow2(d) - 1) % 2 == 1 && (Pow2(d) - 1) / 2 == Pow2(d - 1) - 1;
      AndMask(x / 2, d - 1);
    }
  }

  lemma {:induction false} AndPower(x: nat, d: nat)
    ensures And(x, Pow2(d)) != 0 <==> Bit(x, d)
    decreases d
  {
    if d == 0 {
      assert And(x / 2, 0) == 0;
    } else {
      assert Pow2(d) % 2 == 0 && Pow2(d) / 2 == Pow2(d - 1);
      AndPower(x / 2, d - 1);
    }
  }

  lemma {:induction false} NextLow(x: nat, d: nat)
    ensures Low(x, d + 1) == Low(x, d) + if Bit(x, d) then Pow2(d) else 0
    decreases d
  {
    if d > 0 {
      NextLow(x / 2, d - 1);
    }
  }

  lemma {:induction false} LowOfLow(x: nat, e: nat, d: nat)
    requires e <= d
    ensures Low(Low(x, d), e) == Low(x, e)
    decreases e
  {
    if e > 0 {
      LowOfLow(x / 2, e - 1, d - 1);
    }
  }

  lemma {:induction false} SameLow(x: nat, y: nat, e: nat, d: nat)
    requires e <= d && Low(x, d) == Low(y, d)
    ensures Low(x, e) == Low(y, e)
    ensures forall j | 0 <= j < d :: Bit(x, j) == Bit(y, j)
  {
    LowOfLow(x, e, d);
    LowOfLow(y, e, d);
    forall j | 0 <= j < d
      ensures Bit(x, j) == Bit(y, j)
    {
      BitOfLow(x, d, j);
      BitOfLow(y, d, j);
    }
  }

  // ----- nodes

  /** The bit of the directory for the hashes whose low d bits are p. */
  function Node(d: nat, p: nat): nat
    requires p < Pow2(d)
  {
    p + Pow2(d) - 1
  }

  /** The node at depth d on the way of hash h. */
  function On(h: nat, d: nat): nat {
    Node(d, Low(h, d))
  }

  lemma NodesDiffer(d: nat, p: nat, e: nat, q: nat)
    requires p < Pow2(d) && q < Pow2(e) && Node(d, p) == Node(e, q)
    ensures d == e && p == q
  {
    if d < e {
      Pow2Mono(d + 1, e);
    } else if e < d {
      Pow2Mono(e + 1, d);
    }
  }

  function NodesFrom(D: set<nat>, d: nat): set<nat> {
    set n | n in D && n >= Pow2(d) - 1
  }

  /** The depth of the leaf that hash h leads to, from depth d on. */
  function DepthFrom(D: set<nat>, h: nat, d: nat): (e: nat)
    ensures d <= e && On(h, e) !in D && forall j | d <= j < e :: On(h, j) in D
    decreases NodesFrom(D, d)
  {
    if On(h, d) !in D then d
    else
      assert On(h, d) in NodesFrom(D, d) && On(h, d) !in NodesFrom(D, d + 1);
      DepthFrom(D, h, d + 1)
  }

  function Depth(D: set<nat>, h: nat): nat { DepthFrom(D, h, 0) }

  /** The page for hash h. */
  function PageOf(D: set<nat>, h: nat): nat { Low(h, Depth(D, h)) }

  /** In numbers: the page is the hash modulo a power of two, and the bit of the leaf is that many places
      behind it, less one. */
  lemma AddressIs(D: set<nat>, h: nat)
    ensures var p := Pow2(Depth(D, h));
            PageOf(D, h) == h % p && On(h, Depth(D, h)) == h % p + p - 1
    ensures On(h, Depth(D, h)) !in D && forall d | 0 <= d < Depth(D, h) :: h % Pow2(d) + Pow2(d) - 1 in D
  {
    LowIsMod(h, Depth(D, h));
    forall d | 0 <= d < Depth(D, h)
      ensures h % Pow2(d) + Pow2(d) - 1 in D
    {
      LowIsMod(h, d);
      assert On(h, d) in D;
    }
  }

  lemma DepthIs(D: set<nat>, h: nat, d: nat)
    requires On(h, d) !in D && forall j | 0 <= j < d :: On(h, j) in D
    ensures Depth(D, h) == d
  {
    var e := Depth(D, h);
    assert e > d ==> On(h, d) in D;
    assert On(h, e) !in D;
  }

  /** Hashes that agree on the bits of a leaf's depth lead to the same leaf. */
  lemma SameLeaf(D: set<nat>, h: nat, g: nat)
    requires Low(g, Depth(D, h)) == Low(h, Depth(D, h))
    ensures Depth(D, g) == Depth(D, h) && PageOf(D, g) == PageOf(D, h)
  {
    var d := Depth(D, h);
    forall j | 0 <= j <= d
      ensures On(g, j) == On(h, j)
    {
      SameLow(g, h, j, d);
    }
    DepthIs(D, g, d);
  }

  /** Different leaves have different pages. */
  lemma PagesDiffer(D: set<nat>, h: nat, g: nat)
    requires PageOf(D, h) == PageOf(D, g)
    ensures Depth(D, h) == Depth(D, g) && Low(g, Depth(D, h)) == Low(h, Depth(D, h))
  {
    PageLeadsToItself(D, h);
    PageLeadsToItself(D, g);
  }

  lemma PageLeadsToItself(D: set<nat>, h: nat)
    ensures Depth(D, PageOf(D, h)) == Depth(D, h) && PageOf(D, PageOf(D, h)) == PageOf(D, h)
  {
    LowOfLow(h, Depth(D, h), Depth(D, h));
    SameLeaf(D, h, PageOf(D, h));
  }

  // ----- splitting

  /** Every inner node but the root hangs on an inner node. */
  ghost predicate Closed(D: set<nat>) {
    forall h: nat, d: nat :: On(h, d + 1) in D ==> On(h, d) in D
  }

  lemma {:induction false} NothingBelow(D: set<nat>, h: nat, d: nat, e: nat)
    requires Closed(D) && On(h, d) !in D && d <= e
    ensures On(h, e) !in D
    decreases e
  {
    if d < e {
      NothingBelow(D, h, d, e - 1);
    }
  }

  /** After the leaf of h is split, the hashes that led there lead to two leaves, told apart
      by the next bit, and all others where they did. */
  lemma Split(D: set<nat>, h: nat, g: nat)
    requires Closed(D)
    ensures var d := Depth(D, h);
            var D' := D + {On(h, d)};
            if Low(g, d) == Low(h, d)
            then Depth(D', g) == d + 1 && PageOf(D', g) == Low(h, d) + if Bit(g, d) then Pow2(d) else 0
            else Depth(D', g) == Depth(D, g) && PageOf(D', g) == PageOf(D, g)
  {
    var d, e := Depth(D, h), Depth(D, g);
    var D' := D + {On(h, d)};
    if Low(g, d) == Low(h, d) {
      SameLeaf(D, h, g);
      NothingBelow(D, g, d, d + 1);
      if On(g, d + 1) == On(h, d) {
        NodesDiffer(d + 1, Low(g, d + 1), d, Low(h, d));
      }
      DepthIs(D', g, d + 1);
      NextLow(g, d);
    } else {
      if On(g, e) == On(h, d) {
        NodesDiffer(e, Low(g, e), d, Low(h, d));
      }
      DepthIs(D', g, e);
    }
  }

  lemma SplitStaysClosed(D: set<nat>, h: nat)
    requires Closed(D)
    ensures Closed(D + {On(h, Depth(D, h))})
  {
    var d := Depth(D, h);
    forall g: nat, e: nat | On(g, e + 1) == On(h, d)
      ensures On(g, e) in D
    {
      NodesDiffer(e + 1, Low(g, e + 1), d, Low(h, d));
      SameLow(g, h, e, d);
      assert On(h, e) in D && On(g, e) == On(h, e);
    }
  }

  /** The page a split takes belonged to no leaf. */
  lemma NewPageIsFree(D: set<nat>, h: nat, g: nat)
    requires Closed(D)
    ensures PageOf(D, g) != Low(h, Depth(D, h)) + Pow2(Depth(D, h))
  {
    var d, e := Depth(D, h), Depth(D, g);
    var q := Low(h, d) + Pow2(d);
    if Low(g, e) == q {
      PageLeadsToItself(D, g);
      LowPlusPower(Low(h, d), d);
      LowOfLow(h, d, d);
      SameLeaf(D, h, q);
    }
  }

  lemma {:induction false} LowPlusPower(x: nat, d: nat)
    requires x < Pow2(d)
    ensures Low(x + Pow2(d), d) == x && Bit(x + Pow2(d), d)
    decreases d
  {
    if d > 0 {
      assert (x + 2 * Pow2(d - 1)) % 2 == x % 2 && (x + 2 * Pow2(d - 1)) / 2 == x / 2 + Pow2(d - 1);
      LowPlusPower(x / 2, d - 1);
    } else {
      assert Bit(1, 0);
    }
  }
}
