/** What the two files of dbm.c hold together: a finite map. */
module DbmState {
  import opened Bits
  import opened DbmPage
  import opened DbmPairs
  import opened DbmTrie
  import opened DbmLeaf

  type Pages = map<nat, seq<byte>>
  type Map = map<Datum, Datum>

  function ZeroPage(): (z: seq<byte>)
    ensures |z| == PBLKSIZ && forall i | 0 <= i < |z| :: z[i] == 0
  {
    seq(PBLKSIZ, i => 0)
  }

  /** A page of the file; what was never written reads as zeros. */
  function PageBytes(pages: Pages, p: nat): seq<byte> {
    if p in pages then pages[p] else ZeroPage()
  }

  lemma ZeroPageIsEmpty()
    ensures GoodPage(ZeroPage()) && Items(ZeroPage()) == [] && PairsOn(ZeroPage()) == []
  {
    assert Short(ZeroPage(), 0) == 0;
    assert Table(ZeroPage()) == [PBLKSIZ as nat];
  }

  /** The pairs on the page for hash h. */
  ghost function At(D: set<nat>, pages: Pages, h: nat): seq<Pair> {
    PairsOn(PageBytes(pages, PageOf(D, h)))
  }

  ghost predicate In(x: Pair, m: Map) {
    x.0 in m && m[x.0] == x.1
  }

  /** Every leaf has a good page, every pair is on the one page its hash leads to, and the
      pairs are those of the map. */
  ghost predicate Represents(D: set<nat>, pages: Pages, hash: Datum -> nat, m: Map) {
    && Closed(D)
    && (forall h: nat :: GoodPage(PageBytes(pages, PageOf(D, h))))
    && (forall h: nat, x: Pair :: x in At(D, pages, h) ==> PageOf(D, hash(x.0)) == PageOf(D, h))
    && (forall x: Pair :: In(x, m) <==> x in At(D, pages, hash(x.0)))
  }

  lemma EmptyRepresents(hash: Datum -> nat)
    ensures Represents({}, map[], hash, map[])
  {
    ZeroPageIsEmpty();
  }

  /** A new page for the leaf of h, whose pairs are those the new map has there. */
  lemma PageChanged(D: set<nat>, pages: Pages, hash: Datum -> nat, m: Map, m': Map, h: nat, s: seq<byte>)
    requires Represents(D, pages, hash, m) && GoodPage(s)
    requires forall x: Pair :: x in PairsOn(s) ==> PageOf(D, hash(x.0)) == PageOf(D, h)
    requires forall x: Pair :: In(x, m') <==>
               if PageOf(D, hash(x.0)) == PageOf(D, h) then x in PairsOn(s) else In(x, m)
    ensures Represents(D, pages[PageOf(D, h) := s], hash, m')
  {
    hide GoodPage, PairsOn, Closed, PageOf;
    var pages' := pages[PageOf(D, h) := s];
    forall g: nat
      ensures PageBytes(pages', PageOf(D, g)) == if PageOf(D, g) == PageOf(D, h) then s else PageBytes(pages, PageOf(D, g))
    {
    }
    forall x: Pair
      ensures In(x, m') <==> x in At(D, pages', hash(x.0))
    {
      assert In(x, m) <==> x in At(D, pages, hash(x.0));
    }
  }

  lemma LeafKeysDiffer(D: set<nat>, pages: Pages, hash: Datum -> nat, m: Map, h: nat)
    requires Represents(D, pages, hash, m)
    ensures KeysDiffer(At(D, pages, h))
  {
    assert GoodPage(PageBytes(pages, PageOf(D, h)));
  }

  /** The page for the key without the pair at position n. */
  lemma PairTakenOff(D: set<nat>, pages: Pages, hash: Datum -> nat, m: Map, key: Datum, n: nat, s: seq<byte>)
    requires Represents(D, pages, hash, m) && GoodPage(s)
    requires n < |At(D, pages, hash(key))| && At(D, pages, hash(key))[n].0 == key
    requires PairsOn(s) == Dropped(At(D, pages, hash(key)), n)
    ensures Represents(D, pages[PageOf(D, hash(key)) := s], hash, m - {key}) && key in m
  {
    hide GoodPage, PairsOn, Closed, PageOf;
    var p := At(D, pages, hash(key));
    LeafKeysDiffer(D, pages, hash, m, hash(key));
    DroppedPairs(p, n);
    assert In(p[n], m);
    forall x: Pair
      ensures In(x, m - {key}) <==>
              if PageOf(D, hash(x.0)) == PageOf(D, hash(key)) then x in PairsOn(s) else In(x, m)
    {
      assert In(x, m) <==> x in At(D, pages, hash(x.0));
    }
    PageChanged(D, pages, hash, m, m - {key}, hash(key), s);
  }

  lemma DroppedPairs(p: seq<Pair>, n: nat)
    requires KeysDiffer(p) && n < |p|
    ensures forall x: Pair :: x in Dropped(p, n) <==> x in p && x.0 != p[n].0
  {
    forall x: Pair
      ensures x in Dropped(p, n) <==> x in p && x.0 != p[n].0
    {
      if x in p && x.0 != p[n].0 {
        var i :| 0 <= i < |p| && p[i] == x;
        assert Dropped(p, n)[if i < n then i else i - 1] == x;
      }
    }
  }

  /** The page for the key with one more pair. */
  lemma PairPutOn(D: set<nat>, pages: Pages, hash: Datum -> nat, m: Map, key: Datum, dat: Datum, s: seq<byte>)
    requires Represents(D, pages, hash, m) && GoodPage(s) && key !in m
    requires PairsOn(s) == At(D, pages, hash(key)) + [(key, dat)]
    ensures Represents(D, pages[PageOf(D, hash(key)) := s], hash, m[key := dat])
  {
    hide GoodPage, PairsOn, Closed, PageOf;
    forall x: Pair
      ensures In(x, m[key := dat]) <==>
              if PageOf(D, hash(x.0)) == PageOf(D, hash(key)) then x in PairsOn(s) else In(x, m)
    {
      assert In(x, m) <==> x in At(D, pages, hash(x.0));
    }
    PageChanged(D, pages, hash, m, m[key := dat], hash(key), s);
  }

  /** After a split every pair is again where its hash leads. */
  lemma PagesSplit(D: set<nat>, pages: Pages, hash: Datum -> nat, m: Map, h: nat, s0: seq<byte>, s1: seq<byte>)
    requires Represents(D, pages, hash, m) && GoodPage(s0) && GoodPage(s1)
    requires PairsOn(s0) == Half(At(D, pages, h), hash, Depth(D, h), false)
    requires PairsOn(s1) == Half(At(D, pages, h), hash, Depth(D, h), true)
    ensures var d, p := Depth(D, h), PageOf(D, h);
            Represents(D + {On(h, d)}, pages[p := s0][p + Pow2(d) := s1], hash, m)
  {
    hide GoodPage, PairsOn, Closed, PageOf, PageBytes, At;
    var d, p := Depth(D, h), PageOf(D, h);
    var D', pages' := D + {On(h, d)}, pages[p := s0][p + Pow2(d) := s1];
    SplitStaysClosed(D, h);
    forall g: nat
      ensures PageBytes(pages', PageOf(D', g)) ==
              if Low(g, d) == Low(h, d) then (if Bit(g, d) then s1 else s0) else PageBytes(pages, PageOf(D, g))
    {
      LeafAfterSplit(D, pages, h, g, s0, s1);
    }
    forall x: Pair
      ensures x in PairsOn(s0) <==> x in At(D, pages, h) && !Bit(hash(x.0), d)
      ensures x in PairsOn(s1) <==> x in At(D, pages, h) && Bit(hash(x.0), d)
    {
      HalfHas(At(D, pages, h), hash, d, false, x);
      HalfHas(At(D, pages, h), hash, d, true, x);
    }
    SplitHolds(D, D', pages, pages', hash, m, h, s0, s1);
  }

  lemma LeafAfterSplit(D: set<nat>, pages: Pages, h: nat, g: nat, s0: seq<byte>, s1: seq<byte>)
    requires Closed(D)
    ensures var d, p := Depth(D, h), PageOf(D, h);
            PageBytes(pages[p := s0][p + Pow2(d) := s1], PageOf(D + {On(h, d)}, g)) ==
            if Low(g, d) == Low(h, d) then (if Bit(g, d) then s1 else s0) else PageBytes(pages, PageOf(D, g))
  {
    Split(D, h, g);
    NewPageIsFree(D, h, g);
    if PageOf(D, g) == PageOf(D, h) {
      PagesDiffer(D, h, g);
    }
  }

  lemma SplitHolds(D: set<nat>, D': set<nat>, pages: Pages, pages': Pages, hash: Datum -> nat, m: Map, h: nat,
                   s0: seq<byte>, s1: seq<byte>)
    requires Represents(D, pages, hash, m) && GoodPage(s0) && GoodPage(s1) && Closed(D')
    requires D' == D + {On(h, Depth(D, h))}
    requires forall g: nat :: PageBytes(pages', PageOf(D', g)) ==
               if Low(g, Depth(D, h)) == Low(h, Depth(D, h)) then (if Bit(g, Depth(D, h)) then s1 else s0)
               else PageBytes(pages, PageOf(D, g))
    requires forall x: Pair :: x in PairsOn(s0) <==> x in At(D, pages, h) && !Bit(hash(x.0), Depth(D, h))
    requires forall x: Pair :: x in PairsOn(s1) <==> x in At(D, pages, h) && Bit(hash(x.0), Depth(D, h))
    ensures Represents(D', pages', hash, m)
  {
    hide GoodPage, PairsOn, Closed, Depth;
    var d := Depth(D, h);
    forall x: Pair
      ensures In(x, m) <==> x in At(D', pages', hash(x.0))
    {
      assert In(x, m) <==> x in At(D, pages, hash(x.0));
      SameLeafOrNot(D, h, hash(x.0));
    }
    forall g: nat, x: Pair | x in At(D', pages', g)
      ensures PageOf(D', hash(x.0)) == PageOf(D', g)
    {
      SameLeafOrNot(D, h, g);
      SameLeafOrNot(D, h, hash(x.0));
      Split(D, h, g);
      Split(D, h, hash(x.0));
      assert x in At(D, pages, g);
    }
  }

  lemma SameLeafOrNot(D: set<nat>, h: nat, g: nat)
    ensures Low(g, Depth(D, h)) == Low(h, Depth(D, h)) <==> PageOf(D, g) == PageOf(D, h)
  {
    if Low(g, Depth(D, h)) == Low(h, Depth(D, h)) {
      SameLeaf(D, h, g);
    } else if PageOf(D, g) == PageOf(D, h) {
      PagesDiffer(D, h, g);
    }
  }
}
