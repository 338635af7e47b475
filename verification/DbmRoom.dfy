/** When store() of dbm.c can find room: what fits one page when all the bits of a hash are used. */
module DbmRoom {
  import opened Bits
  import opened DbmPage
  import opened DbmPairs
  import opened DbmTrie
  import opened DbmLeaf
  import opened DbmState

  /** The bits of a hash that the directory can use. */
  const HASHBITS: nat := 31

  /** No leaf is deeper than the bits of a hash allow. */
  ghost predicate Shallow(D: set<nat>) {
    forall h: nat :: Depth(D, h) <= HASHBITS
  }

  // ----- the bytes that pairs take up

  /** The bytes of the pairs of these keys, with the two offsets of each. */
  ghost function Bytes(m: Map, ks: set<Datum>): nat
    requires ks <= m.Keys
  {
    if ks == {} then 0
    else
      var k :| k in ks;
      |k| + |m[k]| + 4 + Bytes(m, ks - {k})
  }

  lemma {:induction false} BytesTake(m: Map, ks: set<Datum>, k: Datum)
    requires ks <= m.Keys && k in ks
    ensures Bytes(m, ks) == |k| + |m[k]| + 4 + Bytes(m, ks - {k})
    decreases ks
  {
    var j :| j in ks && Bytes(m, ks) == |j| + |m[j]| + 4 + Bytes(m, ks - {j});
    if j != k {
      BytesTake(m, ks - {j}, k);
      BytesTake(m, ks - {k}, j);
      assert ks - {j} - {k} == ks - {k} - {j};
    }
  }

  lemma {:induction false} BytesWithin(m: Map, js: set<Datum>, ks: set<Datum>)
    requires js <= ks <= m.Keys
    ensures Bytes(m, js) <= Bytes(m, ks)
    decreases ks
  {
    if js != ks {
      var k :| k in ks && k !in js;
      BytesTake(m, ks, k);
      BytesWithin(m, js, ks - {k});
    }
  }

  function PairBytes(p: seq<Pair>): nat {
    if p == [] then 0
    else PairBytes(p[..|p| - 1]) + |p[|p| - 1].0| + |p[|p| - 1].1| + 4
  }

  ghost function KeysOf(p: seq<Pair>): set<Datum> {
    set i | 0 <= i < |p| :: p[i].0
  }

  lemma {:induction false} BytesOfPairs(m: Map, p: seq<Pair>)
    requires KeysDiffer(p) && forall x: Pair | x in p :: In(x, m)
    ensures KeysOf(p) <= m.Keys && Bytes(m, KeysOf(p)) == PairBytes(p)
    decreases |p|
  {
    forall i | 0 <= i < |p|
      ensures p[i].0 in m && m[p[i].0] == p[i].1
    {
      assert In(p[i], m);
    }
    if p != [] {
      var q, last := p[..|p| - 1], p[|p| - 1];
      BytesOfPairs(m, q);
      assert KeysOf(p) - {last.0} == KeysOf(q) by {
        forall k
          ensures k in KeysOf(p) - {last.0} <==> k in KeysOf(q)
        {
          if k in KeysOf(q) {
            var i :| 0 <= i < |q| && q[i].0 == k;
            assert p[i].0 == k;
          }
        }
      }
      assert last.0 in KeysOf(p);
      BytesTake(m, KeysOf(p), last.0);
    }
  }

  lemma {:induction false} UsedByPairs(items: seq<Datum>)
    requires Paired(items)
    ensures Used(items) + 2 * |items| == PairBytes(Pairs(items))
    decreases |items|
  {
    if items != [] {
      var n := |items|;
      var fore, once := items[..n - 2], items[..n - 1];
      assert once[..n - 2] == fore;
      assert Used(once) == Used(fore) + |items[n - 2]|;
      assert Pairs(items)[..|Pairs(items)| - 1] == Pairs(fore);
      UsedByPairs(fore);
    }
  }

  // ----- the pairs that stay together

  /** The keys whose hashes agree with that of the key in d bits. */
  ghost function Group(hash: Datum -> nat, m: Map, key: Datum, d: nat): set<Datum> {
    set x | x in m && Low(hash(x), d) == Low(hash(key), d)
  }

  /** The pair fits one page together with those that no split can part it from. */
  ghost predicate FitsPage(hash: Datum -> nat, m: Map, key: Datum, dat: Datum) {
    Bytes(m, Group(hash, m, key, HASHBITS)) + |key| + |dat| + 6 < PBLKSIZ
  }

  lemma GroupShrinks(hash: Datum -> nat, m: Map, key: Datum, d: nat)
    requires d <= HASHBITS
    ensures Group(hash, m, key, HASHBITS) <= Group(hash, m, key, d)
  {
    forall x | x in Group(hash, m, key, HASHBITS)
      ensures x in Group(hash, m, key, d)
    {
      LowOfLow(hash(x), d, HASHBITS);
      LowOfLow(hash(key), d, HASHBITS);
    }
  }

  /** The keys on a leaf are those that agree in the bits of its depth. */
  lemma LeafIsGroup(D: set<nat>, pages: Pages, hash: Datum -> nat, m: Map, key: Datum)
    requires Represents(D, pages, hash, m)
    ensures KeysOf(At(D, pages, hash(key))) == Group(hash, m, key, Depth(D, hash(key)))
  {
    hide Low, Depth, GoodPage, PairsOn, PageOf, Closed;
    var h, p := hash(key), At(D, pages, hash(key));
    var d := Depth(D, h);
    forall x
      ensures x in KeysOf(p) <==> x in Group(hash, m, key, d)
    {
      if x in KeysOf(p) {
        var i :| 0 <= i < |p| && p[i].0 == x;
        assert p[i] in p && PageOf(D, hash(x)) == PageOf(D, h);
        PagesDiffer(D, h, hash(x));
        assert In(p[i], m) by { assert At(D, pages, hash(x)) == p; }
      }
      if x in Group(hash, m, key, d) {
        SameLeaf(D, h, hash(x));
        assert In((x, m[x]), m);
        assert (x, m[x]) in At(D, pages, hash(x)) && At(D, pages, hash(x)) == p;
        var i :| 0 <= i < |p| && p[i] == (x, m[x]);
        assert p[i].0 == x;
      }
    }
  }

  lemma LeafBytes(D: set<nat>, pages: Pages, hash: Datum -> nat, m: Map, key: Datum)
    requires Represents(D, pages, hash, m)
    ensures PairBytes(At(D, pages, hash(key))) == Bytes(m, Group(hash, m, key, Depth(D, hash(key))))
  {
    hide Low, Depth, GoodPage, PairsOn, PageOf, Closed, Bytes, PairBytes, KeysDiffer;
    var p := At(D, pages, hash(key));
    LeafKeysDiffer(D, pages, hash, m, hash(key));
    forall x: Pair | x in p
      ensures In(x, m)
    {
      assert PageOf(D, hash(x.0)) == PageOf(D, hash(key));
      assert At(D, pages, hash(x.0)) == p;
    }
    BytesOfPairs(m, p);
    LeafIsGroup(D, pages, hash, m, key);
  }

  /** Room on the leaf, however deep it is, is room; and no room at full depth is none. */
  lemma RoomOnLeaf(D: set<nat>, pages: Pages, hash: Datum -> nat, m: Map, key: Datum, dat: Datum)
    requires Represents(D, pages, hash, m) && Shallow(D)
    ensures var s := PageBytes(pages, PageOf(D, hash(key)));
            && (PairFits(Items(s), key, dat) ==> FitsPage(hash, m, key, dat))
            && (Depth(D, hash(key)) == HASHBITS ==> (PairFits(Items(s), key, dat) <==> FitsPage(hash, m, key, dat)))
  {
    hide Low, PageOf, Closed, Bytes, PairBytes, KeysDiffer, Items, ValidPage, Used, Represents, Depth, Pairs, Group;
    var s := PageBytes(pages, PageOf(D, hash(key)));
    GoodLeaf(D, pages, hash, m, hash(key));
    UsedByPairs(Items(s));
    LeafBytes(D, pages, hash, m, key);
    var d := Depth(D, hash(key));
    GroupShrinks(hash, m, key, d);
    GroupWithin(hash, m, key, d);
    BytesWithin(m, Group(hash, m, key, HASHBITS), Group(hash, m, key, d));
  }

  lemma GroupWithin(hash: Datum -> nat, m: Map, key: Datum, d: nat)
    ensures Group(hash, m, key, d) <= m.Keys && Group(hash, m, key, HASHBITS) <= m.Keys
  {
  }

  lemma GoodLeaf(D: set<nat>, pages: Pages, hash: Datum -> nat, m: Map, h: nat)
    requires Represents(D, pages, hash, m)
    ensures var s := PageBytes(pages, PageOf(D, h));
            ValidPage(s) && Paired(Items(s)) && At(D, pages, h) == Pairs(Items(s))
  {
    assert GoodPage(PageBytes(pages, PageOf(D, h)));
  }

  /** A split leads one level deeper, and nowhere deeper than there are bits. */
  lemma SplitStaysShallow(D: set<nat>, h: nat)
    requires Closed(D) && Shallow(D) && Depth(D, h) < HASHBITS
    ensures Shallow(D + {On(h, Depth(D, h))})
  {
    hide Depth, On, Closed, Low;
    var D' := D + {On(h, Depth(D, h))};
    forall g: nat
      ensures Depth(D', g) <= HASHBITS
    {
      Split(D, h, g);
    }
  }

  // ----- what a caller can tell

  /** With no other key in the group, every pair below 506 bytes fits. */
  lemma AloneFits(hash: Datum -> nat, m: Map, key: Datum, dat: Datum)
    requires Group(hash, m, key, HASHBITS) == {}
    ensures FitsPage(hash, m, key, dat) <==> |key| + |dat| < 506
  {
  }

  /** Pairs of 506 and 507 bytes are not refused as too big, and fit no page. */
  lemma NeverFits(hash: Datum -> nat, m: Map, key: Datum, dat: Datum)
    requires |key| + |dat| == 506 || |key| + |dat| == 507
    ensures !FitsPage(hash, m, key, dat) && |key| + |dat| + 4 < PBLKSIZ
  {
  }
}
