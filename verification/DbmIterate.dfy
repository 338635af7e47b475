/** Which key firstkey() and nextkey() of dbm.c have to return. */
module DbmIterate {
  import opened Bits
  import opened Options
  import opened DbmPage
  import opened DbmPairs
  import opened DbmTrie
  import opened DbmWalk
  import opened DbmState

  /** The key x lies on the leaf of hash h or on a later one. */
  ghost predicate AtOrAfter(D: set<nat>, hash: Datum -> nat, x: Datum, h: nat) {
    PageOf(D, hash(x)) in From(D, 0, h)
  }

  /** The key x comes after key: further down on the same page, or on a later one. */
  ghost predicate After(D: set<nat>, hash: Datum -> nat, x: Datum, key: Datum) {
    if PageOf(D, hash(x)) == PageOf(D, hash(key)) then Cmp(key, x) > 0 else AtOrAfter(D, hash, x, hash(key))
  }

  /** r is the first of the stored keys from the leaf of h on. */
  ghost predicate FirstFrom(D: set<nat>, hash: Datum -> nat, keys: set<Datum>, h: nat, r: Option<Datum>) {
    match r
    case None => forall x | x in keys :: !AtOrAfter(D, hash, x, h)
    case Some(y) =>
      && y in keys && AtOrAfter(D, hash, y, h)
      && forall x | x in keys :: AtOrAfter(D, hash, x, h) <==> x == y || After(D, hash, x, y)
  }

  /** r is the next of the stored keys after key. */
  ghost predicate Successor(D: set<nat>, hash: Datum -> nat, keys: set<Datum>, key: Datum, r: Option<Datum>) {
    match r
    case None => forall x | x in keys :: !After(D, hash, x, key)
    case Some(y) =>
      && y in keys && After(D, hash, y, key)
      && forall x | x in keys :: After(D, hash, x, key) <==> x == y || After(D, hash, x, y)
  }

  /** r is the greatest key of the pairs, of those below a bound if there is one. */
  ghost predicate Top(p: seq<Pair>, below: Option<Datum>, r: Option<Datum>) {
    match r
    case None => forall i | 0 <= i < |p| :: !Below(p[i].0, below)
    case Some(y) =>
      && (exists i :: 0 <= i < |p| && p[i].0 == y) && Below(y, below)
      && forall i | 0 <= i < |p| && Below(p[i].0, below) :: p[i].0 == y || Cmp(y, p[i].0) > 0
  }

  predicate Below(x: Datum, below: Option<Datum>) {
    below == None || Cmp(below.value, x) > 0
  }

  // ----- the leaves

  /** The stored keys on the leaf of h are those of its page. */
  lemma KeysOnLeaf(D: set<nat>, pages: Pages, hash: Datum -> nat, m: Map, h: nat, x: Datum)
    requires Represents(D, pages, hash, m)
    ensures x in m && PageOf(D, hash(x)) == PageOf(D, h) <==>
            exists i :: 0 <= i < |At(D, pages, h)| && At(D, pages, h)[i].0 == x
  {
    var p := At(D, pages, h);
    if x in m && PageOf(D, hash(x)) == PageOf(D, h) {
      assert In((x, m[x]), m);
      assert (x, m[x]) in p;
    }
    if i :| 0 <= i < |p| && p[i].0 == x {
      assert p[i] in At(D, pages, h);
      assert In(p[i], m);
    }
  }

  /** The leaf of h is the first of the leaves from h on. */
  lemma LeafComesFirst(D: set<nat>, h: nat)
    ensures PageOf(D, h) in From(D, 0, h)
  {
    FirstOfRun(D, 0, h);
  }

  lemma {:induction false} FirstOfRun(D: set<nat>, d: nat, h: nat)
    requires d <= Depth(D, h)
    ensures From(D, d, h) != [] && From(D, d, h)[0] == PageOf(D, h)
    decreases Depth(D, h) - d
  {
    if d < Depth(D, h) {
      FirstOfRun(D, d + 1, h);
    }
  }

  lemma SameRun(D: set<nat>, h: nat, g: nat)
    requires PageOf(D, h) == PageOf(D, g)
    ensures From(D, 0, h) == From(D, 0, g)
  {
    PagesDiffer(D, h, g);
    SameFrom(D, 0, h, g);
  }

  /** What hashinc() steps to is the rest of the run. */
  lemma NextRun(D: set<nat>, h: nat, h': nat)
    requires NextHash(h, Depth(D, h), h')
    ensures From(D, 0, h) == [PageOf(D, h)] + if h' == 0 then [] else From(D, 0, h')
    ensures h' != 0 ==> PageOf(D, h) !in From(D, 0, h')
  {
    if h' == 0 {
      LastLeaf(D, 0, h);
    } else {
      var k :| ClearAt(h, Depth(D, h), k) && h' == Low(h, k) + Pow2(k);
      LeafAfter(D, 0, h, k, h');
      FromNoneTwice(D, 0, h);
      var t := From(D, 0, h);
      forall i | 0 <= i < |From(D, 0, h')|
        ensures From(D, 0, h')[i] != PageOf(D, h)
      {
        assert From(D, 0, h')[i] == t[i + 1] != t[0];
      }
    }
  }

  // ----- the steps of firsthash() and nextkey()

  lemma TopOfLeaf(D: set<nat>, pages: Pages, hash: Datum -> nat, m: Map, h: nat, y: Datum)
    requires Represents(D, pages, hash, m) && Top(At(D, pages, h), None, Some(y))
    ensures FirstFrom(D, hash, m.Keys, h, Some(y))
  {
    hide Represents, PageOf, From, At, Cmp;
    KeysOnLeaf(D, pages, hash, m, h, y);
    LeafComesFirst(D, h);
    SameRun(D, hash(y), h);
    forall x | x in m.Keys
      ensures AtOrAfter(D, hash, x, h) <==> x == y || After(D, hash, x, y)
    {
      KeysOnLeaf(D, pages, hash, m, h, x);
      CmpIsOrder(y, x);
    }
  }

  lemma NothingOnLeaf(D: set<nat>, pages: Pages, hash: Datum -> nat, m: Map, h: nat, h': nat, r: Option<Datum>)
    requires Represents(D, pages, hash, m) && At(D, pages, h) == [] && NextHash(h, Depth(D, h), h')
    requires if h' == 0 then r == None else FirstFrom(D, hash, m.Keys, h', r)
    ensures FirstFrom(D, hash, m.Keys, h, r)
  {
    hide Represents, PageOf, From, At, Cmp, NextHash, After;
    NextRun(D, h, h');
    forall x | x in m.Keys
      ensures AtOrAfter(D, hash, x, h) <==> h' != 0 && AtOrAfter(D, hash, x, h')
    {
      KeysOnLeaf(D, pages, hash, m, h, x);
    }
  }

  lemma TopBelow(D: set<nat>, pages: Pages, hash: Datum -> nat, m: Map, key: Datum, y: Datum)
    requires Represents(D, pages, hash, m) && Top(At(D, pages, hash(key)), Some(key), Some(y))
    ensures Successor(D, hash, m.Keys, key, Some(y))
  {
    hide Represents, PageOf, From, At, Cmp;
    KeysOnLeaf(D, pages, hash, m, hash(key), y);
    SameRun(D, hash(y), hash(key));
    forall x | x in m.Keys
      ensures After(D, hash, x, key) <==> x == y || After(D, hash, x, y)
    {
      KeysOnLeaf(D, pages, hash, m, hash(key), x);
      CmpIsOrder(y, x);
      CmpIsOrder(key, y);
      CmpIsOrder(key, x);
      if Cmp(y, x) > 0 {
        CmpChains(x, y, key);
      }
    }
  }

  lemma NothingLeft(D: set<nat>, pages: Pages, hash: Datum -> nat, m: Map, key: Datum, h': nat, r: Option<Datum>)
    requires Represents(D, pages, hash, m) && Top(At(D, pages, hash(key)), Some(key), None)
    requires NextHash(hash(key), Depth(D, hash(key)), h')
    requires if h' == 0 then r == None else FirstFrom(D, hash, m.Keys, h', r)
    ensures Successor(D, hash, m.Keys, key, r)
  {
    hide Represents, PageOf, From, At, Cmp, NextHash;
    NextRun(D, hash(key), h');
    forall x | x in m.Keys
      ensures After(D, hash, x, key) <==> h' != 0 && AtOrAfter(D, hash, x, h')
    {
      KeysOnLeaf(D, pages, hash, m, hash(key), x);
    }
  }

  /** From hash 0 on, all keys are still to come. */
  lemma AllFromZero(D: set<nat>, hash: Datum -> nat, x: Datum)
    ensures AtOrAfter(D, hash, x, 0)
  {
    FromStart(D, 0, 0);
    TrailComplete(D, 0, hash(x));
  }
}
