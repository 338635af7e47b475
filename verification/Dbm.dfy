/** dbm.c: fetch(), store() and delete() on the two files. */
module Dbm {
  import opened Bits
  import opened Options
  import opened DbmPage
  import opened DbmPairs
  import opened DbmDir
  import opened DbmTrie
  import opened DbmLeaf
  import opened DbmState
  import opened DbmRoom
  import opened DbmWalk
  import opened DbmIterate

  /** How store() ends: the pair is stored; it is refused as too big; or page after page is
      split without making room, as long as there are bits in a hash. */
  datatype Outcome = Stored | TooBig | OutOfBits

  function Lookup(m: Map, key: Datum): Option<Datum> {
    if key in m then Some(m[key]) else None
  }

  class Database {
    const dir: Directory
    const pagbuf: array<byte>
    /** calchash() */
    const hash: Datum -> nat
    var pagf: Pages
    var oldb: int
    var blkno: nat
    var bitno: nat
    var hmask: nat
    /** The map that the files hold. */
    ghost var m: Map
    /** The map that they would hold if the page in memory were written. */
    ghost var seen: Map

    ghost predicate Filed()
      reads this, dir, dir.dirbuf
    {
      && pagbuf != dir.dirbuf && pagbuf.Length == PBLKSIZ && dir.Valid() && Shallow(dir.Inner())
      && Represents(dir.Inner(), pagf, hash, m)
    }

    ghost function View(): Pages
      reads this, pagbuf
    {
      if oldb >= 0 then pagf[oldb as nat := pagbuf[..]] else pagf
    }

    /** What every call leaves behind, whatever it answers. */
    ghost predicate Usable()
      reads this, pagbuf, dir, dir.dirbuf
    {
      Filed() && Represents(dir.Inner(), View(), hash, seen)
    }

    /** The page in memory has the pairs it has on file. */
    ghost predicate Valid()
      reads this, pagbuf, dir, dir.dirbuf
    {
      Usable() && seen == m
    }

    /** What the calls find for a key: the page in memory is not read again. */
    ghost function Effective(key: Datum): Map
      requires dir.Valid()
      reads this, dir, dir.dirbuf
    {
      if oldb == PageOf(dir.Inner(), hash(key)) then seen else m
    }

    /** What dbm_access() leaves behind for hash h. */
    ghost predicate AtLeaf(h: nat)
      requires dir.Valid()
      reads this, dir, dir.dirbuf
    {
      && oldb == blkno == PageOf(dir.Inner(), h) && hmask + 1 == Pow2(Depth(dir.Inner(), h))
      && bitno == On(h, Depth(dir.Inner(), h)) && (bitno <= dir.maxbno ==> dir.oldb == BlockOf(bitno))
    }

    /** dbminit() on two empty files. */
    constructor (hash: Datum -> nat)
      ensures Valid() && m == map[] && this.hash == hash
      ensures fresh(dir) && fresh(dir.dirbuf) && fresh(pagbuf)
    {
      EmptyFile();
      this.hash := hash;
      dir := new Directory(map[], 0);
      pagbuf := new byte[PBLKSIZ];
      pagf, oldb, m, seen := map[], -1, map[], map[];
      blkno, bitno, hmask := 0, 0, 0;
      new;
      EmptyRepresents(hash);
      EmptyIsShallow();
      assert dir.Inner() == {};
    }

    /** The loop of dbm_access(): from the root to the leaf of hash h. */
    method Descend(h: nat)
      requires dir.Valid()
      modifies this`blkno, this`bitno, this`hmask, dir`oldb, dir.dirbuf
      ensures dir.Valid() && dir.Inner() == old(dir.Inner())
      ensures blkno == PageOf(dir.Inner(), h) && hmask + 1 == Pow2(Depth(dir.Inner(), h))
      ensures bitno == On(h, Depth(dir.Inner(), h)) && (bitno <= dir.maxbno ==> dir.oldb == BlockOf(bitno))
    {
      hide Low, Pow2, And;
      ghost var D := dir.Inner();
      ghost var d := 0;
      hmask := 0;
      assert Pow2(0) == 1 by { FirstPower(); }
      while true
        invariant hmask + 1 == Pow2(d) && d <= Depth(D, h)
        invariant dir.Valid() && dir.Inner() == D
        decreases Depth(D, h) - d
      {
        AndMask(h, d);
        blkno := And(h, hmask);
        bitno := blkno + hmask;
        assert bitno == On(h, d);
        var bit := dir.GetBit(bitno);
        if !bit {
          return;
        }
        hmask := hmask * 2 + 1;
        d := d + 1;
        NextPower(d);
      }
    }

    method DbmAccess(h: nat)
      requires Usable()
      modifies this`oldb, this`blkno, this`bitno, this`hmask, this`seen, pagbuf, dir`oldb, dir.dirbuf
      ensures Usable() && dir.Inner() == old(dir.Inner()) && AtLeaf(h)
      ensures seen == if old(oldb) == PageOf(dir.Inner(), h) then old(seen) else m
    {
      hide Represents, Pow2, GoodPage, ValidPage, Items, PairsOn, PageBytes, PageOf, Depth, On, Shallow;
      Descend(h);
      LeafIsGood(dir.Inner(), pagf, hash, m, h);
      if blkno != oldb {
        ReadPage(PageBytes(pagf, blkno));
        var ok := ChkBlk(pagbuf);
        assert ok;
        oldb := blkno;
        seen := m;
        SamePairs(dir.Inner(), pagf, hash, m, h, pagbuf[..]);
      }
    }

    method ReadPage(block: seq<byte>)
      requires pagbuf.Length == PBLKSIZ == |block|
      modifies pagbuf
      ensures pagbuf[..] == block
    {
      for i := 0 to PBLKSIZ
        invariant forall k | 0 <= k < i :: pagbuf[k] == block[k]
      {
        pagbuf[i] := block[i];
      }
    }

    method Fetch(key: Datum) returns (dat: Option<Datum>)
      requires Usable()
      modifies this`oldb, this`blkno, this`bitno, this`hmask, this`seen, pagbuf, dir`oldb, dir.dirbuf
      ensures Usable() && dir.Inner() == old(dir.Inner())
      ensures seen == old(Effective(key)) && oldb == PageOf(dir.Inner(), hash(key))
      ensures dat == Lookup(old(Effective(key)), key)
    {
      hide Represents, GoodPage, KeysDiffer, Items, ValidPage, PairsOn, PageOf, Depth, On, Pow2, Shallow, PageBytes;
      DbmAccess(hash(key));
      LeafInMemory(hash(key));
      LeafHasKey(dir.Inner(), View(), hash, seen, key);
      var n := FindKey(pagbuf, key);
      if n < 0 {
        return None;
      }
      assert PairsOn(pagbuf[..])[n] in At(dir.Inner(), View(), hash(key));
      GoodIsValid(pagbuf[..]);
      dat := MakDatum(pagbuf, 2 * n + 1);
    }

    /** The page of the leaf is in memory. */
    lemma LeafInMemory(h: nat)
      requires Usable() && AtLeaf(h)
      ensures View() == pagf[blkno := pagbuf[..]] && GoodPage(pagbuf[..])
      ensures At(dir.Inner(), View(), h) == PairsOn(pagbuf[..]) == Pairs(Items(pagbuf[..]))
    {
      hide Represents, PageOf, Depth, On, Pow2, Shallow;
      LeafIsGood(dir.Inner(), View(), hash, seen, h);
      JustWritten(pagf, blkno, pagbuf[..]);
    }

    /** The leaf page of the key in memory is what makes the files hold m'. */
    ghost predicate Pending(key: Datum, m': Map)
      reads this, pagbuf, dir, dir.dirbuf
    {
      && pagbuf != dir.dirbuf && pagbuf.Length == PBLKSIZ && dir.Valid() && Shallow(dir.Inner()) && AtLeaf(hash(key))
      && Represents(dir.Inner(), pagf[blkno := pagbuf[..]], hash, m')
    }

    /** The search for the key in store() and delete(), and the removal of the old pair. */
    method RemoveOld(key: Datum) returns (found: bool)
      requires Usable() && AtLeaf(hash(key))
      modifies pagbuf
      ensures Pending(key, seen - {key}) && found == (key in seen)
      ensures !found ==> pagbuf[..] == old(pagbuf[..])
    {
      hide Represents, GoodPage, KeysDiffer, Items, ValidPage, PairsOn, PageOf, Depth, On, Pow2, PageBytes, Dropped, Shallow;
      ghost var D, h, pages := dir.Inner(), hash(key), View();
      LeafInMemory(h);
      LeafHasKey(D, pages, hash, seen, key);
      var n := FindKey(pagbuf, key);
      if n >= 0 {
        assert PairsOn(pagbuf[..])[n] in At(D, pages, h);
        ghost var p := PairsOn(pagbuf[..]);
        RemovePair(pagbuf, n);
        PairTakenOff(D, pages, hash, seen, key, n, pagbuf[..]);
        assert pages[blkno := pagbuf[..]] == pagf[blkno := pagbuf[..]];
        return true;
      }
      assert seen - {key} == seen;
      return false;
    }

    /** The page in memory goes to the file. */
    method WritePage(key: Datum, ghost m': Map)
      requires Pending(key, m')
      modifies this`pagf, this`m, this`seen
      ensures Valid() && m == m' && AtLeaf(hash(key)) && pagf == old(pagf)[blkno := pagbuf[..]]
    {
      hide Represents, PageOf, Depth, On, Pow2, GoodPage, PageBytes, Shallow;
      pagf := pagf[blkno := pagbuf[..]];
      m, seen := m', m';
      assert View() == pagf;
    }

    method Delete(key: Datum) returns (r: int)
      requires Usable()
      modifies this`oldb, this`blkno, this`bitno, this`hmask, this`pagf, this`m, this`seen, pagbuf, dir`oldb, dir.dirbuf
      ensures Usable() && seen == old(Effective(key)) - {key} && r == if key in old(Effective(key)) then 0 else -1
      ensures m == if key in old(Effective(key)) then seen else old(m)
      ensures old(Valid()) ==> Valid() && m == old(m) - {key}
    {
      hide Represents, PageOf, Depth, On, Pow2, PageBytes, Shallow;
      DbmAccess(hash(key));
      var found := RemoveOld(key);
      if !found {
        assert seen - {key} == seen;
        return -1;
      }
      WritePage(key, seen - {key});
      return 0;
    }

    /** The first half of a turn of store(): in with the pair, if there is room. */
    method AddNew(key: Datum, dat: Datum, ghost m': Map) returns (ok: bool)
      requires Pending(key, m') && key !in m'
      modifies pagbuf
      ensures Pending(key, if ok then m'[key := dat] else m')
      ensures ok ==> FitsPage(hash, m', key, dat)
      ensures Depth(dir.Inner(), hash(key)) == HASHBITS ==> (ok <==> FitsPage(hash, m', key, dat))
    {
      hide Represents, GoodPage, KeysDiffer, Items, ValidPage, PairsOn, PageOf, Depth, On, Pow2, PageBytes, Used, Shallow,
           FitsPage, PairFits;
      ghost var D, h, pages := dir.Inner(), hash(key), pagf[blkno := pagbuf[..]];
      LeafIsGood(D, pages, hash, m', h);
      LeafHasKey(D, pages, hash, m', key);
      ghost var s := pagbuf[..];
      assert PageBytes(pages, blkno) == s by { JustWritten(pagf, blkno, s); }
      forall i | 0 <= i < |PairsOn(s)|
        ensures PairsOn(s)[i].0 != key
      {
        assert PairsOn(s)[i] in At(D, pages, h);
      }
      RoomOnLeaf(D, pages, hash, m', key, dat);
      ok := AddPair(pagbuf, key, dat);
      assert pages[blkno := pagbuf[..]] == pagf[blkno := pagbuf[..]];
      if ok {
        PairPutOn(D, pages, hash, m', key, dat, pagbuf[..]);
      } else {
        SamePairs(D, pages, hash, m', h, pagbuf[..]);
      }
    }

    /** The second half: the page is split by the next bit of the hashes. */
    method SplitFile(key: Datum, ghost m': Map)
      requires Pending(key, m')
      modifies this`pagf, pagbuf
      ensures Represents(dir.Inner() + {bitno}, pagf, hash, m') && View() == pagf
    {
      hide Represents, GoodPage, KeysDiffer, Items, ValidPage, PairsOn, PageOf, Depth, On, Pow2, PageBytes, Half, Shallow;
      ghost var D, h, pages := dir.Inner(), hash(key), pagf[blkno := pagbuf[..]];
      ghost var s := pagbuf[..];
      LeafIsGood(D, pages, hash, m', h);
      assert PageBytes(pages, blkno) == s by { JustWritten(pagf, blkno, s); }
      var ovfbuf := new byte[PBLKSIZ](i => 0);
      assert ovfbuf[..] == ZeroPage();
      ZeroPageIsEmpty();
      GoodIsValid(ovfbuf[..]);
      SplitPage(pagbuf, ovfbuf, hash, hmask, Depth(D, h));
      pagf := pagf[blkno := pagbuf[..]];
      pagf := pagf[blkno + hmask + 1 := ovfbuf[..]];
      PagesSplit(D, pages, hash, m', h, pagbuf[..], ovfbuf[..]);
      ghost var q: nat := blkno + Pow2(Depth(D, h));
      ghost var once: Pages := pages[blkno := pagbuf[..]];
      assert pagf == once[q := ovfbuf[..]];
      assert View() == pagf;
    }

    method SplitLeaf(key: Datum, ghost m': Map)
      requires Pending(key, m') && Depth(dir.Inner(), hash(key)) < HASHBITS
      modifies this`pagf, this`m, this`seen, pagbuf, dir, dir.dirbuf
      ensures Valid() && m == m'
      ensures Depth(dir.Inner(), hash(key)) == old(Depth(dir.Inner(), hash(key))) + 1
    {
      hide Represents, GoodPage, KeysDiffer, Items, ValidPage, PairsOn, PageOf, Depth, On, Pow2, PageBytes, Shallow;
      LeafGoesDown(dir.Inner(), pagf[blkno := pagbuf[..]], hash, m', hash(key));
      SplitFile(key, m');
      dir.SetBit(bitno);
      m, seen := m', m';
    }

    /** store().  The page of the key is split until the pair fits.  It is stored exactly when it
        fits a page together with the pairs whose hashes agree with that of the key in all bits. */
    method Store(key: Datum, dat: Datum) returns (r: Outcome)
      requires Usable()
      modifies this`oldb, this`blkno, this`bitno, this`hmask, this`pagf, this`m, this`seen, pagbuf, dir, dir.dirbuf
      ensures r == Stored <==> FitsPage(hash, old(Effective(key)) - {key}, key, dat)
      ensures r == Stored ==> Valid() && m == old(Effective(key))[key := dat]
      ensures r == TooBig <==> |key| + |dat| + 4 >= PBLKSIZ
      ensures r != Stored ==> Usable() && seen == old(Effective(key)) - {key} && oldb == PageOf(dir.Inner(), hash(key))
      ensures r == TooBig ==> pagf == old(pagf) && m == old(m) && dir.Inner() == old(dir.Inner())
      ensures r == OutOfBits ==> m == old(m) || m == seen
    {
      hide Represents, PageOf, Depth, On, Pow2, PageBytes, Shallow, FitsPage;
      ghost var e := Effective(key);
      while true
        invariant Usable() && Effective(key) - {key} == e - {key} && (m == old(m) || m == e - {key})
        invariant |key| + |dat| + 4 >= PBLKSIZ ==> pagf == old(pagf) && m == old(m) && dir.Inner() == old(dir.Inner())
        decreases HASHBITS - Depth(dir.Inner(), hash(key))
      {
        DbmAccess(hash(key));
        var ok := TryStore(key, dat, e);
        FitsIsNotTooBig(hash, e - {key}, key, dat);
        if ok {
          return Stored;
        }
        if |key| + |dat| + 4 >= PBLKSIZ {
          return TooBig;
        }
        AtHashBits(Depth(dir.Inner(), hash(key)), hmask);
        ShallowHere(dir.Inner(), hash(key));
        if hmask >= DeepestMask() {
          return OutOfBits;
        }
        SplitLeaf(key, seen);
        assert Effective(key) == e - {key};
      }
    }

    /** A turn of store() as far as the label split. */
    method TryStore(key: Datum, dat: Datum, ghost e: Map) returns (ok: bool)
      requires Usable() && AtLeaf(hash(key)) && seen - {key} == e - {key}
      modifies this`pagf, this`m, this`seen, pagbuf
      ensures ok ==> Valid() && m == e[key := dat] && FitsPage(hash, e - {key}, key, dat)
      ensures !ok && Depth(dir.Inner(), hash(key)) == HASHBITS ==> !FitsPage(hash, e - {key}, key, dat)
      ensures !ok ==> Usable() && m == old(m) && pagf == old(pagf) && seen == e - {key} && Pending(key, seen)
    {
      hide Represents, PageOf, Depth, On, Pow2, PageBytes, Shallow, FitsPage;
      var found := RemoveOld(key);
      ok := AddNew(key, dat, e - {key});
      if ok {
        WritePage(key, (e - {key})[key := dat]);
        assert m == e[key := dat];
      } else {
        seen := e - {key};
      }
    }

    // ----- iteration

    /** hashinc(), by the mask of the last access. */
    method HashInc(h: nat, ghost d: nat) returns (h': nat)
      requires hmask + 1 == Pow2(d)
      ensures NextHash(h, d, h')
    {
      hide NextHash, Low, Bit, And;
      AndMask(h, d);
      h' := And(h, hmask);
      var bit := hmask + 1;
      ghost var j: nat := d;
      while true
        invariant j <= d && bit == Pow2(j) && h' == Low(h, j)
        invariant forall i | j <= i < d :: Bit(h, i)
        decreases j
      {
        bit := bit / 2;
        if bit == 0 {
          AllSet(h, d);
          return 0;
        }
        j := j - 1;
        NextLow(h, j);
        AndPower(Low(h, j + 1), j);
        BitOfLow(h, j + 1, j);
        if And(h', bit) == 0 {
          h' := h' + bit;
          FoundClear(h, d, j, h');
          return;
        }
        h' := h' - bit;
      }
    }

    /** firsthash() */
    method FirstHash(h0: nat) returns (r: Option<Datum>)
      requires Valid()
      modifies this`oldb, this`blkno, this`bitno, this`hmask, this`seen, pagbuf, dir`oldb, dir.dirbuf
      ensures Valid() && dir.Inner() == old(dir.Inner()) && FirstFrom(dir.Inner(), hash, m.Keys, h0, r)
    {
      hide Represents, GoodPage, KeysDiffer, Items, ValidPage, PairsOn, PageOf, Depth, On, Pow2, Shallow, FirstFrom, NextHash,
           Top, Cmp, From;
      var h := h0;
      ghost var D := dir.Inner();
      while true
        invariant Valid() && dir.Inner() == D
        invariant forall r :: FirstFrom(D, hash, m.Keys, h, r) ==> FirstFrom(D, hash, m.Keys, h0, r)
        decreases |From(D, 0, h)|
      {
        DbmAccess(h);
        LeafInMemory(h);
        GoodIsValid(pagbuf[..]);
        var bitem := TopKey();
        if bitem != None {
          TopOfLeaf(D, View(), hash, m, h, bitem.value);
          return bitem;
        }
        NoTop(At(D, View(), h));
        var h' := HashInc(h, Depth(D, h));
        NextRun(D, h, h');
        if h' == 0 {
          NothingOnLeaf(D, View(), hash, m, h, h', None);
          return None;
        }
        forall r | FirstFrom(D, hash, m.Keys, h', r)
          ensures FirstFrom(D, hash, m.Keys, h, r)
        {
          NothingOnLeaf(D, View(), hash, m, h, h', r);
        }
        h := h';
      }
    }

    /** The loop of firsthash() over the items of a page. */
    method TopKey() returns (bitem: Option<Datum>)
      requires GoodPage(pagbuf[..])
      ensures Top(PairsOn(pagbuf[..]), None, bitem)
    {
      hide Items, ValidPage, Cmp;
      ghost var p := PairsOn(pagbuf[..]);
      GoodIsValid(pagbuf[..]);
      bitem := MakDatum(pagbuf, 0);
      assert |p| > 0 ==> p[..1][0].0 == bitem.value;
      var i := 2;
      while true
        invariant i % 2 == 0 && 2 <= i <= 2 * |p| + 2
        invariant Top(p[..if i / 2 <= |p| then i / 2 else |p|], None, bitem)
        invariant bitem == None <==> |p| == 0
        decreases 2 * |p| + 2 - i
      {
        var item := MakDatum(pagbuf, i);
        if item == None {
          assert p[..|p|] == p;
          return;
        }
        var c := CmpDatum(bitem.value, item.value);
        TopStep(p, i / 2, None, bitem.value, item.value);
        if c < 0 {
          bitem := item;
        }
        i := i + 2;
      }
    }

    /** firstkey() */
    method FirstKey() returns (r: Option<Datum>)
      requires Valid()
      modifies this`oldb, this`blkno, this`bitno, this`hmask, this`seen, pagbuf, dir`oldb, dir.dirbuf
      ensures Valid() && dir.Inner() == old(dir.Inner()) && FirstFrom(dir.Inner(), hash, m.Keys, 0, r)
    {
      r := FirstHash(0);
    }

    /** The loop of nextkey() over the items of a page. */
    method TopKeyBelow(key: Datum) returns (bitem: Option<Datum>)
      requires GoodPage(pagbuf[..])
      ensures Top(PairsOn(pagbuf[..]), Some(key), bitem)
    {
      hide Items, ValidPage, Cmp;
      ghost var p := PairsOn(pagbuf[..]);
      GoodIsValid(pagbuf[..]);
      bitem := None;
      var i := 0;
      while true
        invariant i % 2 == 0 && 0 <= i <= 2 * |p| && Top(p[..i / 2], Some(key), bitem)
        decreases 2 * |p| - i
      {
        var item := MakDatum(pagbuf, i);
        if item == None {
          assert p[..|p|] == p;
          return;
        }
        var c := CmpDatum(key, item.value);
        if c > 0 {
          if bitem == None {
            bitem := item;
          } else {
            var b := CmpDatum(bitem.value, item.value);
            TopStep(p, i / 2, Some(key), bitem.value, item.value);
            if b < 0 {
              bitem := item;
            }
          }
        }
        i := i + 2;
      }
    }

    /** nextkey() */
    method NextKey(key: Datum) returns (r: Option<Datum>)
      requires Valid()
      modifies this`oldb, this`blkno, this`bitno, this`hmask, this`seen, pagbuf, dir`oldb, dir.dirbuf
      ensures Valid() && dir.Inner() == old(dir.Inner()) && Successor(dir.Inner(), hash, m.Keys, key, r)
    {
      hide Represents, GoodPage, KeysDiffer, Items, ValidPage, PairsOn, PageOf, Depth, On, Pow2, Shallow, FirstFrom, NextHash,
           Top, Cmp, Successor;
      var h := hash(key);
      ghost var D := dir.Inner();
      DbmAccess(h);
      LeafInMemory(h);
      ghost var pages := View();
      var bitem := TopKeyBelow(key);
      if bitem != None {
        TopBelow(D, pages, hash, m, key, bitem.value);
        return bitem;
      }
      var h' := HashInc(h, Depth(D, h));
      if h' == 0 {
        NothingLeft(D, pages, hash, m, key, h', None);
        return None;
      }
      r := FirstHash(h');
      NothingLeft(D, pages, hash, m, key, h', r);
    }
  }

  lemma AllSet(h: nat, d: nat)
    requires forall i | 0 <= i < d :: Bit(h, i)
    ensures NextHash(h, d, 0)
  {
  }

  lemma FoundClear(h: nat, d: nat, j: nat, h': nat)
    requires ClearAt(h, d, j) && h' == Low(h, j) + Pow2(j)
    ensures NextHash(h, d, h')
  {
  }

  lemma NoTop(p: seq<Pair>)
    requires Top(p, None, None)
    ensures p == []
  {
    if p != [] {
      assert Below(p[0].0, None);
    }
  }

  /** One more item is looked at. */
  lemma TopStep(p: seq<Pair>, i: nat, below: Option<Datum>, y: Datum, x: Datum)
    requires i < |p| && p[i].0 == x && Top(p[..i], below, Some(y)) && Below(x, below)
    ensures Top(p[..i + 1], below, Some(if Cmp(y, x) < 0 then x else y))
  {
    var t := p[..i + 1];
    CmpIsOrder(y, x);
    var k :| 0 <= k < i && p[..i][k].0 == y;
    assert t[k].0 == y && t[i].0 == x;
    forall j | 0 <= j < i && Below(t[j].0, below)
      ensures Cmp(y, x) < 0 ==> t[j].0 == x || Cmp(x, t[j].0) > 0
      ensures t[j].0 == y || Cmp(y, t[j].0) > 0
    {
      assert t[j] == p[..i][j];
      CmpIsOrder(y, t[j].0);
      CmpIsOrder(x, t[j].0);
      if Cmp(y, x) < 0 && t[j].0 != y {
        CmpChains(t[j].0, y, x);
      }
    }
  }

  lemma EmptyIsShallow()
    ensures Shallow({})
  {
    forall h: nat
      ensures Depth({}, h) <= HASHBITS
    {
      DepthIs({}, h, 0);
    }
  }

  lemma ShallowHere(D: set<nat>, h: nat)
    requires Shallow(D)
    ensures Depth(D, h) <= HASHBITS
  {
  }

  lemma FitsIsNotTooBig(hash: Datum -> nat, m: Map, key: Datum, dat: Datum)
    ensures FitsPage(hash, m, key, dat) ==> |key| + |dat| + 4 < PBLKSIZ
  {
  }

  lemma FirstPower()
    ensures Pow2(0) == 1
  {
  }

  lemma NextPower(d: nat)
    requires d > 0
    ensures Pow2(d) == 2 * Pow2(d - 1)
  {
  }

  lemma LeafIsGood(D: set<nat>, pages: Pages, hash: Datum -> nat, m: Map, h: nat)
    requires Represents(D, pages, hash, m)
    ensures var s := PageBytes(pages, PageOf(D, h));
            && |s| == PBLKSIZ && HasTable(s) && GoodPage(s) && ValidPage(s) && Paired(Items(s))
            && At(D, pages, h) == PairsOn(s) == Pairs(Items(s))
  {
    assert GoodPage(PageBytes(pages, PageOf(D, h)));
  }

  lemma LeafHasKey(D: set<nat>, pages: Pages, hash: Datum -> nat, m: Map, key: Datum)
    requires Represents(D, pages, hash, m)
    ensures key in m ==> (key, m[key]) in At(D, pages, hash(key))
    ensures forall x: Pair | x in At(D, pages, hash(key)) && x.0 == key :: key in m && m[key] == x.1
  {
    if key in m {
      assert In((key, m[key]), m);
    }
    forall x: Pair | x in At(D, pages, hash(key)) && x.0 == key
      ensures key in m && m[key] == x.1
    {
      assert In(x, m);
    }
  }

  lemma JustWritten(pages: Pages, p: nat, s: seq<byte>)
    ensures PageBytes(pages[p := s], p) == s
  {
  }

  lemma SamePairs(D: set<nat>, pages: Pages, hash: Datum -> nat, m: Map, h: nat, s: seq<byte>)
    requires Represents(D, pages, hash, m) && GoodPage(s) && PairsOn(s) == At(D, pages, h)
    ensures Represents(D, pages[PageOf(D, h) := s], hash, m)
  {
    hide GoodPage, PairsOn, Closed, PageOf;
    forall x: Pair
      ensures In(x, m) <==> if PageOf(D, hash(x.0)) == PageOf(D, h) then x in PairsOn(s) else In(x, m)
    {
      assert In(x, m) <==> x in At(D, pages, hash(x.0));
    }
    PageChanged(D, pages, hash, m, m, h, s);
  }

  lemma GoodIsValid(s: seq<byte>)
    requires GoodPage(s)
    ensures ValidPage(s) && Paired(Items(s)) && PairsOn(s) == Pairs(Items(s))
  {
  }

  lemma LeafGoesDown(D: set<nat>, pages: Pages, hash: Datum -> nat, m: Map, h: nat)
    requires Represents(D, pages, hash, m) && Shallow(D) && Depth(D, h) < HASHBITS
    ensures Depth(D + {On(h, Depth(D, h))}, h) == Depth(D, h) + 1 && Shallow(D + {On(h, Depth(D, h))})
  {
    Split(D, h, h);
    SplitStaysShallow(D, h);
  }

  /** The mask of all the bits a hash has. */
  function DeepestMask(): nat { 0x7fff_ffff }

  lemma DeepestPower()
    ensures Pow2(30) == 0x4000_0000 && Pow2(31) == 0x8000_0000
  {
    Pow2Values();
    assert Pow2(20) == 0x10_0000;
    assert Pow2(25) == 0x200_0000;
  }

  lemma AtHashBits(d: nat, mask: nat)
    requires mask + 1 == Pow2(d)
    ensures mask >= DeepestMask() <==> d >= HASHBITS
  {
    DeepestPower();
    if d < HASHBITS {
      Pow2Mono(d, 30);
    } else {
      Pow2Mono(HASHBITS, d);
    }
  }

  /** firstkey() followed by nextkey() until null, with no update in between: every stored
      key once. */
  method Traverse(db: Database) returns (keys: seq<Datum>)
    requires db.Valid()
    modifies db`oldb, db`blkno, db`bitno, db`hmask, db`seen, db.pagbuf, db.dir`oldb, db.dir.dirbuf
    ensures db.Valid() && |keys| == |db.m| && forall x :: x in keys <==> x in db.m
  {
    hide FirstFrom, Successor, After, Represents;
    ghost var D, hash, all := db.dir.Inner(), db.hash, db.m.Keys;
    ghost var left: set<Datum> := all;
    keys := [];
    var key := db.FirstKey();
    StartOfAll(D, hash, all, key);
    while key != None
      invariant db.Valid() && db.dir.Inner() == D && db.m.Keys == all
      invariant left <= all && |keys| + |left| == |all|
      invariant forall x :: x in keys <==> x in all - left
      invariant Ahead(D, hash, all, left, key)
      decreases |left|
    {
      StepAhead(D, hash, all, left, key.value);
      keys := keys + [key.value];
      left := left - {key.value};
      var next := db.NextKey(key.value);
      NextAhead(D, hash, all, left, key.value, next);
      key := next;
    }
    NoneAhead(D, hash, all, left);
  }

  /** What is left is the key at hand and all after it. */
  ghost predicate Ahead(D: set<nat>, hash: Datum -> nat, all: set<Datum>, left: set<Datum>, key: Option<Datum>) {
    match key
    case None => left == {}
    case Some(y) => y in left && left == set x | x in all && (x == y || After(D, hash, x, y))
  }

  lemma StartOfAll(D: set<nat>, hash: Datum -> nat, all: set<Datum>, key: Option<Datum>)
    requires FirstFrom(D, hash, all, 0, key)
    ensures Ahead(D, hash, all, all, key)
  {
    forall x | x in all
      ensures AtOrAfter(D, hash, x, 0)
    {
      AllFromZero(D, hash, x);
    }
  }

  lemma StepAhead(D: set<nat>, hash: Datum -> nat, all: set<Datum>, left: set<Datum>, y: Datum)
    requires Ahead(D, hash, all, left, Some(y))
    ensures y in left && !After(D, hash, y, y)
  {
    CmpIsOrder(y, y);
  }

  lemma NextAhead(D: set<nat>, hash: Datum -> nat, all: set<Datum>, left: set<Datum>, y: Datum, next: Option<Datum>)
    requires Ahead(D, hash, all, left + {y}, Some(y)) && y !in left && !After(D, hash, y, y)
    requires Successor(D, hash, all, y, next)
    ensures Ahead(D, hash, all, left, next)
  {
    assert left == set x | x in all && After(D, hash, x, y);
  }

  lemma NoneAhead(D: set<nat>, hash: Datum -> nat, all: set<Datum>, left: set<Datum>)
    requires Ahead(D, hash, all, left, None)
    ensures left == {}
  {
  }

  // ----- a pair refused as too big

  /** All keys on one leaf. */
  function OneHash(x: Datum): nat { 0 }

  /** A key whose new content is refused is gone for fetch(), and after the next write of its page
      it is gone for good. */
  method LostPair(key: Datum, other: Datum, huge: Datum) returns (refused: Outcome, found: Option<Datum>, db: Database)
    requires |key| < 100 && |other| < 100 && |huge| > 600 && key != other
    ensures refused == TooBig && found == None
    ensures db.Valid() && db.m == map[other := []]
  {
    hide Represents, PageOf, Depth, FitsPage, Group;
    db := new Database(OneHash);
    EmptyFits(OneHash, key, []);
    ghost var none: Map := map[];
    assert none - {key} == none && none - {other} == none;
    var r := db.Store(key, []);
    refused := db.Store(key, huge);
    OneLess(key, []);
    found := db.Fetch(key);
    EmptyFits(OneHash, other, []);
    SameHash(db.dir.Inner(), key, other);
    r := db.Store(other, []);
  }

  lemma SameHash(D: set<nat>, key: Datum, other: Datum)
    ensures PageOf(D, OneHash(key)) == PageOf(D, OneHash(other))
  {
  }

  lemma OneLess(key: Datum, dat: Datum)
    ensures map[key := dat] - {key} == map[]
  {
  }

  lemma EmptyFits(hash: Datum -> nat, key: Datum, dat: Datum)
    requires |key| + |dat| < 506
    ensures FitsPage(hash, map[], key, dat)
  {
    assert Group(hash, map[], key, HASHBITS) == {};
    AloneFits(hash, map[], key, dat);
  }

  /** A pair of 506 bytes, put into an empty database. */
  method UnfitPair(key: Datum, dat: Datum, hash: Datum -> nat) returns (r: Outcome)
    requires |key| + |dat| == 506
    ensures r == OutOfBits
  {
    hide Represents, PageOf, Depth, FitsPage, Group;
    var db := new Database(hash);
    ghost var none: Map := map[];
    NeverFits(hash, none - {key}, key, dat);
    r := db.Store(key, dat);
  }
}
