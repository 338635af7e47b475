/** What fetch(), store() and delete() of dbm.c do to one page in memory. */
module DbmLeaf {
  import opened Bits
  import opened Options
  import opened DbmPage
  import opened DbmPairs
  import opened DbmTrie

  /** A page as store() leaves it: pairs, no key twice, room for one more word. */
  ghost predicate GoodPage(s: seq<byte>) {
    ValidPage(s) && Paired(Items(s)) && KeysDiffer(Pairs(Items(s))) && Size(Items(s)) < PBLKSIZ
  }

  ghost function PairsOn(s: seq<byte>): seq<Pair> {
    if ValidPage(s) then Pairs(Items(s)) else []
  }

  /** The position of the key among the pairs, or -1. */
  method FindKey(buf: array<byte>, key: Datum) returns (n: int)
    requires GoodPage(buf[..])
    ensures -1 <= n < |PairsOn(buf[..])|
    ensures n >= 0 ==> PairsOn(buf[..])[n].0 == key
    ensures n == -1 ==> forall i | 0 <= i < |PairsOn(buf[..])| :: PairsOn(buf[..])[i].0 != key
  {
    hide Items, ValidPage, Used, Cmp;
    ghost var items := Items(buf[..]);
    var i := 0;
    while true
      invariant 0 <= i <= |items| && i % 2 == 0
      invariant forall j | 0 <= j < i / 2 :: PairsOn(buf[..])[j].0 != key
      decreases |items| - i
    {
      var item := MakDatum(buf, i);
      if item == None {
        return -1;
      }
      var c := CmpDatum(key, item.value);
      CmpIsOrder(key, item.value);
      assert PairsOn(buf[..])[i / 2].0 == items[i];
      if c == 0 {
        return i / 2;
      }
      i := i + 2;
    }
  }

  ghost function Dropped(p: seq<Pair>, n: nat): seq<Pair>
    requires n < |p|
  {
    p[..n] + p[n + 1..]
  }

  lemma DroppedKeysDiffer(p: seq<Pair>, n: nat)
    requires KeysDiffer(p) && n < |p|
    ensures KeysDiffer(Dropped(p, n))
  {
  }

  lemma SmallerPage(items: seq<Datum>, n: nat)
    requires n < |items|
    ensures Size(items[..n] + items[n + 1..]) < Size(items)
  {
    UsedWithout(items, n);
  }

  method RemovePair(buf: array<byte>, n: nat)
    requires GoodPage(buf[..]) && n < |PairsOn(buf[..])|
    modifies buf
    ensures GoodPage(buf[..]) && PairsOn(buf[..]) == Dropped(old(PairsOn(buf[..])), n)
  {
    hide Items, ValidPage, Used, Pairs;
    ghost var items := Items(buf[..]);
    DelItem(buf, 2 * n);
    ghost var once := Items(buf[..]);
    DelItem(buf, 2 * n);
    PairDropped(items, n);
    SmallerPage(items, 2 * n);
    SmallerPage(once, 2 * n);
    DroppedKeysDiffer(Pairs(items), n);
  }

  /** There is room for a pair. */
  ghost predicate PairFits(items: seq<Datum>, key: Datum, dat: Datum) {
    Size(items) + |key| + |dat| + 4 < PBLKSIZ
  }

  lemma PairFitsInSteps(items: seq<Datum>, key: Datum, dat: Datum)
    ensures PairFits(items, key, dat) <==> Fits(items, key) && Fits(items + [key], dat)
    ensures Size(items + [key] + [dat]) == Size(items) + |key| + |dat| + 4
    ensures (items + [key])[..|items|] + (items + [key])[|items| + 1..] == items
  {
    UsedAppend(items, key);
    UsedAppend(items + [key], dat);
    assert (items + [key])[..|items|] == items && (items + [key])[|items| + 1..] == [];
  }

  lemma UsedAppend(items: seq<Datum>, x: Datum)
    ensures Used(items + [x]) == Used(items) + |x|
  {
    assert (items + [x])[..|items|] == items;
  }

  lemma KeyAdded(p: seq<Pair>, key: Datum, dat: Datum)
    requires KeysDiffer(p) && forall i | 0 <= i < |p| :: p[i].0 != key
    ensures KeysDiffer(p + [(key, dat)])
  {
  }

  /** The two calls of additem() in store(). */
  method AddPair(buf: array<byte>, key: Datum, dat: Datum) returns (ok: bool)
    requires GoodPage(buf[..]) && forall i | 0 <= i < |PairsOn(buf[..])| :: PairsOn(buf[..])[i].0 != key
    modifies buf
    ensures GoodPage(buf[..]) && ok == old(PairFits(Items(buf[..]), key, dat))
    ensures ok ==> PairsOn(buf[..]) == old(PairsOn(buf[..])) + [(key, dat)]
    ensures !ok ==> PairsOn(buf[..]) == old(PairsOn(buf[..]))
  {
    hide Items, ValidPage, Used, Pairs;
    ghost var items := Items(buf[..]);
    KeyAdded(PairsOn(buf[..]), key, dat);
    PairFitsInSteps(items, key, dat);
    PairAdded(items, key, dat);
    var i := AddItem(buf, key);
    if i < 0 {
      return false;
    }
    var j := AddItem(buf, dat);
    if j < 0 {
      DelItem(buf, i);
      return false;
    }
    return true;
  }

  // ----- splitting

  /** The pairs whose key has the given value of bit d of its hash. */
  ghost function Half(p: seq<Pair>, hash: Datum -> nat, d: nat, b: bool): seq<Pair> {
    if p == [] then []
    else
      var last := p[|p| - 1];
      Half(p[..|p| - 1], hash, d, b) + if Bit(hash(last.0), d) == b then [last] else []
  }

  lemma {:induction false} HalfHas(p: seq<Pair>, hash: Datum -> nat, d: nat, b: bool, x: Pair)
    ensures x in Half(p, hash, d, b) <==> x in p && Bit(hash(x.0), d) == b
  {
    if p != [] {
      var q := p[..|p| - 1];
      assert p == q + [p[|p| - 1]];
      HalfHas(q, hash, d, b, x);
    }
  }

  lemma {:induction false} HalfKeysDiffer(p: seq<Pair>, hash: Datum -> nat, d: nat, b: bool)
    requires KeysDiffer(p)
    ensures KeysDiffer(Half(p, hash, d, b))
  {
    if p != [] {
      var q := p[..|p| - 1];
      HalfKeysDiffer(q, hash, d, b);
      forall i | 0 <= i < |Half(q, hash, d, b)|
        ensures Half(q, hash, d, b)[i].0 != p[|p| - 1].0
      {
        HalfHas(q, hash, d, b, Half(q, hash, d, b)[i]);
      }
    }
  }

  /** The state of the splitting loop: of the pairs done, one half is kept, the other has
      gone to the new page; the pairs from number i on are still to be looked at. */
  ghost predicate Splitting(p: seq<Pair>, done: nat, kept: seq<Pair>, ovf: seq<Pair>, hash: Datum -> nat, d: nat) {
    && done <= |p|
    && kept == Half(p[..done], hash, d, false) + p[done..]
    && ovf == Half(p[..done], hash, d, true)
  }

  lemma StillToCome(p: seq<Pair>, done: nat, kept: seq<Pair>, ovf: seq<Pair>, hash: Datum -> nat, d: nat)
    requires Splitting(p, done, kept, ovf, hash, d)
    ensures |kept| - |Half(p[..done], hash, d, false)| == |p| - done
  {
  }

  lemma SplitStep(p: seq<Pair>, done: nat, kept: seq<Pair>, ovf: seq<Pair>, hash: Datum -> nat, d: nat)
    requires Splitting(p, done, kept, ovf, hash, d) && done < |p|
    ensures var i := |Half(p[..done], hash, d, false)|;
            && i < |kept| && kept[i] == p[done]
            && (Bit(hash(p[done].0), d) ==> Splitting(p, done + 1, Dropped(kept, i), ovf + [p[done]], hash, d))
            && (!Bit(hash(p[done].0), d) ==> Splitting(p, done + 1, kept, ovf, hash, d))
            && |Half(p[..done + 1], hash, d, false)| == if Bit(hash(p[done].0), d) then i else i + 1
  {
    assert p[..done + 1][..done] == p[..done];
    assert p[done..] == [p[done]] + p[done + 1..];
  }

  /** What both pages hold together takes no more room than the old page had. */
  ghost predicate RoomLeft(kept: seq<Datum>, ovf: seq<Datum>) {
    Used(kept) + Used(ovf) + 2 * (|kept| + |ovf| + 1) < PBLKSIZ
  }

  lemma RoomToMove(kept: seq<Datum>, ovf: seq<Datum>, n: nat)
    requires RoomLeft(kept, ovf) && n < |kept|
    ensures Fits(ovf, kept[n]) && RoomLeft(kept[..n] + kept[n + 1..], ovf + [kept[n]])
  {
    UsedWithout(kept, n);
    UsedAppend(ovf, kept[n]);
  }

  lemma RoomAtFirst(items: seq<Datum>)
    requires Size(items) < PBLKSIZ
    ensures RoomLeft(items, [])
  {
  }

  lemma RoomAtLast(kept: seq<Datum>, ovf: seq<Datum>)
    requires RoomLeft(kept, ovf)
    ensures Size(kept) < PBLKSIZ && Size(ovf) < PBLKSIZ
  {
  }

  /** One item of the pair at position n goes from one page to the other. */
  method MoveItem(buf: array<byte>, ovf: array<byte>, n: nat)
    requires buf != ovf && ValidPage(buf[..]) && ValidPage(ovf[..]) && n < |Items(buf[..])|
    requires RoomLeft(Items(buf[..]), Items(ovf[..]))
    modifies buf, ovf
    ensures ValidPage(buf[..]) && ValidPage(ovf[..]) && RoomLeft(Items(buf[..]), Items(ovf[..]))
    ensures Items(buf[..]) == old(Items(buf[..]))[..n] + old(Items(buf[..]))[n + 1..]
    ensures Items(ovf[..]) == old(Items(ovf[..])) + [old(Items(buf[..]))[n]]
  {
    hide Items, ValidPage, Used;
    RoomToMove(Items(buf[..]), Items(ovf[..]), n);
    var item := MakDatum(buf, n);
    var _ := AddItem(ovf, item.value);
    DelItem(buf, n);
  }

  /** A pair goes from one page to the other. */
  method MovePair(buf: array<byte>, ovf: array<byte>, n: nat)
    requires buf != ovf && ValidPage(buf[..]) && ValidPage(ovf[..]) && 2 * n < |Items(buf[..])|
    requires Paired(Items(buf[..])) && Paired(Items(ovf[..])) && RoomLeft(Items(buf[..]), Items(ovf[..]))
    modifies buf, ovf
    ensures ValidPage(buf[..]) && ValidPage(ovf[..])
    ensures Paired(Items(buf[..])) && Paired(Items(ovf[..])) && RoomLeft(Items(buf[..]), Items(ovf[..]))
    ensures Pairs(Items(buf[..])) == Dropped(old(Pairs(Items(buf[..]))), n)
    ensures Pairs(Items(ovf[..])) == old(Pairs(Items(ovf[..]))) + [old(Pairs(Items(buf[..]))[n])]
  {
    hide Items, ValidPage, Used, RoomLeft;
    ghost var kept, moved := Items(buf[..]), Items(ovf[..]);
    MoveItem(buf, ovf, 2 * n);
    MoveItem(buf, ovf, 2 * n);
    PairDropped(kept, n);
    PairAdded(moved, kept[2 * n], kept[2 * n + 1]);
  }

  /** The loop of store() that splits a page by the next bit of the hashes. */
  method SplitPage(buf: array<byte>, ovf: array<byte>, hash: Datum -> nat, hmask: nat, ghost d: nat)
    requires buf != ovf && GoodPage(buf[..]) && ValidPage(ovf[..]) && Items(ovf[..]) == [] && hmask + 1 == Pow2(d)
    modifies buf, ovf
    ensures GoodPage(buf[..]) && PairsOn(buf[..]) == Half(old(PairsOn(buf[..])), hash, d, false)
    ensures GoodPage(ovf[..]) && PairsOn(ovf[..]) == Half(old(PairsOn(buf[..])), hash, d, true)
  {
    hide HasTable, Table, Items, ValidPage, Used, Half, Splitting, RoomLeft, Size, And, Pow2, Bit, KeysDiffer,
         Dropped, Pairs;
    ghost var p := PairsOn(buf[..]);
    ghost var done := 0;
    SplitBegins(p, hash, d);
    RoomAtFirst(Items(buf[..]));
    assert Pairs(Items(ovf[..])) == [];
    var i := 0;
    while true
      invariant ValidPage(buf[..]) && ValidPage(ovf[..]) && RoomLeft(Items(buf[..]), Items(ovf[..]))
      invariant Paired(Items(buf[..])) && Paired(Items(ovf[..]))
      invariant done <= |p| && Splitting(p, done, Pairs(Items(buf[..])), Pairs(Items(ovf[..])), hash, d)
      invariant i == 2 * |Half(p[..done], hash, d, false)|
      decreases |p| - done
    {
      var item := MakDatum(buf, i);
      if item == None {
        break;
      }
      ghost var kept, moved := Pairs(Items(buf[..])), Pairs(Items(ovf[..]));
      StillToCome(p, done, kept, moved, hash, d);
      SplitStep(p, done, kept, moved, hash, d);
      assert kept[i / 2] == p[done];
      AndPower(hash(item.value), d);
      if And(hash(item.value), hmask + 1) != 0 {
        MovePair(buf, ovf, i / 2);
        assert Pairs(Items(buf[..])) == Dropped(kept, i / 2) && Pairs(Items(ovf[..])) == moved + [p[done]];
      } else {
        i := i + 2;
      }
      done := done + 1;
    }
    RoomAtLast(Items(buf[..]), Items(ovf[..]));
    SplitEnds(p, done, Pairs(Items(buf[..])), Pairs(Items(ovf[..])), hash, d);
  }

  lemma SplitBegins(p: seq<Pair>, hash: Datum -> nat, d: nat)
    ensures Splitting(p, 0, p, [], hash, d) && Half(p[..0], hash, d, false) == []
  {
  }

  lemma SplitEnds(p: seq<Pair>, done: nat, kept: seq<Pair>, ovf: seq<Pair>, hash: Datum -> nat, d: nat)
    requires KeysDiffer(p) && Splitting(p, done, kept, ovf, hash, d)
    requires |kept| <= |Half(p[..done], hash, d, false)|
    ensures kept == Half(p, hash, d, false) && ovf == Half(p, hash, d, true) && KeysDiffer(kept) && KeysDiffer(ovf)
  {
    assert p[..done] == p;
    HalfKeysDiffer(p, hash, d, false);
    HalfKeysDiffer(p, hash, d, true);
  }
}
