/** The table of duplicates of fsck.c: beside the bit map it counts the claims on every block. */
module FsckDup {
  import opened FsckMap
  import opened FsckClaims
  import opened Sequences

  const MAXBAD := 10
  const MAXDUP := 10
  const DUPTBLSIZE := 100

  datatype State = USTATE | FSTATE | DSTATE | CLEAR

  datatype Answer = KEEPON | SKIP | STOP

  function ToSet(s: seq<int>): set<int> { set x | x in s }

  // ----- what the tables say

  /** Bit and table together count the claims; d is duplist up to enddup. */
  ghost predicate Accounts(v: Volume, claims: multiset<int>, blocks: set<nat>, d: seq<int>) {
    && (forall b | b in d :: InRange(v, b) && b in blocks)
    && (forall b | b in blocks :: InRange(v, b))
    && forall b :: claims[b] == (if b in blocks then 1 else 0) + multiset(d)[b]
  }

  /** The front part of the table has each multiply claimed block once. */
  ghost predicate Fronted(d: seq<int>, mul: nat) {
    mul <= |d| && NoneTwice(d[..mul]) && forall b | b in d :: b in d[..mul]
  }

  /** The first claim on a block sets its bit. */
  lemma FirstClaim(v: Volume, claims: multiset<int>, blocks: set<nat>, d: seq<int>, blk: nat)
    requires Accounts(v, claims, blocks, d) && blk !in blocks && InRange(v, blk)
    ensures Accounts(v, claims + multiset{blk}, blocks + {blk}, d) && blk !in claims
  {
  }

  ghost predicate OneMore(d: seq<int>, d': seq<int>, blk: int) {
    multiset(d') == multiset(d) + multiset{blk}
  }

  ghost predicate OneLess(d: seq<int>, d': seq<int>, blk: int) {
    multiset(d') == multiset(d) - multiset{blk}
  }

  ghost predicate Rearranged(d: seq<int>, d': seq<int>) {
    multiset(d') == multiset(d)
  }

  /** One more entry in the table. */
  lemma OneMoreDup(v: Volume, claims: multiset<int>, blocks: set<nat>, d: seq<int>, d': seq<int>, blk: nat)
    requires Accounts(v, claims, blocks, d) && blk in blocks && OneMore(d, d', blk)
    ensures Accounts(v, claims + multiset{blk}, blocks, d') && blk in claims
  {
    forall b | b in d'
      ensures b in d || b == blk
    {
      assert b in multiset(d');
    }
  }

  /** A block with its bit set has been claimed. */
  lemma BitSaysClaimed(v: Volume, claims: multiset<int>, blocks: set<nat>, d: seq<int>, blk: nat)
    requires Accounts(v, claims, blocks, d) && blk in blocks
    ensures blk in claims
  {
    assert claims[blk] >= 1;
  }

  lemma Fewer(v: Volume, claims: multiset<int>, blocks: set<nat>, d: seq<int>, d': seq<int>, blk: nat)
    requires Accounts(v, claims, blocks, d) && blk in d && OneLess(d, d', blk)
    ensures Accounts(v, claims - multiset{blk}, blocks, d')
  {
    forall b | b in d'
      ensures b in d
    {
      assert b in multiset(d');
    }
  }

  lemma LastClaim(v: Volume, claims: multiset<int>, blocks: set<nat>, d: seq<int>, blk: nat)
    requires Accounts(v, claims, blocks, d) && blk in blocks && blk !in d
    ensures Accounts(v, claims - multiset{blk}, blocks - {blk}, d)
  {
    forall b | b in blocks - {blk}
      ensures InRange(v, b)
    {
    }
  }

  lemma NoClaim(v: Volume, claims: multiset<int>, blocks: set<nat>, d: seq<int>, blk: int)
    requires Accounts(v, claims, blocks, d) && (blk >= 0 ==> blk !in blocks)
    ensures claims - multiset{blk} == claims
  {
    assert blk !in d;
    assert claims[blk] == 0;
  }

  // ----- the table itself

  /** A table with one more claim on blk counted. */
  ghost predicate Added(d: seq<int>, mul: nat, blk: int, d': seq<int>, mul': nat) {
    && mul <= |d| && Fronted(d', mul') && OneMore(d, d', blk)
    && ToSet(d'[..mul']) == ToSet(d[..mul]) + {blk}
  }

  /** A new block goes to the end of the front part; what was there goes to the end. */
  lemma PutInFront(d: seq<int>, mul: nat, blk: int, d': seq<int>)
    requires Fronted(d, mul) && blk !in d[..mul]
    requires d' == (d + [if mul < |d| then d[mul] else blk])[mul := blk]
    ensures Added(d, mul, blk, d', mul + 1)
  {
    PutBetween(d, mul, blk, d');
    forall b | b in d'
      ensures b in d'[..mul + 1]
    {
      assert b in multiset(d');
    }
  }

  lemma PutBetween(d: seq<int>, mul: nat, blk: int, d': seq<int>)
    requires mul <= |d| && d' == (d + [if mul < |d| then d[mul] else blk])[mul := blk]
    ensures OneMore(d, d', blk) && d'[..mul + 1] == d[..mul] + [blk]
  {
    if mul < |d| {
      var x := d[mul];
      assert d == d[..mul] + [x] + d[mul + 1..];
      assert d' == d[..mul] + [blk] + d[mul + 1..] + [x];
    } else {
      assert d' == d + [blk];
    }
  }

  lemma PutAtEnd(d: seq<int>, mul: nat, blk: int)
    requires Fronted(d, mul) && blk in d[..mul]
    ensures Added(d, mul, blk, d + [blk], mul)
  {
    assert (d + [blk])[..mul] == d[..mul];
  }

  /** A table after pass1b() has come upon blk. */
  ghost predicate PassedOver(d: seq<int>, mul: nat, blk: int, d': seq<int>, mul': nat) {
    && mul <= |d| && Rearranged(d, d') && mul' <= |d'| && NoneTwice(d'[..mul'])
    && ToSet(d'[..mul']) == ToSet(d[..mul]) - {blk}
  }

  lemma ExchangeTwo(d: seq<int>, i: nat, j: nat)
    requires i < |d| && j < |d|
    ensures Rearranged(d, d[i := d[j]][j := d[i]])
  {
  }

  /** pass1b() moves a block found out of the front part. */
  lemma OutOfFront(d: seq<int>, mul: nat, i: nat, d': seq<int>)
    requires 0 < mul <= |d| && i < mul && NoneTwice(d[..mul]) && d' == d[i := d[mul - 1]][mul - 1 := d[i]]
    ensures PassedOver(d, mul, d[i], d', mul - 1)
  {
    hide Rearranged;
    assert Rearranged(d, d') by {
      ExchangeTwo(d, i, mul - 1);
    }
    assert forall j | 0 <= j < mul - 1 :: d'[..mul - 1][j] == if j == i then d[..mul][mul - 1] else d[..mul][j];
    forall b | b in d[..mul] && b != d[i]
      ensures b in d'[..mul - 1]
    {
      var j :| 0 <= j < mul && d[..mul][j] == b;
      assert d'[..mul - 1][if j == mul - 1 then i else j] == b;
    }
  }

  lemma NotInFront(d: seq<int>, mul: nat, blk: int)
    requires mul <= |d| && NoneTwice(d[..mul]) && blk !in d[..mul]
    ensures PassedOver(d, mul, blk, d, mul) && blk !in ToSet(d[..mul])
  {
  }

  /** pass4() takes a block out of the table. */
  lemma OutOfTable(d: seq<int>, i: nat, d': seq<int>)
    requires i < |d| && d' == d[i := d[|d| - 1]][..|d| - 1]
    ensures OneLess(d, d', d[i])
  {
    var n := |d| - 1;
    ExchangeTwo(d, i, n);
    assert d[i := d[n]][n := d[i]] == d' + [d[i]];
  }

  /** duplist, enddup and muldup. */
  class DupTable {
    const duplist: array<int>
    var enddup: nat
    var muldup: nat

    constructor ()
      ensures Valid() && Entries() == [] && muldup == 0 && Fronted(Entries(), muldup) && fresh(duplist)
    {
      duplist := new int[DUPTBLSIZE];
      enddup, muldup := 0, 0;
    }

    predicate Valid()
      reads this
    {
      duplist.Length == DUPTBLSIZE && enddup <= DUPTBLSIZE && muldup <= DUPTBLSIZE
    }

    ghost function Entries(): seq<int>
      requires Valid()
      reads this, duplist
    {
      duplist[..enddup]
    }

    /** The blocks of the front part. */
    ghost function Multiple(): set<int>
      requires Valid() && muldup <= enddup
      reads this, duplist
    {
      ToSet(Entries()[..muldup])
    }

    method Find(blk: int, end: nat) returns (i: nat)
      requires end <= duplist.Length
      ensures i <= end && (i < end ==> duplist[i] == blk) && (i == end ==> blk !in duplist[..end])
    {
      i := 0;
      while i < end
        invariant i <= end && blk !in duplist[..i]
      {
        if duplist[i] == blk {
          return;
        }
        i := i + 1;
      }
    }

    /** What pass1() does with a block claimed before. */
    method Add(blk: int)
      requires Valid() && Fronted(Entries(), muldup) && enddup < DUPTBLSIZE
      modifies this, duplist
      ensures Valid() && enddup == old(enddup) + 1
      ensures Added(old(Entries()), old(muldup), blk, Entries(), muldup)
    {
      hide Fronted, Added;
      FrontWithin(Entries(), muldup);
      ghost var d := duplist[..enddup];
      assert d[..muldup] == duplist[..muldup];
      var dlp := Find(blk, muldup);
      if dlp < muldup {
        duplist[enddup] := blk;
        enddup := enddup + 1;
        assert duplist[..enddup] == d + [blk];
        PutAtEnd(d, muldup, blk);
      } else {
        duplist[enddup] := duplist[muldup];
        enddup := enddup + 1;
        duplist[muldup] := blk;
        muldup := muldup + 1;
        PutInFront(d, muldup - 1, blk, duplist[..enddup]);
      }
    }

    /** What pass1b() does: a block of the front part leaves it. */
    method PassOver(blk: int) returns (found: bool)
      requires Valid() && muldup <= enddup && NoneTwice(Entries()[..muldup])
      modifies this`muldup, duplist
      ensures Valid() && PassedOver(old(Entries()), old(muldup), blk, Entries(), muldup)
      ensures found == (blk in old(Multiple()))
    {
      hide NoneTwice, PassedOver, ToSet;
      ghost var d := duplist[..enddup];
      assert d[..muldup] == duplist[..muldup];
      var dlp := Find(blk, muldup);
      if dlp == muldup {
        NotInFront(d, muldup, blk);
        return false;
      }
      InSet(d[..muldup], dlp);
      muldup := muldup - 1;
      duplist[dlp] := duplist[muldup];
      duplist[muldup] := blk;
      OutOfFront(d, muldup + 1, dlp, duplist[..enddup]);
      return true;
    }

    /** What pass4() does: one entry for the block goes. */
    method Remove(blk: int) returns (found: bool)
      requires Valid()
      modifies this`enddup, duplist
      ensures Valid() && found == (blk in old(Entries()))
      ensures if found then OneLess(old(Entries()), Entries(), blk) else Entries() == old(Entries())
    {
      hide OneLess;
      ghost var d := duplist[..enddup];
      var dlp := Find(blk, enddup);
      if dlp == enddup {
        return false;
      }
      enddup := enddup - 1;
      duplist[dlp] := duplist[enddup];
      assert duplist[..enddup] == d[dlp := d[|d| - 1]][..|d| - 1];
      OutOfTable(d, dlp, duplist[..enddup]);
      return true;
    }
  }

  lemma InSet(s: seq<int>, i: nat)
    requires i < |s|
    ensures s[i] in ToSet(s)
  {
  }

  lemma FrontWithin(d: seq<int>, mul: nat)
    requires Fronted(d, mul)
    ensures mul <= |d|
  {
  }
}
