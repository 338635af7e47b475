/** Which blocks an inode of fsck.c claims, and what counting the claims amounts to. */
module FsckClaims {

  const NINDIR := 128
  const NADDR := 13

  /** An inode as far as ckinode() looks at it; special files have no blocks. */
  datatype Inode = Inode(alloc: bool, known: bool, special: bool, dir: bool, addr: seq<int>)

  /** A volume: the first data block, the first invalid block, the inodes from number 1 on,
      and the indirect blocks. */
  datatype Volume = Volume(fmin: nat, fmax: nat, inodes: seq<Inode>, block: int -> seq<int>)

  ghost predicate Formed(v: Volume) {
    && v.fmin < v.fmax && (forall b :: |v.block(b)| == NINDIR)
    && (forall i | 0 <= i < |v.inodes| :: |v.inodes[i].addr| == NADDR)
  }

  predicate InRange(v: Volume, blk: int) {
    v.fmin <= blk < v.fmax
  }

  // ----- the order in which ckinode() and iblock() come upon the blocks

  function EntryVisits(v: Volume, entries: seq<int>, level: nat): seq<int>
    decreases level, |entries|
  {
    if entries == [] then []
    else
      var last := entries[|entries| - 1];
      EntryVisits(v, entries[..|entries| - 1], level) +
      if last == 0 then [] else if level > 0 then BlockVisits(v, last, level) else [last]
  }

  /** The indirect block itself and, if it can be read, what it points to. */
  function BlockVisits(v: Volume, blk: int, level: nat): seq<int>
    requires level > 0
    decreases level, 0
  {
    [blk] + if InRange(v, blk) then EntryVisits(v, v.block(blk), level - 1) else []
  }

  function IndirectVisits(v: Volume, blk: int, level: nat): seq<int>
    requires level > 0
  {
    if blk == 0 then [] else BlockVisits(v, blk, level)
  }

  /** The indirect addresses before level n. */
  function IndirectUpto(v: Volume, d: Inode, n: nat): seq<int>
    requires |d.addr| == NADDR && 1 <= n <= 4
  {
    if n == 1 then [] else IndirectUpto(v, d, n - 1) + IndirectVisits(v, d.addr[NADDR - 5 + n], n - 1)
  }

  function InodeVisits(v: Volume, d: Inode): seq<int>
    requires |d.addr| == NADDR
  {
    if d.special then [] else EntryVisits(v, d.addr[..NADDR - 3], 0) + IndirectUpto(v, d, 4)
  }

  /** The visits of inode number i; numbers start at 1. */
  function VisitsOf(v: Volume, i: nat): seq<int>
    requires Formed(v) && 1 <= i <= |v.inodes|
  {
    var d := v.inodes[i - 1];
    if d.alloc && d.known then InodeVisits(v, d) else []
  }

  // ----- counting

  /** How often each valid block is claimed. */
  function ClaimsIn(v: Volume, visits: seq<int>): multiset<int> {
    if visits == [] then multiset{}
    else
      var last := visits[|visits| - 1];
      ClaimsIn(v, visits[..|visits| - 1]) + if InRange(v, last) then multiset{last} else multiset{}
  }

  lemma {:induction false} ClaimsJoin(v: Volume, a: seq<int>, b: seq<int>)
    ensures ClaimsIn(v, a + b) == ClaimsIn(v, a) + ClaimsIn(v, b)
  {
    if b == [] {
      assert a + b == a;
    } else {
      assert (a + b)[..|a + b| - 1] == a + b[..|b| - 1];
      ClaimsJoin(v, a, b[..|b| - 1]);
    }
  }

  lemma {:induction false} Claimed(v: Volume, visits: seq<int>, blk: int)
    ensures blk in ClaimsIn(v, visits) <==> blk in visits && InRange(v, blk)
  {
    if visits != [] {
      var front := visits[..|visits| - 1];
      assert visits == front + [visits[|visits| - 1]];
      Claimed(v, front, blk);
    }
  }

  /** The claims of the inodes below number n. */
  function ClaimsBelow(v: Volume, n: nat): multiset<int>
    requires Formed(v) && n <= |v.inodes| + 1
  {
    if n <= 1 then multiset{} else ClaimsBelow(v, n - 1) + ClaimsIn(v, VisitsOf(v, n - 1))
  }

  function AllClaims(v: Volume): multiset<int>
    requires Formed(v)
  {
    ClaimsBelow(v, |v.inodes| + 1)
  }

  lemma {:induction false} ClaimsGrow(v: Volume, n: nat, m: nat, blk: int)
    requires Formed(v) && n <= m <= |v.inodes| + 1
    ensures ClaimsBelow(v, n)[blk] <= ClaimsBelow(v, m)[blk]
    decreases m
  {
    if n < m && m > 1 {
      ClaimsGrow(v, n, m - 1, blk);
    }
  }

  ghost predicate Claims(v: Volume, i: nat, blk: int)
    requires Formed(v) && 1 <= i <= |v.inodes|
  {
    blk in ClaimsIn(v, VisitsOf(v, i))
  }

  lemma {:induction false} SomeoneClaims(v: Volume, n: nat, blk: int)
    requires Formed(v) && n <= |v.inodes| + 1
    ensures blk in ClaimsBelow(v, n) <==> exists i: nat :: 1 <= i < n && Claims(v, i, blk)
  {
    hide ClaimsIn, VisitsOf, Formed;
    if n > 1 {
      SomeoneClaims(v, n - 1, blk);
      if Claims(v, n - 1, blk) {
        assert blk in ClaimsBelow(v, n);
      }
    }
  }

  // ----- the three passes, one block at a time

  datatype Pass = P1 | P1b | P4

  /** What pass 1 has met of invalid and of already claimed blocks in this inode, and the entries
      it has made in the table; the other passes do not count. */
  datatype Met = Met(bad: nat, dup: nat, table: nat)

  /** The claims counted so far and not given back, the multiply claimed blocks to look out
      for, and whether the inode has been marked for clearing. */
  datatype Tally = Tally(claims: multiset<int>, multiple: set<int>, clear: bool, met: Met)

  ghost function After(v: Volume, pass: Pass, t: Tally, blk: int): Tally {
    match pass
    case P1 =>
      if !InRange(v, blk) then t.(clear := true, met := t.met.(bad := t.met.bad + 1))
      else if blk in t.claims then
        Tally(t.claims + multiset{blk}, t.multiple + {blk}, true, t.met.(dup := t.met.dup + 1, table := t.met.table + 1))
      else t.(claims := t.claims + multiset{blk})
    case P1b =>
      if InRange(v, blk) && blk in t.multiple then t.(multiple := t.multiple - {blk}, clear := true) else t
    case P4 =>
      if InRange(v, blk) then t.(claims := t.claims - multiset{blk}) else t
  }

  ghost function AfterAll(v: Volume, pass: Pass, t: Tally, visits: seq<int>): Tally {
    if visits == [] then t
    else After(v, pass, AfterAll(v, pass, t, visits[..|visits| - 1]), visits[|visits| - 1])
  }

  lemma {:induction false} AfterJoin(v: Volume, pass: Pass, t: Tally, a: seq<int>, b: seq<int>)
    ensures AfterAll(v, pass, t, a + b) == AfterAll(v, pass, AfterAll(v, pass, t, a), b)
  {
    if b == [] {
      assert a + b == a;
    } else {
      assert (a + b)[..|a + b| - 1] == a + b[..|b| - 1];
      AfterJoin(v, pass, t, a, b[..|b| - 1]);
    }
  }

  lemma AfterOne(v: Volume, t: Tally, blk: int)
    requires forall b :: b in t.multiple <==> t.claims[b] >= 2
    ensures var s := After(v, P1, t, blk);
            && s.claims == (if InRange(v, blk) then t.claims + multiset{blk} else t.claims)
            && (forall b :: b in s.multiple <==> s.claims[b] >= 2)
            && (s.clear <==> t.clear || !InRange(v, blk) || blk in t.claims)
  {
  }

  /** Pass 1 counts every claim; it marks an inode that claims an invalid block, or a block
      claimed before or twice. */
  lemma {:induction false} AfterPass1(v: Volume, t: Tally, visits: seq<int>)
    requires forall b :: b in t.multiple <==> t.claims[b] >= 2
    ensures var s := AfterAll(v, P1, t, visits);
            && s.claims == t.claims + ClaimsIn(v, visits)
            && (forall b :: b in s.multiple <==> s.claims[b] >= 2)
            && (s.clear <==> t.clear || Suspect(v, s.claims, visits))
  {
    hide InRange;
    if visits != [] {
      var front, last := visits[..|visits| - 1], visits[|visits| - 1];
      hide After, Suspect;
      AfterPass1(v, t, front);
      var s := AfterAll(v, P1, t, front);
      var s' := After(v, P1, s, last);
      AfterOne(v, s, last);
      assert visits == front + [last];
      StillSuspect(v, s.claims, s'.claims, front, last);
    }
  }

  /** Some visit is to an invalid block or to one with more than one claim. */
  ghost predicate Suspect(v: Volume, claims: multiset<int>, visits: seq<int>) {
    exists b :: b in visits && (!InRange(v, b) || claims[b] >= 2)
  }

  lemma StillSuspect(v: Volume, c: multiset<int>, c': multiset<int>, front: seq<int>, last: int)
    requires c' == if InRange(v, last) then c + multiset{last} else c
    ensures Suspect(v, c', front + [last]) <==> Suspect(v, c, front) || !InRange(v, last) || last in c
  {
    var visits := front + [last];
    if Suspect(v, c, front) {
      var b :| b in front && (!InRange(v, b) || c[b] >= 2);
      assert b in visits && c'[b] >= c[b];
    }
    if !InRange(v, last) || last in c {
      assert last in visits;
    }
    if Suspect(v, c', visits) {
      var b :| b in visits && (!InRange(v, b) || c'[b] >= 2);
      assert b == last || b in front;
    }
  }

  /** Pass 1b marks an inode that claims one of the blocks looked for, and drops those. */
  lemma {:induction false} AfterPass1b(v: Volume, t: Tally, visits: seq<int>)
    requires forall b | b in t.multiple :: InRange(v, b)
    ensures var s := AfterAll(v, P1b, t, visits);
            && s.claims == t.claims
            && (forall b :: b in s.multiple <==> b in t.multiple && b !in visits)
            && (s.clear <==> t.clear || exists b :: b in visits && b in t.multiple)
  {
    if visits != [] {
      var front, last := visits[..|visits| - 1], visits[|visits| - 1];
      AfterPass1b(v, t, front);
      assert visits == front + [last];
      assert last in visits;
      if b :| b in front && b in t.multiple {
        assert b in visits;
      }
      if b :| b in visits && b in t.multiple {
        assert b == last || b in front;
      }
    }
  }

  lemma {:induction false} AfterPass4(v: Volume, t: Tally, visits: seq<int>)
    ensures AfterAll(v, P4, t, visits).claims == t.claims - ClaimsIn(v, visits)
    ensures AfterAll(v, P4, t, visits).clear == t.clear
  {
    if visits != [] {
      AfterPass4(v, t, visits[..|visits| - 1]);
    }
  }

  // ----- how often pass 1 meets a bad or a claimed block

  /** The visits to invalid blocks. */
  function BadsIn(v: Volume, visits: seq<int>): nat {
    if visits == [] then 0
    else BadsIn(v, visits[..|visits| - 1]) + if InRange(v, visits[|visits| - 1]) then 0 else 1
  }

  /** The visits to blocks claimed before, by the claims given or by an earlier visit. */
  function DupsIn(v: Volume, claims: multiset<int>, visits: seq<int>): nat {
    if visits == [] then 0
    else
      var front, last := visits[..|visits| - 1], visits[|visits| - 1];
      DupsIn(v, claims, front) + if InRange(v, last) && last in claims + ClaimsIn(v, front) then 1 else 0
  }

  lemma {:induction false} MetIn(v: Volume, t: Tally, visits: seq<int>)
    ensures var s := AfterAll(v, P1, t, visits);
            && s.claims == t.claims + ClaimsIn(v, visits) && s.met.bad == t.met.bad + BadsIn(v, visits)
            && s.met.dup == t.met.dup + DupsIn(v, t.claims, visits)
            && s.met.table == t.met.table + DupsIn(v, t.claims, visits)
  {
    if visits != [] {
      MetIn(v, t, visits[..|visits| - 1]);
    }
  }

  /** The entries that the inodes below number n make in the table. */
  function DupsBelow(v: Volume, n: nat): nat
    requires Formed(v) && n <= |v.inodes| + 1
  {
    if n <= 1 then 0 else DupsBelow(v, n - 1) + DupsIn(v, ClaimsBelow(v, n - 1), VisitsOf(v, n - 1))
  }

  function Blocks(claims: multiset<int>): set<int> { set b | b in claims }

  lemma OneMoreBlock(claims: multiset<int>, b: int)
    ensures |Blocks(claims + multiset{b})| == |Blocks(claims)| + if b in claims then 0 else 1
  {
    assert Blocks(claims + multiset{b}) == Blocks(claims) + {b};
    if b in claims {
      assert Blocks(claims) + {b} == Blocks(claims);
    }
  }

  lemma {:induction false} DupsAreFurther(v: Volume, claims: multiset<int>, visits: seq<int>)
    ensures DupsIn(v, claims, visits) + |Blocks(claims + ClaimsIn(v, visits))| == |Blocks(claims)| + |ClaimsIn(v, visits)|
  {
    if visits == [] {
      assert claims + multiset{} == claims;
    } else {
      var front, last := visits[..|visits| - 1], visits[|visits| - 1];
      DupsAreFurther(v, claims, front);
      var before := claims + ClaimsIn(v, front);
      if InRange(v, last) {
        assert ClaimsIn(v, visits) == ClaimsIn(v, front) + multiset{last};
        assert claims + ClaimsIn(v, visits) == before + multiset{last};
        OneMoreBlock(before, last);
      } else {
        assert ClaimsIn(v, visits) == ClaimsIn(v, front);
      }
    }
  }

  /** The table has an entry for each claim that is not the first on its block. */
  lemma {:induction false} FurtherClaims(v: Volume, n: nat)
    requires Formed(v) && n <= |v.inodes| + 1
    ensures DupsBelow(v, n) == |ClaimsBelow(v, n)| - |Blocks(ClaimsBelow(v, n))|
  {
    hide DupsIn, ClaimsIn, VisitsOf, Formed;
    if n <= 1 {
      assert Blocks(multiset{}) == {};
    } else {
      FurtherClaims(v, n - 1);
      DupsAreFurther(v, ClaimsBelow(v, n - 1), VisitsOf(v, n - 1));
    }
  }
}
