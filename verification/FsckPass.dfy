/** pass1(), pass1b(), pass4(), iblock(), ckinode() and clri() of fsck.c. */
module FsckPass {
  import opened FsckMap
  import opened FsckClaims
  import opened FsckDup
  import opened Sequences

  /** A pass that started from tally t has been through the visits, or has stopped: pass 1 at
      a limit, pass 1b when there is nothing left to look for. */
  ghost predicate Moved(v: Volume, pass: Pass, t: Tally, t': Tally, visits: seq<int>, r: Answer) {
    var s := AfterAll(v, pass, t, visits);
    if r != STOP then t' == s && (pass == P1 && Within(t.met) ==> Within(t'.met))
    else (pass == P1 && !Within(s.met)) || (pass == P1b && t'.multiple == {} && t' == s)
  }

  /** Pass 1 has not reached a limit. */
  predicate Within(met: Met) {
    met.bad < 10 && met.dup < 10 && met.table <= 100
  }

  lemma {:induction false} StaysBeyond(v: Volume, t: Tally, visits: seq<int>)
    requires !Within(t.met)
    ensures !Within(AfterAll(v, P1, t, visits).met)
  {
    if visits != [] {
      StaysBeyond(v, t, visits[..|visits| - 1]);
    }
  }

  lemma {:induction false} NothingLeft(v: Volume, t: Tally, visits: seq<int>)
    requires t.multiple == {}
    ensures AfterAll(v, P1b, t, visits) == t
  {
    if visits != [] {
      NothingLeft(v, t, visits[..|visits| - 1]);
    }
  }

  lemma MovedOn(v: Volume, pass: Pass, t: Tally, t1: Tally, t2: Tally, a: seq<int>, b: seq<int>, r: Answer, s: Answer)
    requires Moved(v, pass, t, t1, a, r) && r != STOP && Moved(v, pass, t1, t2, b, s)
    ensures Moved(v, pass, t, t2, a + b, s)
  {
    AfterJoin(v, pass, t, a, b);
  }

  lemma MovedNoMore(v: Volume, pass: Pass, t: Tally, t': Tally, a: seq<int>, b: seq<int>)
    requires Moved(v, pass, t, t', a, STOP)
    ensures Moved(v, pass, t, t', a + b, STOP)
  {
    AfterJoin(v, pass, t, a, b);
    if pass == P1b {
      NothingLeft(v, t', b);
    } else {
      StaysBeyond(v, AfterAll(v, pass, t, a), b);
    }
  }

  lemma MovedOne(v: Volume, pass: Pass, t: Tally, t': Tally, blk: int, r: Answer)
    requires if pass == P1 && r == STOP then !Within(After(v, P1, t, blk).met)
             else t' == After(v, pass, t, blk) && (r == STOP ==> pass == P1b && t'.multiple == {})
    requires pass == P1 && r != STOP && Within(t.met) ==> Within(t'.met)
    ensures Moved(v, pass, t, t', [blk], r)
  {
    assert [blk][..0] == [];
    assert AfterAll(v, pass, t, []) == t;
  }

  lemma MovedNone(v: Volume, pass: Pass, t: Tally)
    ensures Moved(v, pass, t, t, [], KEEPON)
  {
  }

  /** The visits that one entry of a list of addresses leads to. */
  function EntryVisit(v: Volume, e: int, level: nat): seq<int> {
    if e == 0 then [] else if level > 0 then BlockVisits(v, e, level) else [e]
  }

  lemma OneMoreEntry(v: Volume, entries: seq<int>, level: nat, k: nat)
    requires k < |entries|
    ensures EntryVisits(v, entries[..k + 1], level) == EntryVisits(v, entries[..k], level) + EntryVisit(v, entries[k], level)
  {
    hide BlockVisits;
    assert entries[..k + 1][..k] == entries[..k];
  }

  lemma {:induction false} EntriesGoOn(v: Volume, entries: seq<int>, level: nat, k: nat) returns (rest: seq<int>)
    requires k <= |entries|
    ensures EntryVisits(v, entries, level) == EntryVisits(v, entries[..k], level) + rest
    decreases |entries| - k
  {
    hide EntryVisit, EntryVisits;
    if k == |entries| {
      assert entries[..k] == entries;
      rest := [];
    } else {
      OneMoreEntry(v, entries, level, k);
      var more := EntriesGoOn(v, entries, level, k + 1);
      rest := EntryVisit(v, entries[k], level) + more;
    }
  }

  class Checker {
    const v: Volume
    const blkmap: BitMap
    const dups: DupTable
    var n_blks: nat
    var badblk: nat
    var dupblk: nat
    var inum: nat
    const state: array<State>
    /** The claims counted and not given back. */
    ghost var claims: multiset<int>

    /** setup() */
    constructor (v: Volume)
      requires Formed(v) && v.inodes != []
      ensures this.v == v && Valid() && Ready(P1) && claims == multiset{} && dups.Multiple() == {} && dups.enddup == 0
      ensures forall i | 0 <= i < state.Length :: state[i] == USTATE
      ensures fresh(blkmap) && fresh(blkmap.bytes) && fresh(dups) && fresh(dups.duplist) && fresh(state)
    {
      this.v := v;
      blkmap := new BitMap(v.fmax);
      dups := new DupTable();
      state := new State[|v.inodes| + 1](i => USTATE);
      n_blks, badblk, dupblk, inum := 0, 0, 0, 1;
      claims := multiset{};
    }

    /** Every count is right. */
    ghost predicate Valid()
      reads this, dups, dups.duplist, blkmap.bytes
    {
      && Formed(v) && dups.Valid() && v.fmax <= 8 * blkmap.bytes.Length
      && state.Length == |v.inodes| + 1 && 1 <= inum < state.Length
      && Accounts(v, claims, blkmap.Blocks(), dups.Entries())
      && n_blks == |blkmap.Blocks()|
    }

    /** What the pass relies on in the table. */
    ghost predicate Ready(pass: Pass)
      requires dups.Valid()
      reads this, dups, dups.duplist
    {
      match pass
      case P1 => Fronted(dups.Entries(), dups.muldup)
      case P1b => dups.muldup <= dups.enddup && NoneTwice(dups.Entries()[..dups.muldup])
      case P4 => true
    }

    ghost function Now(pass: Pass): Tally
      requires Valid() && Ready(pass)
      reads this, dups, dups.duplist, blkmap.bytes, state
    {
      if pass == P4 then Tally(claims, {}, state[inum] == CLEAR, Met(0, 0, 0))
      else
        FrontIsThere(pass);
        Tally(claims, dups.Multiple(), state[inum] == CLEAR,
              if pass == P1 then Met(badblk, dupblk, dups.enddup) else Met(0, 0, 0))
    }

    lemma FrontIsThere(pass: Pass)
      requires dups.Valid() && Ready(pass) && pass != P4
      ensures dups.muldup <= dups.enddup
    {
    }

    /** blkerr() */
    method BlkErr()
      requires inum < state.Length
      modifies state
      ensures state[..] == old(state[..])[inum := CLEAR]
    {
      state[inum] := CLEAR;
    }

    /** pass1() */
    method Pass1(blk: int) returns (r: Answer)
      requires Valid() && Ready(P1)
      modifies this`n_blks, this`badblk, this`dupblk, this`claims, dups, dups.duplist, blkmap.bytes, state
      ensures Valid() && Ready(P1) && OthersSame(old(state[..]), state[..], inum)
      ensures r != STOP ==> Now(P1) == After(v, P1, old(Now(P1)), blk) && (r == KEEPON <==> InRange(v, blk))
      ensures if r == STOP then !Within(After(v, P1, old(Now(P1)), blk).met)
              else Within(old(Now(P1)).met) ==> Within(Now(P1).met)
    {
      hide Accounts, Fronted, OneMore, ToSet, BlocksIn, NoneTwice, Formed;
      if !InRange(v, blk) {
        BlkErr();
        badblk := badblk + 1;
        return if badblk >= MAXBAD then STOP else SKIP;
      }
      var taken := blkmap.Get(blk);
      if taken {
        BitSaysClaimed(v, claims, blkmap.Blocks(), dups.Entries(), blk);
        BlkErr();
        dupblk := dupblk + 1;
        if dupblk >= MAXDUP || dups.enddup >= DUPTBLSIZE {
          return STOP;
        }
        CountAgain(blk);
      } else {
        CountFirst(blk);
      }
      return KEEPON;
    }

    method CountAgain(blk: nat)
      requires Valid() && Ready(P1) && blk in blkmap.Blocks() && dups.enddup < DUPTBLSIZE
      modifies this`claims, dups, dups.duplist
      ensures Valid() && Ready(P1) && blk in old(claims) && claims == old(claims) + multiset{blk}
      ensures dups.Multiple() == old(dups.Multiple()) + {blk} && dups.enddup == old(dups.enddup) + 1
    {
      hide Accounts, Fronted, OneMore, ToSet, BlocksIn, NoneTwice, Formed;
      ghost var d := dups.Entries();
      dups.Add(blk);
      OneMoreDup(v, claims, blkmap.Blocks(), d, dups.Entries(), blk);
      claims := claims + multiset{blk};
    }

    method CountFirst(blk: nat)
      requires Valid() && Ready(P1) && blk !in blkmap.Blocks() && InRange(v, blk)
      modifies this`n_blks, this`claims, blkmap.bytes
      ensures Valid() && Ready(P1) && blk !in old(claims) && claims == old(claims) + multiset{blk}
    {
      hide Accounts, Fronted, ToSet, BlocksIn, NoneTwice, Formed;
      FirstClaim(v, claims, blkmap.Blocks(), dups.Entries(), blk);
      n_blks := n_blks + 1;
      blkmap.Set(blk);
      claims := claims + multiset{blk};
    }

    /** pass1b() */
    method Pass1b(blk: int) returns (r: Answer)
      requires Valid() && Ready(P1b)
      modifies dups`muldup, dups.duplist, state
      ensures Valid() && Ready(P1b) && OthersSame(old(state[..]), state[..], inum)
      ensures Now(P1b) == After(v, P1b, old(Now(P1b)), blk)
      ensures (r == STOP ==> Now(P1b).multiple == {}) && (r != STOP ==> (r == KEEPON <==> InRange(v, blk)))
    {
      hide Accounts, ToSet;
      if !InRange(v, blk) {
        return SKIP;
      }
      ghost var d := dups.Entries();
      var found := dups.PassOver(blk);
      SameAccounts(v, claims, blkmap.Blocks(), d, dups.Entries());
      if found {
        BlkErr();
        if dups.muldup == 0 {
          EmptyFront(dups.Entries());
          return STOP;
        }
      }
      return KEEPON;
    }

    /** pass4() */
    method Pass4(blk: int) returns (r: Answer)
      requires Valid()
      modifies this`n_blks, this`claims, dups, dups.duplist, blkmap.bytes
      ensures Valid() && Now(P4) == After(v, P4, old(Now(P4)), blk)
      ensures r == if InRange(v, blk) then KEEPON else SKIP
    {
      hide Accounts, BlocksIn, ToSet, NoneTwice, Fronted, Formed;
      if !InRange(v, blk) {
        return SKIP;
      }
      var taken := blkmap.Get(blk);
      if taken {
        GiveBack(blk);
      } else {
        NoClaim(v, claims, blkmap.Blocks(), dups.Entries(), blk);
      }
      return KEEPON;
    }

    /** One claim less, in the table or, with the last one, in the map. */
    method GiveBack(blk: nat)
      requires Valid() && InRange(v, blk) && blk in blkmap.Blocks()
      modifies this`n_blks, this`claims, dups, dups.duplist, blkmap.bytes
      ensures Valid() && claims == old(claims) - multiset{blk}
    {
      hide Accounts, OneLess, BlocksIn, ToSet, NoneTwice, Fronted, Formed;
      ghost var d := dups.Entries();
      var found := dups.Remove(blk);
      if found {
        Fewer(v, claims, blkmap.Blocks(), d, dups.Entries(), blk);
      } else {
        LastClaim(v, claims, blkmap.Blocks(), d, blk);
        blkmap.Clear(blk);
        n_blks := n_blks - 1;
      }
      claims := claims - multiset{blk};
    }

    /** (*pfunc)(blk) */
    method Visit(pass: Pass, blk: int) returns (r: Answer)
      requires Valid() && Ready(pass)
      modifies this`n_blks, this`badblk, this`dupblk, this`claims, dups, dups.duplist, blkmap.bytes, state
      ensures Valid() && Ready(pass) && OthersSame(old(state[..]), state[..], inum)
      ensures Moved(v, pass, old(Now(pass)), Now(pass), [blk], r)
      ensures r != STOP ==> (r == KEEPON <==> InRange(v, blk))
    {
      hide Accounts, Fronted, NoneTwice, ToSet, BlocksIn, After, AfterAll, Moved, OthersSame, Within;
      ghost var t, s := Now(pass), state[..];
      match pass {
        case P1 =>
          r := Pass1(blk);
          MovedOne(v, P1, t, Now(P1), blk, r);
        case P1b =>
          r := Pass1b(blk);
          MovedOne(v, P1b, t, Now(P1b), blk, r);
        case P4 =>
          r := Pass4(blk);
          MovedOne(v, P4, t, Now(P4), blk, r);
          AllSame(s, inum);
      }
    }

    /** iblock(); the block is valid where it is read, as the pass has answered KEEPON. */
    method Iblock(pass: Pass, blk: int, ilevel: nat) returns (r: Answer)
      requires Valid() && Ready(pass) && ilevel > 0
      modifies this`n_blks, this`badblk, this`dupblk, this`claims, dups, dups.duplist, blkmap.bytes, state
      ensures Valid() && Ready(pass) && OthersSame(old(state[..]), state[..], inum)
      ensures Moved(v, pass, old(Now(pass)), Now(pass), BlockVisits(v, blk, ilevel), if r == STOP then STOP else KEEPON)
      decreases ilevel, 0
    {
      hide Accounts, Fronted, NoneTwice, ToSet, BlocksIn, After, AfterAll, Moved, OthersSame, Within, EntryVisits;
      ghost var t, s := Now(pass), state[..];
      var n := Visit(pass, blk);
      if n != KEEPON {
        if n == STOP {
          MovedNoMore(v, pass, t, Now(pass), [blk], BlockVisits(v, blk, ilevel)[1..]);
        }
        assert BlockVisits(v, blk, ilevel) == [blk] + BlockVisits(v, blk, ilevel)[1..];
        assert n == SKIP ==> BlockVisits(v, blk, ilevel) == [blk];
        AnswerIsOne(v, pass, t, Now(pass), [blk], n);
        return n;
      }
      ghost var t1, s1 := Now(pass), state[..];
      r := Entries(pass, v.block(blk), ilevel - 1);
      MovedOn(v, pass, t, t1, Now(pass), [blk], EntryVisits(v, v.block(blk), ilevel - 1), n, r);
      StillOthersSame(s, s1, state[..], inum);
    }

    /** The loop of iblock(), and of ckinode() over the direct addresses. */
    method Entries(pass: Pass, entries: seq<int>, level: nat) returns (r: Answer)
      requires Valid() && Ready(pass)
      modifies this`n_blks, this`badblk, this`dupblk, this`claims, dups, dups.duplist, blkmap.bytes, state
      ensures Valid() && Ready(pass) && OthersSame(old(state[..]), state[..], inum) && r != SKIP
      ensures Moved(v, pass, old(Now(pass)), Now(pass), EntryVisits(v, entries, level), r)
      decreases level, 1
    {
      hide Accounts, Fronted, NoneTwice, ToSet, BlocksIn, After, AfterAll, Moved, OthersSame, Within, EntryVisits, BlockVisits;
      ghost var t, s := Now(pass), state[..];
      MovedNone(v, pass, t);
      NoEntries(v, level);
      AllSame(s, inum);
      for k := 0 to |entries|
        invariant Valid() && Ready(pass) && OthersSame(s, state[..], inum)
        invariant Moved(v, pass, t, Now(pass), EntryVisits(v, entries[..k], level), KEEPON)
      {
        ghost var t1, s1 := Now(pass), state[..];
        OneMoreEntry(v, entries, level, k);
        if entries[k] != 0 {
          var n;
          if level > 0 {
            n := Iblock(pass, entries[k], level);
          } else {
            n := Visit(pass, entries[k]);
          }
          ghost var n' := if n == STOP then STOP else KEEPON;
          StillOthersSame(s, s1, state[..], inum);
          AnswerIsOne(v, pass, t1, Now(pass), EntryVisit(v, entries[k], level), n);
          MovedOn(v, pass, t, t1, Now(pass), EntryVisits(v, entries[..k], level), EntryVisit(v, entries[k], level), KEEPON, n');
          if n == STOP {
            ghost var rest := EntriesGoOn(v, entries, level, k + 1);
            MovedNoMore(v, pass, t, Now(pass), EntryVisits(v, entries[..k + 1], level), rest);
            return STOP;
          }
        } else {
          assert EntryVisits(v, entries[..k], level) + [] == EntryVisits(v, entries[..k], level);
        }
      }
      assert entries[..|entries|] == entries;
      return KEEPON;
    }

    /** ckinode() with ADDR */
    method CkInode(pass: Pass, d: Inode) returns (r: Answer)
      requires Valid() && Ready(pass) && |d.addr| == NADDR
      modifies this`n_blks, this`badblk, this`dupblk, this`claims, dups, dups.duplist, blkmap.bytes, state
      ensures Valid() && Ready(pass) && OthersSame(old(state[..]), state[..], inum) && r != SKIP
      ensures Moved(v, pass, old(Now(pass)), Now(pass), InodeVisits(v, d), r)
    {
      hide Accounts, Fronted, NoneTwice, ToSet, BlocksIn, After, AfterAll, Moved, OthersSame, Within, EntryVisits, BlockVisits,
           IndirectVisits;
      ghost var t, s := Now(pass), state[..];
      AllSame(s, inum);
      if d.special {
        MovedNone(v, pass, t);
        return KEEPON;
      }
      ghost var direct := EntryVisits(v, d.addr[..NADDR - 3], 0);
      r := Entries(pass, d.addr[..NADDR - 3], 0);
      if r == STOP {
        MovedNoMore(v, pass, t, Now(pass), direct, IndirectUpto(v, d, 4));
        return STOP;
      }
      assert direct + [] == direct;
      for n := 1 to 4
        invariant Valid() && Ready(pass) && OthersSame(s, state[..], inum)
        invariant Moved(v, pass, t, Now(pass), direct + IndirectUpto(v, d, n), KEEPON)
      {
        ghost var t1, s1 := Now(pass), state[..];
        r := Indirect(pass, d.addr[NADDR - 4 + n], n);
        StillOthersSame(s, s1, state[..], inum);
        LevelDone(v, pass, t, t1, Now(pass), direct, d, n, r);
        if r == STOP {
          return STOP;
        }
      }
      return KEEPON;
    }

    method Indirect(pass: Pass, ap: int, n: nat) returns (r: Answer)
      requires Valid() && Ready(pass) && n > 0
      modifies this`n_blks, this`badblk, this`dupblk, this`claims, dups, dups.duplist, blkmap.bytes, state
      ensures Valid() && Ready(pass) && OthersSame(old(state[..]), state[..], inum) && r != SKIP
      ensures Moved(v, pass, old(Now(pass)), Now(pass), IndirectVisits(v, ap, n), r)
    {
      hide Accounts, Fronted, NoneTwice, ToSet, BlocksIn, After, AfterAll, Moved, OthersSame, Within, BlockVisits;
      if ap != 0 {
        r := Iblock(pass, ap, n);
        if r == SKIP {
          r := KEEPON;
        }
      } else {
        MovedNone(v, pass, Now(pass));
        AllSame(state[..], inum);
        r := KEEPON;
      }
    }

    /** The inode with number i is the one worked on. */
    method Select(i: nat)
      requires Valid() && 1 <= i < state.Length
      modifies this`inum
      ensures Valid() && inum == i
    {
      inum := i;
    }

    /** setstate() */
    method SetState(s: State)
      requires Valid()
      modifies state
      ensures Valid() && state[..] == old(state[..])[inum := s]
    {
      state[inum] := s;
    }
  }

  /** Only inode inum may have been marked. */
  ghost predicate OthersSame(s: seq<State>, s': seq<State>, inum: nat) {
    |s| == |s'| && forall i | 0 <= i < |s| :: s'[i] == s[i] || (i == inum && s'[i] == CLEAR)
  }

  lemma AllSame(s: seq<State>, inum: nat)
    ensures OthersSame(s, s, inum)
  {
  }

  lemma StillOthersSame(s: seq<State>, s1: seq<State>, s2: seq<State>, inum: nat)
    requires OthersSame(s, s1, inum) && OthersSame(s1, s2, inum)
    ensures OthersSame(s, s2, inum)
  {
  }

  lemma {:induction false} IndirectGoesOn(v: Volume, d: Inode, n: nat) returns (rest: seq<int>)
    requires |d.addr| == NADDR && 1 <= n <= 4
    ensures IndirectUpto(v, d, 4) == IndirectUpto(v, d, n) + rest
    decreases 4 - n
  {
    hide IndirectVisits;
    rest := [];
    if n < 4 {
      rest := IndirectGoesOn(v, d, n + 1);
      rest := IndirectVisits(v, d.addr[NADDR - 4 + n], n) + rest;
    }
  }

  /** ckinode() has been through the indirect addresses of level n. */
  lemma LevelDone(v: Volume, pass: Pass, t: Tally, t1: Tally, t2: Tally, direct: seq<int>, d: Inode, n: nat, r: Answer)
    requires |d.addr| == NADDR && 1 <= n < 4 && r != SKIP
    requires Moved(v, pass, t, t1, direct + IndirectUpto(v, d, n), KEEPON)
    requires Moved(v, pass, t1, t2, IndirectVisits(v, d.addr[NADDR - 4 + n], n), r)
    ensures Moved(v, pass, t, t2, direct + IndirectUpto(v, d, if r == STOP then 4 else n + 1), r)
  {
    hide Moved, IndirectUpto, IndirectVisits;
    var upto, next := IndirectUpto(v, d, n), IndirectVisits(v, d.addr[NADDR - 4 + n], n);
    OneMoreLevel(v, d, n);
    JoinThree(direct, upto, next);
    MovedOn(v, pass, t, t1, t2, direct + upto, next, KEEPON, r);
    if r == STOP {
      var rest := IndirectGoesOn(v, d, n + 1);
      JoinThree(direct, upto + next, rest);
      MovedNoMore(v, pass, t, t2, direct + (upto + next), rest);
    }
  }

  lemma OneMoreLevel(v: Volume, d: Inode, n: nat)
    requires |d.addr| == NADDR && 1 <= n < 4
    ensures IndirectUpto(v, d, n + 1) == IndirectUpto(v, d, n) + IndirectVisits(v, d.addr[NADDR - 4 + n], n)
  {
  }

  lemma JoinThree(a: seq<int>, b: seq<int>, c: seq<int>)
    ensures a + b + c == a + (b + c)
  {
  }

  lemma NoEntries(v: Volume, level: nat)
    ensures forall entries: seq<int> :: EntryVisits(v, entries[..0], level) == []
  {
  }

  /** KEEPON and SKIP say the same of a pass. */
  lemma AnswerIsOne(v: Volume, pass: Pass, t: Tally, t': Tally, visits: seq<int>, r: Answer)
    ensures Moved(v, pass, t, t', visits, r) <==> Moved(v, pass, t, t', visits, if r == STOP then STOP else KEEPON)
  {
  }

  lemma SameAccounts(v: Volume, claims: multiset<int>, blocks: set<nat>, d: seq<int>, d': seq<int>)
    requires Accounts(v, claims, blocks, d) && Rearranged(d, d')
    ensures Accounts(v, claims, blocks, d')
  {
    forall b | b in d'
      ensures b in d
    {
      assert b in multiset(d');
    }
  }

  lemma EmptyFront(d: seq<int>)
    ensures ToSet(d[..0]) == {}
  {
  }
}
