/** Phases 1, 1b and 4 of fsck.c, and what phase 2 does to the root: which inodes are condemned,
    and what is left when they are cleared. */
module FsckPhase {
  import opened FsckMap
  import opened FsckClaims
  import opened FsckDup
  import opened FsckPass
  import opened Sequences
  import FsckPlaces

  const ROOTINO := 2

  predicate InUse(v: Volume, i: nat)
    requires 1 <= i <= |v.inodes|
  {
    v.inodes[i - 1].alloc && v.inodes[i - 1].known
  }

  /** The inode claims an invalid block, or one that is claimed more than once. */
  ghost predicate Condemned(v: Volume, i: nat)
    requires Formed(v) && 1 <= i <= |v.inodes|
  {
    Suspect(v, AllClaims(v), VisitsOf(v, i))
  }

  /** The inode was marked in phase 1: of the blocks claimed twice it sees those claimed
      before. */
  ghost predicate Marked(v: Volume, i: nat)
    requires Formed(v) && 1 <= i <= |v.inodes|
  {
    Suspect(v, ClaimsBelow(v, i + 1), VisitsOf(v, i))
  }

  // ----- phase 1

  ghost predicate StateOk(v: Volume, st: State, i: nat, bad: bool)
    requires 1 <= i <= |v.inodes|
  {
    (st == USTATE <==> !InUse(v, i)) && (st == CLEAR <==> bad)
  }

  /** Phase 1 has dealt with the inodes before number n. */
  ghost predicate Counted(v: Volume, claims: multiset<int>, multiple: set<int>, s: seq<State>, n: nat) {
    && Formed(v) && 1 <= n <= |v.inodes| + 1 == |s|
    && claims == ClaimsBelow(v, n) && (forall b :: b in multiple <==> claims[b] >= 2)
    && (forall i | 1 <= i < n :: StateOk(v, s[i], i, Marked(v, i)))
    && (forall i | n <= i < |s| :: s[i] == USTATE)
  }

  lemma CountedOne(v: Volume, t: Tally, t': Tally, s: seq<State>, s1: seq<State>, s2: seq<State>, n: nat)
    requires Counted(v, t.claims, t.multiple, s, n) && n <= |v.inodes| && InUse(v, n)
    requires |s1| == |s| && s1 == s[n := s1[n]] && s1[n] != USTATE && s1[n] != CLEAR && OthersSame(s1, s2, n)
    requires !t.clear && t' == AfterAll(v, P1, t, InodeVisits(v, v.inodes[n - 1])) && t'.clear == (s2[n] == CLEAR)
    ensures Counted(v, t'.claims, t'.multiple, s2, n + 1)
  {
    hide AfterAll, InodeVisits, ClaimsIn, Suspect, Formed;
    AfterPass1(v, t, VisitsOf(v, n));
    assert ClaimsBelow(v, n + 1) == ClaimsBelow(v, n) + ClaimsIn(v, VisitsOf(v, n));
    forall i | 1 <= i < n
      ensures StateOk(v, s2[i], i, Marked(v, i))
    {
      assert StateOk(v, s[i], i, Marked(v, i));
    }
  }

  lemma CountedNone(v: Volume, claims: multiset<int>, multiple: set<int>, s: seq<State>, n: nat)
    requires Counted(v, claims, multiple, s, n) && n <= |v.inodes| && !InUse(v, n)
    ensures Counted(v, claims, multiple, s, n + 1)
  {
    hide Marked, Formed, ClaimsBelow, InUse;
    NoVisits(v, n);
    forall i | 1 <= i < n
      ensures StateOk(v, s[i], i, Marked(v, i))
    {
    }
  }

  lemma NoVisits(v: Volume, n: nat)
    requires Formed(v) && 1 <= n <= |v.inodes| && !InUse(v, n)
    ensures VisitsOf(v, n) == [] && ClaimsBelow(v, n + 1) == ClaimsBelow(v, n) && !Marked(v, n) && !Condemned(v, n)
  {
    assert ClaimsIn(v, []) == multiset{};
    assert ClaimsBelow(v, n) + multiset{} == ClaimsBelow(v, n);
  }

  /** Inode i takes pass 1 to none of its limits. */
  predicate Passes(v: Volume, i: nat)
    requires Formed(v) && 1 <= i <= |v.inodes|
  {
    Within(Met(BadsIn(v, VisitsOf(v, i)), DupsIn(v, ClaimsBelow(v, i), VisitsOf(v, i)), DupsBelow(v, i + 1)))
  }

  predicate InLimits(v: Volume, n: nat)
    requires Formed(v) && n <= |v.inodes| + 1
  {
    forall i | 1 <= i < n :: Passes(v, i)
  }

  lemma OnePasses(v: Volume, t: Tally, t': Tally, n: nat, r: Answer)
    requires Formed(v) && 1 <= n <= |v.inodes| && InUse(v, n)
    requires t.claims == ClaimsBelow(v, n) && t.met == Met(0, 0, DupsBelow(v, n)) && DupsBelow(v, n) <= DUPTBLSIZE
    requires Moved(v, P1, t, t', VisitsOf(v, n), r)
    ensures r != STOP <==> Passes(v, n)
    ensures r != STOP ==> t'.met.table == DupsBelow(v, n + 1)
  {
    hide VisitsOf, AfterAll, BadsIn, DupsIn, ClaimsIn, ClaimsBelow;
    MetIn(v, t, VisitsOf(v, n));
  }

  lemma NonePasses(v: Volume, n: nat)
    requires Formed(v) && 1 <= n <= |v.inodes| && !InUse(v, n)
    ensures DupsBelow(v, n + 1) == DupsBelow(v, n) && (DupsBelow(v, n) <= DUPTBLSIZE ==> Passes(v, n))
  {
  }

  lemma OneMoreLimit(v: Volume, n: nat)
    requires Formed(v) && 1 <= n <= |v.inodes|
    ensures InLimits(v, n + 1) <==> InLimits(v, n) && Passes(v, n)
  {
    hide Passes, Formed;
  }

  /** What phase 1 has counted before inode n, when no limit was reached. */
  ghost predicate CountedSoFar(v: Volume, t: Tally, table: nat, s: seq<State>, n: nat) {
    Counted(v, t.claims, t.multiple, s, n) && table == DupsBelow(v, n)
  }

  lemma InodeCounted(v: Volume, t: Tally, t': Tally, s: seq<State>, s1: seq<State>, s2: seq<State>, n: nat, r: Answer)
    requires Counted(v, t.claims, t.multiple, s, n) && n <= |v.inodes| && InUse(v, n)
    requires |s1| == |s| && s1 == s[n := s1[n]] && s1[n] != USTATE && s1[n] != CLEAR && OthersSame(s1, s2, n)
    requires !t.clear && t'.clear == (s2[n] == CLEAR)
    requires t.met == Met(0, 0, DupsBelow(v, n)) && DupsBelow(v, n) <= DUPTBLSIZE
    requires Moved(v, P1, t, t', InodeVisits(v, v.inodes[n - 1]), r)
    ensures r != STOP <==> Passes(v, n)
    ensures r != STOP ==> Counted(v, t'.claims, t'.multiple, s2, n + 1) && t'.met.table == DupsBelow(v, n + 1)
  {
    hide AfterAll, InodeVisits, Passes, OthersSame, DupsBelow, ClaimsBelow, Marked;
    assert VisitsOf(v, n) == InodeVisits(v, v.inodes[n - 1]);
    OnePasses(v, t, t', n, r);
    if r != STOP {
      CountedOne(v, t, t', s, s1, s2, n);
    }
  }

  /** What phase 1 does with an inode in use. */
  method Phase1Inode(c: Checker, inum: nat) returns (r: Answer)
    requires c.Valid() && c.Ready(P1) && 1 <= inum <= |c.v.inodes| && InUse(c.v, inum)
    modifies c`inum, c`n_blks, c`badblk, c`dupblk, c`claims, c.dups, c.dups.duplist, c.blkmap.bytes, c.state
    ensures c.Valid() && c.Ready(P1)
    ensures old(CountedSoFar(c.v, c.Now(P1), c.dups.enddup, c.state[..], inum)) ==>
      (r != STOP <==> Passes(c.v, inum)) &&
      (r != STOP ==> CountedSoFar(c.v, c.Now(P1), c.dups.enddup, c.state[..], inum + 1))
  {
    hide Accounts, Fronted, ToSet, BlocksIn, Moved, InodeVisits, Passes, DupsBelow, Counted, OthersSame, Within, Formed;
    ghost var s, t0 := c.state[..], c.Now(P1);
    c.Select(inum);
    var dp := c.v.inodes[inum - 1];
    c.SetState(if dp.dir then DSTATE else FSTATE);
    c.badblk, c.dupblk := 0, 0;
    ghost var s1, t := c.state[..], c.Now(P1);
    AddrLength(c.v, inum - 1);
    r := c.CkInode(P1, dp);
    if old(CountedSoFar(c.v, c.Now(P1), c.dups.enddup, c.state[..], inum)) {
      assert t.claims == t0.claims && t.multiple == t0.multiple;
      InodeCounted(c.v, t, c.Now(P1), s, s1, c.state[..], inum, r);
    }
  }

  /** Phase 1; ok exactly when no inode reaches a limit. */
  method Phase1(c: Checker) returns (ok: bool)
    requires c.Valid() && c.Ready(P1) && c.claims == multiset{} && c.Now(P1).multiple == {} && c.dups.enddup == 0
    requires forall i | 0 <= i < c.state.Length :: c.state[i] == USTATE
    modifies c`inum, c`n_blks, c`badblk, c`dupblk, c`claims, c.dups, c.dups.duplist, c.blkmap.bytes, c.state
    ensures c.Valid() && c.Ready(P1)
    ensures ok <==> InLimits(c.v, |c.v.inodes| + 1)
    ensures ok ==> Counted(c.v, c.claims, c.Now(P1).multiple, c.state[..], |c.v.inodes| + 1)
  {
    hide Counted, Accounts, Fronted, ToSet, BlocksIn, InLimits, Passes, DupsBelow;
    ok := true;
    CountedAtFirst(c.v, c.state[..]);
    for inum := 1 to |c.v.inodes| + 1
      invariant c.Valid() && c.Ready(P1) && (ok <==> InLimits(c.v, inum))
      invariant ok ==> CountedSoFar(c.v, c.Now(P1), c.dups.enddup, c.state[..], inum)
    {
      OneMoreLimit(c.v, inum);
      if c.v.inodes[inum - 1].alloc && c.v.inodes[inum - 1].known {
        var r := Phase1Inode(c, inum);
        ok := ok && r != STOP;
      } else {
        NonePasses(c.v, inum);
        if ok {
          CountedNone(c.v, c.claims, c.Now(P1).multiple, c.state[..], inum);
        }
      }
    }
  }

  lemma CountedAtFirst(v: Volume, s: seq<State>)
    requires Formed(v) && |s| == |v.inodes| + 1 && forall i | 0 <= i < |s| :: s[i] == USTATE
    ensures Counted(v, multiset{}, {}, s, 1) && InLimits(v, 1) && DupsBelow(v, 1) == 0
  {
  }

  // ----- phase 1b

  /** Phase 1b has dealt with the inodes before number n: what it still looks for are the
      multiply claimed blocks it has not come upon. */
  ghost predicate Rescanned(v: Volume, claims: multiset<int>, multiple: set<int>, s: seq<State>, n: nat) {
    && Formed(v) && 1 <= n <= |v.inodes| + 1 == |s|
    && claims == AllClaims(v) && (forall b :: b in multiple <==> claims[b] >= 2 && b !in ClaimsBelow(v, n))
    && (forall i | 1 <= i < n :: StateOk(v, s[i], i, Condemned(v, i)))
    && (forall i | n <= i < |s| :: StateOk(v, s[i], i, Marked(v, i)))
  }

  /** Inode i is the first to claim b, which is claimed again. */
  ghost predicate FirstOfMany(v: Volume, i: nat, b: int)
    requires Formed(v) && 1 <= i <= |v.inodes|
  {
    AllClaims(v)[b] >= 2 && b !in ClaimsBelow(v, i)
  }

  /** What phase 1b adds to the marks of phase 1. */
  lemma MarkedOrFirst(v: Volume, i: nat)
    requires Formed(v) && 1 <= i <= |v.inodes|
    ensures Condemned(v, i) <==> Marked(v, i) || exists b :: b in VisitsOf(v, i) && FirstOfMany(v, i, b)
  {
    hide VisitsOf, Formed, ClaimsIn, InRange;
    var visits, n := VisitsOf(v, i), |v.inodes| + 1;
    assert ClaimsBelow(v, i + 1) == ClaimsBelow(v, i) + ClaimsIn(v, visits);
    if Condemned(v, i) {
      var b :| b in visits && (!InRange(v, b) || AllClaims(v)[b] >= 2);
      Claimed(v, visits, b);
      if InRange(v, b) && b in ClaimsBelow(v, i) {
        assert ClaimsBelow(v, i + 1)[b] >= 2;
      }
      assert Marked(v, i) || FirstOfMany(v, i, b);
    }
    if Marked(v, i) {
      var b :| b in visits && (!InRange(v, b) || ClaimsBelow(v, i + 1)[b] >= 2);
      ClaimsGrow(v, i + 1, n, b);
      assert !InRange(v, b) || AllClaims(v)[b] >= 2;
    }
  }

  lemma ClaimsAreValid(v: Volume, n: nat, b: int)
    requires Formed(v) && n <= |v.inodes| + 1 && b in ClaimsBelow(v, n)
    ensures InRange(v, b)
  {
    SomeoneClaims(v, n, b);
    var i: nat :| 1 <= i < n && Claims(v, i, b);
    Claimed(v, VisitsOf(v, i), b);
  }

  lemma RescanBegins(v: Volume, claims: multiset<int>, multiple: set<int>, s: seq<State>)
    requires Counted(v, claims, multiple, s, |v.inodes| + 1)
    ensures Rescanned(v, claims, multiple, s, 1)
  {
    hide Marked, Suspect, ClaimsIn;
  }

  lemma RescannedOne(v: Volume, t: Tally, t': Tally, s: seq<State>, s': seq<State>, n: nat)
    requires Rescanned(v, t.claims, t.multiple, s, n) && n <= |v.inodes| && InUse(v, n)
    requires OthersSame(s, s', n) && t.clear == (s[n] == CLEAR) && t'.clear == (s'[n] == CLEAR)
    requires t' == AfterAll(v, P1b, t, InodeVisits(v, v.inodes[n - 1]))
    ensures Rescanned(v, t'.claims, t'.multiple, s', n + 1)
  {
    hide AfterAll, InodeVisits, ClaimsIn, Suspect, Formed, Marked, Condemned;
    var visits := VisitsOf(v, n);
    forall b | b in t.multiple
      ensures InRange(v, b)
    {
      ClaimsAreValid(v, |v.inodes| + 1, b);
    }
    AfterPass1b(v, t, visits);
    assert ClaimsBelow(v, n + 1) == ClaimsBelow(v, n) + ClaimsIn(v, visits);
    forall b
      ensures b in t'.multiple <==> t'.claims[b] >= 2 && b !in ClaimsBelow(v, n + 1)
    {
      Claimed(v, visits, b);
      if t'.claims[b] >= 2 {
        ClaimsAreValid(v, |v.inodes| + 1, b);
      }
    }
    MarkedOrFirst(v, n);
    assert StateOk(v, s[n], n, Marked(v, n));
    assert forall b :: FirstOfMany(v, n, b) <==> b in t.multiple;
    assert s'[n] == CLEAR <==> Condemned(v, n);
    forall i | 1 <= i < n
      ensures StateOk(v, s'[i], i, Condemned(v, i))
    {
      assert StateOk(v, s[i], i, Condemned(v, i));
    }
    forall i | n < i < |s|
      ensures StateOk(v, s'[i], i, Marked(v, i))
    {
      assert StateOk(v, s[i], i, Marked(v, i));
    }
  }

  lemma RescannedNone(v: Volume, claims: multiset<int>, multiple: set<int>, s: seq<State>, n: nat)
    requires Rescanned(v, claims, multiple, s, n) && n <= |v.inodes| && !InUse(v, n)
    ensures Rescanned(v, claims, multiple, s, n + 1)
  {
    hide Marked, Condemned, Formed, ClaimsBelow, InUse;
    NoVisits(v, n);
    assert StateOk(v, s[n], n, Marked(v, n));
  }

  /** With nothing left to look for the remaining marks are those of phase 1. */
  lemma NothingMore(v: Volume, claims: multiset<int>, s: seq<State>, n: nat)
    requires Rescanned(v, claims, {}, s, n)
    ensures Rescanned(v, claims, {}, s, |v.inodes| + 1)
  {
    hide Marked, Condemned, ClaimsBelow, InUse;
    forall i | n <= i < |s|
      ensures StateOk(v, s[i], i, Condemned(v, i))
    {
      assert StateOk(v, s[i], i, Marked(v, i));
      MarkedOrFirst(v, i);
      forall b | FirstOfMany(v, i, b)
        ensures false
      {
        ClaimsGrow(v, n, i, b);
      }
    }
    forall b
      ensures !(claims[b] >= 2 && b !in ClaimsBelow(v, |v.inodes| + 1))
    {
    }
  }

  /** Phase 1b: after it exactly the condemned inodes are marked. */
  method Phase1b(c: Checker)
    requires c.Valid() && c.Ready(P1b)
    requires Counted(c.v, c.claims, c.Now(P1b).multiple, c.state[..], |c.v.inodes| + 1)
    modifies c`inum, c`n_blks, c`badblk, c`dupblk, c`claims, c.dups, c.dups.duplist, c.blkmap.bytes, c.state
    ensures c.Valid() && c.claims == AllClaims(c.v)
    ensures forall i | 1 <= i < c.state.Length :: StateOk(c.v, c.state[i], i, Condemned(c.v, i))
  {
    hide Counted, Rescanned, Accounts, NoneTwice, ToSet, BlocksIn, Moved, AfterAll, InodeVisits, Condemned;
    RescanBegins(c.v, c.claims, c.Now(P1b).multiple, c.state[..]);
    if c.dups.enddup != 0 {
      for inum := 1 to |c.v.inodes| + 1
        invariant c.Valid() && c.Ready(P1b)
        invariant Rescanned(c.v, c.claims, c.Now(P1b).multiple, c.state[..], inum)
      {
        ghost var s := c.state[..];
        RescannedState(c.v, c.claims, c.Now(P1b).multiple, s, inum);
        if c.state[inum] != USTATE {
          c.Select(inum);
          ghost var t := c.Now(P1b);
          var dp := c.v.inodes[inum - 1];
          var r := c.CkInode(P1b, dp);
          MovedInAll(c.v, t, c.Now(P1b), InodeVisits(c.v, dp), r);
          RescannedOne(c.v, t, c.Now(P1b), s, c.state[..], inum);
          if r == STOP {
            NothingMore(c.v, c.claims, c.state[..], inum + 1);
            RescanEnds(c.v, c.claims, {}, c.state[..]);
            return;
          }
        } else {
          RescannedNone(c.v, c.claims, c.Now(P1b).multiple, s, inum);
        }
      }
      RescanEnds(c.v, c.claims, c.Now(P1b).multiple, c.state[..]);
    } else {
      EmptyTable(c.dups.Entries(), c.dups.muldup);
      NothingMore(c.v, c.claims, c.state[..], 1);
      RescanEnds(c.v, c.claims, {}, c.state[..]);
    }
  }

  lemma EmptyTable(d: seq<int>, mul: nat)
    requires d == [] && mul <= |d|
    ensures ToSet(d[..mul]) == {}
  {
  }

  lemma RescannedState(v: Volume, claims: multiset<int>, multiple: set<int>, s: seq<State>, n: nat)
    requires Rescanned(v, claims, multiple, s, n) && n <= |v.inodes|
    ensures s[n] == USTATE <==> !InUse(v, n)
  {
    assert StateOk(v, s[n], n, Marked(v, n));
  }

  lemma RescanEnds(v: Volume, claims: multiset<int>, multiple: set<int>, s: seq<State>)
    requires Rescanned(v, claims, multiple, s, |v.inodes| + 1)
    ensures claims == AllClaims(v) && forall i | 1 <= i < |s| :: StateOk(v, s[i], i, Condemned(v, i))
  {
  }

  lemma MovedInAll(v: Volume, t: Tally, t': Tally, visits: seq<int>, r: Answer)
    requires Moved(v, P1b, t, t', visits, r)
    ensures t' == AfterAll(v, P1b, t, visits) && (r == STOP ==> t'.multiple == {})
  {
  }

  // ----- clearing inodes

  /** The claims of the inodes below number n that have not been cleared. */
  function LiveBelow(v: Volume, cleared: set<nat>, n: nat): multiset<int>
    requires Formed(v) && n <= |v.inodes| + 1
  {
    if n <= 1 then multiset{}
    else LiveBelow(v, cleared, n - 1) + if n - 1 in cleared then multiset{} else ClaimsIn(v, VisitsOf(v, n - 1))
  }

  function LiveClaims(v: Volume, cleared: set<nat>): multiset<int>
    requires Formed(v)
  {
    LiveBelow(v, cleared, |v.inodes| + 1)
  }

  lemma {:induction false} AllAreLive(v: Volume, n: nat)
    requires Formed(v) && n <= |v.inodes| + 1
    ensures LiveBelow(v, {}, n) == ClaimsBelow(v, n)
  {
    if n > 1 {
      AllAreLive(v, n - 1);
    }
  }

  lemma {:induction false} OneLessLive(v: Volume, cleared: set<nat>, i: nat, n: nat)
    requires Formed(v) && n <= |v.inodes| + 1 && 1 <= i <= |v.inodes| && i !in cleared
    ensures LiveBelow(v, cleared, n) ==
            LiveBelow(v, cleared + {i}, n) + if i < n then ClaimsIn(v, VisitsOf(v, i)) else multiset{}
  {
    hide ClaimsIn, VisitsOf, Formed;
    if n > 1 {
      OneLessLive(v, cleared, i, n - 1);
    }
  }

  /** clri(), the answer being yes: whatever inode is cleared, the tables still count the
      claims of the others. */
  method Clri(c: Checker, i: nat, ghost cleared: set<nat>)
    requires c.Valid() && 1 <= i <= |c.v.inodes| && i !in cleared && c.claims == LiveClaims(c.v, cleared)
    modifies c`inum, c`n_blks, c`badblk, c`dupblk, c`claims, c.dups, c.dups.duplist, c.blkmap.bytes, c.state
    ensures c.Valid() && c.claims == LiveClaims(c.v, cleared + {i})
    ensures c.state[..] == old(c.state[..])
  {
    hide Accounts, ToSet, BlocksIn, Moved, AfterAll, InodeVisits, LiveClaims, OthersSame;
    c.Select(i);
    LiveWithout(c.v, cleared, i);
    var dp := c.v.inodes[i - 1];
    if dp.alloc && dp.known {
      ghost var t, s := c.Now(P4), c.state[..];
      var r := c.CkInode(P4, dp);
      MovedUnstopped(c.v, t, c.Now(P4), InodeVisits(c.v, dp), r);
      AfterPass4(c.v, t, VisitsOf(c.v, i));
      StatesKept(s, c.state[..], i);
    } else {
      NoVisits(c.v, i);
    }
  }

  lemma MovedUnstopped(v: Volume, t: Tally, t': Tally, visits: seq<int>, r: Answer)
    requires Moved(v, P4, t, t', visits, r)
    ensures t' == AfterAll(v, P4, t, visits)
  {
  }

  lemma StatesKept(s: seq<State>, s': seq<State>, i: nat)
    requires OthersSame(s, s', i) && i < |s| && (s[i] == CLEAR <==> s'[i] == CLEAR)
    ensures s == s'
  {
  }

  lemma OneTakenOff(all: multiset<int>, rest: multiset<int>, x: multiset<int>)
    requires all == rest + x
    ensures rest == all - x && (x == multiset{} ==> rest == all)
  {
  }

  lemma NoClaimsIn(v: Volume)
    ensures ClaimsIn(v, []) == multiset{}
  {
  }

  lemma LiveWithout(v: Volume, cleared: set<nat>, i: nat)
    requires Formed(v) && 1 <= i <= |v.inodes| && i !in cleared
    ensures LiveClaims(v, cleared + {i}) == LiveClaims(v, cleared) - ClaimsIn(v, VisitsOf(v, i))
    ensures VisitsOf(v, i) == [] ==> LiveClaims(v, cleared + {i}) == LiveClaims(v, cleared)
  {
    hide LiveBelow, ClaimsIn, VisitsOf, Formed;
    OneLessLive(v, cleared, i, |v.inodes| + 1);
    OneTakenOff(LiveClaims(v, cleared), LiveClaims(v, cleared + {i}), ClaimsIn(v, VisitsOf(v, i)));
    NoClaimsIn(v);
  }

  // ----- phases 2 and 4

  /** Phase 2 as far as the root is concerned: a condemned root is kept, the answer being yes, and
      scanned like any directory.  false is the complaint about a root not allocated. */
  method Phase2(c: Checker) returns (ok: bool)
    requires c.Valid() && ROOTINO < c.state.Length
    modifies c`inum, c.state
    ensures ok <==> old(c.state[ROOTINO]) != USTATE
    ensures c.Valid() && c.state[..] == if ok then old(c.state[..])[ROOTINO := FSTATE] else old(c.state[..])
  {
    c.Select(ROOTINO);
    match c.state[ROOTINO] {
      case USTATE => return false;
      case FSTATE => c.SetState(DSTATE);
      case DSTATE =>
      case CLEAR => c.SetState(DSTATE);
    }
    c.SetState(FSTATE);
    return true;
  }

  /** Phase 4 clears inode i: it is condemned and not the root, or else its references are not
      in order, as `unref` tells of it. */
  ghost predicate Clears(v: Volume, unref: nat -> bool, i: nat)
    requires Formed(v) && 1 <= i <= |v.inodes|
  {
    if i != ROOTINO && Condemned(v, i) then true else InUse(v, i) && unref(i)
  }

  /** What phase 4 clears below number n: it starts at the root. */
  ghost function ToClear(v: Volume, unref: nat -> bool, n: nat): set<nat>
    requires Formed(v) && n <= |v.inodes| + 1
  {
    set i: nat | ROOTINO <= i < n && Clears(v, unref, i)
  }

  /** The claims that are left after phase 4. */
  ghost function Left(v: Volume, unref: nat -> bool): multiset<int>
    requires Formed(v)
  {
    LiveClaims(v, ToClear(v, unref, |v.inodes| + 1))
  }

  /** The states that phase 4 finds: phase 2 has changed that of the root. */
  ghost predicate Judged(v: Volume, s: seq<State>) {
    && Formed(v) && |s| == |v.inodes| + 1
    && (forall i | 1 <= i < |s| :: StateOk(v, s[i], i, i != ROOTINO && Condemned(v, i)))
  }

  lemma RootIsKept(v: Volume, s: seq<State>)
    requires Formed(v) && ROOTINO < |s| == |v.inodes| + 1 && s[ROOTINO] != USTATE
    requires forall i | 1 <= i < |s| :: StateOk(v, s[i], i, Condemned(v, i))
    ensures Judged(v, s[ROOTINO := FSTATE])
  {
    hide Condemned, Formed;
    assert StateOk(v, s[ROOTINO], ROOTINO, Condemned(v, ROOTINO));
    var s' := s[ROOTINO := FSTATE];
    forall i | 1 <= i < |s'|
      ensures StateOk(v, s'[i], i, i != ROOTINO && Condemned(v, i))
    {
      assert StateOk(v, s[i], i, Condemned(v, i));
    }
  }

  /** Phase 4 with every answer yes.  Which inodes it clears for their references is for the path
      phases to say; those marked CLEAR it clears in any case. */
  method Phase4(c: Checker, unref: nat -> bool)
    requires c.Valid() && c.claims == AllClaims(c.v) && Judged(c.v, c.state[..])
    modifies c`inum, c`n_blks, c`badblk, c`dupblk, c`claims, c.dups, c.dups.duplist, c.blkmap.bytes, c.state
    ensures c.Valid() && c.claims == Left(c.v, unref)
  {
    hide Formed, Accounts, ToSet, BlocksIn, LiveClaims, Condemned, Judged;
    ghost var s, cleared: set<nat> := c.state[..], {};
    AllLiveAtFirst(c.v);
    var inum := ROOTINO;
    while inum <= |c.v.inodes|
      invariant ROOTINO <= inum && (inum <= |c.v.inodes| + 1 || |c.v.inodes| < ROOTINO)
      invariant c.Valid() && c.state[..] == s && c.claims == LiveClaims(c.v, cleared)
      invariant forall i: nat :: i in cleared <==> ROOTINO <= i < inum && i <= |c.v.inodes| && Clears(c.v, unref, i)
    {
      StateTells(c.v, s, unref, inum);
      if c.state[inum] == CLEAR || (c.state[inum] != USTATE && unref(inum)) {
        Clri(c, inum, cleared);
        cleared := cleared + {inum};
      }
      inum := inum + 1;
    }
    assert cleared == ToClear(c.v, unref, |c.v.inodes| + 1);
    assert LiveClaims(c.v, cleared) == Left(c.v, unref);
  }

  lemma StateTells(v: Volume, s: seq<State>, unref: nat -> bool, i: nat)
    requires Judged(v, s) && 1 <= i <= |v.inodes|
    ensures i < |s| && (s[i] == CLEAR || (s[i] != USTATE && unref(i)) <==> Clears(v, unref, i))
  {
    hide Condemned;
    assert StateOk(v, s[i], i, i != ROOTINO && Condemned(v, i));
  }

  lemma AllLiveAtFirst(v: Volume)
    requires Formed(v)
    ensures LiveClaims(v, {}) == AllClaims(v)
  {
    AllAreLive(v, |v.inodes| + 1);
  }

  // ----- what is left

  /** The inodes that are there to stay whatever they claim: number 1, where phase 4 does not
      look, and the root, unless its references are not in order. */
  predicate Kept(v: Volume, unref: nat -> bool, i: nat)
    requires 1 <= i <= |v.inodes|
  {
    i == 1 || (i == ROOTINO && !(InUse(v, i) && unref(i)))
  }

  ghost function KeptBelow(v: Volume, unref: nat -> bool, n: nat): multiset<int>
    requires Formed(v) && n <= |v.inodes| + 1
  {
    if n <= 1 then multiset{}
    else KeptBelow(v, unref, n - 1) + if Kept(v, unref, n - 1) then ClaimsIn(v, VisitsOf(v, n - 1)) else multiset{}
  }

  /** The claims of inode 1 and of the root. */
  ghost function KeptClaims(v: Volume, unref: nat -> bool): multiset<int>
    requires Formed(v)
  {
    KeptBelow(v, unref, |v.inodes| + 1)
  }

  /** A block claimed twice is left to the inodes that are kept, and only to them; so it ends up
      claimed twice exactly when these claim it twice. */
  lemma OneClaimEach(v: Volume, unref: nat -> bool, b: int)
    requires Formed(v)
    ensures AllClaims(v)[b] >= 2 ==> Left(v, unref)[b] == KeptClaims(v, unref)[b]
    ensures Left(v, unref)[b] >= 2 <==> KeptClaims(v, unref)[b] >= 2
  {
    hide Formed, InRange, VisitsOf, ClaimsIn;
    var cleared, n := ToClear(v, unref, |v.inodes| + 1), |v.inodes| + 1;
    FewerLive(v, cleared, n, b);
    FewerKept(v, unref, n, b);
    if AllClaims(v)[b] >= 2 {
      forall i: nat | 1 <= i < n && b in ClaimsIn(v, VisitsOf(v, i))
        ensures i in cleared <==> !Kept(v, unref, i)
      {
        Claimed(v, VisitsOf(v, i), b);
        assert Condemned(v, i);
        ClaimantInUse(v, i, b);
      }
      LiveIsKept(v, unref, cleared, n, b);
    }
  }

  lemma ClaimantInUse(v: Volume, i: nat, b: int)
    requires Formed(v) && 1 <= i <= |v.inodes| && b in ClaimsIn(v, VisitsOf(v, i))
    ensures InUse(v, i)
  {
    NoClaimsIn(v);
  }

  lemma {:induction false} LiveIsKept(v: Volume, unref: nat -> bool, cleared: set<nat>, n: nat, b: int)
    requires Formed(v) && n <= |v.inodes| + 1
    requires forall i: nat | 1 <= i < n && b in ClaimsIn(v, VisitsOf(v, i)) :: i in cleared <==> !Kept(v, unref, i)
    ensures LiveBelow(v, cleared, n)[b] == KeptBelow(v, unref, n)[b]
  {
    hide ClaimsIn, VisitsOf, Formed, Kept;
    if n > 1 {
      LiveIsKept(v, unref, cleared, n - 1, b);
    }
  }

  lemma {:induction false} FewerKept(v: Volume, unref: nat -> bool, n: nat, b: int)
    requires Formed(v) && n <= |v.inodes| + 1
    ensures KeptBelow(v, unref, n)[b] <= ClaimsBelow(v, n)[b]
  {
    hide ClaimsIn, VisitsOf, Formed, Kept;
    if n > 1 {
      FewerKept(v, unref, n - 1, b);
    }
  }

  lemma {:induction false} FewerLive(v: Volume, cleared: set<nat>, n: nat, b: int)
    requires Formed(v) && n <= |v.inodes| + 1
    ensures LiveBelow(v, cleared, n)[b] <= ClaimsBelow(v, n)[b]
  {
    if n > 1 {
      FewerLive(v, cleared, n - 1, b);
    }
  }

  // ----- the same in terms of the places of an inode

  /** An inode is condemned for a place that refers to an invalid block, or to one that is referred to
      from another place as well. */
  lemma CondemnedByPlaces(v: Volume, i: nat)
    requires Formed(v) && 1 <= i <= |v.inodes|
    ensures Condemned(v, i) <==>
            exists b :: FsckPlaces.Refers(v, i, b) &&
              (!(v.fmin <= b < v.fmax) || FsckPlaces.ReferredTwice(v, |v.inodes| + 1, b))
  {
    hide VisitsOf, ClaimsBelow, FsckPlaces.Refers, FsckPlaces.ReferredTwice, Formed;
    forall b
      ensures b in VisitsOf(v, i) <==> FsckPlaces.Refers(v, i, b)
      ensures v.fmin <= b < v.fmax ==> (AllClaims(v)[b] >= 2 <==> FsckPlaces.ReferredTwice(v, |v.inodes| + 1, b))
    {
      FsckPlaces.VisitedIsReferred(v, i, b);
      if v.fmin <= b < v.fmax {
        FsckPlaces.ClaimedTwice(v, |v.inodes| + 1, b);
      }
    }
  }

  /** Inode i is there after phase 4 and refers to block b. */
  ghost predicate Holds(v: Volume, unref: nat -> bool, i: nat, b: int)
    requires Formed(v)
  {
    FsckPlaces.Refers(v, i, b) && !(i >= 2 && Clears(v, unref, i))
  }

  /** The blocks in use are the valid ones that an inode refers to that is there. */
  lemma LeftByPlaces(v: Volume, unref: nat -> bool, b: int)
    requires Formed(v)
    ensures b in Left(v, unref) <==> v.fmin <= b < v.fmax && exists i: nat :: Holds(v, unref, i, b)
  {
    hide Formed, LiveBelow, Clears, ClaimsIn, VisitsOf, FsckPlaces.Refers;
    var n, cleared := |v.inodes| + 1, ToClear(v, unref, |v.inodes| + 1);
    SomeoneLives(v, cleared, n, b);
    forall i: nat | 1 <= i < n
      ensures Claims(v, i, b) <==> FsckPlaces.Refers(v, i, b) && InRange(v, b)
    {
      Claimed(v, VisitsOf(v, i), b);
      FsckPlaces.VisitedIsReferred(v, i, b);
    }
    forall i: nat
      ensures FsckPlaces.Refers(v, i, b) ==> 1 <= i < n
    {
      RefersFromInode(v, i, b);
    }
    if b in Left(v, unref) {
      var i: nat :| 1 <= i < n && i !in cleared && Claims(v, i, b);
      assert Holds(v, unref, i, b);
    }
    if i: nat :| Holds(v, unref, i, b) && v.fmin <= b < v.fmax {
      assert i !in cleared && Claims(v, i, b);
    }
  }

  lemma RefersFromInode(v: Volume, i: nat, b: int)
    requires Formed(v)
    ensures FsckPlaces.Refers(v, i, b) ==> 1 <= i <= |v.inodes|
  {
  }

  lemma {:induction false} SomeoneLives(v: Volume, cleared: set<nat>, n: nat, blk: int)
    requires Formed(v) && n <= |v.inodes| + 1
    ensures blk in LiveBelow(v, cleared, n) <==> exists i: nat :: 1 <= i < n && i !in cleared && Claims(v, i, blk)
  {
    hide ClaimsIn, VisitsOf, Formed;
    if n > 1 {
      SomeoneLives(v, cleared, n - 1, blk);
      if n - 1 !in cleared && Claims(v, n - 1, blk) {
        assert blk in LiveBelow(v, cleared, n);
      }
    }
  }

  /** The phases together.  When no limit is reached and there is a root: bit map and table end
      up counting the claims of the inodes that are left.  The table is empty exactly when inode 1 and
      the root claim no block twice; then the map has just the blocks in use, each with one owner. */
  method CheckBlocks(v: Volume, unref: nat -> bool) returns (c: Checker, ok: bool)
    requires Formed(v) && ROOTINO <= |v.inodes|
    ensures c.Valid() && c.v == v
    ensures ok <==> InLimits(v, |v.inodes| + 1) && InUse(v, ROOTINO)
    ensures ok ==> c.claims == Left(v, unref) && c.n_blks == |c.blkmap.Blocks()|
    ensures ok ==> forall b: nat :: b in c.blkmap.Blocks() <==> b in Left(v, unref)
    ensures ok ==> forall b: nat ::
              b in c.blkmap.Blocks() <==> v.fmin <= b < v.fmax && exists i: nat :: Holds(v, unref, i, b)
    ensures ok ==> (c.dups.enddup == 0 <==> forall b :: KeptClaims(v, unref)[b] <= 1)
    ensures ok ==> (c.dups.enddup == 0 <==> forall b :: Left(v, unref)[b] <= 1)
  {
    hide Accounts, ToSet, BlocksIn, Condemned, LiveClaims, Counted, Judged, Kept, Left, KeptClaims, InLimits, StateOk, Holds;
    c := new Checker(v);
    ok := Phase1(c);
    if ok {
      Phase1b(c);
      ghost var s := c.state[..];
      RootInUse(v, s);
      ok := Phase2(c);
      if ok {
        RootIsKept(v, s);
        Phase4(c, unref);
        SameTwice(v, unref);
        AllByPlaces(v, unref);
        TableTells(v, c.claims, c.blkmap.Blocks(), c.dups.Entries());
      }
    }
  }

  lemma AllByPlaces(v: Volume, unref: nat -> bool)
    requires Formed(v)
    ensures forall b: nat :: b in Left(v, unref) <==> v.fmin <= b < v.fmax && exists i: nat :: Holds(v, unref, i, b)
  {
    hide Left, Holds, Formed;
    forall b: nat
      ensures b in Left(v, unref) <==> v.fmin <= b < v.fmax && exists i: nat :: Holds(v, unref, i, b)
    {
      LeftByPlaces(v, unref, b);
    }
  }

  lemma RootInUse(v: Volume, s: seq<State>)
    requires Formed(v) && ROOTINO < |s| == |v.inodes| + 1
    requires forall i | 1 <= i < |s| :: StateOk(v, s[i], i, Condemned(v, i))
    ensures s[ROOTINO] != USTATE <==> InUse(v, ROOTINO)
  {
    hide Condemned, Formed;
    assert StateOk(v, s[ROOTINO], ROOTINO, Condemned(v, ROOTINO));
  }

  lemma SameTwice(v: Volume, unref: nat -> bool)
    requires Formed(v)
    ensures (forall b :: Left(v, unref)[b] <= 1) <==> (forall b :: KeptClaims(v, unref)[b] <= 1)
  {
    hide Left, KeptClaims, Formed;
    forall b
      ensures Left(v, unref)[b] >= 2 <==> KeptClaims(v, unref)[b] >= 2
    {
      OneClaimEach(v, unref, b);
    }
  }

  lemma Twofold(v: Volume, claims: multiset<int>, blocks: set<nat>, d: seq<int>, b: int)
    requires Accounts(v, claims, blocks, d) && b in d
    ensures claims[b] >= 2
  {
    assert b in multiset(d) && InRange(v, b);
    assert claims[b] == 1 + multiset(d)[b];
  }

  lemma TableTells(v: Volume, claims: multiset<int>, blocks: set<nat>, d: seq<int>)
    requires Accounts(v, claims, blocks, d)
    ensures d == [] <==> forall b :: claims[b] <= 1
    ensures forall b: nat :: b in blocks <==> b in claims
  {
    if d != [] {
      Twofold(v, claims, blocks, d, d[0]);
    }
    forall b: nat
      ensures b in blocks <==> b in claims
    {
      assert b in claims <==> claims[b] > 0;
    }
  }

  // ----- a root that claims a block twice

  lemma {:induction false} NoMoreVisits(v: Volume, e: seq<int>, n: nat)
    requires n <= |e| && forall i | n <= i < |e| :: e[i] == 0
    ensures EntryVisits(v, e, 0) == EntryVisits(v, e[..n], 0)
    decreases |e|
  {
    if n < |e| {
      NoMoreVisits(v, e[..|e| - 1], n);
      assert e[..|e| - 1][..n] == e[..n];
    } else {
      assert e[..n] == e;
    }
  }

  lemma TwoVisits(v: Volume, b: nat)
    requires b > 0
    ensures EntryVisits(v, [b, b], 0) == [b, b]
  {
    hide BlockVisits;
    assert [b, b][..1] == [b] && [b][..0] == [];
    assert EntryVisits(v, [], 0) == [];
    assert EntryVisits(v, [b], 0) == [b];
  }

  lemma NoIndirect(v: Volume, d: Inode)
    requires |d.addr| == NADDR && d.addr[NADDR - 3] == d.addr[NADDR - 2] == d.addr[NADDR - 1] == 0
    ensures IndirectUpto(v, d, 4) == []
  {
    hide BlockVisits;
    assert IndirectUpto(v, d, 1) == [];
    assert IndirectUpto(v, d, 2) == [];
    assert IndirectUpto(v, d, 3) == [];
  }

  lemma TwoClaims(v: Volume, b: nat)
    requires InRange(v, b)
    ensures ClaimsIn(v, [b, b])[b] == 2 && ClaimsIn(v, []) == multiset{}
  {
    assert [b, b][..1] == [b] && [b][..0] == [];
    assert ClaimsIn(v, [b]) == multiset{b};
  }

  /** The volume has two inodes, number 1 not in use, the root with block b twice. */
  ghost predicate Doubled(v: Volume, b: nat) {
    && Formed(v) && |v.inodes| == ROOTINO && InRange(v, b) && b > 0 && !InUse(v, 1) && InUse(v, ROOTINO)
    && (var d := v.inodes[1]; !d.special && d.addr[0] == d.addr[1] == b && forall k | 2 <= k < NADDR :: d.addr[k] == 0)
  }

  function DoubledVolume(b: nat): Volume {
    Volume(b, b + 1, [Inode(false, false, false, false, seq(NADDR, _ => 0)),
                      Inode(true, true, false, true, [b, b] + seq(NADDR - 2, _ => 0))], _ => seq(NINDIR, _ => 0))
  }

  lemma DoubledExists(b: nat)
    requires b > 0
    ensures Doubled(DoubledVolume(b), b)
  {
  }

  lemma DoubledVisits(v: Volume, b: nat)
    requires Doubled(v, b)
    ensures VisitsOf(v, 1) == [] && VisitsOf(v, ROOTINO) == [b, b]
  {
    hide EntryVisits, IndirectUpto, Formed;
    var d := v.inodes[1];
    assert |d.addr| == NADDR by { AddrLength(v, 1); }
    var e := d.addr[..NADDR - 3];
    NoMoreVisits(v, e, 2);
    assert e[..2] == [b, b];
    TwoVisits(v, b);
    NoIndirect(v, d);
  }

  lemma AddrLength(v: Volume, i: nat)
    requires Formed(v) && i < |v.inodes|
    ensures |v.inodes[i].addr| == NADDR
  {
  }

  predicate Never(i: nat) { false }

  /** The root is kept, and the block stays claimed twice. */
  lemma RootMayKeepDuplicate(b: nat) returns (v: Volume)
    requires b > 0
    ensures Doubled(v, b) && Condemned(v, ROOTINO)
    ensures AllClaims(v)[b] == Left(v, Never)[b] == KeptClaims(v, Never)[b] == 2
  {
    v := DoubledVolume(b);
    DoubledExists(b);
    hide VisitsOf, ClaimsIn, DoubledVolume, Left;
    DoubledVisits(v, b);
    TwoClaims(v, b);
    assert ClaimsBelow(v, 1) == multiset{};
    assert ClaimsBelow(v, 2)[b] == 0;
    assert ClaimsBelow(v, 3)[b] == 2;
    assert b in VisitsOf(v, ROOTINO);
    assert KeptBelow(v, Never, 1) == multiset{};
    assert KeptBelow(v, Never, 2)[b] == 0;
    assert KeptBelow(v, Never, 3)[b] == 2;
    OneClaimEach(v, Never, b);
  }
}
