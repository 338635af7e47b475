/** diff.c as a whole: from two files to the changes that turn one into the other. */
module Diff {
  import opened DiffLcs
  import opened DiffSort
  import opened DiffEquiv
  import opened DiffMatch
  import DiffStone
  import DiffOutput
  import Options
  import opened Sequences

  /** The hash values of the lines, in order. */
  function Hashed(hash: string -> int, l: seq<string>): (f: seq<int>)
    ensures |f| == |l| && forall i | 0 <= i < |l| :: f[i] == hash(l[i])
  {
    seq(|l|, i requires 0 <= i < |l| => hash(l[i]))
  }

  /** Hashing confuses no line of one file with another line of the other. */
  ghost predicate NoneConfused(hash: string -> int, l0: seq<string>, l1: seq<string>) {
    forall i, j | 0 <= i < |l0| && 0 <= j < |l1| :: hash(l0[i]) == hash(l1[j]) ==> l0[i] == l1[j]
  }

  lemma {:induction false} LcsOfHashes(hash: string -> int, l0: seq<string>, l1: seq<string>)
    requires NoneConfused(hash, l0, l1)
    ensures Lcs(Hashed(hash, l0), Hashed(hash, l1)) == Lcs(l0, l1)
    decreases |l0| + |l1|
  {
    if l0 != [] && l1 != [] {
      assert Front(Hashed(hash, l0)) == Hashed(hash, Front(l0));
      assert Front(Hashed(hash, l1)) == Hashed(hash, Front(l1));
      LcsOfHashes(hash, Front(l0), Front(l1));
      LcsOfHashes(hash, Front(l0), l1);
      LcsOfHashes(hash, l0, Front(l1));
    }
  }

  /** prepare(): one entry for each line. */
  method Prepare(l: seq<string>, hash: string -> int) returns (file: array<Line>)
    ensures fresh(file) && Hashes(file[..], Hashed(hash, l))
  {
    file := new Line[|l| + 3];
    for i := 1 to |l| + 1
      invariant forall k | 1 <= k < i :: file[k].value == hash(l[k - 1])
    {
      file[i] := Line(0, hash(l[i - 1]));
    }
  }

  /** The matching of the hash values: as many pairs as there can be. */
  method Match(file0: array<Line>, len0: nat, file1: array<Line>, len1: nat, ghost f0: seq<int>, ghost f1: seq<int>)
    returns (J: array<nat>)
    requires Hashes(file0[..], f0) && Hashes(file1[..], f1) && len0 == |f0| && len1 == |f1|
    requires forall i | 0 <= i < |f1| :: f1[i] != 0
    ensures fresh(J) && J.Length == len0 + 2 && Matching(J[..], f0, f1) && Matched(J[..], len0) == Lcs(f0, f1)
  {
    var pref, suff, sfile0, sfile1 := Prune(file0, len0, file1, len1, f0, f1);
    ghost var a, b := Inner(f0, pref, suff), Inner(f1, pref, suff);
    var k, cands := Candidates(sfile0, len0 - pref - suff, sfile1, len1 - pref - suff, a, b);
    PruningKeepsLcs(f0, f1, pref, suff);
    J := new nat[len0 + 2];
    Unravel(J, cands.clist, cands.klist[k], len0, len1, pref, suff, f0, f1, k);
  }

  /** Sorting, classifying and the search for candidates. */
  method Candidates(sfile0: array<Line>, n: nat, sfile1: array<Line>, m: nat, ghost a: seq<int>, ghost b: seq<int>)
    returns (k: nat, cands: DiffStone.Candidates)
    requires sfile0 != sfile1 && sfile0.Length == n + 2 && sfile1.Length == m + 2 && n == |a| && m == |b|
    requires Numbered(sfile0[..], a) && Numbered(sfile1[..], b) && forall i | 0 <= i < |b| :: b[i] != 0
    modifies sfile0, sfile1
    ensures fresh(cands) && fresh(cands.klist) && k == Lcs(a, b) && k < cands.klist.Length
    ensures DiffStone.Chain(a, b, cands.clist, cands.klist[k], k, n)
  {
    var cls, mem := Classes(sfile0, n, sfile1, m, a, b);
    cands := new DiffStone.Candidates(n);
    k := cands.Stone(cls, n, mem, a, b);
  }

  method Classes(sfile0: array<Line>, n: nat, sfile1: array<Line>, m: nat, ghost a: seq<int>, ghost b: seq<int>)
    returns (cls: seq<int>, mem: seq<int>)
    requires sfile0 != sfile1 && sfile0.Length == n + 2 && sfile1.Length == m + 2 && n == |a| && m == |b|
    requires Numbered(sfile0[..], a) && Numbered(sfile1[..], b) && forall i | 0 <= i < |b| :: b[i] != 0
    modifies sfile0, sfile1
    ensures DiffStone.Classified(a, b, cls, mem)
  {
    ghost var u0, u1 := sfile0[..], sfile1[..];
    Sort(sfile0, n);
    Sort(sfile1, m);
    ghost var s0, s1 := sfile0[..], sfile1[..];
    SortingKeepsLines(u0, s0, a);
    SortingKeepsLines(u1, s1, b);
    var member := new int[m + 2];
    Equiv(sfile0, n, sfile1, m, member);
    var class_ := new int[n + 2];
    Unsort(sfile0, n, class_);
    cls, mem := class_[..], member[..];
    ListsAreClasses(a, b, s0, s1, cls, mem);
  }

  // ----- the results

  /** What diff prints is right, and as small as the matching of the lines allows. */
  method Diff(l0: seq<string>, l1: seq<string>, hash: string -> int, opt: int) returns (hs: seq<DiffOutput.Change>)
    requires forall s :: hash(s) != 0
    ensures opt != -1 ==> DiffOutput.Ordered(hs, |l0|, |l1|) && DiffOutput.Patched(l0, l1, hs) == l1
    ensures opt == -1 ==> DiffOutput.Edited(l0, l1, hs) == Options.Some(l1)
    ensures if opt != -1 then DiffOutput.Apart(hs) else DiffOutput.ApartBackward(hs)
    ensures DiffOutput.Removed(hs) >= |l0| - Lcs(l0, l1) && DiffOutput.Added(hs) >= |l1| - Lcs(l0, l1)
    ensures NoneConfused(hash, l0, l1) ==>
              DiffOutput.Removed(hs) == |l0| - Lcs(l0, l1) && DiffOutput.Added(hs) == |l1| - Lcs(l0, l1)
    ensures l0 == l1 <==> hs == []
  {
    hide Lcs, NoneConfused, Matching, Matched;
    hide DiffOutput.Ordered, DiffOutput.Patched, DiffOutput.Edited, DiffOutput.Removed, DiffOutput.Added, DiffOutput.Checked,
         DiffOutput.Apart, DiffOutput.ApartBackward;
    ghost var f0, f1 := Hashed(hash, l0), Hashed(hash, l1);
    var file0 := Prepare(l0, hash);
    var file1 := Prepare(l1, hash);
    var J := Match(file0, |l0|, file1, |l1|, f0, f1);
    ghost var J0 := J[..];
    DiffOutput.Check(J, l0, l1, f0, f1);
    ghost var J1 := J[..];
    AfterCheck(hash, l0, l1, J0, J1);
    J[0], J[|l0| + 1] := 0, |l1| + 1;
    assert DiffOutput.Fenced(J[..], J1, |l0|, |l1|);
    if opt != -1 {
      hs := DiffOutput.OutputForward(J, |l0|, |l1|, J1, l0, l1);
    } else {
      hs := DiffOutput.OutputBackward(J, |l0|, |l1|, J1, l0, l1);
    }
    NoChanges(l0, l1, hs, opt, J1);
  }

  /** How many pairs check() leaves. */
  lemma AfterCheck(hash: string -> int, l0: seq<string>, l1: seq<string>, J0: seq<nat>, J1: seq<nat>)
    requires Matching(J0, Hashed(hash, l0), Hashed(hash, l1)) && Matching(J1, l0, l1)
    requires Matched(J0, |l0|) == Lcs(Hashed(hash, l0), Hashed(hash, l1))
    requires DiffOutput.Checked(J1, J0, l0, l1, |l0|)
    ensures Matched(J1, |l0|) <= Lcs(l0, l1)
    ensures NoneConfused(hash, l0, l1) ==> Matched(J1, |l0|) == Lcs(l0, l1)
    ensures l0 == l1 ==> Matched(J1, |l0|) == |l0|
  {
    NoMoreMatched(J1, l0, l1);
    if NoneConfused(hash, l0, l1) {
      LcsOfHashes(hash, l0, l1);
      SameMatched(J0, J1, |l0|);
    }
    if l0 == l1 {
      LcsWithSelf(Hashed(hash, l0));
      AllPaired(J0, Hashed(hash, l0), |l0|);
      SameMatched(J0, J1, |l0|);
    }
  }

  /** In a file against itself as many pairs as lines leaves only one matching. */
  lemma {:induction false} AllPaired(J: seq<nat>, f: seq<int>, n: nat)
    requires Matching(J, f, f) && n <= |f| && Matched(J, n) == n && (n < |f| ==> J[n + 1] == n + 1)
    ensures forall i | 1 <= i <= n :: J[i] == i
  {
    if n > 0 {
      MatchedWithin(J, n - 1);
      NoneSkipped(J, f, n);
      AllPaired(J, f, n - 1);
    }
  }

  lemma {:induction false} MatchedWithin(J: seq<nat>, n: nat)
    requires n < |J|
    ensures Matched(J, n) <= n
    ensures Matched(J, n) == n ==> forall i | 1 <= i <= n :: J[i] != 0
  {
    if n > 0 {
      MatchedWithin(J, n - 1);
    }
  }

  /** Increasing numbers, none of them 0. */
  lemma {:induction false} NoneSkipped(J: seq<nat>, f: seq<int>, n: nat)
    requires Matching(J, f, f) && 0 < n <= |f| && Matched(J, n) == n && (n < |f| ==> J[n + 1] == n + 1)
    ensures J[n] == n
  {
    MatchedWithin(J, n);
    AtLeastIndex(J, n);
  }

  lemma {:induction false} AtLeastIndex(J: seq<nat>, n: nat)
    requires n < |J| && forall i | 1 <= i <= n :: J[i] != 0
    requires forall i, k | 1 <= i < k <= n :: J[i] < J[k]
    ensures n > 0 ==> J[n] >= n
  {
    if n > 0 {
      AtLeastIndex(J, n - 1);
    }
  }

  lemma NoChanges(l0: seq<string>, l1: seq<string>, hs: seq<DiffOutput.Change>, opt: int, J: seq<nat>)
    requires opt != -1 ==> DiffOutput.Ordered(hs, |l0|, |l1|) && DiffOutput.Patched(l0, l1, hs) == l1
    requires opt == -1 ==> DiffOutput.Edited(l0, l1, hs) == Options.Some(l1)
    requires |J| > |l0| && |hs| <= DiffOutput.Removed(hs) + DiffOutput.Added(hs)
    requires DiffOutput.Removed(hs) == |l0| - Matched(J, |l0|) && DiffOutput.Added(hs) == |l1| - Matched(J, |l0|)
    requires l0 == l1 ==> Matched(J, |l0|) == |l0|
    ensures l0 == l1 <==> hs == []
  {
    if hs == [] {
      assert DiffOutput.Ordered(hs, |l0|, |l1|) ==> DiffOutput.Patched(l0, l1, hs) == l0;
    }
  }

  /** One line for another is the change of line 1 to line 1. */
  method OneLine(hash: string -> int) returns (hs: seq<DiffOutput.Change>)
    requires (forall s :: hash(s) != 0) && hash("a") != hash("b")
    ensures hs == [DiffOutput.Change(1, 1, 1, 1)]
  {
    var l0, l1 := ["a"], ["b"];
    hs := Diff(l0, l1, hash, 0);
    assert Lcs(l0, l1) == 0;
    OneChange(hs);
  }

  lemma OneChange(hs: seq<DiffOutput.Change>)
    requires DiffOutput.Ordered(hs, 1, 1) && DiffOutput.Apart(hs) && hs != []
    requires DiffOutput.Removed(hs) == DiffOutput.Added(hs) == 1
    ensures hs == [DiffOutput.Change(1, 1, 1, 1)]
  {
    if |hs| == 1 {
      assert Front(hs) == [] && hs == [Last(hs)];
    }
  }
}
