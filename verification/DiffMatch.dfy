/** prune() and unravel() of diff.c: from the hashes of two files to the array J. */
module DiffMatch {
  import opened DiffLcs
  import opened DiffSort
  import opened DiffStone

  /** J[i] is the line of the second file paired with line i of the first, or 0. */
  ghost predicate Matching<T>(J: seq<nat>, f0: seq<T>, f1: seq<T>) {
    && |J| > |f0|
    && (forall i | 1 <= i <= |f0| && J[i] != 0 :: J[i] <= |f1| && f0[i - 1] == f1[J[i] - 1])
    && (forall i, k | 1 <= i < k <= |f0| && J[i] != 0 && J[k] != 0 :: J[i] < J[k])
  }

  /** How many of the lines 1 to n are paired. */
  function Matched(J: seq<nat>, n: nat): nat
    requires n < |J|
  {
    if n == 0 then 0 else Matched(J, n - 1) + if J[n] != 0 then 1 else 0
  }

  lemma {:induction false} OneMoreMatched(J: seq<nat>, n: nat, x: nat, v: nat)
    requires n < |J| && 0 < x < |J| && J[x] == 0 && v != 0
    ensures Matched(J[x := v], n) == Matched(J, n) + if x <= n then 1 else 0
  {
    if n > 0 {
      OneMoreMatched(J, n - 1, x, v);
    }
  }

  lemma {:induction false} SameMatched(J: seq<nat>, K: seq<nat>, n: nat)
    requires n < |J| && n < |K| && forall i | 1 <= i <= n :: J[i] == K[i]
    ensures Matched(J, n) == Matched(K, n)
  {
    if n > 0 {
      SameMatched(J, K, n - 1);
    }
  }

  /** A matching pairs no more lines than a longest common subsequence. */
  lemma {:induction false} MatchedIsCommon<T>(J: seq<nat>, f0: seq<T>, f1: seq<T>, n: nat) returns (p: seq<(nat, nat)>)
    requires Matching(J, f0, f1) && n <= |f0|
    ensures Common(p, f0, f1) && |p| == Matched(J, n)
    ensures forall k | 0 <= k < |p| :: p[k].0 <= n && p[k].1 == J[p[k].0]
  {
    if n == 0 {
      p := [];
    } else {
      p := MatchedIsCommon(J, f0, f1, n - 1);
      if J[n] != 0 {
        p := p + [(n, J[n])];
      }
    }
  }

  lemma NoMoreMatched<T>(J: seq<nat>, f0: seq<T>, f1: seq<T>)
    requires Matching(J, f0, f1)
    ensures Matched(J, |f0|) <= Lcs(f0, f1)
  {
    var p := MatchedIsCommon(J, f0, f1, |f0|);
    NoLonger(p, f0, f1);
  }

  // ----- prune()

  /** The two files agree in the first pref and the last suff lines, which do not overlap. */
  ghost predicate Pruned<T>(f0: seq<T>, f1: seq<T>, pref: nat, suff: nat) {
    && pref + suff <= |f0| && pref + suff <= |f1|
    && f0[..pref] == f1[..pref] && f0[|f0| - suff..] == f1[|f1| - suff..]
  }

  /** And in no more: what is left of one of them is empty, or differs in the first line and in the
      last. */
  ghost predicate Longest<T>(a: seq<T>, b: seq<T>) {
    a == [] || b == [] || (a[0] != b[0] && a[|a| - 1] != b[|b| - 1])
  }

  /** What is left between. */
  function Inner<T>(f: seq<T>, pref: nat, suff: nat): seq<T>
    requires pref + suff <= |f|
  {
    f[pref..|f| - suff]
  }

  lemma PruningKeepsLcs(f0: seq<int>, f1: seq<int>, pref: nat, suff: nat)
    requires Pruned(f0, f1, pref, suff)
    ensures Lcs(f0, f1) == pref + Lcs(Inner(f0, pref, suff), Inner(f1, pref, suff)) + suff
  {
    var x, z, a, b := f0[..pref], f0[|f0| - suff..], Inner(f0, pref, suff), Inner(f1, pref, suff);
    assert f0 == x + (a + z) && f1 == x + (b + z);
    CommonBeginning(x, a + z, b + z);
    CommonEnd(a, b, z);
  }

  ghost predicate Hashes(file: seq<Line>, f: seq<int>) {
    |file| > |f| && forall i | 1 <= i <= |f| :: file[i].value == f[i - 1]
  }

  /** The lines of a file between the common ends, numbered from 1. */
  method Middle(file: array<Line>, ghost f: seq<int>, pref: nat, slen: nat) returns (sfile: array<Line>)
    requires Hashes(file[..], f) && pref + slen <= |f|
    ensures fresh(sfile) && sfile.Length == slen + 2 && Numbered(sfile[..], f[pref..pref + slen])
  {
    sfile := new Line[slen + 2];
    for i := 0 to slen + 1
      invariant forall k | 0 <= k < i :: sfile[k] == Line(k, file[pref + k].value)
    {
      sfile[i] := file[pref + i].(serial := i);
    }
  }

  method Prune(file0: array<Line>, len0: nat, file1: array<Line>, len1: nat, ghost f0: seq<int>, ghost f1: seq<int>)
    returns (pref: nat, suff: nat, sfile0: array<Line>, sfile1: array<Line>)
    requires Hashes(file0[..], f0) && Hashes(file1[..], f1) && len0 == |f0| && len1 == |f1|
    ensures Pruned(f0, f1, pref, suff) && Longest(Inner(f0, pref, suff), Inner(f1, pref, suff))
    ensures fresh(sfile0) && sfile0.Length == len0 - pref - suff + 2 && Numbered(sfile0[..], Inner(f0, pref, suff))
    ensures fresh(sfile1) && sfile1.Length == len1 - pref - suff + 2 && Numbered(sfile1[..], Inner(f1, pref, suff))
    ensures sfile0 != sfile1
  {
    hide Numbered;
    pref := 0;
    while pref < len0 && pref < len1 && file0[pref + 1].value == file1[pref + 1].value
      invariant pref <= len0 && pref <= len1 && f0[..pref] == f1[..pref]
    {
      assert f0[..pref + 1] == f0[..pref] + [f0[pref]] && f1[..pref + 1] == f1[..pref] + [f1[pref]];
      pref := pref + 1;
    }
    suff := 0;
    while suff < len0 - pref && suff < len1 - pref && file0[len0 - suff].value == file1[len1 - suff].value
      invariant Pruned(f0, f1, pref, suff)
    {
      assert f0[len0 - suff - 1..] == [f0[len0 - suff - 1]] + f0[len0 - suff..];
      assert f1[len1 - suff - 1..] == [f1[len1 - suff - 1]] + f1[len1 - suff..];
      suff := suff + 1;
    }
    sfile0 := Middle(file0, f0, pref, len0 - pref - suff);
    sfile1 := Middle(file1, f1, pref, len1 - pref - suff);
  }

  // ----- unravel()

  /** J while unravel() follows a chain back: the matches of lines after pref + i are in, the
      rest of the middle is empty, and all that follow lie beyond y. */
  ghost predicate PartlyUnravelled(J: seq<nat>, f0: seq<int>, f1: seq<int>, pref: nat, suff: nat, i: nat, y: nat) {
    && Pruned(f0, f1, pref, suff) && pref + i + suff <= |f0| && Matching(J, f0, f1)
    && (forall k | 1 <= k <= pref :: J[k] == k)
    && (forall k | pref < k <= pref + i :: J[k] == 0)
    && (forall k | pref + i < k <= |f0| && J[k] != 0 :: J[k] > pref + y)
  }

  lemma EndsPaired(J: seq<nat>, f0: seq<int>, f1: seq<int>, pref: nat, suff: nat, y: nat)
    requires Pruned(f0, f1, pref, suff) && |J| > |f0| && pref + y + suff <= |f1|
    requires forall k | 0 <= k <= |f0| :: J[k] == EndPair(k, |f0|, |f1|, pref, suff)
    ensures PartlyUnravelled(J, f0, f1, pref, suff, |f0| - pref - suff, y)
  {
    forall k | 1 <= k <= |f0| && J[k] != 0
      ensures J[k] <= |f1| && f0[k - 1] == f1[J[k] - 1]
    {
      if k <= pref {
        assert f0[..pref][k - 1] == f1[..pref][k - 1];
      } else {
        var d := k - 1 - (|f0| - suff);
        assert f0[|f0| - suff..][d] == f1[|f1| - suff..][d];
      }
    }
  }

  lemma PairOne(J: seq<nat>, f0: seq<int>, f1: seq<int>, pref: nat, suff: nat, i: nat, x: nat, y: nat, y': nat)
    requires PartlyUnravelled(J, f0, f1, pref, suff, i, y) && 0 < x <= i && 0 < y && y' < y
    requires Partner(Inner(f0, pref, suff), Inner(f1, pref, suff), x, y)
    ensures PartlyUnravelled(J[pref + x := pref + y], f0, f1, pref, suff, x - 1, y')
    ensures Matched(J[pref + x := pref + y], |f0|) == Matched(J, |f0|) + 1
  {
    assert Inner(f0, pref, suff)[x - 1] == f0[pref + x - 1] && Inner(f1, pref, suff)[y - 1] == f1[pref + y - 1];
    OneMoreMatched(J, |f0|, pref + x, pref + y);
  }

  /** The value unravel() first gives J[i]. */
  function EndPair(i: nat, len0: nat, len1: nat, pref: nat, suff: nat): nat
    requires suff <= len0 && suff <= len1
  {
    if i <= pref then i else if i > len0 - suff then i + len1 - len0 else 0
  }

  lemma {:induction false} EndsCounted(J: seq<nat>, n: nat, len0: nat, len1: nat, pref: nat, suff: nat)
    requires n <= len0 && len0 < |J| && pref + suff <= len0 && suff <= len1
    requires forall k | 0 <= k <= len0 :: J[k] == EndPair(k, len0, len1, pref, suff)
    ensures Matched(J, n) == (if n <= pref then n else pref) + if n > len0 - suff then n - (len0 - suff) else 0
  {
    if n > 0 {
      EndsCounted(J, n - 1, len0, len1, pref, suff);
    }
  }

  method PairEnds(J: array<nat>, len0: nat, len1: nat, pref: nat, suff: nat)
    requires len0 < J.Length && suff <= len0 && suff <= len1
    modifies J
    ensures forall k | 0 <= k <= len0 :: J[k] == EndPair(k, len0, len1, pref, suff)
  {
    for i := 0 to len0 + 1
      invariant forall k | 0 <= k < i :: J[k] == EndPair(k, len0, len1, pref, suff)
    {
      J[i] := if i <= pref then i else if i > len0 - suff then i + len1 - len0 else 0;
    }
  }

  /** The loop of unravel(): r candidates are still to come, from q back. */
  ghost predicate Unravelling(J: seq<nat>, clist: seq<Cand>, q: nat, r: nat, i: nat, f0: seq<int>, f1: seq<int>,
                              pref: nat, suff: nat, total: nat) {
    && Pruned(f0, f1, pref, suff) && q < |clist|
    && Chain(Inner(f0, pref, suff), Inner(f1, pref, suff), clist, q, r, i)
    && PartlyUnravelled(J, f0, f1, pref, suff, i, clist[q].y)
    && Matched(J, |f0|) + r == total
  }

  lemma ChainBegins(J: seq<nat>, clist: seq<Cand>, q: nat, r: nat, f0: seq<int>, f1: seq<int>, pref: nat, suff: nat)
    requires |J| == |f0| + 2 && Pruned(f0, f1, pref, suff)
    requires Chain(Inner(f0, pref, suff), Inner(f1, pref, suff), clist, q, r, |f0| - pref - suff)
    requires forall k | 0 <= k <= |f0| :: J[k] == EndPair(k, |f0|, |f1|, pref, suff)
    ensures Unravelling(J, clist, q, r, |f0| - pref - suff, f0, f1, pref, suff, pref + r + suff)
  {
    EndsCounted(J, |f0|, |f0|, |f1|, pref, suff);
    EndsPaired(J, f0, f1, pref, suff, clist[q].y);
  }

  lemma ChainEnds(J: seq<nat>, clist: seq<Cand>, q: nat, r: nat, i: nat, f0: seq<int>, f1: seq<int>,
                  pref: nat, suff: nat, total: nat)
    requires Unravelling(J, clist, q, r, i, f0, f1, pref, suff, total) && clist[q].y == 0
    ensures Matching(J, f0, f1) && Matched(J, |f0|) == total
  {
  }

  lemma ChainStep(J: seq<nat>, clist: seq<Cand>, q: nat, r: nat, i: nat, f0: seq<int>, f1: seq<int>,
                  pref: nat, suff: nat, total: nat) returns (J': seq<nat>, r': nat, i': nat)
    requires Unravelling(J, clist, q, r, i, f0, f1, pref, suff, total) && clist[q].y != 0
    ensures pref + clist[q].x < |J| && clist[q].pred < q && J' == J[pref + clist[q].x := pref + clist[q].y]
    ensures Unravelling(J', clist, clist[q].pred, r', i', f0, f1, pref, suff, total)
  {
    hide Lcs;
    var d := clist[q];
    PairOne(J, f0, f1, pref, suff, i, d.x, d.y, clist[d.pred].y);
    J', r', i' := J[pref + d.x := pref + d.y], r - 1, d.x - 1;
  }

  method Pair(J: array<nat>, x: nat, y: nat)
    requires x < J.Length
    modifies J
    ensures J[..] == old(J[..])[x := y]
  {
    J[x] := y;
  }

  method Unravel(J: array<nat>, clist: seq<Cand>, p: nat, len0: nat, len1: nat, pref: nat, suff: nat,
                 ghost f0: seq<int>, ghost f1: seq<int>, ghost r: nat)
    requires len0 == |f0| && len1 == |f1| && J.Length == len0 + 2 && Pruned(f0, f1, pref, suff)
    requires Chain(Inner(f0, pref, suff), Inner(f1, pref, suff), clist, p, r, len0 - pref - suff)
    modifies J
    ensures Matching(J[..], f0, f1) && Matched(J[..], len0) == pref + r + suff
  {
    PairEnds(J, len0, len1, pref, suff);
    ChainBegins(J[..], clist, p, r, f0, f1, pref, suff);
    var q := p;
    ghost var r': nat, i: nat := r, len0 - pref - suff;
    while clist[q].y != 0
      invariant Unravelling(J[..], clist, q, r', i, f0, f1, pref, suff, pref + r + suff)
      decreases q
    {
      var d := clist[q];
      ghost var J';
      J', r', i := ChainStep(J[..], clist, q, r', i, f0, f1, pref, suff, pref + r + suff);
      Pair(J, d.x + pref, d.y + pref);
      assert J[..] == J';
      q := d.pred;
    }
    ChainEnds(J[..], clist, q, r', i, f0, f1, pref, suff, pref + r + suff);
  }
}
