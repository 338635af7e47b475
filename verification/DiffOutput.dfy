/** check(), output() and change() of diff.c: from the array J to the changes printed. */
module DiffOutput {
  import opened DiffMatch
  import opened Options
  import opened Sequences

  /** Lines a to b of the first file give way to lines c to d of the second. */
  datatype Change = Change(a: int, b: int, c: int, d: int)

  /** The change names lines that exist. */
  predicate Fits(h: Change, n0: nat, n1: nat) {
    1 <= h.a <= h.b + 1 <= n0 + 1 && 1 <= h.c <= h.d + 1 <= n1 + 1
  }

  // ----- what the changes mean: read in order, by the numbers of the first file

  /** The line of the first file after which the changes have nothing to say. */
  function End(hs: seq<Change>): int {
    if hs == [] then 0 else Last(hs).b
  }

  predicate Ordered(hs: seq<Change>, n0: nat, n1: nat): (r: bool)
    ensures r ==> 0 <= End(hs) <= n0
  {
    hs == [] || (Ordered(Front(hs), n0, n1) && Fits(Last(hs), n0, n1) && End(Front(hs)) < Last(hs).a)
  }

  /** The new file as far as the last change. */
  function Built<T>(f0: seq<T>, f1: seq<T>, hs: seq<Change>): seq<T>
    requires Ordered(hs, |f0|, |f1|)
  {
    if hs == [] then []
    else
      var h := Last(hs);
      Built(f0, f1, Front(hs)) + f0[End(Front(hs))..h.a - 1] + f1[h.c - 1..h.d]
  }

  function Patched<T>(f0: seq<T>, f1: seq<T>, hs: seq<Change>): seq<T>
    requires Ordered(hs, |f0|, |f1|)
  {
    Built(f0, f1, hs) + f0[End(hs)..]
  }

  // ----- as commands for an editor, one after the other on the lines as they are then

  function Edited<T>(f0: seq<T>, f1: seq<T>, hs: seq<Change>): Option<seq<T>> {
    if hs == [] then Some(f0)
    else
      match Edited(f0, f1, Front(hs))
      case None => None
      case Some(buf) =>
        var h := Last(hs);
        if Fits(h, |buf|, |f1|) then Some(buf[..h.a - 1] + f1[h.c - 1..h.d] + buf[h.b..]) else None
  }

  // ----- what stands between them

  /** Between two changes a line of either file is kept. */
  predicate Apart(hs: seq<Change>) {
    |hs| <= 1 ||
    var g, h := Last(Front(hs)), Last(hs);
    Apart(Front(hs)) && g.b + 1 < h.a && g.d + 1 < h.c
  }

  /** The same for changes from the end. */
  predicate ApartBackward(hs: seq<Change>) {
    |hs| <= 1 ||
    var g, h := Last(Front(hs)), Last(hs);
    ApartBackward(Front(hs)) && h.b + 1 < g.a && h.d + 1 < g.c
  }

  // ----- their size

  function Removed(hs: seq<Change>): int {
    if hs == [] then 0 else Removed(Front(hs)) + Last(hs).b - Last(hs).a + 1
  }

  function Added(hs: seq<Change>): int {
    if hs == [] then 0 else Added(Front(hs)) + Last(hs).d - Last(hs).c + 1
  }

  /** change(): an empty change is not printed. */
  function Printed(hs: seq<Change>, h: Change): seq<Change> {
    if h.a > h.b && h.c > h.d then hs else hs + [h]
  }

  lemma {:induction false} OneMoreChange<T>(f0: seq<T>, f1: seq<T>, hs: seq<Change>, h: Change)
    requires Ordered(hs, |f0|, |f1|) && Fits(h, |f0|, |f1|) && End(hs) < h.a
    ensures Ordered(hs + [h], |f0|, |f1|) && End(hs + [h]) == h.b
    ensures Built(f0, f1, hs + [h]) == Built(f0, f1, hs) + f0[End(hs)..h.a - 1] + f1[h.c - 1..h.d]
  {
    hide Ordered, Built, Fits, End;
    LastChange(f0, f1, hs, h, hs + [h]);
  }

  lemma {:induction false} LastChange<T>(f0: seq<T>, f1: seq<T>, hs: seq<Change>, h: Change, g: seq<Change>)
    requires g != [] && Front(g) == hs && Last(g) == h
    requires Ordered(hs, |f0|, |f1|) && Fits(h, |f0|, |f1|) && End(hs) < h.a
    ensures Ordered(g, |f0|, |f1|) && End(g) == h.b
    ensures Built(f0, f1, g) == Built(f0, f1, hs) + f0[End(hs)..h.a - 1] + f1[h.c - 1..h.d]
  {
  }

  lemma OneMoreEdit<T>(f0: seq<T>, f1: seq<T>, hs: seq<Change>, h: Change, buf: seq<T>)
    requires Edited(f0, f1, hs) == Some(buf) && Fits(h, |buf|, |f1|)
    ensures Edited(f0, f1, hs + [h]) == Some(buf[..h.a - 1] + f1[h.c - 1..h.d] + buf[h.b..])
  {
    assert Front(hs + [h]) == hs && Last(hs + [h]) == h;
  }

  lemma PrintedSize(hs: seq<Change>, h: Change)
    requires h.a <= h.b + 1 && h.c <= h.d + 1
    ensures Removed(Printed(hs, h)) == Removed(hs) + h.b - h.a + 1
    ensures Added(Printed(hs, h)) == Added(hs) + h.d - h.c + 1
    ensures |hs| <= Removed(hs) + Added(hs) ==> |Printed(hs, h)| <= Removed(Printed(hs, h)) + Added(Printed(hs, h))
  {
    assert Front(hs + [h]) == hs && Last(hs + [h]) == h;
  }

  // ----- check()

  /** Pairs of lines that differ after all are taken out. */
  ghost predicate Checked<T>(J: seq<nat>, J0: seq<nat>, f0: seq<T>, f1: seq<T>, n: nat) {
    && |J| == |J0| > |f0|
    && forall i | 1 <= i <= |f0| ::
         J[i] == if i <= n && J0[i] != 0 && !(J0[i] <= |f1| && f0[i - 1] == f1[J0[i] - 1]) then 0 else J0[i]
  }

  /** check(): reads both files once; line j of the second file is the next to be read. */
  method Check<T(==)>(J: array<nat>, f0: seq<T>, f1: seq<T>, ghost h0: seq<int>, ghost h1: seq<int>)
    requires J.Length == |f0| + 2 && |h0| == |f0| && |h1| == |f1| && Matching(J[..], h0, h1)
    modifies J
    ensures Checked(J[..], old(J[..]), f0, f1, |f0|)
    ensures Matching(J[..], f0, f1)
  {
    ghost var J0 := J[..];
    var j := 1;
    for i := 1 to |f0| + 1
      invariant Checked(J[..], J0, f0, f1, i - 1)
      invariant 1 <= j <= |f1| + 1 && forall k | i <= k <= |f0| && J0[k] != 0 :: j <= J0[k]
    {
      assert J[i] == J[..][i] == J0[i];
      if J[i] != 0 {
        while j < J[i]
          invariant j <= J0[i]
        {
          j := j + 1;
        }
        if f0[i - 1] != f1[j - 1] {
          J[i] := 0;
        }
        j := j + 1;
      }
    }
  }

  // ----- output(), forwards

  lemma {:induction false} NoneMatched(J: seq<nat>, lo: nat, hi: nat)
    requires lo <= hi < |J| && forall k | lo < k <= hi :: J[k] == 0
    ensures Matched(J, hi) == Matched(J, lo)
  {
    if lo < hi {
      NoneMatched(J, lo, hi - 1);
    }
  }

  lemma SplitAt<T>(f: seq<T>, i: nat, j: nat)
    requires i <= j <= |f|
    ensures f[..i] + f[i..j] == f[..j] && f[i..j] + f[j..] == f[i..]
  {
  }

  /** What is printed, and the lines of the first file kept since up to line i, make up the
      second file as far as line j. */
  ghost predicate MadeUp<T>(f0: seq<T>, f1: seq<T>, hs: seq<Change>, i: nat, j: nat) {
    && i <= |f0| && j <= |f1| && Ordered(hs, |f0|, |f1|) && End(hs) <= i
    && Built(f0, f1, hs) + f0[End(hs)..i] == f1[..j]
  }

  lemma KeptLine<T>(f0: seq<T>, f1: seq<T>, hs: seq<Change>, i: nat, j: nat)
    requires MadeUp(f0, f1, hs, i, j) && i < |f0| && j < |f1| && f0[i] == f1[j]
    ensures MadeUp(f0, f1, hs, i + 1, j + 1)
  {
    assert f0[End(hs)..i + 1] == f0[End(hs)..i] + [f0[i]];
    assert f1[..j + 1] == f1[..j] + [f1[j]];
  }

  lemma ChangedLines<T>(f0: seq<T>, f1: seq<T>, hs: seq<Change>, h: Change)
    requires Fits(h, |f0|, |f1|) && MadeUp(f0, f1, hs, h.a - 1, h.c - 1)
    ensures MadeUp(f0, f1, hs + [h], h.b, h.d)
  {
    hide Front;
    OneMoreChange(f0, f1, hs, h);
    SplitAt(f1, h.c - 1, h.d);
    assert f0[h.b..h.b] == [];
  }

  lemma PrintedLines<T>(f0: seq<T>, f1: seq<T>, hs: seq<Change>, h: Change)
    requires Fits(h, |f0|, |f1|) && MadeUp(f0, f1, hs, h.a - 1, h.c - 1)
    ensures MadeUp(f0, f1, Printed(hs, h), h.b, h.d)
  {
    if h.a <= h.b || h.c <= h.d {
      ChangedLines(f0, f1, hs, h);
    }
  }

  /** Before line i0, when i0 - 1 lines of the first file are done. */
  ghost predicate Forward<T>(J: seq<nat>, J0: seq<nat>, f0: seq<T>, f1: seq<T>, hs: seq<Change>, i0: int) {
    && 1 <= i0 <= |f0| + 1 && |J| == |f0| + 2 == |J0| && J[|f0| + 1] == |f1| + 1
    && (forall k | i0 <= k <= |f0| :: J[k] == J0[k])
    && J[i0 - 1] <= |f1| && (forall k | i0 <= k <= |f0| && J[k] != 0 :: J[i0 - 1] < J[k])
    && |hs| <= Removed(hs) + Added(hs)
    && Removed(hs) + Matched(J0, i0 - 1) == i0 - 1
    && Added(hs) + Matched(J0, i0 - 1) == J[i0 - 1]
  }

  lemma ForwardKeep<T>(J: seq<nat>, J0: seq<nat>, f0: seq<T>, f1: seq<T>, hs: seq<Change>, i0: int)
    requires Matching(J0, f0, f1) && Forward(J, J0, f0, f1, hs, i0) && i0 <= |f0| && J[i0] == J[i0 - 1] + 1
    ensures J[i0] <= |f1| && f0[i0 - 1] == f1[J[i0] - 1]
    ensures Forward(J, J0, f0, f1, hs, i0 + 1)
  {
  }

  lemma ForwardChange<T>(J: seq<nat>, J0: seq<nat>, f0: seq<T>, f1: seq<T>, hs: seq<Change>, i0: int, i1: int, h: Change)
    requires Matching(J0, f0, f1) && Forward(J, J0, f0, f1, hs, i0) && i0 - 1 <= i1 <= |f0|
    requires forall k | i0 <= k <= i1 :: J[k] == 0
    requires i1 == |f0| || J[i1 + 1] != 0
    requires h == Change(i0, i1, J[i0 - 1] + 1, J[i1 + 1] - 1)
    ensures Fits(h, |f0|, |f1|) && Forward(J[i1 := h.d], J0, f0, f1, Printed(hs, h), i1 + 1)
  {
    NoneMatched(J0, i0 - 1, i1);
    PrintedSize(hs, h);
  }

  /** What the two inner loops of output() find from line i on: lines that are paired in step,
      then the change. */
  ghost predicate NextAhead(J: seq<nat>, m: nat, i: nat, h: Change) {
    && |J| == m + 2 && 1 <= i <= h.a <= m + 1 && h.a <= h.b + 1 <= m + 1
    && (forall k | i <= k < h.a :: J[k] == J[k - 1] + 1) && (h.a <= m ==> J[h.a] != J[h.a - 1] + 1)
    && (forall k | h.a <= k <= h.b :: J[k] == 0) && (h.b < m ==> J[h.b + 1] != 0)
    && h.c == J[h.a - 1] + 1 && h.d + 1 == J[h.b + 1]
  }

  method FindAhead(J: array<nat>, m: nat, i: nat) returns (h: Change)
    requires J.Length == m + 2 && 1 <= i <= m + 1
    ensures NextAhead(J[..], m, i, h)
  {
    var i0 := i;
    while i0 <= m && J[i0] == J[i0 - 1] + 1
      invariant i <= i0 <= m + 1 && forall k | i <= k < i0 :: J[k] == J[k - 1] + 1
    {
      i0 := i0 + 1;
    }
    var j0 := J[i0 - 1] + 1;
    var i1 := i0 - 1;
    while i1 < m && J[i1 + 1] == 0
      invariant i0 - 1 <= i1 <= m && forall k | i0 <= k <= i1 :: J[k] == 0
    {
      i1 := i1 + 1;
    }
    var j1: int := J[i1 + 1];
    h := Change(i0, i1, j0, j1 - 1);
  }

  /** The state of the forward loop. */
  ghost predicate ForwardAt<T>(J: seq<nat>, J0: seq<nat>, f0: seq<T>, f1: seq<T>, hs: seq<Change>, i: int) {
    Forward(J, J0, f0, f1, hs, i) && MadeUp(f0, f1, hs, i - 1, J[i - 1])
  }

  lemma {:induction false} KeptRun<T>(J: seq<nat>, J0: seq<nat>, f0: seq<T>, f1: seq<T>, hs: seq<Change>, i: int, j: int)
    requires Matching(J0, f0, f1) && ForwardAt(J, J0, f0, f1, hs, i) && i <= j <= |f0| + 1
    requires forall k | i <= k < j :: J[k] == J[k - 1] + 1
    ensures ForwardAt(J, J0, f0, f1, hs, j)
    decreases j - i
  {
    if i < j {
      ForwardKeep(J, J0, f0, f1, hs, i);
      KeptLine(f0, f1, hs, i - 1, J[i - 1]);
      KeptRun(J, J0, f0, f1, hs, i + 1, j);
    }
  }

  lemma ChangeAt<T>(J: seq<nat>, J0: seq<nat>, f0: seq<T>, f1: seq<T>, hs: seq<Change>, h: Change)
    returns (J': seq<nat>, i': nat, hs': seq<Change>)
    requires Matching(J0, f0, f1) && ForwardAt(J, J0, f0, f1, hs, h.a) && NextAhead(J, |f0|, h.a, h)
    ensures Fits(h, |f0|, |f1|) && J' == J[h.b := h.d] && i' == h.b + 1 && hs' == Printed(hs, h)
    ensures ForwardAt(J', J0, f0, f1, hs', i') && (h.b == |f0| ==> h.d == |f1|)
  {
    hide Fits;
    ForwardChange(J, J0, f0, f1, hs, h.a, h.b, h);
    PrintedLines(f0, f1, hs, h);
    J', i', hs' := J[h.b := h.d], h.b + 1, Printed(hs, h);
  }

  lemma ForwardTurn<T>(J: seq<nat>, J0: seq<nat>, f0: seq<T>, f1: seq<T>, hs: seq<Change>, i: nat, h: Change)
    returns (J': seq<nat>, i': nat, hs': seq<Change>)
    requires Matching(J0, f0, f1) && ForwardAt(J, J0, f0, f1, hs, i) && NextAhead(J, |f0|, i, h)
    ensures Fits(h, |f0|, |f1|) && J' == J[h.b := h.d] && i' == h.b + 1 && hs' == Printed(hs, h)
    ensures ForwardAt(J', J0, f0, f1, hs', i') && (h.b == |f0| ==> h.d == |f1|)
    ensures i <= |f0| && Apart(hs) && Behind(J, hs, i) ==> Apart(hs') && (i' <= |f0| ==> Behind(J', hs', i'))
  {
    hide MadeUp;
    KeptRun(J, J0, f0, f1, hs, i, h.a);
    J', i', hs' := ChangeAt(J, J0, f0, f1, hs, h);
    if i <= |f0| && Apart(hs) && Behind(J, hs, i) {
      StillApart(J, J0, f0, f1, hs, i, h);
    }
  }

  /** Line i is kept, and stands right behind the last change. */
  ghost predicate Behind(J: seq<nat>, hs: seq<Change>, i: nat) {
    hs != [] ==> 1 <= i < |J| && Last(hs).b == i - 1 && Last(hs).d == J[i - 1] && J[i] == J[i - 1] + 1
  }

  lemma StillApart<T>(J: seq<nat>, J0: seq<nat>, f0: seq<T>, f1: seq<T>, hs: seq<Change>, i: nat, h: Change)
    requires ForwardAt(J, J0, f0, f1, hs, i) && NextAhead(J, |f0|, i, h) && ForwardAt(J, J0, f0, f1, hs, h.a)
    requires i <= |f0| && Apart(hs) && Behind(J, hs, i)
    ensures Apart(Printed(hs, h)) && (h.b < |f0| ==> Behind(J[h.b := h.d], Printed(hs, h), h.b + 1))
  {
    hide MadeUp, Removed, Added, Matched, Front;
    var more := hs + [h];
    assert Front(more) == hs by { FrontOf(hs, h); }
    if hs != [] {
      assert i < h.a;
      assert J[h.a - 1] > J[i - 1];
    }
  }

  lemma FrontOf<T>(s: seq<T>, x: T)
    ensures Front(s + [x]) == s && Last(s + [x]) == x
  {
  }

  /** The entries output() adds at both ends of J. */
  ghost predicate Fenced(J: seq<nat>, J0: seq<nat>, n0: nat, n1: nat) {
    |J0| == n0 + 2 && J == J0[0 := 0][n0 + 1 := n1 + 1]
  }

  lemma ForwardStart<T>(J: seq<nat>, J0: seq<nat>, f0: seq<T>, f1: seq<T>)
    requires Fenced(J, J0, |f0|, |f1|) && Matching(J0, f0, f1)
    ensures ForwardAt(J, J0, f0, f1, [], 1)
  {
  }

  lemma AllMadeUp<T>(f0: seq<T>, f1: seq<T>, hs: seq<Change>)
    requires MadeUp(f0, f1, hs, |f0|, |f1|)
    ensures Ordered(hs, |f0|, |f1|) && Patched(f0, f1, hs) == f1
  {
    assert f0[End(hs)..|f0|] == f0[End(hs)..] && f1[..|f1|] == f1;
  }

  lemma ForwardDone<T>(J: seq<nat>, J0: seq<nat>, f0: seq<T>, f1: seq<T>, hs: seq<Change>)
    requires Matching(J0, f0, f1) && ForwardAt(J, J0, f0, f1, hs, |f0| + 1) && J[|f0|] == |f1|
    ensures Ordered(hs, |f0|, |f1|) && Patched(f0, f1, hs) == f1
    ensures Removed(hs) == |f0| - Matched(J0, |f0|) && Added(hs) == |f1| - Matched(J0, |f0|)
    ensures |hs| <= Removed(hs) + Added(hs)
  {
    AllMadeUp(f0, f1, hs);
  }

  /** One turn of the forward loop, from line i to line i'. */
  method ForwardStep<T>(J: array<nat>, m: nat, i: nat, ghost J0: seq<nat>, ghost f0: seq<T>, ghost f1: seq<T>,
                        hs: seq<Change>)
    returns (i': nat, hs': seq<Change>)
    requires J.Length == m + 2 && m == |f0| && 1 <= i <= m && Matching(J0, f0, f1) && ForwardAt(J[..], J0, f0, f1, hs, i)
    requires Apart(hs) && Behind(J[..], hs, i)
    modifies J
    ensures Apart(hs') && (i' <= m ==> Behind(J[..], hs', i'))
    ensures i <= i' <= m + 1 && ForwardAt(J[..], J0, f0, f1, hs', i') && (i' == m + 1 ==> J[m] == |f1|)
    ensures i' == i ==> J[i] == J[i - 1] + 1 && old(J[i] != J[i - 1] + 1)
  {
    var h := FindAhead(J, m, i);
    ghost var J1: seq<nat> := J[..];
    ghost var J2, i2, hs2 := ForwardTurn(J1, J0, f0, f1, hs, i, h);
    J[h.b] := h.d;
    assert J[..] == J2;
    hs', i' := Printed(hs, h), h.b + 1;
    assert ForwardAt(J2, J0, f0, f1, hs2, i2) && hs' == hs2 && i' == i2;
  }

  method ForwardLoop<T>(J: array<nat>, m: nat, ghost J0: seq<nat>, ghost f0: seq<T>, ghost f1: seq<T>)
    returns (hs: seq<Change>)
    requires m == |f0| && Fenced(J[..], J0, m, |f1|) && Matching(J0, f0, f1)
    modifies J
    ensures J.Length == m + 2 && ForwardAt(J[..], J0, f0, f1, hs, m + 1) && Apart(hs)
    ensures if m == 0 then hs == [] else J[m] == |f1|
  {
    hs := [];
    ForwardStart(J[..], J0, f0, f1);
    var i0 := 1;
    while i0 <= m
      invariant 1 <= i0 <= m + 1 && J.Length == m + 2 && ForwardAt(J[..], J0, f0, f1, hs, i0)
      invariant Apart(hs) && (i0 <= m ==> Behind(J[..], hs, i0))
      invariant i0 > m > 0 ==> J[m] == |f1|
      invariant m == 0 ==> hs == []
      decreases m - i0, if i0 <= m && J[i0] == J[i0 - 1] + 1 then 0 else 1
    {
      i0, hs := ForwardStep(J, m, i0, J0, f0, f1, hs);
    }
  }

  /** output() but for -e. */
  method OutputForward<T>(J: array<nat>, m: nat, n1: nat, ghost J0: seq<nat>, ghost f0: seq<T>, ghost f1: seq<T>)
    returns (hs: seq<Change>)
    requires m == |f0| && n1 == |f1| && Fenced(J[..], J0, m, n1) && Matching(J0, f0, f1)
    modifies J
    ensures Ordered(hs, m, n1) && Patched(f0, f1, hs) == f1 && Apart(hs)
    ensures Removed(hs) == m - Matched(J0, m) && Added(hs) == n1 - Matched(J0, m) && |hs| <= Removed(hs) + Added(hs)
  {
    hs := ForwardLoop(J, m, J0, f0, f1);
    if m == 0 {
      var h := Change(1, 0, 1, n1);
      EmptyFile(J[..], J0, f0, f1, hs, h);
      hs := Printed(hs, h);
    } else {
      ForwardDone(J[..], J0, f0, f1, hs);
    }
  }

  /** The case of an empty first file. */
  lemma EmptyFile<T>(J: seq<nat>, J0: seq<nat>, f0: seq<T>, f1: seq<T>, hs: seq<Change>, h: Change)
    requires f0 == [] && hs == [] && Matching(J0, f0, f1) && ForwardAt(J, J0, f0, f1, hs, 1) && h == Change(1, 0, 1, |f1|)
    ensures var hs' := Printed(hs, h);
            && Ordered(hs', 0, |f1|) && Patched(f0, f1, hs') == f1
            && Removed(hs') == 0 && Added(hs') == |f1| && |hs'| <= Added(hs')
  {
    var _, _, _ := ChangeAt(J, J0, f0, f1, hs, h);
    ForwardDone(J[0 := |f1|], J0, f0, f1, Printed(hs, h));
  }

  // ----- output(), backwards

  /** The editor has turned all that follows line i into the second file after line j. */
  ghost predicate TurnedInto<T>(f0: seq<T>, f1: seq<T>, hs: seq<Change>, i: nat, j: nat) {
    i <= |f0| && j <= |f1| && Edited(f0, f1, hs) == Some(f0[..i] + f1[j..])
  }

  lemma KeptLineBackward<T>(f0: seq<T>, f1: seq<T>, hs: seq<Change>, i: nat, j: nat)
    requires 0 < i && 0 < j && TurnedInto(f0, f1, hs, i, j) && f0[i - 1] == f1[j - 1]
    ensures TurnedInto(f0, f1, hs, i - 1, j - 1)
  {
    assert f0[..i] + f1[j..] == f0[..i - 1] + f1[j - 1..];
  }

  lemma Respliced<T>(f0: seq<T>, f1: seq<T>, a: nat, b: nat, c: nat, d: nat)
    requires a <= b <= |f0| && c <= d <= |f1|
    ensures (f0[..b] + f1[d..])[..a] + f1[c..d] + (f0[..b] + f1[d..])[b..] == f0[..a] + f1[c..]
  {
    var buf := f0[..b] + f1[d..];
    assert buf[..a] == f0[..a] && buf[b..] == f1[d..];
  }

  lemma ChangedLinesBackward<T>(f0: seq<T>, f1: seq<T>, hs: seq<Change>, h: Change)
    requires Fits(h, |f0|, |f1|) && TurnedInto(f0, f1, hs, h.b, h.d)
    ensures TurnedInto(f0, f1, hs + [h], h.a - 1, h.c - 1)
  {
    OneMoreEdit(f0, f1, hs, h, f0[..h.b] + f1[h.d..]);
    Respliced(f0, f1, h.a - 1, h.b, h.c - 1, h.d);
  }

  /** After line i0, when the lines beyond are done. */
  ghost predicate Backward<T>(J: seq<nat>, J0: seq<nat>, f0: seq<T>, f1: seq<T>, hs: seq<Change>, i0: int) {
    && 0 <= i0 <= |f0| && |J| == |f0| + 2 == |J0| && J[0] == 0
    && (forall k | 1 <= k <= i0 :: J[k] == J0[k])
    && 1 <= J[i0 + 1] <= |f1| + 1 && (forall k | 1 <= k <= i0 && J[k] != 0 :: J[k] < J[i0 + 1])
    && |hs| <= Removed(hs) + Added(hs)
    && Removed(hs) + Matched(J0, |f0|) == Matched(J0, i0) + |f0| - i0
    && Added(hs) + Matched(J0, |f0|) == Matched(J0, i0) + |f1| - J[i0 + 1] + 1
  }

  lemma BackwardKeep<T>(J: seq<nat>, J0: seq<nat>, f0: seq<T>, f1: seq<T>, hs: seq<Change>, i0: int)
    requires Matching(J0, f0, f1) && Backward(J, J0, f0, f1, hs, i0) && 1 <= i0 && J[i0] + 1 == J[i0 + 1] && J[i0] != 0
    ensures J[i0] <= |f1| && f0[i0 - 1] == f1[J[i0] - 1]
    ensures Backward(J, J0, f0, f1, hs, i0 - 1)
  {
  }

  lemma BackwardChange<T>(J: seq<nat>, J0: seq<nat>, f0: seq<T>, f1: seq<T>, hs: seq<Change>, i0: int, i1: int, h: Change)
    requires Matching(J0, f0, f1) && Backward(J, J0, f0, f1, hs, i0) && 1 <= i1 <= i0 + 1
    requires forall k | i1 <= k <= i0 :: J[k] == 0
    requires i1 == 1 || J[i1 - 1] != 0
    requires h == Change(i1, i0, J[i1 - 1] + 1, J[i0 + 1] - 1)
    ensures Fits(h, |f0|, |f1|) && Backward(J[i1 := h.c], J0, f0, f1, Printed(hs, h), i1 - 1)
  {
    NoneMatched(J0, i1 - 1, i0);
    PrintedSize(hs, h);
  }

  /** What the inner loops of output() find from line i back. */
  ghost predicate NextBehind(J: seq<nat>, m: nat, i: nat, h: Change) {
    && |J| == m + 2 && 0 <= h.b <= i <= m && 1 <= h.a <= h.b + 1
    && (forall k | h.b < k <= i :: J[k] + 1 == J[k + 1] && J[k] != 0)
    && (h.b >= 1 ==> J[h.b] + 1 != J[h.b + 1] || J[h.b] == 0)
    && (forall k | h.a <= k <= h.b :: J[k] == 0) && (h.a > 1 ==> J[h.a - 1] != 0)
    && h.c == J[h.a - 1] + 1 && h.d + 1 == J[h.b + 1]
  }

  method FindBehind(J: array<nat>, m: nat, i: nat) returns (h: Change)
    requires J.Length == m + 2 && i <= m
    ensures NextBehind(J[..], m, i, h)
  {
    var i0 := i;
    while i0 >= 1 && J[i0] + 1 == J[i0 + 1] && J[i0] != 0
      invariant 0 <= i0 <= i && forall k | i0 < k <= i :: J[k] + 1 == J[k + 1] && J[k] != 0
    {
      i0 := i0 - 1;
    }
    var j0: int := J[i0 + 1];
    var i1 := i0 + 1;
    while i1 > 1 && J[i1 - 1] == 0
      invariant 1 <= i1 <= i0 + 1 && forall k | i1 <= k <= i0 :: J[k] == 0
    {
      i1 := i1 - 1;
    }
    h := Change(i1, i0, J[i1 - 1] + 1, j0 - 1);
  }

  /** The state of the backward loop. */
  ghost predicate BackwardAt<T>(J: seq<nat>, J0: seq<nat>, f0: seq<T>, f1: seq<T>, hs: seq<Change>, i: int) {
    Backward(J, J0, f0, f1, hs, i) && TurnedInto(f0, f1, hs, i, J[i + 1] - 1)
  }

  lemma {:induction false} KeptRunBackward<T>(J: seq<nat>, J0: seq<nat>, f0: seq<T>, f1: seq<T>, hs: seq<Change>, i: int, j: int)
    requires Matching(J0, f0, f1) && BackwardAt(J, J0, f0, f1, hs, i) && 0 <= j <= i
    requires forall k | j < k <= i :: J[k] + 1 == J[k + 1] && J[k] != 0
    ensures BackwardAt(J, J0, f0, f1, hs, j)
    decreases i
  {
    if j < i {
      BackwardKeep(J, J0, f0, f1, hs, i);
      KeptLineBackward(f0, f1, hs, i, J[i]);
      KeptRunBackward(J, J0, f0, f1, hs, i - 1, j);
    }
  }

  lemma ChangeBehind<T>(J: seq<nat>, J0: seq<nat>, f0: seq<T>, f1: seq<T>, hs: seq<Change>, h: Change)
    requires Matching(J0, f0, f1) && BackwardAt(J, J0, f0, f1, hs, h.b) && NextBehind(J, |f0|, h.b, h)
    ensures Fits(h, |f0|, |f1|) && BackwardAt(J[h.a := h.c], J0, f0, f1, Printed(hs, h), h.a - 1)
  {
    hide Matching, Backward, TurnedInto;
    assert J[h.a := h.c][h.a] == h.c;
    BackwardChange(J, J0, f0, f1, hs, h.b, h.a, h);
    if h.a <= h.b || h.c <= h.d {
      ChangedLinesBackward(f0, f1, hs, h);
    }
  }

  lemma BackwardTurn<T>(J: seq<nat>, J0: seq<nat>, f0: seq<T>, f1: seq<T>, hs: seq<Change>, i: nat, h: Change)
    requires Matching(J0, f0, f1) && BackwardAt(J, J0, f0, f1, hs, i) && NextBehind(J, |f0|, i, h)
    ensures Fits(h, |f0|, |f1|) && BackwardAt(J[h.a := h.c], J0, f0, f1, Printed(hs, h), h.a - 1)
    ensures h.a == 1 ==> h.c == 1
    ensures i >= 1 && ApartBackward(hs) && Before(J, hs, i) ==>
              ApartBackward(Printed(hs, h)) && (h.a > 1 ==> Before(J[h.a := h.c], Printed(hs, h), h.a - 1))
  {
    hide TurnedInto;
    KeptRunBackward(J, J0, f0, f1, hs, i, h.b);
    ChangeBehind(J, J0, f0, f1, hs, h);
    if i >= 1 && ApartBackward(hs) && Before(J, hs, i) {
      StillApartBackward(J, J0, f0, f1, hs, i, h);
    }
  }

  /** Line i is kept, and stands right before the last change. */
  ghost predicate Before(J: seq<nat>, hs: seq<Change>, i: nat) {
    hs != [] ==> i + 1 < |J| && Last(hs).a == i + 1 && Last(hs).c == J[i + 1] && J[i] + 1 == J[i + 1] && J[i] != 0
  }

  lemma StillApartBackward<T>(J: seq<nat>, J0: seq<nat>, f0: seq<T>, f1: seq<T>, hs: seq<Change>, i: nat, h: Change)
    requires BackwardAt(J, J0, f0, f1, hs, i) && NextBehind(J, |f0|, i, h) && BackwardAt(J, J0, f0, f1, hs, h.b)
    requires i >= 1 && ApartBackward(hs) && Before(J, hs, i)
    ensures ApartBackward(Printed(hs, h)) && (h.a > 1 ==> Before(J[h.a := h.c], Printed(hs, h), h.a - 1))
  {
    hide TurnedInto, Removed, Added, Matched, Front;
    var more := hs + [h];
    assert Front(more) == hs by { FrontOf(hs, h); }
    if hs != [] {
      assert h.b < i;
      assert J[h.b + 1] < J[i + 1];
    }
  }

  lemma BackwardStart<T>(J: seq<nat>, J0: seq<nat>, f0: seq<T>, f1: seq<T>)
    requires Fenced(J, J0, |f0|, |f1|) && Matching(J0, f0, f1)
    ensures BackwardAt(J, J0, f0, f1, [], |f0|)
  {
    assert f0[..|f0|] + f1[|f1|..] == f0;
  }

  lemma BackwardDone<T>(J: seq<nat>, J0: seq<nat>, f0: seq<T>, f1: seq<T>, hs: seq<Change>)
    requires Matching(J0, f0, f1) && BackwardAt(J, J0, f0, f1, hs, 0) && J[1] == 1
    ensures Edited(f0, f1, hs) == Some(f1)
    ensures Removed(hs) == |f0| - Matched(J0, |f0|) && Added(hs) == |f1| - Matched(J0, |f0|)
    ensures |hs| <= Removed(hs) + Added(hs)
  {
    assert f0[..0] + f1[0..] == f1;
  }

  /** One turn of the backward loop, from line i to line i'. */
  method BackwardStep<T>(J: array<nat>, m: nat, i: nat, ghost J0: seq<nat>, ghost f0: seq<T>, ghost f1: seq<T>,
                         hs: seq<Change>)
    returns (i': nat, hs': seq<Change>)
    requires J.Length == m + 2 && m == |f0| && 1 <= i <= m && Matching(J0, f0, f1) && BackwardAt(J[..], J0, f0, f1, hs, i)
    requires ApartBackward(hs) && Before(J[..], hs, i)
    modifies J
    ensures ApartBackward(hs') && (i' >= 1 ==> Before(J[..], hs', i'))
    ensures i' <= i && BackwardAt(J[..], J0, f0, f1, hs', i') && (i' == 0 ==> J[1] == 1)
    ensures i' == i ==> J[i] + 1 == J[i + 1] && J[i] != 0 && old(J[i] + 1 != J[i + 1])
  {
    var h := FindBehind(J, m, i);
    ghost var J1: seq<nat> := J[..];
    BackwardTurn(J1, J0, f0, f1, hs, i, h);
    J[h.a] := h.c;
    assert J[..] == J1[h.a := h.c];
    hs', i' := Printed(hs, h), h.a - 1;
  }

  method BackwardLoop<T>(J: array<nat>, m: nat, ghost J0: seq<nat>, ghost f0: seq<T>, ghost f1: seq<T>)
    returns (hs: seq<Change>)
    requires m == |f0| && Fenced(J[..], J0, m, |f1|) && Matching(J0, f0, f1)
    modifies J
    ensures J.Length == m + 2 && BackwardAt(J[..], J0, f0, f1, hs, 0) && ApartBackward(hs)
    ensures if m == 0 then hs == [] && J[1] == |f1| + 1 else J[1] == 1
  {
    hs := [];
    BackwardStart(J[..], J0, f0, f1);
    var i0 := m;
    while i0 >= 1
      invariant 0 <= i0 <= m && J.Length == m + 2 && BackwardAt(J[..], J0, f0, f1, hs, i0)
      invariant ApartBackward(hs) && (i0 >= 1 ==> Before(J[..], hs, i0))
      invariant i0 == 0 < m ==> J[1] == 1
      invariant m == 0 ==> hs == [] && J[1] == |f1| + 1
      decreases i0, if i0 >= 1 && J[i0] + 1 == J[i0 + 1] && J[i0] != 0 then 0 else 1
    {
      i0, hs := BackwardStep(J, m, i0, J0, f0, f1, hs);
    }
  }

  /** output() for -e. */
  method OutputBackward<T>(J: array<nat>, m: nat, n1: nat, ghost J0: seq<nat>, ghost f0: seq<T>, ghost f1: seq<T>)
    returns (hs: seq<Change>)
    requires m == |f0| && n1 == |f1| && Fenced(J[..], J0, m, n1) && Matching(J0, f0, f1)
    modifies J
    ensures Edited(f0, f1, hs) == Some(f1) && ApartBackward(hs)
    ensures Removed(hs) == m - Matched(J0, m) && Added(hs) == n1 - Matched(J0, m) && |hs| <= Removed(hs) + Added(hs)
  {
    hs := BackwardLoop(J, m, J0, f0, f1);
    if m == 0 {
      var h := Change(1, 0, 1, n1);
      ChangeBehind(J[..], J0, f0, f1, hs, h);
      BackwardDone(J[..][1 := 1], J0, f0, f1, Printed(hs, h));
      hs := Printed(hs, h);
    } else {
      BackwardDone(J[..], J0, f0, f1, hs);
    }
  }
}
