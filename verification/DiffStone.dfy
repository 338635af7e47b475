/** stone(), search() and newcand() of diff.c: k-candidates find a longest common subsequence. */
module DiffStone {
  import opened Arith
  import opened DiffLcs

  datatype Cand = Cand(x: nat, y: nat, pred: nat)

  // ----- the equivalence classes handed to stone()

  /** From position j on, mem lists the remaining partners of line i of a, in order. */
  ghost predicate ListedFrom(a: seq<int>, b: seq<int>, mem: seq<int>, i: nat, j: nat)
    requires 0 < i <= |a|
    decreases |mem| - j
  {
    && 0 < j && j + 1 < |mem| && Partner(a, b, i, Abs(mem[j]))
    && if mem[j + 1] > 0 then
         mem[j + 1] > Abs(mem[j]) && NoneBetween(a, b, i, Abs(mem[j]), mem[j + 1]) && ListedFrom(a, b, mem, i, j + 1)
       else
         NoneBetween(a, b, i, Abs(mem[j]), |b| + 1)
  }

  /** Line i of a has no partner strictly between the two positions. */
  ghost predicate NoneBetween(a: seq<int>, b: seq<int>, i: nat, lo: nat, hi: nat)
    requires 0 < i <= |a|
  {
    forall z | lo < z < hi :: !Partner(a, b, i, z)
  }

  ghost predicate ClassOf(a: seq<int>, b: seq<int>, cls: int, mem: seq<int>, i: nat)
    requires 0 < i <= |a|
  {
    if cls == 0 then
      NoneBetween(a, b, i, 0, |b| + 1)
    else
      && 0 < cls < |mem| && mem[cls] < 0
      && NoneBetween(a, b, i, 0, Abs(mem[cls])) && ListedFrom(a, b, mem, i, cls)
  }

  ghost predicate Classified(a: seq<int>, b: seq<int>, cls: seq<int>, mem: seq<int>) {
    |cls| > |a| && forall i | 0 < i <= |a| :: ClassOf(a, b, cls[i], mem, i)
  }

  // ----- thresholds: t[r] is the least y with r common lines among the first y of b

  predicate AtLeast(a: seq<int>, b: seq<int>, i: nat, r: nat, y: nat)
    requires i <= |a| && y <= |b|
  {
    L(a, b, i, y) >= r
  }

  ghost predicate Increasing(t: seq<nat>, n: nat) {
    && t != [] && t[0] == 0 && (forall r, s | 0 <= r < s < |t| :: t[r] < t[s]) && (forall r | 0 <= r < |t| :: t[r] <= n)
  }

  ghost predicate Thresholds(a: seq<int>, b: seq<int>, i: nat, t: seq<nat>)
    requires i <= |a|
  {
    && Increasing(t, |b|)
    && forall r: nat, y: nat | y <= |b| :: AtLeast(a, b, i, r, y) <==> r < |t| && t[r] <= y
  }

  /** The same while line i is being worked on, its partners up to lim having been used. */
  ghost predicate PartThresholds(a: seq<int>, b: seq<int>, i: nat, lim: nat, t: seq<nat>)
    requires 0 < i <= |a|
  {
    && Increasing(t, |b|)
    && forall r: nat, y: nat | y <= |b| :: Reach(a, b, i, lim, r, y) <==> r < |t| && t[r] <= y
  }

  lemma NoLinesYet(a: seq<int>, b: seq<int>)
    ensures Thresholds(a, b, 0, [0])
  {
    forall r: nat, y: nat | y <= |b|
      ensures AtLeast(a, b, 0, r, y) <==> r < 1 && [0][r] <= y
    {
      assert a[..0] == [];
    }
  }

  lemma RowStart(a: seq<int>, b: seq<int>, i: nat, t: seq<nat>)
    requires 0 < i <= |a| && Thresholds(a, b, i - 1, t)
    ensures PartThresholds(a, b, i, 0, t)
  {
    forall r: nat, y: nat | y <= |b|
      ensures Reach(a, b, i, 0, r, y) <==> r < |t| && t[r] <= y
    {
      assert AtLeast(a, b, i - 1, r, y) <==> r < |t| && t[r] <= y;
    }
  }

  lemma RowEnd(a: seq<int>, b: seq<int>, i: nat, lim: nat, t: seq<nat>)
    requires 0 < i <= |a| && PartThresholds(a, b, i, lim, t) && NoneBetween(a, b, i, lim, |b| + 1)
    ensures Thresholds(a, b, i, t)
  {
    forall r: nat, y: nat | y <= |b|
      ensures AtLeast(a, b, i, r, y) <==> r < |t| && t[r] <= y
    {
      ReachAll(a, b, i, r, y);
      assert Reach(a, b, i, lim, r, y) <==> r < |t| && t[r] <= y;
      if Reach(a, b, i, |b|, r, y) && L(a, b, i - 1, y) < r {
        var z: nat :| Partner(a, b, i, z) && z <= y && L(a, b, i - 1, z - 1) + 1 >= r;
      }
    }
  }

  /** What one more partner y0 does: it can only bring down the threshold at the level after
      the old thresholds below it. */
  function Patched(t: seq<nat>, lo: nat, y0: nat): seq<nat>
    requires lo <= |t|
  {
    if lo == |t| then t + [y0] else if y0 < t[lo] then t[lo := y0] else t
  }

  ghost predicate LevelOf(told: seq<nat>, lo: nat, y0: nat) {
    lo <= |told| && (forall r | 0 <= r < lo :: told[r] < y0) && (lo < |told| ==> y0 <= told[lo])
  }

  lemma BelowOld(a: seq<int>, b: seq<int>, i: nat, lim: nat, told: seq<nat>, t: seq<nat>, r: nat)
    requires 0 < i <= |a| && Thresholds(a, b, i - 1, told) && PartThresholds(a, b, i, lim, t) && r < |told|
    ensures r < |t| && t[r] <= told[r]
  {
    assert AtLeast(a, b, i - 1, r, told[r]);
    assert Reach(a, b, i, lim, r, told[r]);
  }

  lemma PartnerStep(a: seq<int>, b: seq<int>, i: nat, lim: nat, told: seq<nat>, t: seq<nat>, y0: nat, lo: nat)
    requires 0 < i <= |a| && Thresholds(a, b, i - 1, told) && PartThresholds(a, b, i, lim, t)
    requires Partner(a, b, i, y0) && lim < y0 && NoneBetween(a, b, i, lim, y0)
    requires 0 < lo && LevelOf(told, lo, y0)
    ensures lo <= |t| && PartThresholds(a, b, i, y0, Patched(t, lo, y0))
  {
    BelowOld(a, b, i, lim, told, t, lo - 1);
    var t' := Patched(t, lo, y0);
    forall r | 0 <= r < lo
      ensures t[r] < y0
    {
      BelowOld(a, b, i, lim, told, t, r);
    }
    assert Increasing(t', |b|);
    forall r: nat, y: nat | y <= |b|
      ensures Reach(a, b, i, y0, r, y) <==> r < |t'| && t'[r] <= y
    {
      MoreReach(a, b, i, lim, told, y0, lo, r, y);
      assert Reach(a, b, i, lim, r, y) <==> r < |t| && t[r] <= y;
    }
  }

  lemma MoreReach(a: seq<int>, b: seq<int>, i: nat, lim: nat, told: seq<nat>, y0: nat, lo: nat, r: nat, y: nat)
    requires 0 < i <= |a| && Thresholds(a, b, i - 1, told) && y <= |b|
    requires Partner(a, b, i, y0) && lim < y0 && NoneBetween(a, b, i, lim, y0)
    requires 0 < lo && LevelOf(told, lo, y0)
    ensures Reach(a, b, i, y0, r, y) <==> Reach(a, b, i, lim, r, y) || (y0 <= y && r <= lo)
  {
    if r > 0 {
      assert AtLeast(a, b, i - 1, r - 1, y0 - 1) <==> r - 1 < |told| && told[r - 1] <= y0 - 1;
    }
    if Reach(a, b, i, y0, r, y) && !Reach(a, b, i, lim, r, y) {
      var z: nat :| Partner(a, b, i, z) && z <= y && z <= y0 && L(a, b, i - 1, z - 1) + 1 >= r;
      assert z == y0;
    }
  }

  lemma LaterPartner(a: seq<int>, b: seq<int>, i: nat, y0: nat, told: seq<nat>, t: seq<nat>, r: nat, y: nat, z: nat)
    requires 0 < i <= |a| && Thresholds(a, b, i - 1, told) && PartThresholds(a, b, i, y0, t)
    requires |t| == |told| + 1 && t[|t| - 1] == y0 && y <= |b|
    requires Partner(a, b, i, z) && y0 < z <= y && L(a, b, i - 1, z - 1) + 1 >= r
    ensures r < |t| && t[r] <= y
  {
    if r > 0 {
      assert AtLeast(a, b, i - 1, r - 1, z - 1);
    }
  }

  /** When y0 opened a new level, the later partners of the line change nothing. */
  lemma NewLevelEndsRow(a: seq<int>, b: seq<int>, i: nat, y0: nat, told: seq<nat>, t: seq<nat>)
    requires 0 < i <= |a| && Thresholds(a, b, i - 1, told) && PartThresholds(a, b, i, y0, t)
    requires |t| == |told| + 1 && t[|t| - 1] == y0
    ensures Thresholds(a, b, i, t)
  {
    forall r: nat, y: nat | y <= |b|
      ensures AtLeast(a, b, i, r, y) <==> r < |t| && t[r] <= y
    {
      ReachAll(a, b, i, r, y);
      assert Reach(a, b, i, y0, r, y) <==> r < |t| && t[r] <= y;
      if Reach(a, b, i, |b|, r, y) && L(a, b, i - 1, y) < r {
        var z: nat :| Partner(a, b, i, z) && z <= y && L(a, b, i - 1, z - 1) + 1 >= r;
        if z > y0 {
          LaterPartner(a, b, i, y0, told, t, r, y, z);
        }
      }
    }
  }

  // ----- candidates

  /** Following the predecessors from candidate q gives r matches among the first i lines. */
  ghost predicate Chain(a: seq<int>, b: seq<int>, clist: seq<Cand>, q: nat, r: nat, i: nat)
    decreases r
  {
    && q < |clist|
    && if r == 0 then clist[q].x == 0 && clist[q].y == 0
       else
         var d := clist[q];
         && 0 < d.x <= i && d.x <= |a| && Partner(a, b, d.x, d.y) && d.pred < q
         && clist[d.pred].y < d.y && Chain(a, b, clist, d.pred, r - 1, d.x - 1)
  }

  lemma {:induction false} ChainStays(a: seq<int>, b: seq<int>, clist: seq<Cand>, d: Cand, q: nat, r: nat, i: nat, j: nat)
    requires Chain(a, b, clist, q, r, i) && i <= j
    ensures Chain(a, b, clist + [d], q, r, j) && Chain(a, b, clist, q, r, j)
    decreases r
  {
    if r > 0 {
      ChainStays(a, b, clist, d, clist[q].pred, r - 1, clist[q].x - 1, clist[q].x - 1);
    }
  }

  /** klist[r] ends a chain of r matches. */
  ghost predicate Chains(a: seq<int>, b: seq<int>, clist: seq<Cand>, c: seq<nat>, i: nat) {
    forall r | 0 <= r < |c| :: Chain(a, b, clist, c[r], r, i)
  }

  lemma ChainsStay(a: seq<int>, b: seq<int>, clist: seq<Cand>, d: Cand, c: seq<nat>, i: nat, j: nat)
    requires Chains(a, b, clist, c, i) && i <= j
    ensures Chains(a, b, clist + [d], c, j) && Chains(a, b, clist, c, j)
  {
    forall r | 0 <= r < |c|
      ensures Chain(a, b, clist + [d], c[r], r, j) && Chain(a, b, clist, c[r], r, j)
    {
      ChainStays(a, b, clist, d, c[r], r, i, j);
    }
  }

  ghost predicate InRange(clist: seq<Cand>, c: seq<nat>) {
    forall r | 0 <= r < |c| :: c[r] < |clist|
  }

  function Ys(clist: seq<Cand>, c: seq<nat>): (t: seq<nat>)
    requires InRange(clist, c)
    ensures |t| == |c|
  {
    seq(|c|, r requires 0 <= r < |c| => clist[c[r]].y)
  }

  // ----- the state while the partners of one line are tried

  /** cold is klist as it was before line i, c as it is now.  oldl is the level changed last in
      this line, oldc the old candidate of level s; s runs ahead of oldl only over levels that
      the current partner has already passed. */
  ghost predicate RowState(a: seq<int>, b: seq<int>, i: nat, lim: nat, cold: seq<nat>, clist: seq<Cand>, c: seq<nat>,
                           oldl: nat, s: nat, oldc: nat)
    requires 0 < i <= |a|
  {
    && InRange(clist, cold) && Thresholds(a, b, i - 1, Ys(clist, cold)) && Chains(a, b, clist, cold, i - 1)
    && InRange(clist, c) && PartThresholds(a, b, i, lim, Ys(clist, c)) && Chains(a, b, clist, c, i)
    && |c| == |cold| && (forall r | oldl < r < |cold| :: c[r] == cold[r])
    && oldl <= s < |cold| && oldc == cold[s]
    && (s > oldl ==> s + 1 < |c| && clist[c[s + 1]].y <= lim)
    && clist[c[oldl]].y <= lim
    && (oldl > 0 ==> clist[cold[oldl - 1]].y < clist[c[oldl]].y)
  }

  ghost predicate SearchResult(t: seq<nat>, y: nat, l: nat) {
    0 < l <= |t| && (forall r | 0 <= r < l :: t[r] < y) && (l < |t| ==> y <= t[l])
  }

  ghost predicate NextPartner(a: seq<int>, b: seq<int>, i: nat, lim: nat, y: nat)
    requires 0 < i <= |a|
  {
    Partner(a, b, i, y) && lim < y && NoneBetween(a, b, i, lim, y)
  }

  /** klist after all the partners of line i. */
  ghost predicate RowDone(a: seq<int>, b: seq<int>, i: nat, clist: seq<Cand>, c: seq<nat>)
    requires i <= |a|
  {
    InRange(clist, c) && Thresholds(a, b, i, Ys(clist, c)) && Chains(a, b, clist, c, i)
  }

  lemma RowFinished(a: seq<int>, b: seq<int>, i: nat, lim: nat, cold: seq<nat>, clist: seq<Cand>, c: seq<nat>,
                    oldl: nat, s: nat, oldc: nat)
    requires 0 < i <= |a| && RowState(a, b, i, lim, cold, clist, c, oldl, s, oldc)
    requires NoneBetween(a, b, i, lim, |b| + 1)
    ensures RowDone(a, b, i, clist, c)
  {
    RowEnd(a, b, i, lim, Ys(clist, c));
  }

  lemma NoPartners(a: seq<int>, b: seq<int>, i: nat, clist: seq<Cand>, c: seq<nat>)
    requires 0 < i <= |a| && RowDone(a, b, i - 1, clist, c) && NoneBetween(a, b, i, 0, |b| + 1)
    ensures RowDone(a, b, i, clist, c)
  {
    RowStart(a, b, i, Ys(clist, c));
    RowEnd(a, b, i, 0, Ys(clist, c));
    ChainsStay(a, b, clist, Cand(0, 0, 0), c, i - 1, i);
  }

  lemma RowBegins(a: seq<int>, b: seq<int>, i: nat, clist: seq<Cand>, c: seq<nat>)
    requires 0 < i <= |a| && RowDone(a, b, i - 1, clist, c)
    ensures RowState(a, b, i, 0, c, clist, c, 0, 0, c[0])
  {
    RowStart(a, b, i, Ys(clist, c));
    ChainsStay(a, b, clist, Cand(0, 0, 0), c, i - 1, i);
    assert Ys(clist, c)[0] == 0;
  }

  /** Once oldl is behind, the old candidate lies before the partner used last. */
  lemma OldIsPassed(a: seq<int>, b: seq<int>, i: nat, lim: nat, cold: seq<nat>, clist: seq<Cand>, c: seq<nat>,
                    oldl: nat, s: nat, oldc: nat)
    requires 0 < i <= |a| && RowState(a, b, i, lim, cold, clist, c, oldl, s, oldc)
    ensures s > oldl ==> clist[oldc].y < lim
    ensures forall r | 0 <= r <= oldl :: Ys(clist, c)[r] <= lim
  {
    var t := Ys(clist, c);
    if s > oldl {
      assert t[s] < t[s + 1];
    }
    assert t[oldl] <= lim;
  }

  lemma SkipOld(a: seq<int>, b: seq<int>, i: nat, lim: nat, cold: seq<nat>, clist: seq<Cand>, c: seq<nat>,
                oldl: nat, s: nat, oldc: nat, y: nat)
    requires 0 < i <= |a| && RowState(a, b, i, lim, cold, clist, c, oldl, s, oldc)
    requires NextPartner(a, b, i, lim, y) && y <= clist[oldc].y
    ensures RowState(a, b, i, y, cold, clist, c, oldl, s, oldc)
  {
    var told, t := Ys(clist, cold), Ys(clist, c);
    OldIsPassed(a, b, i, lim, cold, clist, c, oldl, s, oldc);
    if s == oldl {
      assert told[0] == 0;
      forall r | 0 <= r < oldl
        ensures told[r] < y
      {
        assert told[r] <= told[oldl - 1];
      }
      PartnerStep(a, b, i, lim, told, t, y, oldl);
    }
  }

  /** The level the search finds is the level of y among the old thresholds. */
  lemma SearchFindsLevel(a: seq<int>, b: seq<int>, i: nat, lim: nat, cold: seq<nat>, clist: seq<Cand>, c: seq<nat>,
                         oldl: nat, s: nat, oldc: nat, y: nat, l: nat)
    requires 0 < i <= |a| && RowState(a, b, i, lim, cold, clist, c, oldl, s, oldc)
    requires NextPartner(a, b, i, lim, y) && y > clist[oldc].y && SearchResult(Ys(clist, c), y, l)
    ensures oldl < l && LevelOf(Ys(clist, cold), l, y)
    ensures (if l == oldl + 1 then oldc else c[l - 1]) == cold[l - 1]
  {
    var told, t := Ys(clist, cold), Ys(clist, c);
    OldIsPassed(a, b, i, lim, cold, clist, c, oldl, s, oldc);
    if s > oldl {
      assert l != s + 1;
      if l <= s {
        assert t[l] < t[s + 1];
      }
    }
    forall r | 0 <= r < l
      ensures told[r] < y
    {
      if r <= oldl {
        assert told[r] <= told[oldl] <= told[s];
      } else {
        assert told[r] == t[r];
      }
    }
  }

  lemma SkipEqual(a: seq<int>, b: seq<int>, i: nat, lim: nat, cold: seq<nat>, clist: seq<Cand>, c: seq<nat>,
                  oldl: nat, s: nat, oldc: nat, y: nat, l: nat)
    requires 0 < i <= |a| && RowState(a, b, i, lim, cold, clist, c, oldl, s, oldc)
    requires NextPartner(a, b, i, lim, y) && y > clist[oldc].y && SearchResult(Ys(clist, c), y, l)
    requires l < |c| && clist[c[l]].y <= y
    ensures RowState(a, b, i, y, cold, clist, c, oldl, if l == oldl + 1 then s else l - 1,
                     if l == oldl + 1 then oldc else c[l - 1])
  {
    SearchFindsLevel(a, b, i, lim, cold, clist, c, oldl, s, oldc, y, l);
    PartnerStep(a, b, i, lim, Ys(clist, cold), Ys(clist, c), y, l);
    assert Ys(clist, c)[l] == y;
  }

  lemma YsAppend(clist: seq<Cand>, d: Cand, c: seq<nat>)
    requires InRange(clist, c)
    ensures InRange(clist + [d], c) && Ys(clist + [d], c) == Ys(clist, c)
  {
  }

  lemma NewChain(a: seq<int>, b: seq<int>, i: nat, cold: seq<nat>, clist: seq<Cand>, y: nat, l: nat)
    requires 0 < i <= |a| && InRange(clist, cold) && Chains(a, b, clist, cold, i - 1) && 0 < l <= |cold|
    requires Partner(a, b, i, y) && clist[cold[l - 1]].y < y
    ensures Chain(a, b, clist + [Cand(i, y, cold[l - 1])], |clist|, l, i)
  {
    var d := Cand(i, y, cold[l - 1]);
    ChainsStay(a, b, clist, d, cold, i - 1, i - 1);
    assert Chain(a, b, clist + [d], cold[l - 1], l - 1, i - 1);
  }

  lemma Replace(a: seq<int>, b: seq<int>, i: nat, lim: nat, cold: seq<nat>, clist: seq<Cand>, c: seq<nat>,
                oldl: nat, s: nat, oldc: nat, y: nat, l: nat)
    requires 0 < i <= |a| && RowState(a, b, i, lim, cold, clist, c, oldl, s, oldc)
    requires NextPartner(a, b, i, lim, y) && y > clist[oldc].y && SearchResult(Ys(clist, c), y, l)
    requires l < |c| && clist[c[l]].y > y
    ensures RowState(a, b, i, y, cold, clist + [Cand(i, y, if l == oldl + 1 then oldc else c[l - 1])], c[l := |clist|],
                     l, l, c[l])
  {
    SearchFindsLevel(a, b, i, lim, cold, clist, c, oldl, s, oldc, y, l);
    PartnerStep(a, b, i, lim, Ys(clist, cold), Ys(clist, c), y, l);
    var d := Cand(i, y, cold[l - 1]);
    var clist', c' := clist + [d], c[l := |clist|];
    assert Ys(clist, cold)[l - 1] < y;
    NewChain(a, b, i, cold, clist, y, l);
    ChainsStay(a, b, clist, d, cold, i - 1, i - 1);
    ChainsStay(a, b, clist, d, c, i, i);
    YsAppend(clist, d, cold);
    assert Ys(clist', c') == Ys(clist, c)[l := y];
  }

  lemma NewLevel(a: seq<int>, b: seq<int>, i: nat, lim: nat, cold: seq<nat>, clist: seq<Cand>, c: seq<nat>,
                 oldl: nat, s: nat, oldc: nat, y: nat, l: nat)
    requires 0 < i <= |a| && RowState(a, b, i, lim, cold, clist, c, oldl, s, oldc)
    requires NextPartner(a, b, i, lim, y) && y > clist[oldc].y && SearchResult(Ys(clist, c), y, l)
    requires l == |c|
    ensures var clist', c' := clist + [Cand(i, y, if l == oldl + 1 then oldc else c[l - 1])], c + [|clist|];
            RowDone(a, b, i, clist', c')
  {
    SearchFindsLevel(a, b, i, lim, cold, clist, c, oldl, s, oldc, y, l);
    PartnerStep(a, b, i, lim, Ys(clist, cold), Ys(clist, c), y, l);
    var d := Cand(i, y, cold[l - 1]);
    var clist', c' := clist + [d], c + [|clist|];
    assert Ys(clist, cold)[l - 1] < y;
    NewChain(a, b, i, cold, clist, y, l);
    ChainsStay(a, b, clist, d, c, i, i);
    assert Ys(clist', c') == Ys(clist, c) + [y];
    NewLevelEndsRow(a, b, i, y, Ys(clist, cold), Ys(clist', c'));
  }

  lemma Ascending(clist: seq<Cand>, c: seq<nat>, n: nat)
    requires InRange(clist, c) && Increasing(Ys(clist, c), n)
    ensures clist[c[0]].y == 0 && forall r, s | 0 <= r < s < |c| :: clist[c[r]].y < clist[c[s]].y
  {
    var t := Ys(clist, c);
    assert t[0] == 0;
    forall r, s | 0 <= r < s < |c|
      ensures clist[c[r]].y < clist[c[s]].y
    {
      assert t[r] < t[s];
    }
  }

  lemma FinalLevel(a: seq<int>, b: seq<int>, t: seq<nat>)
    requires Thresholds(a, b, |a|, t)
    ensures Lcs(a, b) == |t| - 1
  {
    assert a[..|a|] == a && b[..|b|] == b;
    assert AtLeast(a, b, |a|, Lcs(a, b), |b|);
    assert AtLeast(a, b, |a|, |t| - 1, |b|);
  }

  // ----- the program

  /** The globals of the search: the candidate pool and the array klist. */
  class Candidates {
    var clist: seq<Cand>
    const klist: array<nat>

    constructor (n: nat)
      ensures klist.Length == n + 2 && fresh(klist) && clist == []
    {
      clist := [];
      klist := new nat[n + 2];
    }

    /** newcand() */
    method NewCand(x: nat, y: nat, pred: nat) returns (q: nat)
      modifies this`clist
      ensures clist == old(clist) + [Cand(x, y, pred)] && q == |old(clist)|
    {
      clist := clist + [Cand(x, y, pred)];
      return |clist| - 1;
    }

    /** search(): the first level whose threshold is not below y. */
    method Search(k: nat, y: nat) returns (l: nat)
      requires k < klist.Length && InRange(clist, klist[..k + 1])
      requires forall r, s | 0 <= r < s <= k :: clist[klist[r]].y < clist[klist[s]].y
      requires clist[klist[0]].y == 0 < y
      ensures SearchResult(Ys(clist, klist[..k + 1]), y, l)
    {
      ghost var t := Ys(clist, klist[..k + 1]);
      assert forall r | 0 <= r <= k :: t[r] == clist[klist[r]].y;
      if clist[klist[k]].y < y {
        return k + 1;
      }
      var i, j := 0, k + 1;
      l := (i + j) / 2;
      while l > i
        invariant 0 <= i < j <= k + 1 && l == (i + j) / 2
        invariant clist[klist[i]].y < y && (j <= k ==> y < clist[klist[j]].y)
        decreases j - i
      {
        var v := clist[klist[l]].y;
        if v > y {
          j := l;
        } else if v < y {
          i := l;
        } else {
          return l;
        }
        l := (i + j) / 2;
      }
      l := l + 1;
    }

    /** c[l] = newcand(...): the candidate becomes the end of level l. */
    method Install(k: nat, l: nat, d: Cand)
      requires l <= k + 1 < klist.Length
      modifies this`clist, klist
      ensures clist == old(clist) + [d]
      ensures l <= k ==> klist[..k + 1] == old(klist[..k + 1])[l := |old(clist)|]
      ensures l == k + 1 ==> klist[..k + 2] == old(klist[..k + 1]) + [|old(clist)|]
    {
      var q := NewCand(d.x, d.y, d.pred);
      klist[l] := q;
    }

    /** One turn of the inner loop of stone(): partner y of line i; more is false after the
        break. */
    method TryPartner(ghost a: seq<int>, ghost b: seq<int>, i: nat, ghost lim: nat, ghost cold: seq<nat>, k: nat,
                      oldl: nat, ghost s: nat, oldc: nat, y: nat)
      returns (more: bool, oldl': nat, ghost s': nat, oldc': nat)
      requires 0 < i <= |a| && k + 1 < klist.Length
      requires RowState(a, b, i, lim, cold, clist, klist[..k + 1], oldl, s, oldc) && NextPartner(a, b, i, lim, y)
      modifies this`clist, klist
      ensures more ==> RowState(a, b, i, y, cold, clist, klist[..k + 1], oldl', s', oldc')
      ensures !more ==> RowDone(a, b, i, clist, klist[..k + 2])
    {
      oldl', s', oldc' := oldl, s, oldc;
      ghost var c := klist[..k + 1];
      if y <= clist[oldc].y {
        SkipOld(a, b, i, lim, cold, clist, c, oldl, s, oldc, y);
        return true, oldl', s', oldc';
      }
      Ascending(clist, c, |b|);
      var l := Search(k, y);
      if l != oldl + 1 {
        oldc', s' := klist[l - 1], l - 1;
      }
      if l <= k {
        if clist[klist[l]].y <= y {
          SkipEqual(a, b, i, lim, cold, clist, c, oldl, s, oldc, y, l);
          return true, oldl', s', oldc';
        }
        Replace(a, b, i, lim, cold, clist, c, oldl, s, oldc, y, l);
        var tc := klist[l];
        Install(k, l, Cand(i, y, oldc'));
        return true, l, l, tc;
      } else {
        NewLevel(a, b, i, lim, cold, clist, c, oldl, s, oldc, y, l);
        Install(k, l, Cand(i, y, oldc'));
        return false, oldl', s', oldc';
      }
    }

    /** The inner loop of stone(): the partners of line i, whose list starts at j0. */
    method Row(ghost a: seq<int>, ghost b: seq<int>, mem: seq<int>, i: nat, j0: nat, k: nat) returns (k': nat)
      requires 0 < i <= |a| && 0 < j0 < |mem| && mem[j0] < 0 && ClassOf(a, b, j0, mem, i)
      requires k + 1 < klist.Length && RowDone(a, b, i - 1, clist, klist[..k + 1])
      modifies this`clist, klist
      ensures k <= k' <= k + 1 && RowDone(a, b, i, clist, klist[..k' + 1])
    {
      var j, more := j0, true;
      var y: nat := -mem[j];
      var oldl: nat, oldc := 0, klist[0];
      ghost var cold, lim: nat, s: nat := klist[..k + 1], 0, 0;
      RowBegins(a, b, i, clist, cold);
      while true
        invariant 0 < j < |mem| && y == Abs(mem[j]) && ListedFrom(a, b, mem, i, j) && NextPartner(a, b, i, lim, y)
        invariant RowState(a, b, i, lim, cold, clist, klist[..k + 1], oldl, s, oldc)
        decreases |mem| - j
      {
        more, oldl, s, oldc := TryPartner(a, b, i, lim, cold, k, oldl, s, oldc, y);
        if !more {
          return k + 1;
        }
        lim := y;
        j := j + 1;
        if mem[j] <= 0 {
          RowFinished(a, b, i, lim, cold, clist, klist[..k + 1], oldl, s, oldc);
          return k;
        }
        y := mem[j];
      }
    }

    /** stone(): klist[k] ends a chain of as many matches as a longest common subsequence has. */
    method Stone(cls: seq<int>, n: nat, mem: seq<int>, ghost a: seq<int>, ghost b: seq<int>) returns (k: nat)
      requires n == |a| && Classified(a, b, cls, mem) && clist == [] && klist.Length == |a| + 2
      modifies this`clist, klist
      ensures k == Lcs(a, b) && k < klist.Length && Chain(a, b, clist, klist[k], k, |a|)
    {
      k := 0;
      var q := NewCand(0, 0, 0);
      klist[0] := q;
      NoLinesYet(a, b);
      assert Ys(clist, klist[..1]) == [0];
      for i := 1 to n + 1
        invariant k < i && RowDone(a, b, i - 1, clist, klist[..k + 1])
      {
        var j := cls[i];
        if j == 0 {
          NoPartners(a, b, i, clist, klist[..k + 1]);
        } else {
          k := Row(a, b, mem, i, j, k);
        }
      }
      FinalLevel(a, b, Ys(clist, klist[..k + 1]));
      assert klist[..k + 1][k] == klist[k];
    }
  }
}
