/** qsort() in sort.c: what it leaves, which lines -u empties, and how deep it calls itself. */
module SortQuick {
  import opened SortPart
  import opened Bits

  // ----- what is left between two places

  /** In order, and under -u just the lines emptied that have a like line right before them. */
  ghost predicate Ready(cmp: (Line, Line) -> int, uflg: bool, s: seq<Line>, m: seq<bool>, lo: nat, hi: nat) {
    && lo <= hi <= |s|
    && (forall p, q | lo <= p < q < hi :: cmp(s[p], s[q]) <= 0)
    && (forall k | lo <= k < hi :: 0 <= s[k] < |m|)
    && (uflg ==> forall k | lo <= k < hi :: m[s[k]] == LikeFormer(cmp, s, lo, k))
  }

  ghost predicate LikeFormer(cmp: (Line, Line) -> int, s: seq<Line>, lo: nat, k: nat)
    requires k < |s|
  {
    k > lo && cmp(s[k - 1], s[k]) == 0
  }

  /** Every line from p0 to p1 is smaller than every line from q0 to q1. */
  ghost predicate Apart(cmp: (Line, Line) -> int, s: seq<Line>, p0: nat, p1: nat, q0: nat, q1: nat) {
    forall p, q | p0 <= p < p1 <= |s| && q0 <= q < q1 <= |s| :: cmp(s[p], s[q]) < 0
  }

  /** No line stands twice between lo and hi, and none of them is emptied. */
  ghost predicate Fresh(s: seq<Line>, m: seq<bool>, lo: nat, hi: nat) {
    && lo <= hi <= |s|
    && (forall v | v in s[lo..hi] :: 0 <= v < |m| && !m[v])
    && (forall v | v in s[lo..hi] :: multiset(s[lo..hi])[v] <= 1)
  }

  /** Nothing but lines between lo and hi has been emptied, and these under -u only. */
  ghost predicate Emptied(uflg: bool, s: seq<Line>, m: seq<bool>, m': seq<bool>, lo: nat, hi: nat) {
    && lo <= hi <= |s| && |m'| == |m|
    && (forall v | 0 <= v < |m| && m'[v] != m[v] :: uflg && v in s[lo..hi])
  }

  lemma JoinReady(cmp: (Line, Line) -> int, uflg: bool, s: seq<Line>, m: seq<bool>, lo: nat, mid: nat, hi: nat)
    requires Ready(cmp, uflg, s, m, lo, mid) && Ready(cmp, uflg, s, m, mid, hi) && Apart(cmp, s, lo, mid, mid, hi)
    ensures Ready(cmp, uflg, s, m, lo, hi)
  {
    forall p, q | lo <= p < q < hi
      ensures cmp(s[p], s[q]) <= 0
    {
    }
    forall k | lo <= k < hi && uflg
      ensures m[s[k]] == LikeFormer(cmp, s, lo, k)
    {
      assert k == mid && mid > lo ==> cmp(s[k - 1], s[k]) < 0;
      assert k > mid ==> LikeFormer(cmp, s, lo, k) == LikeFormer(cmp, s, mid, k);
      assert k < mid ==> m[s[k]] == LikeFormer(cmp, s, lo, k);
      assert k >= mid ==> m[s[k]] == LikeFormer(cmp, s, mid, k);
    }
  }

  lemma KeepReady(cmp: (Line, Line) -> int, uflg: bool, s: seq<Line>, m: seq<bool>, s': seq<Line>, m': seq<bool>, lo: nat, hi: nat)
    requires Ready(cmp, uflg, s, m, lo, hi) && |s'| == |s| && |m'| == |m|
    requires forall k | lo <= k < hi :: s'[k] == s[k] && m'[s[k]] == m[s[k]]
    ensures Ready(cmp, uflg, s', m', lo, hi)
  {
    forall k | lo <= k < hi
      ensures LikeFormer(cmp, s', lo, k) == LikeFormer(cmp, s, lo, k)
    {
    }
  }

  lemma CountedTwice(t: seq<Line>, i: nat, j: nat)
    requires i < j < |t| && t[i] == t[j]
    ensures multiset(t)[t[i]] >= 2
  {
    assert t == t[..i] + [t[i]] + t[i + 1..j] + [t[j]] + t[j + 1..];
  }

  /** Lines that stand at different places are different. */
  lemma Different(s: seq<Line>, m: seq<bool>, lo: nat, hi: nat, i: nat, j: nat)
    requires Fresh(s, m, lo, hi) && lo <= i < j < hi
    ensures s[i] != s[j]
  {
    var t := s[lo..hi];
    assert t[i - lo] == s[i] && t[j - lo] == s[j];
    assert multiset(t)[t[i - lo]] <= 1;
    if t[i - lo] == t[j - lo] {
      CountedTwice(t, i - lo, j - lo);
    }
  }

  lemma FreshPart(s: seq<Line>, m: seq<bool>, lo: nat, hi: nat, a: nat, l: nat)
    requires Fresh(s, m, lo, hi) && lo <= a <= l <= hi
    ensures Fresh(s, m, a, l)
  {
    var t := s[lo..hi];
    assert s[lo..hi] == s[lo..a] + s[a..l] + s[l..hi];
    assert multiset(t) == multiset(s[lo..a]) + multiset(s[a..l]) + multiset(s[l..hi]);
    forall v | v in s[a..l]
      ensures 0 <= v < |m| && !m[v] && multiset(s[a..l])[v] <= 1
    {
      assert v in t;
    }
  }

  lemma FreshPermuted(s: seq<Line>, s': seq<Line>, m: seq<bool>, lo: nat, hi: nat)
    requires Fresh(s, m, lo, hi) && Permuted(s, s', lo, hi)
    ensures Fresh(s', m, lo, hi)
  {
    forall v | v in s'[lo..hi]
      ensures v in s[lo..hi]
    {
      assert v in multiset(s'[lo..hi]);
    }
  }

  /** A line of the new order was there before, between the same two places. */
  lemma WasThere(s: seq<Line>, s': seq<Line>, lo: nat, hi: nat, k: nat) returns (k0: nat)
    requires Permuted(s, s', lo, hi) && lo <= k < hi
    ensures lo <= k0 < hi && s'[k] == s[k0] && |s'| == |s|
  {
    assert s'[k] == s'[lo..hi][k - lo];
    assert s'[k] in multiset(s'[lo..hi]);
    assert s'[k] in s[lo..hi];
    var z: nat :| z < hi - lo && s[lo..hi][z] == s'[k];
    k0 := lo + z;
  }

  /** Reordering one side keeps the two sides apart. */
  lemma ApartPermuted(cmp: (Line, Line) -> int, s: seq<Line>, s': seq<Line>, a: nat, l: nat, p0: nat, p1: nat, q0: nat, q1: nat)
    requires Apart(cmp, s, p0, p1, q0, q1) && Permuted(s, s', a, l) && p1 <= |s| && q1 <= |s|
    requires (p0 <= a && l <= p1) || p1 <= a || l <= p0
    requires (q0 <= a && l <= q1) || q1 <= a || l <= q0
    ensures Apart(cmp, s', p0, p1, q0, q1)
  {
    forall p, q | p0 <= p < p1 && q0 <= q < q1
      ensures cmp(s'[p], s'[q]) < 0
    {
      var x, y := p, q;
      if a <= p < l { x := WasThere(s, s', a, l, p); } else { Elsewhere(s, s', a, l, p); }
      if a <= q < l { y := WasThere(s, s', a, l, q); } else { Elsewhere(s, s', a, l, q); }
      assert cmp(s[x], s[y]) < 0;
    }
  }

  lemma Elsewhere(s: seq<Line>, s': seq<Line>, lo: nat, hi: nat, k: nat)
    requires Permuted(s, s', lo, hi) && k < |s| && !(lo <= k < hi)
    ensures |s'| == |s| && s'[k] == s[k]
  {
    assert k < lo ==> s'[..lo][k] == s[..lo][k];
    assert k >= hi ==> s'[hi..][k - hi] == s[hi..][k - hi];
  }

  lemma PermutedInside(s: seq<Line>, s': seq<Line>, lo: nat, hi: nat, a: nat, l: nat)
    requires Permuted(s, s', a, l) && lo <= a && l <= hi <= |s|
    ensures Permuted(s, s', lo, hi)
  {
    assert s[lo..hi] == s[lo..a] + s[a..l] + s[l..hi];
    assert s'[lo..hi] == s'[lo..a] + s'[a..l] + s'[l..hi];
    assert s'[lo..a] == s[lo..a] by {
      assert s'[lo..a] == s'[..a][lo..] && s[lo..a] == s[..a][lo..];
    }
    assert s'[l..hi] == s[l..hi] by {
      assert s'[l..hi] == s'[l..][..hi - l] && s[l..hi] == s[l..][..hi - l];
    }
    assert s'[..lo] == s'[..a][..lo] && s[..lo] == s[..a][..lo];
    assert s'[hi..] == s'[l..][hi - l..] && s[hi..] == s[l..][hi - l..];
  }

  /** All lines like the pivot but the first are emptied. */
  method Empty(x: array<Line>, marked: array<bool>, lp: nat, hp: nat, ghost m: seq<bool>)
    requires lp <= hp < x.Length && m == marked[..]
    requires forall k | lp <= k <= hp :: 0 <= x[k] < marked.Length && !marked[x[k]]
    requires forall i, j | lp <= i < j <= hp :: x[i] != x[j]
    modifies marked
    ensures Emptied(true, x[..], m, marked[..], lp, hp + 1)
    ensures forall k | lp <= k <= hp :: marked[x[k]] == (k > lp)
  {
    var k := lp + 1;
    while k <= hp
      invariant lp + 1 <= k <= hp + 1
      invariant forall i | lp <= i <= hp :: marked[x[i]] == (lp < i < k)
      invariant forall v | 0 <= v < |m| && marked[v] != m[v] :: v in x[lp..hp + 1]
    {
      assert x[k] in x[lp..hp + 1] by {
        assert x[lp..hp + 1][k - lp] == x[k];
      }
      marked[x[k]] := true;
      k := k + 1;
    }
    assert x[..][lp..hp + 1] == x[lp..hp + 1];
  }

  // ----- one turn of the loop

  /** A change between p and q leaves every other stretch as it was. */
  lemma Untouched(cmp: (Line, Line) -> int, uflg: bool, m0: seq<bool>, s: seq<Line>, m: seq<bool>, s': seq<Line>, m': seq<bool>,
                  lo: nat, hi: nat, p: nat, q: nat, b: nat, c: nat)
    requires Fresh(s, m0, lo, hi) && Permuted(s, s', p, q) && Emptied(uflg, s, m, m', p, q) && |m| == |m0|
    requires lo <= p && q <= hi && lo <= b <= c <= hi && (c <= p || q <= b)
    ensures Ready(cmp, uflg, s, m, b, c) ==> Ready(cmp, uflg, s', m', b, c)
    ensures Fresh(s, m, b, c) ==> Fresh(s', m', b, c)
  {
    forall k | b <= k < c
      ensures s'[k] == s[k] && 0 <= s[k] < |m| && m'[s[k]] == m[s[k]]
    {
      Elsewhere(s, s', p, q, k);
      assert s[k] == s[lo..hi][k - lo];
      assert s[k] in s[lo..hi];
      if s[k] in s[p..q] {
        var z: nat :| z < q - p && s[p..q][z] == s[k];
        assert s[p + z] == s[k];
        if k < p {
          Different(s, m0, lo, hi, k, p + z);
        } else {
          Different(s, m0, lo, hi, p + z, k);
        }
      }
    }
    if Ready(cmp, uflg, s, m, b, c) {
      KeepReady(cmp, uflg, s, m, s', m', b, c);
    }
    assert s'[b..c] == s[b..c];
    forall v | v in s[b..c]
      ensures 0 <= v < |m| && m'[v] == m[v]
    {
      var z: nat :| z < c - b && s[b..c][z] == v;
      assert s[b + z] == v;
    }
  }

  /** What holds of the lines as a whole. */
  ghost predicate Whole(uflg: bool, s0: seq<Line>, m0: seq<bool>, s: seq<Line>, m: seq<bool>, lo: nat, hi: nat) {
    Permuted(s0, s, lo, hi) && Fresh(s, m0, lo, hi) && Emptied(uflg, s0, m0, m, lo, hi)
  }

  lemma KeepWhole(uflg: bool, s0: seq<Line>, m0: seq<bool>, s: seq<Line>, m: seq<bool>, s': seq<Line>, m': seq<bool>,
                  lo: nat, hi: nat, p: nat, q: nat)
    requires Whole(uflg, s0, m0, s, m, lo, hi) && Permuted(s, s', p, q) && Emptied(uflg, s, m, m', p, q)
    requires lo <= p && q <= hi
    ensures Whole(uflg, s0, m0, s', m', lo, hi)
  {
    PermutedInside(s, s', lo, hi, p, q);
    PermutedTwice(s0, s, s', lo, hi);
    FreshPermuted(s, s', m0, lo, hi);
    forall v | 0 <= v < |m| && m'[v] != m0[v]
      ensures uflg && v in s0[lo..hi]
    {
      if m'[v] != m[v] {
        var z: nat :| z < q - p && s[p..q][z] == v;
        assert s[lo..hi][p + z - lo] == v;
        assert v in multiset(s[lo..hi]);
      }
    }
  }

  /** The lines left to sort stand from a to l; the lines before are done and smaller, the lines
      behind are done and greater. */
  ghost predicate Around(cmp: (Line, Line) -> int, uflg: bool, s: seq<Line>, m: seq<bool>, lo: nat, a: nat, l: nat, hi: nat) {
    && lo <= a <= l <= hi <= |s| && Fresh(s, m, a, l)
    && Ready(cmp, uflg, s, m, lo, a) && Ready(cmp, uflg, s, m, l, hi)
    && Apart(cmp, s, lo, a, a, hi) && Apart(cmp, s, a, l, l, hi)
  }

  /** Between them, from p to q, the lines like the pivot. */
  ghost predicate Cut(cmp: (Line, Line) -> int, uflg: bool, s: seq<Line>, m: seq<bool>,
                      lo: nat, a: nat, p: nat, q: nat, l: nat, hi: nat) {
    && lo <= a <= p <= q <= l <= hi <= |s| && Fresh(s, m, a, p) && Fresh(s, m, q, l)
    && Ready(cmp, uflg, s, m, lo, a) && Ready(cmp, uflg, s, m, p, q) && Ready(cmp, uflg, s, m, l, hi)
    && Apart(cmp, s, lo, a, a, hi) && Apart(cmp, s, a, p, p, hi) && Apart(cmp, s, p, q, q, hi) && Apart(cmp, s, q, l, l, hi)
  }

  lemma EmptiedNone(uflg: bool, s: seq<Line>, m: seq<bool>, lo: nat, hi: nat)
    requires lo <= hi <= |s|
    ensures Emptied(uflg, s, m, m, lo, hi)
  {
  }

  lemma Reordered(cmp: (Line, Line) -> int, uflg: bool, m0: seq<bool>, s: seq<Line>, m: seq<bool>, s': seq<Line>,
                  lo: nat, a: nat, l: nat, hi: nat)
    requires Fresh(s, m0, lo, hi) && |m| == |m0| && Around(cmp, uflg, s, m, lo, a, l, hi) && Permuted(s, s', a, l)
    ensures Around(cmp, uflg, s', m, lo, a, l, hi)
  {
    hide Permuted, Fresh, Ready, Apart, Emptied;
    assert |s'| == |s| by { PermutedLength(s, s', a, l); }
    EmptiedNone(uflg, s, m, a, l);
    Untouched(cmp, uflg, m0, s, m, s', m, lo, hi, a, l, lo, a);
    Untouched(cmp, uflg, m0, s, m, s', m, lo, hi, a, l, l, hi);
    ApartPermuted(cmp, s, s', a, l, lo, a, a, hi);
    ApartPermuted(cmp, s, s', a, l, a, l, l, hi);
    FreshPermuted(s, s', m, a, l);
  }

  lemma PermutedLength(s: seq<Line>, s': seq<Line>, lo: nat, hi: nat)
    requires Permuted(s, s', lo, hi)
    ensures |s'| == |s|
  {
  }

  lemma PivotsAlike(cmp: (Line, Line) -> int, s: seq<Line>, a: nat, l: nat, lp: nat, hp: nat, piv: Line, i: nat, j: nat)
    requires Preorder(cmp) && Split(cmp, s, a, l, lp, lp, hp, hp, piv) && lp <= i <= hp && lp <= j <= hp
    ensures cmp(s[i], s[j]) == 0
  {
    assert Sign(cmp(s[i], piv)) == 0 && Sign(cmp(s[j], piv)) == 0;
    Like(cmp, s[i], s[j], piv);
  }

  lemma PivotsReady(cmp: (Line, Line) -> int, uflg: bool, s: seq<Line>, m: seq<bool>, a: nat, l: nat, lp: nat, hp: nat, piv: Line)
    requires Preorder(cmp) && Split(cmp, s, a, l, lp, lp, hp, hp, piv)
    requires forall k | lp <= k <= hp :: 0 <= s[k] < |m| && (uflg ==> m[s[k]] == (k > lp))
    ensures Ready(cmp, uflg, s, m, lp, hp + 1)
  {
    forall p, q | lp <= p <= q <= hp
      ensures cmp(s[p], s[q]) == 0
    {
      PivotsAlike(cmp, s, a, l, lp, hp, piv, p, q);
    }
  }

  lemma Flip(cmp: (Line, Line) -> int, x: Line, y: Line)
    requires Preorder(cmp)
    ensures (cmp(x, y) < 0 <==> cmp(y, x) > 0) && (cmp(x, y) > 0 <==> cmp(y, x) < 0)
  {
  }

  lemma PivotsApart(cmp: (Line, Line) -> int, s: seq<Line>, a: nat, l: nat, lp: nat, hp: nat, piv: Line)
    requires Preorder(cmp) && Split(cmp, s, a, l, lp, lp, hp, hp, piv)
    ensures Apart(cmp, s, a, lp, lp, l) && Apart(cmp, s, lp, hp + 1, hp + 1, l)
  {
    assert cmp(piv, piv) == 0 by {
      assert cmp(piv, piv) < 0 <==> cmp(piv, piv) > 0;
    }
    forall p, q | a <= p < lp && lp <= q < l
      ensures cmp(s[p], s[q]) < 0
    {
      assert Sign(cmp(s[p], piv)) == -1;
      assert Sign(cmp(s[q], piv)) >= 0;
      Flip(cmp, s[q], piv);
      Chain(cmp, s[p], piv, s[q]);
    }
    forall p, q | lp <= p <= hp && hp + 1 <= q < l
      ensures cmp(s[p], s[q]) < 0
    {
      assert Sign(cmp(s[p], piv)) == 0;
      assert Sign(cmp(s[q], piv)) == 1;
      Flip(cmp, s[q], piv);
      Chain(cmp, s[p], piv, s[q]);
    }
  }

  lemma ApartJoin(cmp: (Line, Line) -> int, s: seq<Line>, a: nat, p: nat, l: nat, hi: nat)
    requires a <= p <= l <= hi <= |s| && Apart(cmp, s, a, p, p, l) && Apart(cmp, s, a, l, l, hi)
    ensures Apart(cmp, s, a, p, p, hi) && Apart(cmp, s, p, l, l, hi)
  {
  }

  lemma Cutting(cmp: (Line, Line) -> int, uflg: bool, m0: seq<bool>, s: seq<Line>, m: seq<bool>, m': seq<bool>,
                lo: nat, a: nat, lp: nat, hp: nat, l: nat, hi: nat, piv: Line)
    requires Preorder(cmp) && Fresh(s, m0, lo, hi) && |m| == |m0| && Around(cmp, uflg, s, m, lo, a, l, hi)
    requires Split(cmp, s, a, l, lp, lp, hp, hp, piv) && Emptied(uflg, s, m, m', lp, hp + 1)
    requires forall k | lp <= k <= hp :: 0 <= s[k] < |m'| && (uflg ==> m'[s[k]] == (k > lp))
    ensures Cut(cmp, uflg, s, m', lo, a, lp, hp + 1, l, hi)
  {
    hide Permuted, Fresh, Ready, Apart, Emptied, Preorder, Side;
    PivotsReady(cmp, uflg, s, m', a, l, lp, hp, piv);
    PivotsApart(cmp, s, a, l, lp, hp, piv);
    PermutedSelf(s, lp, hp + 1);
    Untouched(cmp, uflg, m0, s, m, s, m', lo, hi, lp, hp + 1, lo, a);
    Untouched(cmp, uflg, m0, s, m, s, m', lo, hi, lp, hp + 1, l, hi);
    FreshPart(s, m, a, l, a, lp);
    FreshPart(s, m, a, l, hp + 1, l);
    Untouched(cmp, uflg, m0, s, m, s, m', lo, hi, lp, hp + 1, a, lp);
    Untouched(cmp, uflg, m0, s, m, s, m', lo, hi, lp, hp + 1, hp + 1, l);
    ApartJoin(cmp, s, a, lp, l, hi);
    ApartJoin(cmp, s, lp, hp + 1, l, hi);
  }

  lemma PermutedSelf(s: seq<Line>, lo: nat, hi: nat)
    requires lo <= hi <= |s|
    ensures Permuted(s, s, lo, hi)
  {
  }

  /** The part behind the pivot is sorted: the part before is left. */
  lemma BehindDone(cmp: (Line, Line) -> int, uflg: bool, m0: seq<bool>, s: seq<Line>, m: seq<bool>, s': seq<Line>, m': seq<bool>,
                   lo: nat, a: nat, p: nat, q: nat, l: nat, hi: nat)
    requires Fresh(s, m0, lo, hi) && |m| == |m0| && Cut(cmp, uflg, s, m, lo, a, p, q, l, hi)
    requires Permuted(s, s', q, l) && Ready(cmp, uflg, s', m', q, l) && Emptied(uflg, s, m, m', q, l)
    ensures Around(cmp, uflg, s', m', lo, a, p, hi)
  {
    hide Permuted, Fresh, Ready, Apart, Emptied;
    PermutedLength(s, s', q, l);
    Untouched(cmp, uflg, m0, s, m, s', m', lo, hi, q, l, lo, a);
    Untouched(cmp, uflg, m0, s, m, s', m', lo, hi, q, l, a, p);
    Untouched(cmp, uflg, m0, s, m, s', m', lo, hi, q, l, p, q);
    Untouched(cmp, uflg, m0, s, m, s', m', lo, hi, q, l, l, hi);
    ApartPermuted(cmp, s, s', q, l, lo, a, a, hi);
    ApartPermuted(cmp, s, s', q, l, a, p, p, hi);
    ApartPermuted(cmp, s, s', q, l, p, q, q, hi);
    ApartPermuted(cmp, s, s', q, l, q, l, l, hi);
    JoinReady(cmp, uflg, s', m', q, l, hi);
    JoinReady(cmp, uflg, s', m', p, q, hi);
  }

  /** The part before the pivot is sorted: the part behind is left. */
  lemma BeforeDone(cmp: (Line, Line) -> int, uflg: bool, m0: seq<bool>, s: seq<Line>, m: seq<bool>, s': seq<Line>, m': seq<bool>,
                   lo: nat, a: nat, p: nat, q: nat, l: nat, hi: nat)
    requires Fresh(s, m0, lo, hi) && |m| == |m0| && Cut(cmp, uflg, s, m, lo, a, p, q, l, hi)
    requires Permuted(s, s', a, p) && Ready(cmp, uflg, s', m', a, p) && Emptied(uflg, s, m, m', a, p)
    ensures Around(cmp, uflg, s', m', lo, q, l, hi)
  {
    hide Permuted, Fresh, Ready, Emptied;
    PermutedLength(s, s', a, p);
    Untouched(cmp, uflg, m0, s, m, s', m', lo, hi, a, p, lo, a);
    Untouched(cmp, uflg, m0, s, m, s', m', lo, hi, a, p, q, l);
    Untouched(cmp, uflg, m0, s, m, s', m', lo, hi, a, p, p, q);
    Untouched(cmp, uflg, m0, s, m, s', m', lo, hi, a, p, l, hi);
    ApartPermuted(cmp, s, s', a, p, lo, a, a, hi);
    ApartPermuted(cmp, s, s', a, p, a, p, p, hi);
    ApartPermuted(cmp, s, s', a, p, p, q, q, hi);
    ApartPermuted(cmp, s, s', a, p, q, l, l, hi);
    assert Apart(cmp, s', lo, a, a, p) && Apart(cmp, s', a, p, p, q);
    JoinReady(cmp, uflg, s', m', lo, a, p);
    assert Apart(cmp, s', lo, p, p, q);
    JoinReady(cmp, uflg, s', m', lo, p, q);
    assert Apart(cmp, s', lo, q, q, hi);
  }

  /** With at most one line left, all is done. */
  lemma AllDone(cmp: (Line, Line) -> int, uflg: bool, s: seq<Line>, m: seq<bool>, lo: nat, a: nat, l: nat, hi: nat)
    requires Preorder(cmp) && Around(cmp, uflg, s, m, lo, a, l, hi) && l - a <= 1
    ensures Ready(cmp, uflg, s, m, lo, hi)
  {
    hide Permuted, Preorder, Emptied;
    OneReady(cmp, uflg, s, m, a, l);
    JoinReady(cmp, uflg, s, m, a, l, hi);
    JoinReady(cmp, uflg, s, m, lo, a, hi);
  }

  lemma OneReady(cmp: (Line, Line) -> int, uflg: bool, s: seq<Line>, m: seq<bool>, a: nat, l: nat)
    requires Fresh(s, m, a, l) && l - a <= 1
    ensures Ready(cmp, uflg, s, m, a, l)
  {
    if a < l {
      assert s[a] == s[a..l][0];
      assert s[a] in s[a..l];
    }
  }

  /** The smaller of two parts fits into one call less. */
  lemma HalfFits(n: nat, p: nat, q: nat, depth: nat)
    requires 2 <= n <= Pow2(depth) && p + q + 1 <= n
    ensures depth > 0
    ensures p > q ==> q <= Pow2(depth - 1)
    ensures p <= q ==> p <= Pow2(depth - 1)
  {
  }

  lemma Parted(cmp: (Line, Line) -> int, uflg: bool, s0: seq<Line>, m0: seq<bool>, s: seq<Line>, m: seq<bool>, s1: seq<Line>,
               lo: nat, a: nat, l: nat, hi: nat, lp: nat, hp: nat, piv: Line)
    requires Whole(uflg, s0, m0, s, m, lo, hi) && Around(cmp, uflg, s, m, lo, a, l, hi)
    requires Parting(cmp, s, s1, a, l, lp, lp, hp, hp, piv)
    ensures Whole(uflg, s0, m0, s1, m, lo, hi) && Around(cmp, uflg, s1, m, lo, a, l, hi)
    ensures Split(cmp, s1, a, l, lp, lp, hp, hp, piv) && a <= lp <= hp < l <= hi <= |s1| == |s|
    ensures forall k | lp <= k <= hp :: 0 <= s1[k] < |m| && !m[s1[k]]
    ensures forall i, j | lp <= i < j <= hp :: s1[i] != s1[j]
  {
    hide Permuted, Ready, Apart, Side, Emptied, Fresh;
    EmptiedNone(uflg, s, m, a, l);
    assert |m| == |m0| by { End(uflg, s0, m0, s, m, lo, hi); }
    PermutedLength(s, s1, a, l);
    Reordered(cmp, uflg, m0, s, m, s1, lo, a, l, hi);
    KeepWhole(uflg, s0, m0, s, m, s1, m, lo, hi, a, l);
    FreshLines(s1, m, a, l);
  }

  lemma FreshLines(s: seq<Line>, m: seq<bool>, a: nat, l: nat)
    requires Fresh(s, m, a, l)
    ensures forall k | a <= k < l <= |s| :: 0 <= s[k] < |m| && !m[s[k]]
    ensures forall i, j | a <= i < j < l <= |s| :: s[i] != s[j]
  {
    forall k | a <= k < l
      ensures 0 <= s[k] < |m| && !m[s[k]]
    {
      assert s[k] == s[a..l][k - a];
      assert s[k] in s[a..l];
    }
    forall i, j | a <= i < j < l
      ensures s[i] != s[j]
    {
      Different(s, m, a, l, i, j);
    }
  }

  lemma Halves(cmp: (Line, Line) -> int, uflg: bool, s0: seq<Line>, m0: seq<bool>, s: seq<Line>, m: seq<bool>, m1: seq<bool>,
               lo: nat, a: nat, l: nat, hi: nat, lp: nat, hp: nat, piv: Line)
    requires Preorder(cmp) && Whole(uflg, s0, m0, s, m, lo, hi) && Around(cmp, uflg, s, m, lo, a, l, hi)
    requires Split(cmp, s, a, l, lp, lp, hp, hp, piv)
    requires if uflg then Emptied(true, s, m, m1, lp, hp + 1) && forall k | lp <= k <= hp :: 0 <= s[k] < |m1| && m1[s[k]] == (k > lp)
             else m1 == m
    requires forall k | lp <= k <= hp :: 0 <= s[k] < |m|
    ensures Whole(uflg, s0, m0, s, m1, lo, hi) && Cut(cmp, uflg, s, m1, lo, a, lp, hp + 1, l, hi)
    ensures Fresh(s, m1, a, lp) && Fresh(s, m1, hp + 1, l)
  {
    hide Permuted, Ready, Apart, Side, Emptied, Fresh, Preorder;
    End(uflg, s0, m0, s, m, lo, hi);
    if !uflg {
      EmptiedNone(uflg, s, m, lp, hp + 1);
    }
    Cutting(cmp, uflg, m0, s, m, m1, lo, a, lp, hp, l, hi, piv);
    PermutedSelf(s, lp, hp + 1);
    KeepWhole(uflg, s0, m0, s, m, s, m1, lo, hi, lp, hp + 1);
  }

  lemma Behind(cmp: (Line, Line) -> int, uflg: bool, s0: seq<Line>, m0: seq<bool>, s: seq<Line>, m: seq<bool>, s': seq<Line>, m': seq<bool>,
               lo: nat, a: nat, p: nat, q: nat, l: nat, hi: nat)
    requires Whole(uflg, s0, m0, s, m, lo, hi) && Cut(cmp, uflg, s, m, lo, a, p, q, l, hi)
    requires Permuted(s, s', q, l) && Ready(cmp, uflg, s', m', q, l) && Emptied(uflg, s, m, m', q, l)
    ensures Whole(uflg, s0, m0, s', m', lo, hi) && Around(cmp, uflg, s', m', lo, a, p, hi)
  {
    hide Permuted, Ready, Apart, Emptied, Fresh, Whole, Around;
    End(uflg, s0, m0, s, m, lo, hi);
    BehindDone(cmp, uflg, m0, s, m, s', m', lo, a, p, q, l, hi);
    KeepWhole(uflg, s0, m0, s, m, s', m', lo, hi, q, l);
  }

  lemma Before(cmp: (Line, Line) -> int, uflg: bool, s0: seq<Line>, m0: seq<bool>, s: seq<Line>, m: seq<bool>, s': seq<Line>, m': seq<bool>,
               lo: nat, a: nat, p: nat, q: nat, l: nat, hi: nat)
    requires Whole(uflg, s0, m0, s, m, lo, hi) && Cut(cmp, uflg, s, m, lo, a, p, q, l, hi)
    requires Permuted(s, s', a, p) && Ready(cmp, uflg, s', m', a, p) && Emptied(uflg, s, m, m', a, p)
    ensures Whole(uflg, s0, m0, s', m', lo, hi) && Around(cmp, uflg, s', m', lo, q, l, hi)
  {
    hide Permuted, Ready, Apart, Emptied, Fresh, Whole, Around;
    End(uflg, s0, m0, s, m, lo, hi);
    BeforeDone(cmp, uflg, m0, s, m, s', m', lo, a, p, q, l, hi);
    KeepWhole(uflg, s0, m0, s, m, s', m', lo, hi, a, p);
  }

  /** qsort(a, l).  It calls itself for the smaller part only, so `depth` calls within one
      another are enough for Pow2(depth) lines. */
  method QSort(x: array<Line>, marked: array<bool>, lo: nat, hi: nat, cmp: (Line, Line) -> int, uflg: bool, ghost depth: nat)
    requires lo <= hi <= x.Length && hi - lo <= Pow2(depth)
    requires Preorder(cmp) && Fresh(x[..], marked[..], lo, hi)
    modifies x, marked
    ensures Permuted(old(x[..]), x[..], lo, hi)
    ensures Ready(cmp, uflg, x[..], marked[..], lo, hi)
    ensures Emptied(uflg, old(x[..]), old(marked[..]), marked[..], lo, hi)
    decreases depth
  {
    hide Permuted, Preorder, Emptied, Fresh, Ready, Apart, Parting, Split, Whole, Cut, Around;
    var a, l := lo, hi;
    ghost var s0, m0 := x[..], marked[..];
    Start(cmp, uflg, s0, m0, lo, hi);
    while true
      invariant lo <= a <= l <= hi
      invariant Whole(uflg, s0, m0, x[..], marked[..], lo, hi)
      invariant Around(cmp, uflg, x[..], marked[..], lo, a, l, hi)
      decreases l - a
    {
      if l - a <= 1 {
        break;
      }
      ghost var s, m := x[..], marked[..];
      var lp, hp;
      ghost var piv;
      lp, hp, piv := Partition(x, a, l, cmp);
      ghost var s1 := x[..];
      Parted(cmp, uflg, s0, m0, s, m, s1, lo, a, l, hi, lp, hp, piv);
      if uflg {
        Empty(x, marked, lp, hp, m);
      }
      ghost var m1 := marked[..];
      Halves(cmp, uflg, s0, m0, s1, m, m1, lo, a, l, hi, lp, hp, piv);
      HalfFits(l - a, lp - a, l - hp - 1, depth);
      if lp - a >= l - hp {
        QSort(x, marked, hp + 1, l, cmp, uflg, depth - 1);
        Behind(cmp, uflg, s0, m0, s1, m1, x[..], marked[..], lo, a, lp, hp + 1, l, hi);
        l := lp;
      } else {
        QSort(x, marked, a, lp, cmp, uflg, depth - 1);
        Before(cmp, uflg, s0, m0, s1, m1, x[..], marked[..], lo, a, lp, hp + 1, l, hi);
        a := hp + 1;
      }
    }
    AllDone(cmp, uflg, x[..], marked[..], lo, a, l, hi);
    End(uflg, s0, m0, x[..], marked[..], lo, hi);
  }

  lemma Start(cmp: (Line, Line) -> int, uflg: bool, s: seq<Line>, m: seq<bool>, lo: nat, hi: nat)
    requires lo <= hi <= |s| && Fresh(s, m, lo, hi)
    ensures Whole(uflg, s, m, s, m, lo, hi) && Around(cmp, uflg, s, m, lo, lo, hi, hi)
  {
  }

  lemma End(uflg: bool, s0: seq<Line>, m0: seq<bool>, s: seq<Line>, m: seq<bool>, lo: nat, hi: nat)
    requires Whole(uflg, s0, m0, s, m, lo, hi)
    ensures Permuted(s0, s, lo, hi) && Emptied(uflg, s0, m0, m, lo, hi) && Fresh(s, m0, lo, hi) && |m| == |m0|
  {
  }

  // ----- what -u keeps

  /** Line k is kept: it is the only kept line of those like it. */
  lemma KeptIsAlone(cmp: (Line, Line) -> int, s: seq<Line>, m: seq<bool>, lo: nat, hi: nat, k: nat, j: nat)
    requires Preorder(cmp) && Ready(cmp, true, s, m, lo, hi) && lo <= k < hi && lo <= j < hi
    requires !m[s[k]] && !m[s[j]] && cmp(s[j], s[k]) == 0
    ensures j == k
  {
    Flip(cmp, s[j], s[k]);
    if j < k {
      KeptAreApart(cmp, s, m, lo, hi, j, k);
    } else {
      KeptAreApart(cmp, s, m, lo, hi, k, j);
    }
  }

  lemma ReadyMarks(cmp: (Line, Line) -> int, s: seq<Line>, m: seq<bool>, lo: nat, hi: nat)
    requires Ready(cmp, true, s, m, lo, hi)
    ensures lo <= hi <= |s| && forall k | lo <= k < hi :: 0 <= s[k] < |m| && m[s[k]] == LikeFormer(cmp, s, lo, k)
  {
  }

  /** Each line has a kept line like it, not behind it. */
  lemma {:induction false} OneIsKept(cmp: (Line, Line) -> int, s: seq<Line>, m: seq<bool>, lo: nat, hi: nat, k: nat) returns (f: nat)
    requires Preorder(cmp) && Ready(cmp, true, s, m, lo, hi) && lo <= k < hi
    ensures lo <= f <= k && cmp(s[f], s[k]) == 0 && !m[s[f]]
    ensures forall j | lo <= j < hi && !m[s[j]] && cmp(s[j], s[f]) == 0 :: j == f
    decreases k
  {
    hide Preorder, Ready;
    ReadyMarks(cmp, s, m, lo, hi);
    if !m[s[k]] {
      f := k;
      Flip(cmp, s[k], s[k]);
      forall j | lo <= j < hi && !m[s[j]] && cmp(s[j], s[k]) == 0
        ensures j == k
      {
        KeptIsAlone(cmp, s, m, lo, hi, k, j);
      }
    } else {
      f := OneIsKept(cmp, s, m, lo, hi, k - 1);
      SameClass(cmp, s[f], s[k - 1], s[k]);
    }
  }

  lemma SameClass(cmp: (Line, Line) -> int, x: Line, y: Line, z: Line)
    requires Preorder(cmp) && cmp(x, y) == 0 && (cmp(y, z) == 0 || cmp(z, y) == 0)
    ensures cmp(x, z) == 0
  {
    Flip(cmp, x, y);
    Flip(cmp, y, z);
    Chain(cmp, x, y, z);
    Chain(cmp, z, y, x);
    Flip(cmp, x, z);
  }

  /** Any two kept lines differ, and stand in strict order. */
  lemma KeptAreApart(cmp: (Line, Line) -> int, s: seq<Line>, m: seq<bool>, lo: nat, hi: nat, p: nat, q: nat)
    requires Preorder(cmp) && Ready(cmp, true, s, m, lo, hi) && lo <= p <= q < hi && !m[s[q]]
    ensures p < q ==> cmp(s[p], s[q]) < 0
  {
    if p < q {
      assert !LikeFormer(cmp, s, lo, q);
      Flip(cmp, s[p], s[q - 1]);
      assert cmp(s[q - 1], s[q]) < 0;
      if p < q - 1 {
        Chain(cmp, s[p], s[q - 1], s[q]);
      }
    }
  }
}
