/** The three-way partition of qsort() in sort.c. */
module SortPart {

  type Line = int

  /** What the comparison routines of sort.c are: they order all lines, some of them alike. */
  ghost predicate Preorder(cmp: (Line, Line) -> int) {
    && (forall x, y :: cmp(x, y) < 0 <==> cmp(y, x) > 0)
    && (forall x, y, z :: cmp(x, y) <= 0 && cmp(y, z) <= 0 ==> cmp(x, z) <= 0)
  }

  lemma Chain(cmp: (Line, Line) -> int, x: Line, y: Line, z: Line)
    requires Preorder(cmp) && cmp(x, y) <= 0 && cmp(y, z) <= 0
    ensures cmp(x, z) <= 0 && (cmp(x, y) < 0 || cmp(y, z) < 0 ==> cmp(x, z) < 0)
  {
    if cmp(x, z) >= 0 {
      assert cmp(z, x) <= 0;
      assert cmp(y, x) <= 0 && cmp(z, y) <= 0;
    }
  }

  /** The same lines between lo and hi, nothing changed elsewhere. */
  ghost predicate Permuted(s: seq<Line>, s': seq<Line>, lo: nat, hi: nat) {
    && lo <= hi <= |s| == |s'| && multiset(s'[lo..hi]) == multiset(s[lo..hi])
    && s'[..lo] == s[..lo] && s'[hi..] == s[hi..]
  }

  function Swapped(s: seq<Line>, i: nat, j: nat): seq<Line>
    requires i < |s| && j < |s|
  {
    s[i := s[j]][j := s[i]]
  }

  lemma SwapSlice(s: seq<Line>, lo: nat, hi: nat, i: nat, j: nat)
    requires lo <= i < hi <= |s| && lo <= j < hi
    ensures |Swapped(s, i, j)| == |s| && Swapped(s, i, j)[lo..hi] == Swapped(s[lo..hi], i - lo, j - lo)
    ensures Swapped(s, i, j)[..lo] == s[..lo] && Swapped(s, i, j)[hi..] == s[hi..]
  {
  }

  lemma SwapMultiset(t: seq<Line>, x: nat, y: nat)
    requires x < |t| && y < |t|
    ensures multiset(Swapped(t, x, y)) == multiset(t)
  {
  }

  lemma SwapPermutes(s: seq<Line>, lo: nat, hi: nat, i: nat, j: nat)
    requires lo <= i < hi <= |s| && lo <= j < hi
    ensures Permuted(s, Swapped(s, i, j), lo, hi)
  {
    hide Swapped;
    SwapSlice(s, lo, hi, i, j);
    SwapMultiset(s[lo..hi], i - lo, j - lo);
  }

  lemma PermutedTwice(s: seq<Line>, s1: seq<Line>, s2: seq<Line>, lo: nat, hi: nat)
    requires Permuted(s, s1, lo, hi) && Permuted(s1, s2, lo, hi)
    ensures Permuted(s, s2, lo, hi)
  {
  }

  /** All between lo and hi are on one side of the pivot: -1, 0 or 1. */
  ghost predicate Side(cmp: (Line, Line) -> int, s: seq<Line>, lo: int, hi: int, piv: Line, side: int) {
    forall k | lo <= k < hi && 0 <= k < |s| :: Sign(cmp(s[k], piv)) == side
  }

  function Sign(c: int): int { if c < 0 then -1 else if c > 0 then 1 else 0 }

  /** The state of the partition of [a, l): smaller lines before i, lines like the pivot from
      lp to hp, greater ones after j. */
  ghost predicate Split(cmp: (Line, Line) -> int, s: seq<Line>, a: nat, l: nat, i: int, lp: int, hp: int, j: int, piv: Line) {
    && a <= i <= lp <= hp <= j < l <= |s|
    && Side(cmp, s, a, i, piv, -1) && Side(cmp, s, lp, hp + 1, piv, 0) && Side(cmp, s, j + 1, l, piv, 1)
  }

  lemma Like(cmp: (Line, Line) -> int, x: Line, y: Line, piv: Line)
    requires Preorder(cmp) && cmp(y, piv) == 0
    ensures cmp(x, y) < 0 <==> cmp(x, piv) < 0
    ensures cmp(x, y) > 0 <==> cmp(x, piv) > 0
    ensures cmp(y, x) < 0 <==> cmp(x, piv) > 0
    ensures cmp(y, x) > 0 <==> cmp(x, piv) < 0
  {
    assert cmp(piv, y) == 0 by {
      assert !(cmp(y, piv) < 0) && !(cmp(piv, y) < 0);
    }
    if cmp(x, y) <= 0 {
      Chain(cmp, x, y, piv);
    } else {
      Chain(cmp, piv, y, x);
    }
  }

  method Swap(a: array<Line>, i: nat, j: nat)
    requires i < a.Length && j < a.Length
    modifies a
    ensures a[..] == Swapped(old(a[..]), i, j)
  {
    a[i], a[j] := a[j], a[i];
  }

  /** qstexc: *p from *r, *r from *q, *q from *p. */
  method Rotate(a: array<Line>, p: nat, q: nat, r: nat)
    requires p < a.Length && q < a.Length && r < a.Length
    modifies a
    ensures a[..] == Rotated(old(a[..]), p, q, r)
  {
    ghost var s := a[..];
    var t := a[p];
    a[p] := a[r];
    a[r] := a[q];
    a[q] := t;
  }

  function Rotated(s: seq<Line>, p: nat, q: nat, r: nat): seq<Line>
    requires p < |s| && q < |s| && r < |s|
  {
    var t := s[p];
    var s1 := s[p := s[r]];
    var s2 := s1[r := s1[q]];
    s2[q := t]
  }

  lemma RotateIsTwoSwaps(s: seq<Line>, p: nat, q: nat, r: nat)
    requires p < |s| && q < |s| && r < |s| && p != q
    ensures |Swapped(s, p, q)| == |s|
    ensures Rotated(s, p, q, r) == if r == q then Swapped(s, p, q) else Swapped(Swapped(s, p, q), p, r)
  {
  }

  lemma RotatePermutes(s: seq<Line>, lo: nat, hi: nat, p: nat, q: nat, r: nat)
    requires lo <= p < hi <= |s| && lo <= q < hi && lo <= r < hi && p != q
    ensures Permuted(s, Rotated(s, p, q, r), lo, hi)
  {
    hide Swapped, Rotated, Permuted;
    RotateIsTwoSwaps(s, p, q, r);
    var s1 := Swapped(s, p, q);
    SwapPermutes(s, lo, hi, p, q);
    if r != q {
      SwapPermutes(s1, lo, hi, p, r);
      PermutedTwice(s, s1, Swapped(s1, p, r), lo, hi);
    }
  }

  /** The lines of s0, in the course of the partition. */
  ghost predicate Parting(cmp: (Line, Line) -> int, s0: seq<Line>, s: seq<Line>, a: nat, l: nat, i: int, lp: int, hp: int, j: int, piv: Line) {
    Permuted(s0, s, a, l) && Split(cmp, s, a, l, i, lp, hp, j, piv)
  }

  // ----- the moves of the partition

  lemma Begin(cmp: (Line, Line) -> int, s: seq<Line>, a: nat, l: nat, n: nat, piv: Line)
    requires a <= n < l <= |s| && piv == s[n] && Preorder(cmp)
    ensures Parting(cmp, s, s, a, l, a, n, n, l - 1, piv)
  {
    assert cmp(piv, piv) == 0 by {
      assert cmp(piv, piv) < 0 <==> cmp(piv, piv) > 0;
    }
  }

  lemma Bounds(cmp: (Line, Line) -> int, s0: seq<Line>, s: seq<Line>, a: nat, l: nat, i: int, lp: int, hp: int, j: int, piv: Line)
    requires Parting(cmp, s0, s, a, l, i, lp, hp, j, piv)
    ensures a <= i <= lp <= hp <= j < l <= |s| && cmp(s[lp], piv) == 0 && cmp(s[hp], piv) == 0
  {
    assert Sign(cmp(s[lp], piv)) == 0 && Sign(cmp(s[hp], piv)) == 0;
  }

  /** A line like the pivot joins it from before. */
  lemma LikeBefore(cmp: (Line, Line) -> int, s0: seq<Line>, s: seq<Line>, a: nat, l: nat, i: int, lp: int, hp: int, j: int, piv: Line)
    requires Parting(cmp, s0, s, a, l, i, lp, hp, j, piv) && i < lp && cmp(s[i], piv) == 0
    ensures Parting(cmp, s0, Swapped(s, i, lp - 1), a, l, i, lp - 1, hp, j, piv)
  {
    hide Permuted;
    SwapPermutes(s, a, l, i, lp - 1);
    assert Permuted(s0, Swapped(s, i, lp - 1), a, l) by {
      PermutedTwice(s0, s, Swapped(s, i, lp - 1), a, l);
    }
  }

  lemma LikeBehind(cmp: (Line, Line) -> int, s0: seq<Line>, s: seq<Line>, a: nat, l: nat, i: int, lp: int, hp: int, j: int, piv: Line)
    requires Parting(cmp, s0, s, a, l, i, lp, hp, j, piv) && hp < j && cmp(s[j], piv) == 0
    ensures Parting(cmp, s0, Swapped(s, hp + 1, j), a, l, i, lp, hp + 1, j, piv)
    ensures i < lp ==> Swapped(s, hp + 1, j)[i] == s[i]
  {
    hide Permuted;
    SwapPermutes(s, a, l, hp + 1, j);
    assert Permuted(s0, Swapped(s, hp + 1, j), a, l) by {
      PermutedTwice(s0, s, Swapped(s, hp + 1, j), a, l);
    }
  }

  lemma SmallerBefore(cmp: (Line, Line) -> int, s0: seq<Line>, s: seq<Line>, a: nat, l: nat, i: int, lp: int, hp: int, j: int, piv: Line)
    requires Parting(cmp, s0, s, a, l, i, lp, hp, j, piv) && i < lp && cmp(s[i], piv) < 0
    ensures Parting(cmp, s0, s, a, l, i + 1, lp, hp, j, piv)
  {
  }

  lemma GreaterBehind(cmp: (Line, Line) -> int, s0: seq<Line>, s: seq<Line>, a: nat, l: nat, i: int, lp: int, hp: int, j: int, piv: Line)
    requires Parting(cmp, s0, s, a, l, i, lp, hp, j, piv) && hp < j && cmp(s[j], piv) > 0
    ensures Parting(cmp, s0, s, a, l, i, lp, hp, j - 1, piv)
  {
  }

  /** A greater and a smaller line change places. */
  lemma Exchange(cmp: (Line, Line) -> int, s0: seq<Line>, s: seq<Line>, a: nat, l: nat, i: int, lp: int, hp: int, j: int, piv: Line)
    requires Parting(cmp, s0, s, a, l, i, lp, hp, j, piv) && i < lp && hp < j && cmp(s[i], piv) > 0 && cmp(s[j], piv) < 0
    ensures Parting(cmp, s0, Swapped(s, i, j), a, l, i + 1, lp, hp, j - 1, piv)
  {
    hide Permuted;
    SwapPermutes(s, a, l, i, j);
    assert Permuted(s0, Swapped(s, i, j), a, l) by {
      PermutedTwice(s0, s, Swapped(s, i, j), a, l);
    }
  }

  /** A smaller line from behind, with nothing left before: the pivot lines move up by one. */
  lemma MoveUp(cmp: (Line, Line) -> int, s0: seq<Line>, s: seq<Line>, a: nat, l: nat, lp: int, hp: int, j: int, piv: Line)
    requires Parting(cmp, s0, s, a, l, lp, lp, hp, j, piv) && hp < j && cmp(s[j], piv) < 0
    ensures Parting(cmp, s0, Rotated(s, lp, hp + 1, j), a, l, lp + 1, lp + 1, hp + 1, j, piv)
  {
    hide Permuted;
    RotatePermutes(s, a, l, lp, hp + 1, j);
    assert Permuted(s0, Rotated(s, lp, hp + 1, j), a, l) by {
      PermutedTwice(s0, s, Rotated(s, lp, hp + 1, j), a, l);
    }
  }

  /** A greater line from before, with nothing left behind: the pivot lines move down by one. */
  lemma MoveDown(cmp: (Line, Line) -> int, s0: seq<Line>, s: seq<Line>, a: nat, l: nat, i: int, lp: int, hp: int, piv: Line)
    requires Parting(cmp, s0, s, a, l, i, lp, hp, hp, piv) && i < lp && cmp(s[i], piv) > 0
    ensures Parting(cmp, s0, Rotated(s, hp, lp - 1, i), a, l, i, lp - 1, hp - 1, hp - 1, piv)
  {
    hide Permuted;
    RotatePermutes(s, a, l, hp, lp - 1, i);
    assert Permuted(s0, Rotated(s, hp, lp - 1, i), a, l) by {
      PermutedTwice(s0, s, Rotated(s, hp, lp - 1, i), a, l);
    }
  }

  /** The inner loop of the partition, from the label loop; again where it goes back to the
      outer loop by itself. */
  method FromBehind(x: array<Line>, ghost s0: seq<Line>, ghost a: nat, ghost l: nat, cmp: (Line, Line) -> int, i0: nat, lp0: nat, hp0: nat, j0: nat,
                    ghost piv: Line)
    returns (i: nat, lp: nat, hp: nat, j: nat, again: bool)
    requires Preorder(cmp) && Parting(cmp, s0, x[..], a, l, i0, lp0, hp0, j0, piv) && (i0 < lp0 ==> cmp(x[i0], piv) > 0)
    modifies x
    ensures Parting(cmp, s0, x[..], a, l, i, lp, hp, j, piv)
    ensures lp - i + j - hp <= lp0 - i0 + j0 - hp0 && (again ==> lp - i + j - hp < lp0 - i0 + j0 - hp0)
    ensures !again ==> j == hp && (i < lp ==> i < |x[..]| && cmp(x[i], piv) > 0)
  {
    hide Parting, Permuted, Split, Preorder, Swapped, Rotated, Side, Sign;
    i, lp, hp, j, again := i0, lp0, hp0, j0, false;
    Bounds(cmp, s0, x[..], a, l, i, lp, hp, j, piv);
    while j > hp
      invariant Parting(cmp, s0, x[..], a, l, i, lp, hp, j, piv)
      invariant a <= i <= lp <= hp <= j < l <= x.Length && (i < lp ==> cmp(x[i], piv) > 0)
      invariant lp - i + j - hp <= lp0 - i0 + j0 - hp0
      decreases j - hp
    {
      ghost var s := x[..];
      Bounds(cmp, s0, s, a, l, i, lp, hp, j, piv);
      var c := cmp(x[hp], x[j]);
      Like(cmp, x[j], x[hp], piv);
      if c == 0 {
        hp := hp + 1;
        LikeBehind(cmp, s0, s, a, l, i, lp, hp - 1, j, piv);
        Swap(x, hp, j);
        assert i < lp ==> x[..][i] == s[i];
      } else if c > 0 {
        if i == lp {
          hp := hp + 1;
          MoveUp(cmp, s0, s, a, l, lp, hp - 1, j, piv);
          Rotate(x, i, hp, j);
          lp := lp + 1;
          i := lp;
        } else {
          Exchange(cmp, s0, s, a, l, i, lp, hp, j, piv);
          Swap(x, i, j);
          j := j - 1;
          i := i + 1;
          again := true;
          return;
        }
      } else {
        GreaterBehind(cmp, s0, s, a, l, i, lp, hp, j, piv);
        j := j - 1;
      }
    }
  }

  /** The partition.  The lines like the pivot end up from lp to hp, the smaller ones before,
      the greater ones behind. */
  method Partition(x: array<Line>, a: nat, l: nat, cmp: (Line, Line) -> int) returns (lp: nat, hp: nat, ghost piv: Line)
    requires a + 1 < l <= x.Length && Preorder(cmp)
    modifies x
    ensures Parting(cmp, old(x[..]), x[..], a, l, lp, lp, hp, hp, piv)
  {
    hide Parting, Permuted, Split, Preorder, Swapped, Rotated, Side, Sign;
    var n := (l - a) / 2;
    lp, hp := a + n, a + n;
    piv := x[lp];
    var i: nat, j: nat := a, l - 1;
    ghost var s0 := x[..];
    Begin(cmp, s0, a, l, lp, piv);
    while true
      invariant Parting(cmp, s0, x[..], a, l, i, lp, hp, j, piv)
      invariant a <= i <= lp <= hp <= j < l <= x.Length
      decreases lp - i + j - hp
    {
      ghost var s := x[..];
      Bounds(cmp, s0, s, a, l, i, lp, hp, j, piv);
      if i < lp {
        var c := cmp(x[i], x[lp]);
        Like(cmp, x[i], x[lp], piv);
        if c == 0 {
          lp := lp - 1;
          LikeBefore(cmp, s0, s, a, l, i, lp + 1, hp, j, piv);
          Swap(x, i, lp);
          continue;
        }
        if c < 0 {
          SmallerBefore(cmp, s0, s, a, l, i, lp, hp, j, piv);
          i := i + 1;
          continue;
        }
      }
      var again;
      i, lp, hp, j, again := FromBehind(x, s0, a, l, cmp, i, lp, hp, j, piv);
      ghost var s1 := x[..];
      Bounds(cmp, s0, s1, a, l, i, lp, hp, j, piv);
      if again {
        continue;
      }
      if i == lp {
        return;
      }
      lp := lp - 1;
      MoveDown(cmp, s0, s1, a, l, i, lp + 1, hp, piv);
      Rotate(x, j, lp, i);
      hp := hp - 1;
      j := hp;
      Bounds(cmp, s0, x[..], a, l, i, lp, hp, j, piv);
    }
  }
}
