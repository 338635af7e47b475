/** Longest common subsequences: what diff.c is to find. */
module DiffLcs {
  import opened Sequences

  function Max(a: int, b: int): int { if a < b then b else a }

  /** The length of a longest common subsequence. */
  function Lcs<T(==)>(a: seq<T>, b: seq<T>): nat
    decreases |a| + |b|
  {
    if a == [] || b == [] then 0
    else if Last(a) == Last(b) then Lcs(Front(a), Front(b)) + 1
    else Max(Lcs(Front(a), b), Lcs(a, Front(b)))
  }

  // ----- it is the length of the longest

  /** Pairs of positions, counted from 1, increasing in both, of equal elements. */
  ghost predicate Common<T>(p: seq<(nat, nat)>, a: seq<T>, b: seq<T>) {
    && (forall k | 0 <= k < |p| :: 1 <= p[k].0 <= |a| && 1 <= p[k].1 <= |b| && a[p[k].0 - 1] == b[p[k].1 - 1])
    && (forall j, k | 0 <= j < k < |p| :: p[j].0 < p[k].0 && p[j].1 < p[k].1)
  }

  lemma {:induction false} NoLonger<T>(p: seq<(nat, nat)>, a: seq<T>, b: seq<T>)
    requires Common(p, a, b)
    ensures |p| <= Lcs(a, b)
    decreases |a| + |b|
  {
    if p != [] {
      var q := Front(p);
      var (x, y) := Last(p);
      if x < |a| {
        NoLonger(p, Front(a), b);
        LcsFront(a, b);
      } else if y < |b| {
        NoLonger(p, a, Front(b));
        LcsFront(a, b);
      } else {
        NoLonger(q, Front(a), Front(b));
      }
    }
  }

  lemma {:induction false} SomeIsAsLong<T>(a: seq<T>, b: seq<T>) returns (p: seq<(nat, nat)>)
    ensures Common(p, a, b) && |p| == Lcs(a, b)
    decreases |a| + |b|
  {
    if a == [] || b == [] {
      p := [];
    } else if Last(a) == Last(b) {
      p := SomeIsAsLong(Front(a), Front(b));
      p := p + [(|a|, |b|)];
    } else if Lcs(Front(a), b) >= Lcs(a, Front(b)) {
      p := SomeIsAsLong(Front(a), b);
    } else {
      p := SomeIsAsLong(a, Front(b));
    }
  }

  // ----- one more line changes it by at most one

  lemma {:induction false} LcsFront<T>(a: seq<T>, b: seq<T>)
    ensures a != [] ==> Lcs(Front(a), b) <= Lcs(a, b) <= Lcs(Front(a), b) + 1
    ensures b != [] ==> Lcs(a, Front(b)) <= Lcs(a, b) <= Lcs(a, Front(b)) + 1
    decreases |a| + |b|
  {
    if a != [] && b != [] {
      LcsFront(Front(a), b);
      LcsFront(a, Front(b));
    }
  }

  lemma {:induction false} LcsWithinLength<T>(a: seq<T>, b: seq<T>)
    ensures Lcs(a, b) <= |a| && Lcs(a, b) <= |b|
    decreases |a| + |b|
  {
    if a != [] && b != [] {
      LcsWithinLength(Front(a), Front(b));
      LcsWithinLength(Front(a), b);
      LcsWithinLength(a, Front(b));
    }
  }

  lemma {:induction false} LcsWithSelf<T>(a: seq<T>)
    ensures Lcs(a, a) == |a|
  {
    if a != [] {
      LcsWithSelf(Front(a));
    }
  }

  // ----- common beginnings and ends

  lemma {:induction false} CommonEnd(a: seq<int>, b: seq<int>, x: seq<int>)
    ensures Lcs(a + x, b + x) == Lcs(a, b) + |x|
    decreases |x|
  {
    if x == [] {
      assert a + x == a && b + x == b;
    } else {
      assert Front(a + x) == a + Front(x) && Front(b + x) == b + Front(x);
      CommonEnd(a, b, Front(x));
    }
  }

  lemma {:induction false} CommonFirst(c: int, a: seq<int>, b: seq<int>)
    ensures Lcs([c] + a, [c] + b) == 1 + Lcs(a, b)
    decreases |a| + |b|
  {
    var x, y := [c] + a, [c] + b;
    if a != [] {
      assert Front(x) == [c] + Front(a);
    }
    if b != [] {
      assert Front(y) == [c] + Front(b);
    }
    if a == [] && b == [] {
      assert Front(x) == [] && Front(y) == [];
    } else if a == [] {
      assert Front(x) == [];
      CommonFirst(c, a, Front(b));
    } else if b == [] {
      assert Front(y) == [];
      CommonFirst(c, Front(a), b);
    } else if Last(a) == Last(b) {
      CommonFirst(c, Front(a), Front(b));
    } else {
      CommonFirst(c, Front(a), b);
      CommonFirst(c, a, Front(b));
    }
  }

  lemma {:induction false} CommonBeginning(x: seq<int>, a: seq<int>, b: seq<int>)
    ensures Lcs(x + a, x + b) == |x| + Lcs(a, b)
  {
    if x == [] {
      assert x + a == a && x + b == b;
    } else {
      assert x + a == [x[0]] + (x[1..] + a) && x + b == [x[0]] + (x[1..] + b);
      CommonFirst(x[0], x[1..] + a, x[1..] + b);
      CommonBeginning(x[1..], a, b);
    }
  }

  // ----- the table of prefixes

  /** The longest common subsequence of the first i lines of a and the first y of b. */
  function L(a: seq<int>, b: seq<int>, i: nat, y: nat): nat
    requires i <= |a| && y <= |b|
  {
    Lcs(a[..i], b[..y])
  }

  lemma NextCell(a: seq<int>, b: seq<int>, i: nat, y: nat)
    requires 0 < i <= |a| && 0 < y <= |b|
    ensures L(a, b, i, y) == if a[i - 1] == b[y - 1] then L(a, b, i - 1, y - 1) + 1
                             else Max(L(a, b, i - 1, y), L(a, b, i, y - 1))
  {
    assert Front(a[..i]) == a[..i - 1] && Front(b[..y]) == b[..y - 1];
  }

  lemma CellSteps(a: seq<int>, b: seq<int>, i: nat, y: nat)
    requires i <= |a| && y <= |b|
    ensures i > 0 ==> L(a, b, i - 1, y) <= L(a, b, i, y) <= L(a, b, i - 1, y) + 1
    ensures y > 0 ==> L(a, b, i, y - 1) <= L(a, b, i, y) <= L(a, b, i, y - 1) + 1
  {
    LcsFront(a[..i], b[..y]);
    assert i > 0 ==> Front(a[..i]) == a[..i - 1];
    assert y > 0 ==> Front(b[..y]) == b[..y - 1];
  }

  lemma {:induction false} CellsGrow(a: seq<int>, b: seq<int>, i: nat, y: nat, z: nat)
    requires i <= |a| && y <= z <= |b|
    ensures L(a, b, i, y) <= L(a, b, i, z)
    decreases z
  {
    if y < z {
      CellSteps(a, b, i, z);
      CellsGrow(a, b, i, y, z - 1);
    }
  }

  /** r common lines within the first y lines of b, using of line i only its partners up to
      lim. */
  ghost predicate Reach(a: seq<int>, b: seq<int>, i: nat, lim: nat, r: nat, y: nat)
    requires 0 < i <= |a| && y <= |b|
  {
    || L(a, b, i - 1, y) >= r
    || exists z: nat :: Partner(a, b, i, z) && z <= y && z <= lim && L(a, b, i - 1, z - 1) + 1 >= r
  }

  predicate Partner(a: seq<int>, b: seq<int>, i: nat, z: nat)
    requires 0 < i <= |a|
  {
    0 < z <= |b| && a[i - 1] == b[z - 1]
  }

  /** With all the partners of line i, that is a common subsequence of length r. */
  lemma {:induction false} ReachAll(a: seq<int>, b: seq<int>, i: nat, r: nat, y: nat)
    requires 0 < i <= |a| && y <= |b|
    ensures Reach(a, b, i, |b|, r, y) <==> L(a, b, i, y) >= r
    decreases y
  {
    CellSteps(a, b, i, y);
    if y > 0 {
      NextCell(a, b, i, y);
      ReachAll(a, b, i, r, y - 1);
      CellSteps(a, b, i - 1, y);
      if Partner(a, b, i, y) {
        assert L(a, b, i - 1, y - 1) + 1 == L(a, b, i, y);
      }
    }
    if Reach(a, b, i, |b|, r, y) && L(a, b, i - 1, y) < r {
      var z: nat :| Partner(a, b, i, z) && z <= y && L(a, b, i - 1, z - 1) + 1 >= r;
      NextCell(a, b, i, z);
      CellsGrow(a, b, i, z, y);
    }
  }
}
