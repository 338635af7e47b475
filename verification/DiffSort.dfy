/** The shellsort of diff.c: lines by hash value, equal ones by line number. */
module DiffSort {

  datatype Line = Line(serial: nat, value: int)

  /** Not after, in the order of the sort. */
  predicate Le(p: Line, q: Line) {
    p.value < q.value || (p.value == q.value && p.serial <= q.serial)
  }

  /** Positions 1 to n are in order. */
  ghost predicate Sorted(a: seq<Line>, n: int) {
    forall i, j | 1 <= i < j <= n && j < |a| :: Le(a[i], a[j])
  }

  /** Sorted except that the element at i may belong further down. */
  ghost predicate SortedBut(a: seq<Line>, n: int, i: int) {
    && (forall r, s | 1 <= r < s <= n && s < |a| && r != i && s != i :: Le(a[r], a[s]))
    && (forall s | 1 <= i < s <= n && s < |a| :: Le(a[i], a[s]))
  }

  /** Nothing but the order of positions 1 to n differs. */
  ghost predicate Reordered(a: seq<Line>, b: seq<Line>, n: nat) {
    |a| == |b| && multiset(a) == multiset(b) && forall k | 0 <= k < |a| && (k == 0 || k > n) :: a[k] == b[k]
  }

  function Swap(a: seq<Line>, i: nat, j: nat): (b: seq<Line>)
    requires i < |a| && j < |a|
  {
    a[i := a[j]][j := a[i]]
  }

  lemma SwapReorders(a: seq<Line>, i: nat, j: nat, n: nat)
    requires 0 < i < j < |a| && j <= n
    ensures Reordered(Swap(a, i, j), a, n)
  {
    assert a == a[..i] + [a[i]] + a[i + 1..j] + [a[j]] + a[j + 1..];
    assert Swap(a, i, j) == a[..i] + [a[j]] + a[i + 1..j] + [a[i]] + a[j + 1..];
  }

  lemma SwapSorts(a: seq<Line>, n: nat, i: nat)
    requires 0 < i < n < |a| && SortedBut(a, n, i + 1) && Le(a[i + 1], a[i])
    ensures SortedBut(Swap(a, i, i + 1), n, i)
  {
  }

  lemma StopSorts(a: seq<Line>, n: nat, i: nat)
    requires i < n < |a| && SortedBut(a, n, i + 1) && (i > 0 ==> !Le(a[i + 1], a[i]))
    ensures Sorted(a, n)
  {
    forall r | 1 <= r < i + 1
      ensures Le(a[r], a[i + 1])
    {
      assert r < i ==> Le(a[r], a[i]);
    }
  }

  lemma SwapStep(a: seq<Line>, b: seq<Line>, i: nat, m: nat, n: nat, top: nat)
    requires 0 < i && 0 < m && i + m <= top <= n < |a| && Le(a[i + m], a[i])
    requires b == Swap(a, i, i + m)
    ensures Reordered(b, a, n)
    ensures m == 1 && SortedBut(a, top, i + 1) ==> SortedBut(b, top, i)
  {
    SwapReorders(a, i, i + m, n);
    if m == 1 && SortedBut(a, top, i + 1) && i < top {
      SwapSorts(a, top, i);
    }
  }

  /** One exchange of elements m apart, and what it does to the order when m is 1. */
  method SwapElements(a: array<Line>, i: nat, m: nat, ghost n: nat, ghost top: nat)
    requires 0 < i && 0 < m && i + m <= top <= n < a.Length && Le(a[i + m], a[i])
    modifies a
    ensures Reordered(a[..], old(a[..]), n)
    ensures m == 1 && SortedBut(old(a[..]), top, i + 1) ==> SortedBut(a[..], top, i)
  {
    ghost var s := a[..];
    a[i], a[i + m] := a[i + m], a[i];
    assert a[..] == Swap(s, i, i + m);
    SwapStep(s, a[..], i, m, n, top);
  }

  /** The innermost loop: the element at j + m moves down in steps of m. */
  method Sift(a: array<Line>, n: nat, m: nat, j: nat)
    requires 0 < m && 0 < j && j + m <= n < a.Length
    modifies a
    ensures Reordered(a[..], old(a[..]), n)
    ensures m == 1 && Sorted(old(a[..]), j) ==> Sorted(a[..], j + 1)
  {
    var i: int := j;
    ghost var sorted := m == 1 && Sorted(a[..], j);
    while i > 0
      invariant i <= j && i + m >= 1 && Reordered(a[..], old(a[..]), n)
      invariant sorted ==> i >= 0 && SortedBut(a[..], j + 1, i + 1)
    {
      if !Le(a[i + m], a[i]) {
        break;
      }
      SwapElements(a, i, m, n, j + m);
      i := i - m;
    }
    if sorted {
      StopSorts(a[..], j + 1, i);
    }
  }

  /** sort(): whatever gaps come first, the last pass has gap 1. */
  method Sort(a: array<Line>, n: nat)
    requires n < a.Length
    modifies a
    ensures Reordered(a[..], old(a[..]), n) && Sorted(a[..], n)
  {
    var m: nat := *;
    var j := 1;
    while j <= n
      invariant 0 < j && (j > 1 ==> m == j - 1)
    {
      m := 2 * j - 1;
      j := j * 2;
    }
    m := m / 2;
    while m != 0
      invariant Reordered(a[..], old(a[..]), n)
      invariant m == 0 ==> Sorted(a[..], n)
      decreases m
    {
      var k := n - m;
      j := 1;
      while j <= k
        invariant 1 <= j && Reordered(a[..], old(a[..]), n)
        invariant m == 1 && n > 0 ==> j <= n && Sorted(a[..], j)
      {
        Sift(a, n, m, j);
        j := j + 1;
      }
      m := m / 2;
    }
  }

  // ----- sorting numbered lines

  /** The lines numbered from 1, after an unused element 0. */
  ghost predicate Numbered(a: seq<Line>, f: seq<int>) {
    |a| > |f| && forall i | 1 <= i <= |f| :: a[i] == Line(i, f[i - 1])
  }

  ghost predicate Appears(a: seq<Line>, n: nat, i: nat)
    requires n < |a|
  {
    exists k :: 1 <= k <= n && a[k].serial == i
  }

  /** Each line of f occurs once among positions 1 to |f|, under its number. */
  ghost predicate Holds(a: seq<Line>, f: seq<int>) {
    && |a| > |f|
    && (forall k | 1 <= k <= |f| :: 1 <= a[k].serial <= |f| && a[k].value == f[a[k].serial - 1])
    && (forall i | 1 <= i <= |f| :: Appears(a, |f|, i))
    && (forall j, k | 1 <= j < k <= |f| :: a[j].serial != a[k].serial)
  }

  lemma Twice<T>(s: seq<T>, i: nat, j: nat)
    requires i < j < |s| && s[i] == s[j]
    ensures multiset(s)[s[i]] >= 2
  {
    assert s == s[..j] + [s[j]] + s[j + 1..];
    assert s[i] in s[..j];
  }

  lemma {:induction false} OnlyOnce<T>(s: seq<T>, x: T)
    requires forall i, j | 0 <= i < j < |s| :: s[i] != s[j]
    ensures multiset(s)[x] <= 1
  {
    if s != [] {
      var t := s[..|s| - 1];
      assert s == t + [s[|s| - 1]];
      OnlyOnce(t, x);
      if x in t {
        assert x != s[|s| - 1];
      }
    }
  }

  lemma CancelEnds<T>(x: seq<T>, p: seq<T>, q: seq<T>, z: seq<T>)
    requires multiset(x + p + z) == multiset(x + q + z)
    ensures multiset(p) == multiset(q)
  {
    var r := multiset(x) + multiset(z);
    assert multiset(p) == multiset(x + p + z) - r && multiset(q) == multiset(x + q + z) - r;
  }

  lemma SameMiddle(a: seq<Line>, b: seq<Line>, n: nat)
    requires n < |a| && Reordered(b, a, n)
    ensures multiset(a[1..n + 1]) == multiset(b[1..n + 1])
  {
    var p, q, z := a[1..n + 1], b[1..n + 1], a[n + 1..];
    assert a == [a[0]] + p + z && b == [a[0]] + q + z;
    CancelEnds([a[0]], p, q, z);
  }

  lemma SortingKeepsLines(a: seq<Line>, b: seq<Line>, f: seq<int>)
    requires Numbered(a, f) && Reordered(b, a, |f|)
    ensures Holds(b, f)
  {
    var n := |f|;
    SameMiddle(a, b, n);
    SameLines(a, b, a[1..n + 1], b[1..n + 1], f);
  }

  lemma SameLines(a: seq<Line>, b: seq<Line>, p: seq<Line>, q: seq<Line>, f: seq<int>)
    requires Numbered(a, f) && |b| == |a| && p == a[1..|f| + 1] && q == b[1..|f| + 1]
    requires multiset(p) == multiset(q)
    ensures Holds(b, f)
  {
    var n := |f|;
    forall k | 1 <= k <= n
      ensures 1 <= b[k].serial <= n && b[k].value == f[b[k].serial - 1]
    {
      assert q[k - 1] in multiset(p);
    }
    forall i | 1 <= i <= n
      ensures Appears(b, n, i)
    {
      assert p[i - 1] in multiset(q);
      var k :| 0 <= k < n && q[k] == p[i - 1];
      assert b[k + 1].serial == i;
    }
    forall j, k | 1 <= j < k <= n
      ensures b[j].serial != b[k].serial
    {
      if b[j].serial == b[k].serial {
        assert q[j - 1] == q[k - 1];
        Twice(q, j - 1, k - 1);
        OnlyOnce(p, q[j - 1]);
      }
    }
  }
}
