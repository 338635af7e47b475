/** equiv() and unsort() of diff.c: from two sorted files to equivalence classes of lines. */
module DiffEquiv {
  import opened DiffLcs
  import opened DiffSort
  import opened DiffStone

  /** The class of a value: the first position of b that has it, 0 when none has. */
  ghost predicate ClassIs(b: seq<Line>, m: nat, v: int, cls: int)
    requires m < |b|
  {
    if cls == 0 then forall j | 1 <= j <= m :: b[j].value != v
    else 1 <= cls <= m && b[cls].value == v && forall j | 1 <= j < cls :: b[j].value < v
  }

  /** The entry of the member list: the line number, negative where a class begins. */
  function MemberAt(b: seq<Line>, j: nat): int
    requires 1 <= j < |b|
  {
    var serial: int := b[j].serial;
    if j > 1 && b[j - 1].value == b[j].value then serial else -serial
  }

  ghost predicate NonZero(b: seq<Line>, m: nat)
    requires m < |b|
  {
    forall j | 1 <= j <= m :: b[j].value != 0
  }

  ghost predicate ClassesUpTo(a: seq<Line>, a0: seq<Line>, n: nat, b: seq<Line>, m: nat, i: int)
    requires n < |a| && |a0| == |a| && m < |b|
  {
    && (forall k | 1 <= k < i && k <= n :: a[k].serial == a0[k].serial && ClassIs(b, m, a0[k].value, a[k].value))
    && (forall k | i <= k <= n && k >= 0 :: a[k] == a0[k])
  }

  /** The merge: the value of each line of a becomes its class. */
  method Classify(a: array<Line>, n: nat, b: array<Line>, m: nat)
    requires n < a.Length && m + 1 < b.Length && a != b
    requires Sorted(a[..], n) && Sorted(b[..], m)
    modifies a
    ensures ClassesUpTo(a[..], old(a[..]), n, b[..], m, n + 1)
  {
    ghost var a0, b0 := a[..], b[..];
    var i, j := 1, 1;
    while i <= n && j <= m
      invariant 1 <= i <= n + 1 && 1 <= j <= m + 1
      invariant ClassesUpTo(a[..], a0, n, b0, m, i)
      invariant i <= n ==> forall k | 1 <= k < j :: b0[k].value < a0[i].value
    {
      assert a[i] == a[..][i] == a0[i];
      assert i < n ==> Le(a0[i], a0[i + 1]);
      if a[i].value < b[j].value {
        AbsentValue(b0, m, j, a0[i].value);
        a[i] := a[i].(value := 0);
        i := i + 1;
      } else if a[i].value == b[j].value {
        a[i] := a[i].(value := j);
        i := i + 1;
      } else {
        j := j + 1;
      }
    }
    while i <= n
      invariant 1 <= i <= n + 1
      invariant ClassesUpTo(a[..], a0, n, b0, m, i)
      invariant i <= n ==> forall k | 1 <= k <= m :: b0[k].value < a0[i].value
    {
      assert a[i] == a[..][i] == a0[i];
      assert i < n ==> Le(a0[i], a0[i + 1]);
      a[i] := a[i].(value := 0);
      i := i + 1;
    }
  }

  lemma AbsentValue(b: seq<Line>, m: nat, j: nat, v: int)
    requires m < |b| && Sorted(b, m) && 1 <= j <= m && v < b[j].value
    requires forall k | 1 <= k < j :: b[k].value < v
    ensures ClassIs(b, m, v, 0)
  {
    forall k | 1 <= k <= m
      ensures b[k].value != v
    {
      assert j < k ==> Le(b[j], b[k]);
    }
  }

  /** The member lists, with the end marks. */
  method Members(b: array<Line>, m: nat, c: array<int>)
    requires m + 1 < b.Length && m + 1 < c.Length && NonZero(b[..], m)
    modifies b, c
    ensures forall j | 1 <= j <= m :: c[j] == MemberAt(old(b[..]), j)
    ensures c[m + 1] == -1
  {
    ghost var b0 := b[..];
    b[m + 1] := b[m + 1].(value := 0);
    ghost var b1 := b[..];
    var j := 1;
    while j <= m
      invariant 1 <= j <= m + 1 && b[..] == b1
      invariant forall k | 1 <= k < j :: c[k] == MemberAt(b0, k)
      invariant 1 < j <= m ==> b1[j - 1].value != b1[j].value
    {
      var serial: int := b[j].serial;
      c[j] := -serial;
      assert c[j] == MemberAt(b0, j);
      while b[j + 1].value == b[j].value
        invariant 1 <= j <= m && b[..] == b1
        invariant forall k | 1 <= k <= j :: c[k] == MemberAt(b0, k)
        decreases m - j
      {
        j := j + 1;
        c[j] := b[j].serial;
        assert c[j] == MemberAt(b0, j);
      }
      j := j + 1;
    }
    c[j] := -1;
  }

  method Equiv(a: array<Line>, n: nat, b: array<Line>, m: nat, c: array<int>)
    requires n < a.Length && m + 1 < b.Length && m + 1 < c.Length && a != b
    requires Sorted(a[..], n) && Sorted(b[..], m) && NonZero(b[..], m)
    modifies a, b, c
    ensures ClassesUpTo(a[..], old(a[..]), n, old(b[..]), m, n + 1)
    ensures forall j | 1 <= j <= m :: c[j] == MemberAt(old(b[..]), j)
    ensures c[m + 1] == -1
  {
    Classify(a, n, b, m);
    Members(b, m, c);
  }

  /** unsort(): the values back in the order of the line numbers. */
  method Unsort(f: array<Line>, l: nat, b: array<int>)
    requires l < f.Length && l < b.Length
    requires forall i | 1 <= i <= l :: 1 <= f[i].serial <= l
    requires forall i, j | 1 <= i < j <= l :: f[i].serial != f[j].serial
    modifies b
    ensures forall i | 1 <= i <= l :: b[f[i].serial] == f[i].value
  {
    var a := new int[l + 1];
    for i := 1 to l + 1
      invariant forall k | 1 <= k < i :: a[f[k].serial] == f[k].value
    {
      a[f[i].serial] := f[i].value;
    }
    for i := 1 to l + 1
      invariant forall k | 1 <= k <= l :: a[f[k].serial] == f[k].value
      invariant forall k | 1 <= k < i :: b[k] == a[k]
    {
      b[i] := a[i];
    }
  }

  // ----- what stone() needs

  /** From the two sorted files and the lists made of them, the classes stone() works from. */
  lemma ListsAreClasses(f0: seq<int>, f1: seq<int>, a: seq<Line>, b: seq<Line>, cls: seq<int>, mem: seq<int>)
    requires Holds(a, f0) && Holds(b, f1) && Sorted(b, |f1|) && |cls| > |f0| && |mem| > |f1| + 1
    requires forall k | 1 <= k <= |f0| :: ClassIs(b, |f1|, a[k].value, cls[a[k].serial])
    requires forall j | 1 <= j <= |f1| :: mem[j] == MemberAt(b, j)
    requires mem[|f1| + 1] == -1
    ensures Classified(f0, f1, cls, mem)
  {
    forall i | 0 < i <= |f0|
      ensures ClassOf(f0, f1, cls[i], mem, i)
    {
      assert Appears(a, |f0|, i);
      var k :| 1 <= k <= |f0| && a[k].serial == i;
      if cls[i] == 0 {
        PartnersFrom(f0, f1, b, i, 1);
      } else {
        ListFrom(f0, f1, b, mem, i, cls[i]);
        PartnersFrom(f0, f1, b, i, cls[i]);
      }
    }
  }

  /** When the positions before j hold smaller values, every partner of line i is at j or
      later, and none precedes the line at j if that is one. */
  lemma PartnersFrom(f0: seq<int>, f1: seq<int>, b: seq<Line>, i: nat, j: nat)
    requires Holds(b, f1) && Sorted(b, |f1|) && 0 < i <= |f0| && 1 <= j
    requires forall k | 1 <= k < j && k <= |f1| :: b[k].value != f0[i - 1]
    ensures j <= |f1| && b[j].value == f0[i - 1] ==> NoneBetween(f0, f1, i, 0, b[j].serial)
    ensures (forall k | 1 <= k <= |f1| :: b[k].value != f0[i - 1]) ==> NoneBetween(f0, f1, i, 0, |f1| + 1)
  {
    forall z | 0 < z <= |f1| && Partner(f0, f1, i, z)
      ensures exists k :: j <= k <= |f1| && b[k].value == f0[i - 1] && b[k].serial == z
    {
      assert Appears(b, |f1|, z);
      var k :| 1 <= k <= |f1| && b[k].serial == z;
    }
  }

  lemma {:induction false} ListFrom(f0: seq<int>, f1: seq<int>, b: seq<Line>, mem: seq<int>, i: nat, j: nat)
    requires Holds(b, f1) && Sorted(b, |f1|) && |mem| > |f1| + 1 && mem[|f1| + 1] == -1
    requires forall k | 1 <= k <= |f1| :: mem[k] == MemberAt(b, k)
    requires 0 < i <= |f0| && 1 <= j <= |f1| && b[j].value == f0[i - 1]
    ensures ListedFrom(f0, f1, mem, i, j)
    decreases |f1| - j
  {
    NextInClass(f0, f1, b, i, j);
    if mem[j + 1] > 0 {
      ListFrom(f0, f1, b, mem, i, j + 1);
    }
  }

  /** The next partner of line i after the one at j is the next position, if that is one. */
  lemma NextInClass(f0: seq<int>, f1: seq<int>, b: seq<Line>, i: nat, j: nat)
    requires Holds(b, f1) && Sorted(b, |f1|) && 0 < i <= |f0| && 1 <= j <= |f1| && b[j].value == f0[i - 1]
    ensures j < |f1| && b[j + 1].value == b[j].value ==>
              b[j].serial < b[j + 1].serial && NoneBetween(f0, f1, i, b[j].serial, b[j + 1].serial)
    ensures j == |f1| || b[j + 1].value != b[j].value ==> NoneBetween(f0, f1, i, b[j].serial, |f1| + 1)
  {
    assert forall k | 1 <= k < j :: Le(b[k], b[j]);
    forall z | b[j].serial < z <= |f1| && Partner(f0, f1, i, z)
      ensures j < |f1| && b[j + 1].value == b[j].value && b[j + 1].serial <= z
    {
      assert Appears(b, |f1|, z);
      var k :| 1 <= k <= |f1| && b[k].serial == z;
      assert j + 1 < k ==> Le(b[j], b[j + 1]) && Le(b[j + 1], b[k]);
    }
    if j < |f1| {
      assert Le(b[j], b[j + 1]);
    }
  }
}
