/** Keys and data on a page of dbm.c, two items to a pair, and the order of the keys. */
module DbmPairs {
  import opened Bits
  import opened Options
  import opened DbmPage

  type Pair = (Datum, Datum)

  // ----- cmpdatum()

  /** The characters are signed. */
  function Signed(b: byte): int { if b < 128 then b else b - 256 }

  /** The first difference of two strings of one length, or 0. */
  function Difference(a: Datum, b: Datum): int
    requires |a| == |b|
  {
    if a == [] then 0
    else if a[0] != b[0] then Signed(a[0]) - Signed(b[0])
    else Difference(a[1..], b[1..])
  }

  function Cmp(a: Datum, b: Datum): int {
    if |a| != |b| then |a| - |b| else Difference(a, b)
  }

  method CmpDatum(d1: Datum, d2: Datum) returns (r: int)
    ensures r == Cmp(d1, d2)
  {
    var n := |d1|;
    if n != |d2| {
      return n - |d2|;
    }
    var i := 0;
    while i < n
      invariant 0 <= i <= n && Cmp(d1, d2) == Difference(d1[i..], d2[i..])
    {
      if d1[i] != d2[i] {
        return Signed(d1[i]) - Signed(d2[i]);
      }
      assert d1[i..][1..] == d1[i + 1..] && d2[i..][1..] == d2[i + 1..];
      i := i + 1;
    }
    return 0;
  }

  lemma {:induction false} DifferenceIsOrder(a: Datum, b: Datum)
    requires |a| == |b|
    ensures Difference(a, b) == 0 <==> a == b
    ensures Difference(b, a) == -Difference(a, b)
  {
    if a != [] {
      assert a == [a[0]] + a[1..] && b == [b[0]] + b[1..];
      DifferenceIsOrder(a[1..], b[1..]);
    }
  }

  lemma {:induction false} DifferenceChains(a: Datum, b: Datum, c: Datum)
    requires |a| == |b| == |c| && Difference(a, b) <= 0 && Difference(b, c) <= 0
    ensures Difference(a, c) <= 0 && (Difference(a, c) == 0 ==> Difference(a, b) == 0)
  {
    if a != [] {
      if a[0] == b[0] == c[0] {
        DifferenceChains(a[1..], b[1..], c[1..]);
      }
    }
  }

  /** A total order. */
  lemma CmpIsOrder(a: Datum, b: Datum)
    ensures Cmp(a, b) == 0 <==> a == b
    ensures Cmp(b, a) == -Cmp(a, b)
  {
    if |a| == |b| {
      DifferenceIsOrder(a, b);
    }
  }

  lemma CmpChains(a: Datum, b: Datum, c: Datum)
    requires Cmp(a, b) < 0 && Cmp(b, c) <= 0
    ensures Cmp(a, c) < 0
  {
    if |a| == |b| == |c| {
      DifferenceChains(a, b, c);
    }
  }

  // ----- pairs

  ghost predicate Paired(items: seq<Datum>) {
    |items| % 2 == 0
  }

  function Pairs(items: seq<Datum>): (p: seq<Pair>)
    ensures |p| == |items| / 2 && forall i | 0 <= i < |p| :: p[i] == (items[2 * i], items[2 * i + 1])
  {
    seq(|items| / 2, i requires 0 <= i < |items| / 2 => (items[2 * i], items[2 * i + 1]))
  }

  ghost predicate KeysDiffer(p: seq<Pair>) {
    forall i, j | 0 <= i < j < |p| :: p[i].0 != p[j].0
  }

  lemma PairAdded(items: seq<Datum>, k: Datum, v: Datum)
    requires Paired(items)
    ensures Paired(items + [k] + [v]) && Pairs(items + [k] + [v]) == Pairs(items) + [(k, v)]
  {
  }

  lemma PairDropped(items: seq<Datum>, i: nat)
    requires Paired(items) && 2 * i < |items|
    ensures var once := items[..2 * i] + items[2 * i + 1..];
            && |once| > 2 * i && Paired(once[..2 * i] + once[2 * i + 1..])
            && Pairs(once[..2 * i] + once[2 * i + 1..]) == Pairs(items)[..i] + Pairs(items)[i + 1..]
  {
    var once := items[..2 * i] + items[2 * i + 1..];
    var twice := once[..2 * i] + once[2 * i + 1..];
    assert twice == items[..2 * i] + items[2 * i + 2..];
  }

  /** The bytes taken by a page of such items, with the table. */
  function Size(items: seq<Datum>): nat {
    Used(items) + 2 * (|items| + 1)
  }

  lemma {:induction false} UsedOfParts(a: seq<Datum>, b: seq<Datum>)
    ensures Used(a + b) == Used(a) + Used(b)
  {
    if b == [] {
      assert a + b == a;
    } else {
      assert (a + b)[..|a + b| - 1] == a + b[..|b| - 1];
      UsedOfParts(a, b[..|b| - 1]);
    }
  }

  lemma UsedWithout(items: seq<Datum>, i: nat)
    requires i < |items|
    ensures Used(items[..i] + items[i + 1..]) + |items[i]| == Used(items)
  {
    assert items == items[..i] + ([items[i]] + items[i + 1..]);
    UsedOfParts(items[..i], [items[i]] + items[i + 1..]);
    UsedOfParts([items[i]], items[i + 1..]);
    UsedOfParts(items[..i], items[i + 1..]);
    assert Used([items[i]]) == |items[i]| by {
      var one: seq<Datum> := [items[i]];
      assert one[..0] == [];
    }
  }
}
