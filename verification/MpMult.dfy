/** mult.c: the schoolbook product, one column of digit products at a time, in a 32-bit
    accumulator whose overflow goes to a separate carry word. */
module MpMult {
  import opened Arith
  import opened MpBase
  import opened MpAdd

  const HALF: nat := 0x8000_0000   // 2^31

  // ----- columns

  /** The digit products of column i with lo <= j < hi, j counting digits of a. */
  function Part(a: seq<Digit>, b: seq<Digit>, i: nat, lo: nat, hi: nat): nat
    requires hi <= i + 1
    decreases hi
  {
    if hi <= lo then 0 else Part(a, b, i, lo, hi - 1) + At(a, hi - 1) * At(b, i - (hi - 1))
  }

  function Col(a: seq<Digit>, b: seq<Digit>, i: nat): nat {
    Part(a, b, i, 0, i + 1)
  }

  /** Columns k..m, column k at weight 1. */
  function Columns(a: seq<Digit>, b: seq<Digit>, k: nat, m: nat): nat
    decreases m - k
  {
    if k >= m then 0 else Col(a, b, k) + B * Columns(a, b, k + 1, m)
  }

  function Digits(b: seq<Digit>, k: nat, m: nat): nat
    decreases m - k
  {
    if k >= m then 0 else At(b, k) + B * Digits(b, k + 1, m)
  }

  lemma {:induction false} PartShift(a: seq<Digit>, b: seq<Digit>, i: nat, hi: nat)
    requires a != [] && hi <= i
    ensures Part(a, b, i, 0, hi + 1) == a[0] * At(b, i) + (if i == 0 then 0 else Part(a[1..], b, i - 1, 0, hi))
    decreases hi
  {
    if hi > 0 {
      PartShift(a, b, i, hi - 1);
      assert At(a, hi) == At(a[1..], hi - 1);
    } else {
      assert Part(a, b, i, 0, 1) == At(a, 0) * At(b, i);
    }
  }

  lemma ColShift(a: seq<Digit>, b: seq<Digit>, i: nat)
    requires a != []
    ensures Col(a, b, i) == a[0] * At(b, i) + if i == 0 then 0 else Col(a[1..], b, i - 1)
  {
    PartShift(a, b, i, i);
  }

  lemma {:induction false} ColumnsShift(a: seq<Digit>, b: seq<Digit>, k: nat, m: nat)
    requires a != [] && 0 < k <= m
    ensures Columns(a, b, k, m) == a[0] * Digits(b, k, m) + Columns(a[1..], b, k - 1, m - 1)
    decreases m - k
  {
    if k < m {
      ColShift(a, b, k);
      ColumnsShift(a, b, k + 1, m);
      var x, y, r := Digits(b, k + 1, m), At(b, k), Columns(a[1..], b, k, m - 1);
      Spread(a[0], y, x, Col(a[1..], b, k - 1), r);
    }
  }

  lemma OneMoreDigit(d: int, x: int, y: int)
    ensures (d + B * x) * y == d * y + B * (x * y)
  {
  }

  lemma Spread(a0: int, y: int, x: int, c: int, r: int)
    ensures a0 * y + c + B * (a0 * x + r) == a0 * (y + B * x) + (c + B * r)
  {
  }

  lemma {:induction false} DigitsAreVal(b: seq<Digit>, k: nat, m: nat)
    requires |b| <= m && k <= m
    ensures Digits(b, k, m) == if k < |b| then Val(b[k..]) else 0
    decreases m - k
  {
    if k < m {
      DigitsAreVal(b, k + 1, m);
      if k < |b| {
        assert b[k..][1..] == b[k + 1..];
        if k + 1 == |b| {
          assert b[k + 1..] == [];
        }
      }
    }
  }

  lemma {:induction false} NoColumns(b: seq<Digit>, k: nat, m: nat)
    ensures Columns([], b, k, m) == 0
    decreases m - k
  {
    if k < m {
      NoColumns(b, k + 1, m);
      NoPart(b, k, k + 1);
    }
  }

  lemma {:induction false} NoPart(b: seq<Digit>, i: nat, hi: nat)
    requires hi <= i + 1
    ensures Part([], b, i, 0, hi) == 0
    decreases hi
  {
    if hi > 0 {
      NoPart(b, i, hi - 1);
    }
  }

  /** All the columns together are the product. */
  lemma {:induction false} ColumnsAreProduct(a: seq<Digit>, b: seq<Digit>, m: nat)
    requires |a| + |b| <= m
    ensures Columns(a, b, 0, m) == Val(a) * Val(b)
    decreases |a|
  {
    if a == [] {
      NoColumns(b, 0, m);
    } else if m == 1 {
      ColShift(a, b, 0);
    } else {
      ColShift(a, b, 0);
      ColumnsShift(a, b, 1, m);
      ColumnsAreProduct(a[1..], b, m - 1);
      DigitsAreVal(b, 0, m);
      assert b[0..] == b;
      var x, r := Digits(b, 1, m), Val(a[1..]) * Val(b);
      Spread(a[0], At(b, 0), x, 0, r);
      OneMoreDigit(a[0], Val(a[1..]), Val(b));
    }
  }

  /** Outside the overlap of the two numbers the products of a column are zero. */
  lemma {:induction false} PartRange(a: seq<Digit>, b: seq<Digit>, i: nat, lo: nat, hi: nat)
    requires lo <= hi <= i + 1 && (lo == 0 || i - (lo - 1) >= |b|) && hi >= (if i + 1 < |a| then i + 1 else |a|)
    ensures Part(a, b, i, lo, hi) == Col(a, b, i)
  {
    PartHigh(a, b, i, lo, hi, i + 1);
    PartLow(a, b, i, lo, i + 1);
  }

  lemma {:induction false} PartHigh(a: seq<Digit>, b: seq<Digit>, i: nat, lo: nat, hi: nat, top: nat)
    requires lo <= hi <= top <= i + 1 && (hi >= |a| || hi == top)
    ensures Part(a, b, i, lo, top) == Part(a, b, i, lo, hi)
    decreases top
  {
    if hi < top {
      PartHigh(a, b, i, lo, hi, top - 1);
    }
  }

  lemma {:induction false} PartLow(a: seq<Digit>, b: seq<Digit>, i: nat, lo: nat, hi: nat)
    requires lo <= hi <= i + 1 && (lo == 0 || i - (lo - 1) >= |b|)
    ensures Part(a, b, i, lo, hi) == Part(a, b, i, 0, hi)
    decreases hi
  {
    if lo == hi {
      PartZero(a, b, i, hi);
    } else {
      PartLow(a, b, i, lo, hi - 1);
    }
  }

  lemma {:induction false} PartZero(a: seq<Digit>, b: seq<Digit>, i: nat, hi: nat)
    requires hi <= i + 1 && (hi == 0 || i - (hi - 1) >= |b|)
    ensures Part(a, b, i, 0, hi) == 0
    decreases hi
  {
    if hi > 0 {
      PartZero(a, b, i, hi - 1);
    }
  }

  /** Column sums grow the sum of the columns below them. */
  lemma {:induction false} ColumnsSnoc(a: seq<Digit>, b: seq<Digit>, k: nat, m: nat)
    requires k <= m
    ensures Columns(a, b, k, m + 1) == Columns(a, b, k, m) + BPow(m - k) * Col(a, b, m)
    decreases m - k
  {
    if k < m {
      ColumnsSnoc(a, b, k + 1, m);
      var p, c := BPow(m - k - 1), Col(a, b, m);
      assert BPow(m - k) * c == B * (p * c);
    }
  }

  // ----- the accumulator

  lemma DigitProduct(x: Digit, y: Digit)
    ensures 0 <= x * y < 0x4000_0000
  {
    ProductBelow(x, y, 0x8000, 0x8000);
  }

  /** One column: the products with lo <= j < hi are added into sum; what overflows 31 bits
      is counted in carry (tradd). */
  method AddColumn(a: seq<Digit>, b: seq<Digit>, i: nat, lo: nat, hi: nat, sum0: nat) returns (carry: nat, sum: nat)
    requires lo <= hi <= |a| && hi <= i + 1 && (lo < hi ==> i - lo < |b|) && hi - lo < 0x8000
    requires sum0 < HALF
    ensures sum < HALF && carry * HALF + sum == sum0 + Part(a, b, i, lo, hi)
    ensures carry * 2 <= hi - lo + 1
  {
    carry, sum := 0, sum0;
    var j := lo;
    while j < hi
      invariant lo <= j <= hi && sum < HALF
      invariant carry * HALF + sum == sum0 + Part(a, b, i, lo, j)
      invariant carry * HALF + sum < HALF + (j - lo) * 0x4000_0000
    {
      DigitProduct(a[j], b[i - j]);
      var x: int := a[j];
      x := x * b[i - j];
      sum := sum + x;
      assert sum < 0x1_0000_0000;   // the 32-bit word does not wrap
      if sum >= HALF {
        sum := sum - HALF;
        carry := carry + 1;
      }
      j := j + 1;
    }
  }

  /** What is done when i columns are done: the digits, and the accumulator above them. */
  ghost predicate Accumulated(c: seq<Digit>, sum: nat, a: seq<Digit>, b: seq<Digit>) {
    Val(c) + sum * BPow(|c|) == Columns(a, b, 0, |c|)
  }

  lemma NextColumn(c: seq<Digit>, sum: nat, a: seq<Digit>, b: seq<Digit>, total: nat, low: Digit, sum': nat)
    requires Accumulated(c, sum, a, b) && total == sum + Col(a, b, |c|) && total == low + B * sum'
    ensures Accumulated(c + [low], sum', a, b)
  {
    var p, i := BPow(|c|), |c|;
    ColumnsSnoc(a, b, 0, i);
    ValSnoc(c, low);
    Column(p, sum, Col(a, b, i), low, sum', Val(c), Columns(a, b, 0, i));
  }

  /** The end of a column: fifteen bits go out, the carry word becomes the high half. */
  lemma ShiftOut(carry: nat, sum: nat)
    requires sum < HALF && carry < 0x8000
    ensures sum / 0x8000 < 0x10000
    ensures carry * HALF + sum == sum % 0x8000 + B * (carry * 0x10000 + sum / 0x8000)
    ensures carry * 0x10000 + sum / 0x8000 < HALF
  {
  }

  /** m_mult(), a not shorter than b: all |a| + |b| digits of the product. */
  method MMult(a: seq<Digit>, b: seq<Digit>) returns (cval: array<Digit>)
    requires |a| >= |b| && |b| < 0x8000
    ensures cval.Length == |a| + |b| && Val(cval[..]) == Val(a) * Val(b) && fresh(cval)
  {
    cval := new Digit[|a| + |b|];
    var sum: nat := 0;
    var i := 0;
    ghost var done: seq<Digit> := [];
    while i < |a| + |b|
      invariant i <= |a| + |b| && sum < HALF
      invariant cval[..i] == done && Accumulated(done, sum, a, b)
    {
      var lo := if i < |b| then 0 else i - |b| + 1;
      var hi := if i < |a| then i + 1 else |a|;
      var carry, s := AddColumn(a, b, i, lo, hi, sum);
      PartRange(a, b, i, lo, hi);
      ShiftOut(carry, s);
      cval[i] := s % 0x8000;
      s := carry * 0x10000 + s / 0x8000;
      NextColumn(done, sum, a, b, sum + Col(a, b, i), cval[i], s);
      done := done + [cval[i]];
      sum := s;
      i := i + 1;
    }
    assert cval[..] == done;
    ProductDone(done, sum, a, b);
  }

  lemma ProductDone(c: seq<Digit>, sum: nat, a: seq<Digit>, b: seq<Digit>)
    requires |c| == |a| + |b| && Accumulated(c, sum, a, b)
    ensures Val(c) == Val(a) * Val(b)
  {
    ColumnsAreProduct(a, b, |c|);
    ProductBound(a, b);
    if sum > 0 {
      MulMono(1, sum, BPow(|c|));
    }
  }

  lemma ProductBound(a: seq<Digit>, b: seq<Digit>)
    ensures Val(a) * Val(b) < BPow(|a| + |b|)
  {
    ValBound(a);
    ValBound(b);
    BPowAdd(|a|, |b|);
    ProductBelow(Val(a), Val(b), BPow(|a|), BPow(|b|));
  }

  /** mult(): the value is always the product; the representation has no leading zeros
      unless a factor is 0 and the other has two digits or more. */
  method Mult(a: Mint, b: Mint) returns (c: Mint)
    requires Fits(a) && Fits(b)
    ensures |c.val| == (if c.len < 0 then -c.len else c.len) && c.Value() == a.Value() * b.Value()
    ensures c.Valid() <==> (a.len != 0 && b.len != 0) || |a.val| + |b.val| <= 1
  {
    hide Val;
    var cval;
    if |a.val| < |b.val| {
      cval := MMult(b.val, a.val);
    } else {
      cval := MMult(a.val, b.val);
    }
    NegativeProducts(Val(a.val), Val(b.val));
    var i := |a.val| + |b.val|;
    if i == 0 {
      // both factors are 0: the C looks at the word before the digits
      return Mint(0, []);
    }
    var n: int := if cval[i - 1] != 0 then i else i - 1;
    c := Mint(if (a.len < 0) != (b.len < 0) then -n else n, cval[..n]);
    ProductMint(a, b, cval[..], n, c);
  }

  lemma ProductMint(a: Mint, b: Mint, s: seq<Digit>, n: int, c: Mint)
    requires Fits(a) && Fits(b) && |s| == |a.val| + |b.val| > 0 && Val(s) == Val(a.val) * Val(b.val)
    requires n == if s[|s| - 1] != 0 then |s| else |s| - 1
    requires c == Mint(if (a.len < 0) != (b.len < 0) then -n else n, s[..n])
    ensures c.Value() == a.Value() * b.Value()
    ensures c.Valid() <==> (a.len != 0 && b.len != 0) || |a.val| + |b.val| <= 1
  {
    StripZeros(s, n);
    NegativeProducts(Val(a.val), Val(b.val));
    if a.len == 0 || b.len == 0 {
      assert Val([]) == 0;
      ValZeros(s);
    } else if n < |s| {
      OneLeadingZero(a.val, b.val, s);
    }
  }

  /** Two normal factors leave at most one leading zero. */
  lemma OneLeadingZero(a: seq<Digit>, b: seq<Digit>, s: seq<Digit>)
    requires a != [] && b != [] && |s| == |a| + |b| && Val(s) == Val(a) * Val(b) && Normal(a) && Normal(b)
    requires s[|s| - 1] == 0
    ensures s[|s| - 2] != 0
  {
    ProductIsLong(a, b);
    var t := s[..|s| - 1];
    StripZeros(s, |s| - 1);
    TopNotZero(t);
    assert t[|t| - 1] == s[|s| - 2];
  }

  lemma ProductIsLong(a: seq<Digit>, b: seq<Digit>)
    requires a != [] && b != [] && Normal(a) && Normal(b)
    ensures Val(a) * Val(b) >= BPow(|a| + |b| - 2)
  {
    TopDigit(a);
    TopDigit(b);
    var j, k := |a| - 1, |b| - 1;
    BPowAdd(j, k);
    ProductAtLeast(BPow(j), BPow(k), Val(a), Val(b));
  }
}
