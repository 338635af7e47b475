/** msqrt.c: the square root by Newton's iteration from above. */
module MpSqrt {
  import opened Arith
  import opened MpBase
  import opened MpAdd
  import opened MpMult
  import opened MpDiv

  lemma MeansSquared(x: int, u: int)
    ensures (x + u) * (x + u) >= 4 * (u * x)
  {
    assert (x + u) * (x + u) == 4 * (u * x) + (x - u) * (x - u);
  }

  lemma DoubleSquared(y: int)
    ensures (2 * y) * (2 * y) == 4 * (y * y)
  {
  }

  /** Whatever the estimate x > 0, the next one is not below the root. */
  lemma NextNotBelow(a: nat, x: nat, t: nat, y: nat)
    requires x > 0 && t == a / x && y == (x + t) / 2
    ensures (y + 1) * (y + 1) > a
  {
    assert a < (t + 1) * x by {
      assert a == t * x + a % x;
      assert (t + 1) * x == t * x + x;
    }
    var s := x + t + 1;
    MeansSquared(x, t + 1);
    ProductAtLeast(s, s, 2 * (y + 1), 2 * (y + 1));
    DoubleSquared(y + 1);
  }

  /** An estimate that does not decrease is the root. */
  lemma StopMeansRoot(a: nat, x: nat, t: nat, y: nat)
    requires x > 0 && t == a / x && y == (x + t) / 2 && y >= x
    ensures x * x <= a
  {
    assert t >= x;
    MulMono(x, t, x);
    assert a == t * x + a % x;
  }

  lemma FirstEstimate(a: seq<Digit>, k: nat, top: Digit, x: nat)
    requires (|a| == 2 * k && top == 1) || (|a| == 2 * k + 1 && top == 256)
    requires x == BPow(k) * top
    ensures x > 0 && (x + 1) * (x + 1) > Val(a)
  {
    var p: nat, v: nat :| p == BPow(k) && v == Val(a);
    assert p > 0;
    assert v < (if |a| == 2 * k then p * p else B * (p * p)) by {
      ValBound(a);
      BPowAdd(k, k);
    }
    SquareOfFirst(p, top, x, v);
  }

  lemma SquareOfFirst(p: nat, top: nat, x: nat, v: nat)
    requires p > 0 && x == p * top
    requires (top == 1 && v < p * p) || (top == 256 && v < B * (p * p))
    ensures x > 0 && (x + 1) * (x + 1) > v
  {
    assert (x + 1) * (x + 1) == x * x + 2 * x + 1;
    if top == 256 {
      assert x * x == 65536 * (p * p);
      assert p * p >= 0;
    }
  }

  lemma {:induction false} ValOfPower(s: seq<Digit>, k: nat)
    requires |s| == k + 1 && forall i | 0 <= i < k :: s[i] == 0
    ensures Val(s) == BPow(k) * s[k]
  {
    ValSplitLast(s);
    ValZeros(s[..k]);
  }

  method InitialX(len: nat) returns (x: Mint, ghost k: nat, ghost top: Digit)
    ensures x.Valid() && x.len > 0 && |x.val| == k + 1 && x.Value() == BPow(k) * top
    ensures (len == 2 * k && top == 1) || (len == 2 * k + 1 && top == 256)
  {
    var xlen := if len % 2 == 1 then (1 + len) / 2 else 1 + len / 2;
    var val := new Digit[xlen];
    var j := 0;
    while j < xlen
      invariant j <= xlen && forall i | 0 <= i < j :: val[i] == 0
    {
      val[j] := 0;
      j := j + 1;
    }
    val[xlen - 1] := if len % 2 == 1 then 256 else 1;
    k, top := xlen - 1, val[xlen - 1];
    x := Mint(xlen, val[..]);
    ValOfPower(x.val, k);
  }

  /** msqrt(): the root rounded down, the rest, and the length of the rest; the argument is
      not negative. */
  method Sqrt(a: Mint) returns (b: Mint, r: Mint, rlen: int)
    requires Fits(a) && a.len >= 0
    ensures b.Valid() && r.Valid() && rlen == r.len
    ensures b.Value() >= 0
    ensures b.Value() * b.Value() <= a.Value() < (b.Value() + 1) * (b.Value() + 1)
    ensures r.Value() == a.Value() - b.Value() * b.Value()
  {
    SignOfValue(a);
    if a.len == 0 {
      return Mint(0, []), Mint(0, []), 0;
    }
    ghost var av := a.Value();
    var x, k, top := InitialX(a.len);
    FirstEstimate(a.val, k, top, x.Value());
    ghost var size := |x.val|;
    while true
      invariant x.Valid() && x.Value() > 0 && |x.val| <= size
      invariant (x.Value() + 1) * (x.Value() + 1) > av
      decreases x.Value()
    {
      var y, cmp := NewtonStep(a, x);
      if cmp > 0 {
        NotLonger(y, x);
        x := y;
      } else {
        break;
      }
    }
    b := x;
    x := Mult(x, x);
    r := Sub(a, x);
    rlen := r.len;
  }

  /** One turn of the loop of msqrt(). */
  method NewtonStep(a: Mint, x: Mint) returns (y: Mint, cmp: int)
    requires Fits(a) && a.Value() > 0 && x.Valid() && x.Value() > 0
    ensures y.Valid() && y.Value() > 0 && (cmp > 0 <==> x.Value() > y.Value())
    ensures (y.Value() + 1) * (y.Value() + 1) > a.Value()
    ensures cmp <= 0 ==> x.Value() * x.Value() <= a.Value()
  {
    ghost var av: int, xv: int :| av == a.Value() && xv == x.Value();
    SignOfValue(x);
    PlainQuotient(av, xv);
    var junk, j;
    y, junk := Div(a, x);
    ghost var t: int :| t == y.Value();
    y := Add(x, y);
    PlainQuotient(xv + t, 2);
    y, j := SDiv(y, 2);
    ghost var yv: int :| yv == y.Value();
    NewtonFacts(av, xv, t, yv);
    SignOfValue(y);
    cmp := Compare(x, y);
  }

  /** The next estimate is not below the root; an estimate that does not decrease is it. */
  lemma NewtonFacts(a: int, x: int, t: int, y: int)
    requires a > 0 && x > 0 && t == a / x && y == (x + t) / 2
    ensures y > 0 && (y + 1) * (y + 1) > a && (y >= x ==> x * x <= a)
  {
    NextNotBelow(a, x, t, y);
    PositiveRoot(a, y);
    if y >= x {
      StopMeansRoot(a, x, t, y);
    }
  }

  lemma PositiveRoot(a: int, y: int)
    requires a > 0 && y >= 0 && (y + 1) * (y + 1) > a
    ensures y > 0
  {
  }

  lemma NotLonger(y: Mint, x: Mint)
    requires x.Valid() && y.Valid() && 0 < y.Value() < x.Value()
    ensures |y.val| <= |x.val|
  {
    SignOfValue(x);
    SignOfValue(y);
    if |y.val| > |x.val| {
      LongerIsLarger(x.val, y.val);
    }
  }
}
