/** mdiv.c and the short division of mout.c. */
module MpDiv {
  import opened Arith
  import opened MpBase
  import opened MpAdd
  import opened MpMult

  // ----- division by one digit

  lemma ShortStep(a: seq<Digit>, q: seq<Digit>, i: nat, n: nat, x: nat, low: Digit, x': nat)
    requires i < |a| == |q| && 0 < n && q[i] == low
    requires Val(a[i + 1..]) == n * Val(q[i + 1..]) + x
    requires x * B + a[i] == low * n + x'
    ensures Val(a[i..]) == n * Val(q[i..]) + x'
  {
    assert a[i..][1..] == a[i + 1..] && q[i..][1..] == q[i + 1..];
    var r := Val(q[i + 1..]);
    assert n * (low + B * r) == low * n + B * (n * r);
  }

  /** s_div(): quotient and remainder by a single digit. */
  method ShortDiv(a: seq<Digit>, n: nat) returns (q: seq<Digit>, r: nat)
    requires Normal(a) && 0 < n < 0x8000
    ensures Normal(q) && |q| <= |a| && r < n && Val(a) == n * Val(q) + r
  {
    if a == [] {
      // the C looks at the word before the digits
      return [], 0;
    }
    var qval := new Digit[|a|];
    var x: int := 0;
    var i := |a|;
    while i > 0
      invariant 0 <= i <= |a| && 0 <= x < n
      invariant Val(a[i..]) == n * Val(qval[i..]) + x
    {
      i := i - 1;
      ghost var x0 := x;
      x := x * B + a[i];
      Quotient(x0, n, a[i]);
      ghost var before := qval[i + 1..];
      qval[i] := x / n;
      assert qval[i + 1..] == before;
      ShortStep(a, qval[..], i, n, x0, qval[i], x % n);
      x := x % n;
    }
    var qlen := |a|;
    assert a[0..] == a && qval[0..] == qval[..];
    QuotientLength(a, qval[..], n, x);
    if qval[qlen - 1] == 0 {
      StripZeros(qval[..], qlen - 1);
      qlen := qlen - 1;
    }
    q, r := qval[..qlen], x;
    assert qval[..] == qval[..|a|];
  }

  lemma Quotient(x: nat, n: nat, d: Digit)
    requires x < n < 0x8000
    ensures x * B + d < 0x4000_0000 && 0 <= (x * B + d) / n < 0x8000
    ensures x * B + d == (x * B + d) / n * n + (x * B + d) % n
  {
    assert (x + 1) * B <= n * B;
    DivBelow(x * B + d, n, B);
  }

  lemma QuotientTooShort(n: nat, t: nat, r: nat, p: nat, v: nat)
    requires r < n < 0x8000 && v == n * t + r && t < p
    ensures v < B * p
  {
    MulMono(t + 1, p, n);
    MulMono(n, B, p);
    assert (t + 1) * n == n * t + n && p * n == n * p;
  }

  /** A quotient by one digit is at most one digit shorter. */
  lemma QuotientLength(a: seq<Digit>, q: seq<Digit>, n: nat, r: nat)
    requires a != [] && Normal(a) && |q| == |a| && 0 < n < 0x8000 && r < n && Val(a) == n * Val(q) + r
    ensures q[|q| - 1] == 0 && |q| > 1 ==> q[|q| - 2] != 0
  {
    var m := |a| - 1;
    if q[m] == 0 && m > 0 {
      TopDigit(a);
      StripZeros(q, m);
      var t := q[..m];
      var p := BPow(m - 1);
      if Val(t) < p {
        QuotientTooShort(n, Val(t), r, p, Val(a));
      }
      TopNotZero(t);
      assert t[m - 1] == q[m - 1];
    }
  }

  /** sdiv(): the remainder, and the quotient, take the sign of the product of the signs. */
  method SDiv(a: Mint, n: int) returns (q: Mint, r: int)
    requires a.Valid() && n != 0 && -0x8000 < n < 0x8000
    ensures q.Valid() && |q.val| <= |a.val|
    ensures q.Value() == TruncQuotient(a.Value(), n) && r == OddRemainder(a.Value(), n)
  {
    SignOfValue(a);
    var m := if n < 0 then -n else n;
    var s, x := ShortDiv(a.val, m);
    var sign := if (n < 0) != (a.len < 0) then -1 else 1;
    q := Mint(sign * |s|, s);
    r := x * sign;
    QuotientIs(Val(a.val), m, Val(s), x);
  }

  lemma QuotientIs(a: nat, n: nat, q: nat, r: nat)
    requires r < n && a == n * q + r
    ensures a / n == q && a % n == r
  {
    assert n * q == q * n;
    DivUnique(a, n, q, r);
  }

  function Sign(a: int, b: int): int { if (a < 0) != (b < 0) then -1 else 1 }

  /** What mdiv() and sdiv() compute: the quotient rounded towards zero, and the remainder
      of the absolute values with the sign of the quotient. */
  function TruncQuotient(a: int, b: int): int
    requires b != 0
  {
    Sign(a, b) * (Abs(a) / Abs(b))
  }

  function OddRemainder(a: int, b: int): int
    requires b != 0
  {
    Sign(a, b) * (Abs(a) % Abs(b))
  }

  lemma PlainQuotient(a: int, b: int)
    requires a >= 0 && b > 0
    ensures TruncQuotient(a, b) == a / b && OddRemainder(a, b) == a % b
    ensures a / b >= 0
  {
    QuotientNotNegative(a, b);
  }

  lemma QuotientNotNegative(a: int, b: int)
    requires a >= 0 && b > 0
    ensures a / b >= 0
  {
    var q := a / b;
    if q < 0 {
      MulMono(q, -1, b);
    }
  }

  /** The division identity holds exactly for a positive divisor or an exact division; that of the
      absolute values always does, and neither result has another sign than the operands give. */
  lemma DivisionIdentity(a: int, b: int)
    requires b != 0
    ensures a == b * TruncQuotient(a, b) + OddRemainder(a, b) <==> b > 0 || Abs(a) % Abs(b) == 0
    ensures Abs(a) == Abs(b) * Abs(TruncQuotient(a, b)) + Abs(OddRemainder(a, b))
    ensures Abs(OddRemainder(a, b)) < Abs(b)
    ensures if (a < 0) == (b < 0) then TruncQuotient(a, b) >= 0 && OddRemainder(a, b) >= 0
            else TruncQuotient(a, b) <= 0 && OddRemainder(a, b) <= 0
  {
    var q, r := Abs(a) / Abs(b), Abs(a) % Abs(b);
    assert Abs(a) == Abs(b) * q + r;
    QuotientNotNegative(Abs(a), Abs(b));
    NegativeProducts(Abs(b), q);
  }

  // ----- one digit of a long division

  /** m_trq(): the estimate is the largest digit whose product with the two leading digits of
      the divisor is not above the three leading digits of the dividend. */
  method Trq(v1: Digit, v2: Digit, u1: Digit, u2: Digit, u3: Digit) returns (d: nat)
    requires v1 > 0 && u1 <= v1
    ensures d < B && d * (v1 * B + v2) <= (u1 * B + u2) * B + u3
    ensures d == B - 1 || (d + 1) * (v1 * B + v2) > (u1 * B + u2) * B + u3
  {
    var top: int := u1;
    top := top * B + u2;
    if u1 == v1 {
      d := 0x7fff;
    } else {
      d := top / v1;
      FirstEstimate(v1, v2, top, u3, d);
    }
    while true
      invariant 0 <= d < B && (d == B - 1 || (d + 1) * (v1 * B + v2) > top * B + u3)
      invariant 0 <= top - v1 * d < 0xffff
      decreases d
    {
      var x1: int := v1;
      x1 := top - x1 * d;
      var x2: int := v2;
      TestValue(v1, v2, top, u3, d);
      x2 := x1 * B + u3 - x2 * d;
      assert -0x4000_0000 < x2 < 0x8000_0000;   // the 32-bit word does not wrap
      if x2 < 0 {
        SmallerDigit(v1, v2, top, u3, d);
        d := d - 1;
      } else {
        return;
      }
    }
  }

  lemma FirstEstimate(v1: nat, v2: nat, top: nat, u3: nat, d: nat)
    requires 0 < v1 < B && v2 < B && u3 < B && top < v1 * B && d == top / v1
    ensures d < B && (d + 1) * (v1 * B + v2) > top * B + u3
    ensures 0 <= top - v1 * d < v1
  {
    DivBelow(top, v1, B);
    assert top == d * v1 + top % v1;
    assert v1 * d == d * v1;
    assert (d + 1) * (v1 * B + v2) == (d * v1 + v1) * B + (d + 1) * v2;
    assert (d + 1) * v2 >= 0;
  }

  lemma TestValue(v1: nat, v2: nat, top: nat, u3: nat, d: nat)
    requires v2 < B && d < B
    ensures (top - v1 * d) * B + u3 - v2 * d == top * B + u3 - d * (v1 * B + v2)
    ensures 0 <= v2 * d < 0x4000_0000
  {
    ProductBelow(v2, d, B, B);
    assert d * (v1 * B + v2) == (v1 * d) * B + v2 * d;
  }

  lemma SmallerDigit(v1: nat, v2: nat, top: nat, u3: nat, d: nat)
    requires v1 < B && v2 < B && d < B && top - v1 * d >= 0
    requires (top - v1 * d) * B + u3 - v2 * d < 0
    ensures d > 0 && d * (v1 * B + v2) > top * B + u3
    ensures 0 <= top - v1 * (d - 1) < 0xffff
  {
    TestValue(v1, v2, top, u3, d);
    ProductBelow(v2, d, B, B);
    assert v1 * (d - 1) == v1 * d - v1;
    if d > 0 {
      MulMono(d, B - 1, v2);
    }
  }

  lemma EstimateNotLow(v: nat, w: nat, p: nat, v2: nat, u3: nat, d: nat, q: nat)
    requires v2 * p <= v && w < (u3 + 1) * p && q * v <= w
    requires d == B - 1 || (d + 1) * v2 > u3
    requires q < B
    ensures q <= d
  {
    if d < q {
      ProductAtLeast(d + 1, v2, q, v2);
      MulMono(u3 + 1, q * v2, p);
      Reorder(q, v2, p);
      MulMono(v2 * p, v, q);
    }
  }

  lemma Reorder(q: int, v: int, p: int)
    ensures (q * v) * p == (v * p) * q
  {
  }

  lemma EstimateNotHigh(v: nat, w: nat, p: nat, v2: nat, u3: nat, d: nat, q: nat)
    requires p > 0 && v < (v2 + 1) * p && u3 * p <= w < (q + 1) * v
    requires v2 >= B && d < B && d * v2 <= u3
    ensures d <= q + 1
  {
    if d > q + 1 {
      MulMono(q + 1, d - 1, v);
      MulMono(v, (v2 + 1) * p - 1, d - 1);
      MulMono(d * v2, u3, p);
      Crossed(d, v2, p);
    }
  }

  lemma Crossed(d: nat, v2: nat, p: nat)
    requires 1 < d < B <= v2
    ensures (d - 1) * ((v2 + 1) * p) <= (d * v2) * p
  {
    assert (d - 1) * (v2 + 1) == d * v2 + d - v2 - 1;
    MulMono((d - 1) * (v2 + 1), d * v2, p);
    assert (d - 1) * ((v2 + 1) * p) == ((d - 1) * (v2 + 1)) * p;
  }

  /** The estimate from the leading digits is the true digit or one more: w and v are the
      dividend and the divisor, u3 and v2 their leading digits, p the weight cut off. */
  lemma EstimateIsClose(v: nat, w: nat, p: nat, v2: nat, u3: nat, d: nat, q: nat)
    requires p > 0 && v2 * p <= v < (v2 + 1) * p && u3 * p <= w < (u3 + 1) * p
    requires v2 >= B && d < B && d * v2 <= u3 && (d == B - 1 || (d + 1) * v2 > u3)
    requires q < B && q * v <= w < (q + 1) * v
    ensures q <= d <= q + 1
  {
    EstimateNotLow(v, w, p, v2, u3, d, q);
    EstimateNotHigh(v, w, p, v2, u3, d, q);
  }

  /** The low |c| digits of w - q * v, with the borrow still to be added above them. */
  ghost predicate Subtracted(c: seq<Digit>, borrow: int, w: seq<Digit>, q: nat, v: seq<Digit>)
    requires |c| <= |v| && |c| <= |w|
  {
    Val(c) + borrow * BPow(|c|) == Val(w[..|c|]) - q * Val(v[..|c|])
  }

  lemma SubtractDigit(c: seq<Digit>, borrow: int, w: seq<Digit>, q: nat, v: seq<Digit>, x: int)
    requires |c| < |v| && |c| < |w| && Subtracted(c, borrow, w, q, v)
    requires x == borrow - v[|c|] * q + w[|c|]
    ensures Subtracted(c + [x % B], x / B, w, q, v)
  {
    var i := |c|;
    var p := BPow(i);
    ValSnoc(c, x % B);
    Prefix(w, i);
    Prefix(v, i);
    Column(p, borrow, w[i] - v[i] * q, x % B, x / B, Val(c), Val(w[..i]) - q * Val(v[..i]));
    Regroup(p, w[i], v[i], q, Val(v[..i]));
  }

  lemma Regroup(p: int, w: int, v: int, q: int, r: int)
    ensures p * (w - v * q) - q * r == p * w - q * (r + p * v)
  {
  }

  /** The borrow stays a digit, so the 32-bit word does not wrap. */
  lemma BorrowRange(borrow: int, v: Digit, q: Digit, w: Digit)
    requires -0x7fff <= borrow <= 0
    ensures -0x4000_0000 <= borrow - v * q + w < 0x8000
    ensures -0x7fff <= (borrow - v * q + w) / B <= 0
  {
    ProductAtLeast(0, 0, v, q);
    MulMono(v, 0x7fff, q);
  }

  /** The number that remains when t is taken from w: below zero exactly when the last borrow
      is not covered by the top digit x. */
  lemma Remains(c: nat, x: int, p: nat, w: nat, t: nat, v: nat)
    requires c < p && v < p && c + x * p == w - t && w + v >= t
    ensures x < 0 ==> x == -1 && w < t && c == w - t + p
    ensures x >= 0 ==> w >= t && c + p * x == w - t
  {
    if x < 0 {
      MulMono(x, -1, p);
      if x < -1 {
        MulMono(x, -2, p);
      }
    } else {
      MulMono(0, x, p);
    }
  }

  lemma TopColumn(c: seq<Digit>, w: seq<Digit>, q: nat, v: seq<Digit>, borrow: int, x: int)
    requires |w| == |v| + 1 && |c| == |v| && Subtracted(c, borrow, w, q, v) && x == borrow + w[|v|]
    ensures Val(c) + x * BPow(|v|) == Val(w) - q * Val(v)
  {
    ValSplitLast(w);
    assert v[..|v|] == v;
    Together(borrow, w[|v|], BPow(|v|));
  }

  lemma Together(x: int, y: int, p: int)
    ensures (x + y) * p == x * p + p * y
  {
  }

  lemma AfterSubtraction(c: seq<Digit>, w: seq<Digit>, q: nat, v: seq<Digit>, borrow: int, x: int, t: nat)
    requires |w| == |v| + 1 && |c| == |v| && Subtracted(c, borrow, w, q, v)
    requires t == q * Val(v) && x == borrow + w[|v|] && Val(w) + Val(v) >= t
    ensures x < 0 ==> x == -1 && Val(w) < t && Val(c) == Val(w) - t + BPow(|v|)
    ensures x >= 0 ==> Val(w) >= t && Val(c) + BPow(|v|) * x == Val(w) - t
  {
    var cc, ww, p, vv := Val(c), Val(w), BPow(|v|), Val(v);
    assert cc + x * p == ww - t by {
      TopColumn(c, w, q, v, borrow, x);
    }
    assert cc < p && vv < p by {
      ValBound(c);
      ValBound(v);
    }
    Remains(cc, x, p, ww, t, vv);
  }

  /** m_dsb(): subtract t = q * v from the |v| + 1 digits of u at offset j; when that goes
      below zero, add v back, and say so. */
  method Dsb(q: Digit, v: seq<Digit>, u: array<Digit>, j: nat, ghost t: nat) returns (back: bool)
    requires j + |v| < u.Length && t == q * Val(v)
    requires Val(u[j..j + |v| + 1]) + Val(v) >= t
    modifies u
    ensures back <==> old(Val(u[j..j + |v| + 1])) < t
    ensures u[..j] == old(u[..j])
    ensures back ==> Val(u[j..j + |v|]) == old(Val(u[j..j + |v| + 1])) - t + Val(v)
    ensures !back ==> Val(u[j..j + |v| + 1]) == old(Val(u[j..j + |v| + 1])) - t
  {
    var n := |v|;
    ghost var w := u[j..j + n + 1];
    var borrow := SubtractDigits(q, v, u, j);
    var x: int := borrow + u[j + n];
    AfterSubtraction(u[j..j + n], w, q, v, borrow, x, t);
    SetTop(u, j, n, x % 0x8000);
    if x >= 0 {
      return false;
    }
    AddBack(v, u, j);
    back := true;
  }

  /** b[j] = x & 077777 */
  method SetTop(u: array<Digit>, j: nat, n: nat, d: Digit)
    requires j + n < u.Length
    modifies u
    ensures u[..j] == old(u[..j]) && u[j..j + n] == old(u[j..j + n])
    ensures Val(u[j..j + n + 1]) == Val(u[j..j + n]) + BPow(n) * d
  {
    ghost var low, c := u[..j], u[j..j + n];
    u[j + n] := d;
    assert u[..j] == low && u[j..j + n] == c;
    assert u[j..j + n + 1] == c + [d];
    ValSnoc(c, d);
  }

  /** The first loop of m_dsb(). */
  method SubtractDigits(q: Digit, v: seq<Digit>, u: array<Digit>, j: nat) returns (borrow: int)
    requires j + |v| < u.Length
    modifies u
    ensures -0x7fff <= borrow <= 0
    ensures u[..j] == old(u[..j]) && u[j + |v|] == old(u[j + |v|])
    ensures Subtracted(u[j..j + |v|], borrow, old(u[j..j + |v| + 1]), q, v)
  {
    borrow := 0;
    ghost var w := u[j..j + |v| + 1];
    ghost var done: seq<Digit> := [];
    var i := 0;
    while i < |v|
      invariant i <= |v| && -0x7fff <= borrow <= 0
      invariant u[j..j + i] == done && Subtracted(done, borrow, w, q, v)
      invariant u[..j] == old(u[..j]) && u[j + i..j + |v| + 1] == w[i..]
    {
      assert u[j + i] == u[j + i..j + |v| + 1][0] == w[i];
      BorrowRange(borrow, v[i], q, w[i]);
      var x: int := v[i];
      x := borrow - x * q + u[j + i];
      SubtractDigit(done, borrow, w, q, v, x);
      u[j + i] := x % 0x8000;
      borrow := x / 0x8000;
      done := done + [x % 0x8000];
      i := i + 1;
    }
    assert u[j + |v|] == u[j + i..j + |v| + 1][0];
  }

  /** The second loop of m_dsb(); the carry out of the top is dropped. */
  method AddBack(v: seq<Digit>, u: array<Digit>, j: nat)
    requires j + |v| < u.Length
    requires BPow(|v|) <= Val(u[j..j + |v|]) + Val(v)
    modifies u
    ensures u[..j] == old(u[..j])
    ensures Val(u[j..j + |v|]) == old(Val(u[j..j + |v|])) + Val(v) - BPow(|v|)
  {
    hide BPow;
    ghost var w := u[j..j + |v|];
    ghost var done: seq<Digit> := [];
    var carry: int := 0;
    var i := 0;
    while i < |v|
      invariant i <= |v| && 0 <= carry <= 1
      invariant u[j..j + i] == done && Summed(done, carry, v, w, false)
      invariant u[..j] == old(u[..j]) && u[j + i..j + |v|] == w[i..]
    {
      assert u[j + i] == u[j + i..j + |v|][0] == w[i];
      ghost var carry0 := carry;
      var x: int := v[i];
      x := x + u[j + i] + carry;
      Bit15(x);
      if HighBit(x) {
        carry := 1;
      } else {
        carry := 0;
      }
      u[j + i] := Low15(x);
      SumDigit(done, carry0, v, w, false, u[j + i], carry);
      done := done + [u[j + i]];
      i := i + 1;
    }
    DropCarry(done, carry, v, w);
  }

  lemma DropCarry(c: seq<Digit>, carry: int, v: seq<Digit>, w: seq<Digit>)
    requires 0 <= carry <= 1 && |c| == |v| == |w| && Summed(c, carry, v, w, false)
    requires BPow(|v|) <= Val(w) + Val(v)
    ensures Val(c) == Val(w) + Val(v) - BPow(|v|)
  {
    hide BPow;
    ValBound(c);
  }

  // ----- long division

  lemma ValOfThree(x: Digit, y: Digit, z: Digit)
    ensures Val([x, y, z]) == x + B * (y + B * z) && Val([x, y]) == x + B * y
  {
    assert [x, y, z][1..] == [y, z] && [y, z][1..] == [z] && [x, y][1..] == [y];
    assert Val([z]) == z && Val([y]) == y;
  }

  /** A number between its leading digits and the next ones. */
  lemma Leading(s: seq<Digit>, k: nat)
    requires k <= |s|
    ensures BPow(k) * Val(s[k..]) <= Val(s) < BPow(k) * (Val(s[k..]) + 1)
  {
    ValSplit(s, k);
    ValBound(s[..k]);
    assert BPow(k) * (Val(s[k..]) + 1) == BPow(k) * Val(s[k..]) + BPow(k);
  }

  lemma LeadingTwo(v: seq<Digit>)
    requires |v| >= 2
    ensures var p, n := BPow(|v| - 2), |v|;
            var v2 := v[n - 1] * B + v[n - 2];
            v2 * p <= Val(v) < (v2 + 1) * p
  {
    var k := |v| - 2;
    Leading(v, k);
    assert v[k..] == [v[k], v[k + 1]];
    ValOfThree(v[k], v[k + 1], 0);
    Swap(BPow(k), v[k + 1] * B + v[k]);
  }

  lemma LeadingThree(w: seq<Digit>)
    requires |w| >= 3
    ensures var p, n := BPow(|w| - 3), |w|;
            var u3 := (w[n - 1] * B + w[n - 2]) * B + w[n - 3];
            u3 * p <= Val(w) < (u3 + 1) * p
  {
    var k := |w| - 3;
    Leading(w, k);
    assert w[k..] == [w[k], w[k + 1], w[k + 2]];
    ValOfThree(w[k], w[k + 1], w[k + 2]);
    Swap(BPow(k), (w[k + 2] * B + w[k + 1]) * B + w[k]);
  }

  lemma Swap(p: int, x: int)
    ensures p * x == x * p && p * (x + 1) == (x + 1) * p
  {
  }

  /** The leading digit of the dividend of one step is not above that of the divisor. */
  lemma TopNotAbove(w: seq<Digit>, v: seq<Digit>)
    requires |w| == |v| + 1 && |v| >= 1 && Val(w) < Val(v) * B
    ensures w[|v|] <= v[|v| - 1]
  {
    var n := |v|;
    ValSplitLast(w);
    ValSplitLast(v);
    ValBound(v[..n - 1]);
    TopDigits(BPow(n - 1), Val(v[..n - 1]), v[n - 1], w[n], Val(w[..n]));
  }

  lemma TopDigits(p: nat, vlow: nat, vtop: nat, wtop: nat, wlow: nat)
    requires vlow < p && wlow + (B * p) * wtop < (vlow + p * vtop) * B
    ensures wtop <= vtop
  {
    if wtop > vtop {
      MulMono(vtop + 1, wtop, p);
      Swap(p, vtop);
      Swap(p, wtop);
    }
  }

  /** The true digit of one step. */
  lemma TrueDigit(w: nat, v: nat) returns (q: nat)
    requires 0 < v && w < v * B
    ensures q < B && q * v <= w < (q + 1) * v
  {
    q := w / v;
    assert w == q * v + w % v;
    Swap(v, B);
    DivBelow(w, v, B);
  }

  lemma EstimateFor(w: seq<Digit>, v: seq<Digit>, d: nat, q: nat)
    requires |w| == |v| + 1 && |v| >= 2 && v[|v| - 1] > 0
    requires q < B && q * Val(v) <= Val(w) < (q + 1) * Val(v)
    requires d < B
    requires var v2 := v[|v| - 1] * B + v[|v| - 2];
             var u3 := (w[|v|] * B + w[|v| - 1]) * B + w[|v| - 2];
             d * v2 <= u3 && (d == B - 1 || (d + 1) * v2 > u3)
    ensures q <= d <= q + 1
  {
    var vv, ww, p := Val(v), Val(w), BPow(|v| - 2);
    var v2 := v[|v| - 1] * B + v[|v| - 2];
    var u3 := (w[|v|] * B + w[|v| - 1]) * B + w[|v| - 2];
    assert v2 * p <= vv < (v2 + 1) * p by {
      LeadingTwo(v);
    }
    assert u3 * p <= ww < (u3 + 1) * p by {
      LeadingThree(w);
    }
    EstimateIsClose(vv, ww, p, v2, u3, d, q);
  }

  lemma TopIsZero(s: seq<Digit>)
    requires s != [] && Val(s) < BPow(|s| - 1)
    ensures Val(s[..|s| - 1]) == Val(s)
  {
    ValSplitLast(s);
    var n := |s| - 1;
    if s[n] > 0 {
      MulMono(1, s[n], BPow(n));
      Swap(BPow(n), s[n]);
    }
  }

  /** One turn of the loop of m_div(): the digit is the true one, and the remainder is left
      in place of the dividend. */
  method QuotientDigit(v: seq<Digit>, u: array<Digit>, j: nat) returns (qq: Digit)
    requires |v| >= 2 && v[|v| - 1] > 0 && j + |v| < u.Length
    requires Val(u[j..j + |v| + 1]) < Val(v) * B
    modifies u
    ensures u[..j] == old(u[..j])
    ensures Val(u[j..j + |v|]) < Val(v)
    ensures Val(u[j..j + |v|]) + qq * Val(v) == old(Val(u[j..j + |v| + 1]))
  {
    var n := |v|;
    ghost var w := u[j..j + n + 1];
    TopNotAbove(w, v);
    var d := Trq(v[n - 1], v[n - 2], u[j + n], u[j + n - 1], u[j + n - 2]);
    ghost var t := Estimated(w, v, d);
    var back := Dsb(d, v, u, j, t);
    if back {
      d := d - 1;
    } else {
      ghost var s := u[j..j + n + 1];
      ValBound(v);
      TopIsZero(s);
      assert s[..n] == u[j..j + n];
    }
    qq := d;
  }

  /** The product with the estimate exceeds the dividend by at most the divisor, and what
      remains after subtracting, or after adding back, is below the divisor. */
  lemma Estimated(w: seq<Digit>, v: seq<Digit>, d: nat) returns (t: nat)
    requires |w| == |v| + 1 && |v| >= 2 && v[|v| - 1] > 0 && Val(w) < Val(v) * B
    requires d < B
    requires var v2 := v[|v| - 1] * B + v[|v| - 2];
             var u3 := (w[|v|] * B + w[|v| - 1]) * B + w[|v| - 2];
             d * v2 <= u3 && (d == B - 1 || (d + 1) * v2 > u3)
    ensures t == d * Val(v) && Val(w) + Val(v) >= t
    ensures Val(w) >= t ==> Val(w) - t < Val(v)
    ensures Val(w) < t ==> d > 0 && (d - 1) * Val(v) == t - Val(v)
  {
    hide Val;
    TopDigit(v);
    var q := TrueDigit(Val(w), Val(v));
    EstimateFor(w, v, d, q);
    DigitOrOneMore(d, q, Val(v), Val(w));
    t := d * Val(v);
  }

  lemma DigitOrOneMore(d: nat, q: nat, v: nat, w: nat)
    requires q <= d <= q + 1 && q * v <= w < (q + 1) * v
    ensures w + v >= d * v && (w < d * v <==> d == q + 1)
    ensures d == q ==> w - d * v < v
    ensures d == q + 1 ==> d > 0 && (d - 1) * v == d * v - v
  {
    assert (q + 1) * v == q * v + v;
    if d == q + 1 {
      assert (d - 1) * v == q * v;
    }
  }

  /** After the digits q of the quotient: what is left in u, at its weight, and the digits
      times the divisor make up the dividend. */
  ghost predicate Divided(u: seq<Digit>, j: nat, q: seq<Digit>, v: seq<Digit>, m: int, top: int, total: int) {
    && j + |v| <= |u|
    && Val(u[j..j + |v|]) < Val(v)
    && m == Val(v) * Val(q)
    && top == BPow(j) * (Val(u[j..j + |v|]) + m)
    && Val(u[..j]) + top == total
  }

  lemma BringDown(u: seq<Digit>, j: nat, v: seq<Digit>)
    requires j + 1 + |v| <= |u| && Val(u[j + 1..j + 1 + |v|]) < Val(v)
    ensures Val(u[j..j + |v| + 1]) == u[j] + B * Val(u[j + 1..j + 1 + |v|]) < Val(v) * B
  {
    assert u[j..j + |v| + 1][1..] == u[j + 1..j + 1 + |v|];
  }

  lemma NextDigit(u: seq<Digit>, u': seq<Digit>, j: nat, qq: Digit, q: seq<Digit>, v: seq<Digit>, m: int, top: int, total: int)
      returns (m': int, top': int)
    requires Divided(u, j + 1, q, v, m, top, total) && |u'| == |u|
    requires u'[..j] == u[..j] && Val(u'[j..j + |v|]) < Val(v)
    requires Val(u'[j..j + |v|]) + qq * Val(v) == Val(u[j..j + |v| + 1])
    ensures Divided(u', j, [qq] + q, v, m', top', total)
  {
    var p: int, r: int, r': int := BPow(j), Val(u[j + 1..j + 1 + |v|]), Val(u'[j..j + |v|]);
    var vv: int, x: int := Val(v), Val([qq] + q);
    BringDown(u, j, v);
    Prefix(u, j);
    assert ([qq] + q)[1..] == q;
    m' := vv * x;
    top' := p * (r' + m');
    Carried(p, BPow(j + 1), u[j], r, vv, qq, Val(q), r', m, top, x, m', top');
  }

  lemma Carried(p: int, pp: int, d: int, r: int, v: int, qq: int, q: int, r': int, m: int, top: int, x: int, m': int, top': int)
    requires r' + qq * v == d + B * r && x == qq + B * q
    requires pp == B * p && m == v * q && top == pp * (r + m)
    requires m' == v * x && top' == p * (r' + m')
    ensures p * d + top == top'
  {
    assert m' == qq * v + B * m;
    assert r' + m' == d + B * (r + m);
    assert p * (d + B * (r + m)) == p * d + (B * p) * (r + m);
  }

  /** The factor that makes the leading digit of the divisor large. */
  function Normaliser(top: Digit): nat {
    var t: int := top;
    0x8000 / (t + 1)
  }

  /** Normalising keeps the length of the divisor and makes room for its leading digit. */
  lemma ScaledDivisor(b: seq<Digit>, d: nat, full: seq<Digit>)
    requires b != [] && Normal(b) && d == Normaliser(b[|b| - 1])
    requires |full| == |b| + 1 && Val(full) == Val(b) * d
    ensures 0 < d < B
    ensures Val(full[..|b|]) == d * Val(b) && full[|b| - 1] > 0
  {
    var n := |b|;
    var p, top := BPow(n - 1), b[n - 1];
    DivisorTop(b, d);
    Swap(Val(b), d - 1);
    TopIsZero(full);
    var v := full[..n];
    TopDigit(b);
    assert Val(b) * d >= Val(b) by {
      MulMono(1, d, Val(b));
      Swap(Val(b), d);
    }
    TopNotZero(v);
    assert v[n - 1] == full[n - 1];
    Swap(Val(b), d);
  }

  lemma DivisorTop(b: seq<Digit>, d: nat)
    requires b != [] && Normal(b) && d == Normaliser(b[|b| - 1])
    ensures 0 < d < B && Val(b) * d < BPow(|b|)
  {
    var n := |b|;
    var top: int := b[n - 1];
    ValSplitLast(b);
    ValBound(b[..n - 1]);
    TopScaled(Val(b), BPow(n - 1), top, Val(b[..n - 1]), d);
  }

  lemma TopScaled(b: nat, p: nat, top: nat, low: nat, d: nat)
    requires b == low + p * top && low < p && d == 0x8000 / (top + 1) && 0 < top < B
    ensures 0 < d < B && b * d < B * p
  {
    assert d * (top + 1) <= 0x8000;
    DivBelow(0x8000, top + 1, B);
    assert b < (top + 1) * p;
    MulMono(b + 1, (top + 1) * p, d);
    MulMono(d * (top + 1), B, p);
    assert ((top + 1) * p) * d == (d * (top + 1)) * p;
  }

  /** Before the first quotient digit the leading digits of the dividend are below the divisor. */
  lemma FirstRemainder(a: seq<Digit>, b: seq<Digit>, d: nat, u: seq<Digit>, v: seq<Digit>, j: nat, r: nat, low: nat)
    requires b != [] && |a| + 1 == j + |b| == |u| && Normal(b) && d > 0
    requires Val(u) == Val(a) * d && Val(v) == d * Val(b)
    requires r == Val(u[j..j + |b|]) && low == Val(u[..j])
    ensures r < Val(v)
  {
    hide Val, BPow, Normal;
    var p: nat, t: nat, uv: nat :| p == BPow(j) && t == BPow(|b| - 1) && uv == Val(u);
    SplitAt(u, j, |b|, p, r, low, uv);
    HeadBelow(a, b, j, p, t, uv, d);
    LeadingBelow(p, t, r, uv, d, Val(b), low);
  }

  lemma HeadBelow(a: seq<Digit>, b: seq<Digit>, j: nat, p: nat, t: nat, uv: nat, d: nat)
    requires b != [] && |a| == j + |b| - 1 && Normal(b) && d > 0
    requires p == BPow(j) && t == BPow(|b| - 1) && uv == Val(a) * d
    ensures p > 0 && t <= Val(b) && uv < (p * t) * d
  {
    hide Val, BPow;
    HeadBound(a, j, |b| - 1);
    TopDigit(b);
    TimesBelow(Val(a), p * t, d);
  }

  lemma TimesBelow(x: nat, y: nat, d: nat)
    requires x < y && d > 0
    ensures x * d < y * d
  {
    MulMono(x + 1, y, d);
  }

  lemma SplitAt(u: seq<Digit>, j: nat, n: nat, p: nat, r: nat, low: nat, uv: nat)
    requires j + n == |u| && p == BPow(j) && low == Val(u[..j]) && r == Val(u[j..j + n]) && uv == Val(u)
    ensures low + p * r == uv
  {
    assert u[j..] == u[j..j + n];
    ValSplit(u, j);
  }

  lemma HeadBound(a: seq<Digit>, j: nat, k: nat)
    requires |a| == j + k
    ensures Val(a) < BPow(j) * BPow(k)
  {
    ValBound(a);
    BPowAdd(j, k);
  }

  lemma LeadingBelow(p: nat, t: nat, r: nat, uv: nat, d: nat, b: nat, low: nat)
    requires p > 0 && d > 0 && uv < (p * t) * d && t <= b && low + p * r == uv
    ensures r < d * b
  {
    assert (p * t) * d == (t * d) * p;
    assert r < t * d by {
      if r >= t * d {
        MulMono(t * d, r, p);
      }
    }
    MulMono(t, b, d);
  }

  /** Undoing the normalisation: the remainder divides exactly. */
  lemma Unscale(a: nat, b: nat, d: nat, q: nat, r: nat, w: nat, x: nat)
    requires d > 0 && r + (d * b) * q == a * d && r < d * b
    requires r == d * w + x && x < d
    ensures x == 0 && a == q * b + w && w < b
  {
    assert (d * b) * q == d * (q * b);
    assert a * d == d * a;
    assert x == d * (a - q * b - w);
    var t := a - q * b - w;
    if t > 0 {
      MulMono(1, t, d);
    } else if t < 0 {
      MulMono(t, -1, d);
    }
    if w >= b {
      MulMono(b, w, d);
    }
  }

  /** The quotient has at most one leading zero. */
  lemma LongQuotientLength(a: seq<Digit>, b: seq<Digit>, q: seq<Digit>, r: nat)
    requires |a| >= |b| >= 1 && Normal(a) && |q| == |a| - |b| + 1
    requires Val(a) == Val(q) * Val(b) + r && r < Val(b)
    ensures |q| > 1 && q[|q| - 1] == 0 ==> q[|q| - 2] != 0
  {
    hide Val;
    var k := |q| - 1;
    if k > 0 && q[k] == 0 {
      StripZeros(q, k);
      var t := q[..k];
      TopDigit(a);
      ValBound(b);
      BPowAdd(k - 1, |b|);
      if Val(t) < BPow(k - 1) {
        QuotientTooSmall(Val(a), Val(t), Val(b), r, BPow(k - 1), BPow(|b|));
      }
      TopNotZero(t);
      assert t[k - 1] == q[k - 1];
    }
  }

  lemma QuotientTooSmall(a: nat, q: nat, b: nat, r: nat, p: nat, n: nat)
    requires a == q * b + r && r < b < n && q < p
    ensures a < p * n
  {
    MulMono(q + 1, p, b);
    MulMono(b, n, p);
    assert (q + 1) * b == q * b + b && b * p == p * b && n * p == p * n;
  }

  /** m_div() for a divisor of two digits or more and a dividend not shorter. */
  method LongDiv(a: seq<Digit>, b: seq<Digit>) returns (q: seq<Digit>, r: seq<Digit>)
    requires |a| >= |b| >= 2 && Normal(a) && Normal(b)
    ensures Normal(q) && Normal(r)
    ensures Val(a) == Val(q) * Val(b) + Val(r) && Val(r) < Val(b)
  {
    hide BPow;
    var n := |b|;
    var d := Normaliser(b[n - 1]);
    DivisorTop(b, d);
    assert Val([d]) == d;
    var u := MMult(a, [d]);
    var vfull := MMult(b, [d]);
    ScaledDivisor(b, d, vfull[..]);
    var v := vfull[..n];
    var j := |a| - n + 1;
    FirstRemainder(a, b, d, u[..], v, j, Val(u[j..j + n]), Val(u[..j]));
    SplitAt(u[..], j, n, BPow(j), Val(u[j..j + n]), Val(u[..j]), Val(u[..]));
    assert u[..][j..j + n] == u[j..j + n] && u[..][..j] == u[..j];
    var qval := Digits(v, u, j);
    assert u[..n] == u[0..n];
    var len := Length(u[..n]);
    var x;
    r, x := ShortDiv(u[..n][..len], d);
    Unscale(Val(a), Val(b), d, Val(qval), Val(u[..n]), Val(r), x);
    var qq := |a| - n + 1;
    LongQuotientLength(a, b, qval, Val(r));
    if qq > 0 && qval[qq - 1] == 0 {
      StripZeros(qval, qq - 1);
      qq := qq - 1;
    } else {
      assert qval[..qq] == qval;
    }
    q := qval[..qq];
  }

  /** The loop of m_div() over the quotient digits, from the leading one down. */
  method Digits(v: seq<Digit>, u: array<Digit>, k: nat) returns (q: seq<Digit>)
    requires |v| >= 2 && v[|v| - 1] > 0 && k + |v| == u.Length
    requires Val(u[k..k + |v|]) < Val(v)
    modifies u
    ensures |q| == k && Val(u[0..|v|]) < Val(v)
    ensures Val(u[0..|v|]) + Val(v) * Val(q) == old(Val(u[..k]) + BPow(k) * Val(u[k..k + |v|]))
  {
    hide Normal;
    var qval := new Digit[k];
    ghost var total := Val(u[..k]) + BPow(k) * Val(u[k..k + |v|]);
    ghost var m, top := 0, BPow(k) * Val(u[k..k + |v|]);
    var j := k;
    assert qval[k..] == [];
    while j > 0
      invariant 0 <= j <= k
      invariant Divided(u[..], j, qval[j..], v, m, top, total)
    {
      j := j - 1;
      ghost var u0, q0 := u[..], qval[j + 1..];
      BringDown(u0, j, v);
      var qq := QuotientDigit(v, u, j);
      qval[j] := qq;
      assert qval[j..] == [qq] + q0;
      m, top := NextDigit(u0, u[..], j, qq, q0, v, m, top, total);
    }
    q := qval[..];
    assert qval[0..] == q;
  }

  /** m_div(): quotient and remainder of two numbers that are not negative. */
  method MDiv(a: seq<Digit>, b: seq<Digit>) returns (q: seq<Digit>, r: seq<Digit>)
    requires Normal(a) && Normal(b) && b != []
    ensures Normal(q) && Normal(r)
    ensures Val(a) == Val(q) * Val(b) + Val(r) && Val(r) < Val(b)
  {
    if |b| == 1 {
      var x;
      q, x := ShortDiv(a, b[0]);
      r := if x == 0 then [] else [x];
      assert Val(b) == b[0] && Val(r) == x;
      Swap(b[0], Val(q));
      return;
    }
    if |a| < |b| {
      LongerIsLarger(a, b);
      return [], a;
    }
    q, r := LongDiv(a, b);
  }

  /** mdiv(), for every sign; the divisor is not zero. */
  method Div(a: Mint, b: Mint) returns (q: Mint, r: Mint)
    requires a.Valid() && b.Valid() && b.Value() != 0
    ensures q.Valid() && r.Valid()
    ensures q.Value() == TruncQuotient(a.Value(), b.Value()) && r.Value() == OddRemainder(a.Value(), b.Value())
  {
    SignOfValue(a);
    SignOfValue(b);
    var qs, rs := MDiv(a.val, b.val);
    var sign := if (a.len < 0) != (b.len < 0) then -1 else 1;
    q := Mint(sign * |qs|, qs);
    r := Mint(sign * |rs|, rs);
    Swap(Val(b.val), Val(qs));
    QuotientIs(Val(a.val), Val(b.val), Val(qs), Val(rs));
  }
}
