/** gcd.c: Euclid's algorithm, and the modular inverse with unsigned cofactors. */
module MpGcd {
  import opened Arith
  import opened MpBase
  import opened MpAdd
  import opened MpMult
  import opened MpDiv

  predicate Divides(d: nat, x: int)
    requires d > 0
  {
    Abs(x) % d == 0
  }

  /** g has exactly the common divisors of a and b as its divisors. */
  ghost predicate IsGcd(g: int, a: int, b: int) {
    forall d: nat | d > 0 :: Divides(d, g) <==> Divides(d, a) && Divides(d, b)
  }

  ghost predicate SameDivisors(a: int, b: int, x: int, y: int) {
    forall d: nat | d > 0 :: (Divides(d, a) && Divides(d, b)) <==> (Divides(d, x) && Divides(d, y))
  }

  lemma MultipleIsDivided(d: nat, k: int, x: int)
    requires d > 0 && x == k * d
    ensures Divides(d, x)
  {
    if x >= 0 {
      DivUnique(x, d, k, 0);
    } else {
      assert -x == (-k) * d;
      DivUnique(-x, d, -k, 0);
    }
  }

  lemma DividedIsMultiple(d: nat, x: int) returns (k: int)
    requires d > 0 && Divides(d, x)
    ensures x == k * d
  {
    k := Abs(x) / d;
    assert Abs(x) == k * d;
    if x < 0 {
      assert (-k) * d == -(k * d);
      k := -k;
    }
  }

  /** One division step keeps the common divisors, whatever the signs. */
  lemma DivisorsStep(x: nat, y: nat, q: nat, z: nat, d: nat)
    requires d > 0 && x == q * y + z
    ensures (Divides(d, x) && Divides(d, y)) <==> (Divides(d, y) && Divides(d, z))
  {
    if Divides(d, y) {
      var k := DividedIsMultiple(d, y);
      if Divides(d, x) {
        var j := DividedIsMultiple(d, x);
        assert z == (j - q * k) * d;
        MultipleIsDivided(d, j - q * k, z);
      }
      if Divides(d, z) {
        var j := DividedIsMultiple(d, z);
        assert x == (q * k + j) * d;
        MultipleIsDivided(d, q * k + j, x);
      }
    }
  }

  lemma StepKeepsDivisors(a: int, b: int, x: int, y: int)
    requires SameDivisors(a, b, x, y) && y != 0
    ensures SameDivisors(a, b, y, OddRemainder(x, y)) && Abs(OddRemainder(x, y)) < Abs(y)
  {
    var z := OddRemainder(x, y);
    var q := Abs(x) / Abs(y);
    assert Abs(x) == q * Abs(y) + Abs(x) % Abs(y);
    forall d: nat | d > 0
      ensures (Divides(d, a) && Divides(d, b)) <==> (Divides(d, y) && Divides(d, z))
    {
      DivisorsStep(Abs(x), Abs(y), q, Abs(x) % Abs(y), d);
    }
  }

  // ----- the sign of the result

  /** The divisions that gcd() makes. */
  function Steps(x: nat, y: nat): nat
    decreases y
  {
    if y == 0 then 0 else 1 + Steps(y, x % y)
  }

  /** Whether remainder n is negative, a being number 0 and b number 1: each has the sign of the
      product of the two before it, so that the signs come round after three. */
  predicate NegativeAt(a: int, b: int, n: nat) {
    if n % 3 == 0 then a < 0 else if n % 3 == 1 then b < 0 else (a < 0) != (b < 0)
  }

  ghost predicate SignedAt(a: int, b: int, x: int, n: nat) {
    x != 0 ==> (x < 0 <==> NegativeAt(a, b, n))
  }

  lemma SignStep(a: int, b: int, x: int, y: int, n: nat)
    requires y != 0 && SignedAt(a, b, x, n) && SignedAt(a, b, y, n + 1)
    ensures SignedAt(a, b, OddRemainder(x, y), n + 2) && Abs(OddRemainder(x, y)) == Abs(x) % Abs(y)
  {
    if x == 0 {
      assert Abs(x) % Abs(y) == 0;
    }
  }

  /** gcd(), for every sign and for zero: the result, or its negative, is the greatest common
      divisor; which of them the signs of the operands and the number of divisions tell. */
  method Gcd(a: Mint, b: Mint) returns (c: Mint)
    requires a.Valid() && b.Valid()
    ensures c.Valid() && IsGcd(c.Value(), a.Value(), b.Value())
    ensures c.Value() < 0 <==> c.Value() != 0 && NegativeAt(a.Value(), b.Value(), Steps(Abs(a.Value()), Abs(b.Value())))
    ensures a.Value() >= 0 && b.Value() >= 0 ==> c.Value() >= 0
    ensures b.Value() == 0 ==> c.Value() == a.Value()
  {
    var x, y := a, b;
    ghost var n: nat := 0;
    while y.len != 0
      invariant x.Valid() && y.Valid() && SameDivisors(a.Value(), b.Value(), x.Value(), y.Value())
      invariant SignedAt(a.Value(), b.Value(), x.Value(), n) && SignedAt(a.Value(), b.Value(), y.Value(), n + 1)
      invariant n + Steps(Abs(x.Value()), Abs(y.Value())) == Steps(Abs(a.Value()), Abs(b.Value()))
      invariant b.Value() == 0 ==> x == a
      decreases Abs(y.Value())
    {
      SignOfValue(y);
      StepKeepsDivisors(a.Value(), b.Value(), x.Value(), y.Value());
      SignStep(a.Value(), b.Value(), x.Value(), y.Value(), n);
      var w, z := Div(x, y);
      x := y;
      y := z;
      n := n + 1;
    }
    c := x;
    SignOfValue(y);
    ZeroRemainder(a.Value(), b.Value(), x.Value());
  }

  /** The result can be negative: for 4 and -2 it is -2. */
  method NegativeGcd() returns (c: Mint)
    ensures c.Value() == -2
  {
    var a, b := Mint(1, [4]), Mint(-1, [2]);
    assert a.Value() == 4 && b.Value() == -2;
    assert Steps(4, 2) == 1 + Steps(2, 0);
    c := Gcd(a, b);
    TwoIsGcd(c.Value());
  }

  lemma TwoIsGcd(g: int)
    requires IsGcd(g, 4, -2)
    ensures g == 2 || g == -2
  {
    assert Divides(2, 4) && Divides(2, -2) && Divides(2, g);
    assert !Divides(3, g);
    if g != 0 {
      assert Divides(Abs(g), g) && Divides(Abs(g), -2);
      assert Abs(g) <= 2;
    }
  }

  lemma ZeroRemainder(a: int, b: int, x: int)
    requires SameDivisors(a, b, x, 0)
    ensures IsGcd(x, a, b)
  {
    forall d: nat | d > 0
      ensures Divides(d, x) <==> Divides(d, a) && Divides(d, b)
    {
      assert Divides(d, 0);
    }
  }

  // ----- the modular inverse

  /** After i steps: a * anew is y, and a * aold is x, with alternating signs, modulo b; and
      the cofactors are bounded by b. */
  ghost predicate Cofactors(a: int, b: int, s: int, x: int, y: int, anew: int, aold: int, k: int, l: int) {
    && (s == 1 || s == -1) && 0 <= y < x && anew > 0 && aold >= 0
    && a * anew == s * y + k * b
    && a * aold == l * b - s * x
    && aold * y + anew * x == b
  }

  lemma CofactorStep(a: int, b: int, s: int, x: int, y: int, anew: int, aold: int, k: int, l: int, w: int, z: int)
    requires Cofactors(a, b, s, x, y, anew, aold, k, l) && y > 0 && w == x / y && z == x % y
    ensures Cofactors(a, b, -s, y, z, w * anew + aold, anew, w * k + l, k)
  {
    assert x == w * y + z;
    assert w >= 1 by {
      if w < 1 {
        MulMono(w, 0, y);
      }
    }
    MulMono(1, w, anew);
    CofactorProducts(a, b, s, x, y, anew, aold, k, l, w, z);
  }

  lemma CofactorProducts(a: int, b: int, s: int, x: int, y: int, anew: int, aold: int, k: int, l: int, w: int, z: int)
    requires x == w * y + z && a * anew == s * y + k * b && a * aold == l * b - s * x && aold * y + anew * x == b
    ensures a * (w * anew + aold) == (-s) * z + (w * k + l) * b
    ensures anew * z + (w * anew + aold) * y == b
    ensures a * anew == k * b - (-s) * y
  {
    calc {
      a * (w * anew + aold);
      w * (a * anew) + a * aold;
      w * (s * y + k * b) + l * b - s * x;
      w * (s * y) + w * (k * b) + l * b - s * (w * y + z);
      { assert w * (s * y) == s * (w * y) && s * (w * y + z) == s * (w * y) + s * z; }
      w * (k * b) + l * b - s * z;
      { assert w * (k * b) == (w * k) * b; }
      (w * k + l) * b - s * z;
    }
    assert (-s) * z == -(s * z) && (-s) * y == -(s * y);
    calc {
      anew * z + (w * anew + aold) * y;
      anew * z + (w * anew) * y + aold * y;
      { assert (w * anew) * y == anew * (w * y); }
      anew * (z + w * y) + aold * y;
    }
  }

  /** Both cofactors and the quotient stay below b, so the numbers stay short. */
  lemma CofactorBounds(a: int, b: int, s: int, x: int, y: int, anew: int, aold: int, k: int, l: int)
    requires Cofactors(a, b, s, x, y, anew, aold, k, l)
    ensures anew <= b && x <= b
  {
    MulMono(1, x, anew);
    MulMono(1, anew, x);
    MulMono(0, aold, y);
    assert x * anew == anew * x;
  }

  lemma NotLongerThan(m: Mint, b: Mint)
    requires m.Valid() && b.Valid() && 0 <= m.Value() <= b.Value()
    ensures m.len >= 0 && |m.val| <= |b.val|
  {
    SignOfValue(m);
    SignOfValue(b);
    if |m.val| > |b.val| {
      LongerIsLarger(b.val, m.val);
    }
  }

  /** One turn of the loop of invert(). */
  method InvertStep(b: Mint, x: Mint, y: Mint, anew: Mint, aold: Mint, ghost a: int, ghost s: int, ghost k: int, ghost l: int)
      returns (z: Mint, anew': Mint, ghost w': int)
    requires Fits(b) && x.Valid() && y.Valid() && anew.Valid() && aold.Valid() && y.Value() > 0
    requires Cofactors(a, b.Value(), s, x.Value(), y.Value(), anew.Value(), aold.Value(), k, l)
    ensures z.Valid() && anew'.Valid() && z.Value() == OddRemainder(x.Value(), y.Value())
    ensures Cofactors(a, b.Value(), -s, y.Value(), z.Value(), anew'.Value(), anew.Value(), w' * k + l, k)
  {
    ghost var bv: int, xv: int, yv: int :| bv == b.Value() && xv == x.Value() && yv == y.Value();
    ghost var an: int, ao: int :| an == anew.Value() && ao == aold.Value();
    PlainQuotient(xv, yv);
    CofactorBounds(a, bv, s, xv, yv, an, ao, k, l);
    var w;
    w, z := Div(x, y);
    w' := w.Value();
    CofactorStep(a, bv, s, xv, yv, an, ao, k, l, w', z.Value());
    SmallQuotient(xv, yv);
    NotLongerThan(w, b);
    NotLongerThan(anew, b);
    SignOfValue(anew);
    SignOfValue(w);
    assert w' > 0 by {
      QuotientPositive(xv, yv);
    }
    anew' := Mult(w, anew);
    anew' := Add(anew', aold);
  }

  lemma SmallQuotient(x: int, y: int)
    requires x >= 0 && y > 0
    ensures 0 <= x / y <= x
  {
    QuotientNotNegative(x, y);
    assert x == x / y * y + x % y;
    MulMono(1, y, x / y);
    assert y * (x / y) == x / y * y;
  }

  lemma QuotientPositive(x: int, y: int)
    requires x >= y > 0
    ensures x / y > 0
  {
    var q, r := x / y, x % y;
    assert x == q * y + r;
    if q <= 0 {
      MulMono(q, 0, y);
    }
  }

  function Alternating(i: nat): (s: int)
    ensures s == 1 || s == -1
  {
    if i % 2 == 0 then 1 else -1
  }

  /** Everything that the loop of invert() keeps; at its end the last cofactor is small. */
  ghost predicate Inverting(a: int, b: int, i: nat, x: Mint, y: Mint, anew: Mint, aold: Mint, k: int, l: int) {
    && x.Valid() && y.Valid() && anew.Valid() && aold.Valid()
    && Cofactors(a, b, Alternating(i), x.Value(), y.Value(), anew.Value(), aold.Value(), k, l)
    && SameDivisors(a, b, x.Value(), y.Value())
    && (y.len == 0 ==> 0 < 2 * aold.Value() <= b)
  }

  /** The loop of invert(). */
  method InvertLoop(a: Mint, b: Mint) returns (i: nat, aold: Mint, ghost g: int, ghost l: int)
    requires Fits(a) && Fits(b) && 0 < a.Value() < b.Value()
    ensures aold.Valid() && 0 < 2 * aold.Value() <= b.Value()
    ensures g > 0 && IsGcd(g, a.Value(), b.Value())
    ensures a.Value() * aold.Value() == l * b.Value() - Alternating(i) * g
  {
    ghost var av: int, bv: int :| av == a.Value() && bv == b.Value();
    ghost var k := 0;
    i, l := 0, 1;
    aold := Mint(0, []);
    var anew := Mint(1, [1]);
    var x, y := b, a;
    assert Val([1]) == 1;
    SignOfValue(a);
    StartCofactors(av, bv);
    while y.len != 0
      invariant Inverting(av, bv, i, x, y, anew, aold, k, l)
      decreases y.Value()
    {
      x, y, anew, aold, k, l := Turn(b, i, x, y, anew, aold, av, k, l);
      i := i + 1;
    }
    SignOfValue(y);
    g := x.Value();
    ZeroRemainder(av, bv, g);
  }

  method Turn(b: Mint, ghost i: nat, x: Mint, y: Mint, anew: Mint, aold: Mint, ghost a: int, ghost k: int, ghost l: int)
      returns (x': Mint, y': Mint, anew': Mint, aold': Mint, ghost k': int, ghost l': int)
    requires Fits(b) && y.len != 0 && Inverting(a, b.Value(), i, x, y, anew, aold, k, l)
    ensures Inverting(a, b.Value(), i + 1, x', y', anew', aold', k', l') && y'.Value() < y.Value()
  {
    SignOfValue(y);
    StepKeepsDivisors(a, b.Value(), x.Value(), y.Value());
    LastCofactor(a, b.Value(), Alternating(i), x.Value(), y.Value(), anew.Value(), aold.Value(), k, l);
    assert Alternating(i + 1) == -Alternating(i);
    ghost var w';
    y', anew', w' := InvertStep(b, x, y, anew, aold, a, Alternating(i), k, l);
    x', aold', k', l' := y, anew, w' * k + l, k;
  }

  /** invert(): for 0 < a < b, a number below b whose product with a is the greatest common
      divisor modulo b. */
  method Invert(a: Mint, b: Mint) returns (c: Mint, ghost g: int)
    requires Fits(a) && Fits(b) && 0 < a.Value() < b.Value()
    ensures c.Valid() && 0 < c.Value() < b.Value()
    ensures g > 0 && IsGcd(g, a.Value(), b.Value())
    ensures (a.Value() * c.Value()) % b.Value() == g
  {
    var i;
    ghost var l;
    i, c, g, l := InvertLoop(a, b);
    DivisorAtMost(g, a.Value(), b.Value());
    InverseOf(a.Value(), b.Value(), Alternating(i), g, c.Value(), l);
    if i % 2 == 0 {
      SignOfValue(c);
      c := Sub(b, c);
    }
  }

  lemma DivisorAtMost(g: int, a: int, b: int)
    requires g > 0 && a > 0 && IsGcd(g, a, b)
    ensures g <= a
  {
    assert Divides(g, g);
    var k := DividedIsMultiple(g, a);
    if k <= 0 {
      MulMono(k, 0, g);
    } else {
      MulMono(1, k, g);
    }
  }

  lemma StartCofactors(a: int, b: int)
    requires 0 < a < b
    ensures Cofactors(a, b, 1, b, a, 1, 0, 0, 1) && SameDivisors(a, b, b, a)
  {
  }

  /** When the division is exact the last cofactor is at most half of b. */
  lemma LastCofactor(a: int, b: int, s: int, x: int, y: int, anew: int, aold: int, k: int, l: int)
    requires Cofactors(a, b, s, x, y, anew, aold, k, l) && y > 0
    ensures 0 < 2 * anew <= b
  {
    MulMono(2, x, anew);
    MulMono(0, aold, y);
    assert x * anew == anew * x && y * aold == aold * y;
  }

  lemma InverseOf(a: int, b: int, s: int, g: int, c: int, l: int)
    requires (s == 1 || s == -1) && 0 < g < b && a * c == l * b - s * g
    ensures s == -1 ==> (a * c) % b == g
    ensures s == 1 ==> (a * (b - c)) % b == g
  {
    if s == -1 {
      DivUnique(a * c, b, l, g);
    } else {
      assert a * (b - c) == a * b - a * c == (a - l) * b + g;
      DivUnique(a * (b - c), b, a - l, g);
    }
  }

  /** So the result is the inverse exactly when a and b have no common divisor. */
  lemma CoprimeMeansOne(g: int, a: int, b: int)
    requires g > 0 && IsGcd(g, a, b)
    ensures g == 1 <==> forall d: nat | d > 1 :: !(Divides(d, a) && Divides(d, b))
  {
    assert Divides(g, g);
    if g == 1 {
      forall d: nat | d > 1
        ensures !(Divides(d, a) && Divides(d, b))
      {
        assert !Divides(d, 1);
      }
    }
  }
}
