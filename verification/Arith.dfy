/** The few facts about products and quotients that the solver has to be handed. */
module Arith {

  function Abs(x: int): nat { if x < 0 then -x else x }

  lemma MulMono(a: int, b: int, c: int)
    requires a <= b && 0 <= c
    ensures a * c <= b * c
  {
    var d := b - a;
    assert d * c >= 0;
    assert b * c == (a + d) * c == a * c + d * c;
  }

  lemma DivUnique(x: int, d: int, q: int, r: int)
    requires 0 <= r < d && x == q * d + r
    ensures x / d == q && x % d == r
  {
    var e, s := x / d, x % d;
    assert (e - q) * d == r - s;
    if e > q {
      MulMono(1, e - q, d);
    } else if e < q {
      MulMono(e - q, -1, d);
    }
  }

  lemma DivBelow(x: nat, d: nat, b: nat)
    requires d > 0 && x < b * d
    ensures x / d < b
  {
    if b <= x / d {
      MulMono(b, x / d, d);
    }
  }

  lemma ProductBelow(x: int, y: int, p: int, q: int)
    requires 0 <= x < p && 0 <= y < q
    ensures 0 <= x * y < p * q
  {
    MulMono(x, p, y);
    MulMono(y + 1, q, p);
    assert p * (y + 1) == p * y + p;
  }

  lemma ProductAtLeast(p: nat, q: nat, x: int, y: int)
    requires p <= x && q <= y
    ensures p * q <= x * y
  {
    MulMono(p, x, q);
    MulMono(q, y, x);
  }

  lemma NegativeProducts(x: int, y: int)
    ensures (-x) * y == -(x * y) && x * (-y) == -(x * y) && (-x) * (-y) == x * y && x * y == y * x
  {
  }
}
