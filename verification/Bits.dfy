/**
 Bits of the natural numbers.  Shifts and masks are written one bit at a time, so that
 proofs about them need no arithmetic beyond halving and doubling.
 */
module Bits {
  import opened Arith

  type byte = x: int | 0 <= x < 256

  function Pow2(n: nat): (r: nat)
    ensures r > 0
  {
    if n == 0 then 1 else 2 * Pow2(n - 1)
  }

  /** Bit i of x, bit 0 being the least significant. */
  predicate Bit(x: nat, i: nat)
    decreases i
  {
    if i == 0 then x % 2 == 1 else Bit(x / 2, i - 1)
  }

  /** x << k */
  function Shl(x: nat, k: nat): nat
  {
    if k == 0 then x else 2 * Shl(x, k - 1)
  }

  /** x >> k */
  function Shr(x: nat, k: nat): nat
    decreases k
  {
    if k == 0 then x else Shr(x / 2, k - 1)
  }

  /** x & (2^k - 1) */
  function Low(x: nat, k: nat): (r: nat)
    ensures r < Pow2(k)
    decreases k
  {
    if k == 0 then 0 else x % 2 + 2 * Low(x / 2, k - 1)
  }

  lemma {:induction false} BitOfShr(x: nat, k: nat, j: nat)
    ensures Bit(Shr(x, k), j) == Bit(x, k + j)
    decreases k
  {
    if k > 0 {
      BitOfShr(x / 2, k - 1, j);
    }
  }

  lemma {:induction false} BitOfLow(x: nat, k: nat, j: nat)
    requires j < k
    ensures Bit(Low(x, k), j) == Bit(x, j)
    decreases k
  {
    if j > 0 {
      BitOfLow(x / 2, k - 1, j - 1);
    }
  }

  /** A number made of k low bits and the rest: the `|` of two disjoint fields. */
  lemma {:induction false} BitOfJoin(lo: nat, hi: nat, k: nat, j: nat)
    requires lo < Pow2(k)
    ensures Bit(lo + Shl(hi, k), j) == if j < k then Bit(lo, j) else Bit(hi, j - k)
    decreases k
  {
    if k > 0 {
      var t := Shl(hi, k - 1);
      assert (lo + 2 * t) % 2 == lo % 2 && (lo + 2 * t) / 2 == lo / 2 + t;
      if j > 0 {
        BitOfJoin(lo / 2, hi, k - 1, j - 1);
      }
    }
  }

  lemma {:induction false} JoinFits(lo: nat, hi: nat, k: nat, w: nat)
    requires lo < Pow2(k) && hi < Pow2(w)
    ensures lo + Shl(hi, k) < Pow2(k + w)
    decreases k
  {
    if k > 0 {
      JoinFits(lo / 2, hi, k - 1, w);
      assert Pow2(k + w) == 2 * Pow2(k - 1 + w);
    }
  }

  lemma {:induction false} ShrFits(x: nat, k: nat, w: nat)
    requires x < Pow2(k + w)
    ensures Shr(x, k) < Pow2(w)
    decreases k
  {
    if k > 0 {
      assert Pow2(k + w) == 2 * Pow2(k - 1 + w);
      ShrFits(x / 2, k - 1, w);
    }
  }

  /** Truncating a shifted value keeps the low bits of the value. */
  lemma {:induction false} LowOfShl(x: nat, k: nat, w: nat)
    ensures Low(Shl(x, k), k + w) == Shl(Low(x, w), k)
    decreases k
  {
    if k > 0 {
      assert Shl(x, k) % 2 == 0 && Shl(x, k) / 2 == Shl(x, k - 1);
      LowOfShl(x, k - 1, w);
    }
  }

  lemma {:induction false} LowOfSmall(x: nat, k: nat)
    requires x < Pow2(k)
    ensures Low(x, k) == x
    decreases k
  {
    if k > 0 {
      LowOfSmall(x / 2, k - 1);
    }
  }

  lemma {:induction false} BitsDetermine(x: nat, y: nat, n: nat)
    requires x < Pow2(n) && y < Pow2(n)
    requires forall i | 0 <= i < n :: Bit(x, i) == Bit(y, i)
    ensures x == y
    decreases n
  {
    if n > 0 {
      forall i | 0 <= i < n - 1
        ensures Bit(x / 2, i) == Bit(y / 2, i)
      {
        assert Bit(x, i + 1) == Bit(y, i + 1);
      }
      BitsDetermine(x / 2, y / 2, n - 1);
      assert Bit(x, 0) == Bit(y, 0);
    }
  }

  lemma {:induction false} Pow2Mono(a: nat, b: nat)
    requires a <= b
    ensures Pow2(a) <= Pow2(b)
    decreases b
  {
    if a < b {
      Pow2Mono(a, b - 1);
    }
  }

  lemma Pow2Values()
    ensures Pow2(8) == 256 && Pow2(9) == 512 && Pow2(10) == 1024
    ensures Pow2(11) == 2048 && Pow2(12) == 4096 && Pow2(13) == 8192 && Pow2(14) == 16384
    ensures Pow2(15) == 32768 && Pow2(16) == 65536
  {
    assert Pow2(4) == 16;
    assert Pow2(8) == 256;
    assert Pow2(12) == 4096;
  }

  lemma OneByte(x: nat)
    ensures x < Pow2(8) <==> x < 256
  {
    assert Pow2(4) == 16;
  }

  // ----- setting and clearing one bit

  /** b | 1 << n */
  function WithBit(b: nat, n: nat): nat {
    if Bit(b, n) then b else b + Pow2(n)
  }

  lemma {:induction false} BitOfSum(b: nat, n: nat, j: nat)
    requires !Bit(b, n)
    ensures Bit(b + Pow2(n), j) == (j == n || Bit(b, j))
    decreases n
  {
    if n == 0 {
      assert b % 2 == 0 && (b + 1) / 2 == b / 2;
    } else {
      assert (b + 2 * Pow2(n - 1)) % 2 == b % 2 && (b + 2 * Pow2(n - 1)) / 2 == b / 2 + Pow2(n - 1);
      if j > 0 {
        BitOfSum(b / 2, n - 1, j - 1);
      }
    }
  }

  lemma {:induction false} SumFits(b: nat, n: nat, w: nat)
    requires !Bit(b, n) && b < Pow2(w) && n < w
    ensures b + Pow2(n) < Pow2(w)
    decreases n
  {
    if n > 0 {
      SumFits(b / 2, n - 1, w - 1);
      assert b == 2 * (b / 2) + b % 2 && b / 2 + Pow2(n - 1) + 1 <= Pow2(w - 1);
    }
  }

  lemma WithBitSets(b: byte, n: nat, j: nat)
    requires n < 8
    ensures WithBit(b, n) < 256 && Bit(WithBit(b, n), j) == (j == n || Bit(b, j))
  {
    OneByte(b);
    OneByte(WithBit(b, n));
    if !Bit(b, n) {
      BitOfSum(b, n, j);
      SumFits(b, n, 8);
    }
  }

  /** b & ~(1 << n) */
  function WithoutBit(b: nat, n: nat): (r: nat)
    ensures r <= b
  {
    if Bit(b, n) then BitIsPart(b, n); b - Pow2(n) else b
  }

  lemma {:induction false} BitIsPart(b: nat, n: nat)
    requires Bit(b, n)
    ensures b >= Pow2(n) && !Bit(b - Pow2(n), n)
    ensures forall j: nat | j != n :: Bit(b - Pow2(n), j) == Bit(b, j)
    decreases n
  {
    if n == 0 {
      assert (b - 1) / 2 == b / 2;
    } else {
      BitIsPart(b / 2, n - 1);
      var c := b - Pow2(n);
      assert c % 2 == b % 2 && c / 2 == b / 2 - Pow2(n - 1);
      forall j: nat | j != n
        ensures Bit(c, j) == Bit(b, j)
      {
        if j > 0 {
          assert Bit(c / 2, j - 1) == Bit(b / 2, j - 1);
        }
      }
    }
  }

  lemma WithoutBitClears(b: nat, n: nat, j: nat)
    ensures Bit(WithoutBit(b, n), j) == (j != n && Bit(b, j))
  {
    if Bit(b, n) {
      BitIsPart(b, n);
    }
  }

  lemma {:induction false} ZeroHasNoBits(n: nat)
    ensures !Bit(0, n)
    decreases n
  {
    if n > 0 {
      ZeroHasNoBits(n - 1);
    }
  }

  // ----- the low bits as a remainder

  lemma {:induction false} LowIsMod(x: nat, k: nat)
    ensures Low(x, k) == x % Pow2(k)
    decreases k
  {
    if k > 0 {
      LowIsMod(x / 2, k - 1);
      ModTwice(x, Pow2(k - 1));
    }
  }

  lemma ModTwice(x: nat, m: nat)
    requires m > 0
    ensures x % (2 * m) == x % 2 + 2 * (x / 2 % m)
  {
    var q, r := x / 2 / m, x / 2 % m;
    assert x / 2 == m * q + r;
    assert q * (2 * m) == 2 * (m * q);
    DivUnique(x, 2 * m, q, x % 2 + 2 * r);
  }
}
