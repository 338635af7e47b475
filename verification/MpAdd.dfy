/** madd.c: sums and differences of signed numbers, and mcmp of util.c. */
module MpAdd {
  import opened Arith
  import opened MpBase

  /** Bit 15 of a 16-bit int, and the fifteen bits below it. */
  predicate HighBit(x: int) { x / 0x8000 % 2 == 1 }

  function Low15(x: int): Digit { x % 0x8000 }


  /** One column: weight p, digits of value d replaced by low, with the carry moved up. */
  lemma Column(p: nat, carry: int, d: int, low: int, carry': int, before: int, total: int)
    requires before + carry * p == total && carry + d == low + carry' * B
    ensures before + p * low + carry' * (B * p) == total + p * d
  {
    calc {
      before + p * low + carry' * (B * p);
      before + p * (low + carry' * B);
      before + p * (carry + d);
      total + p * d;
    }
  }

  lemma Prefix(s: seq<Digit>, i: nat)
    requires i < |s|
    ensures Val(s[..i + 1]) == Val(s[..i]) + BPow(i) * s[i]
  {
    assert s[..i + 1] == s[..i] + [s[i]];
    ValSnoc(s[..i], s[i]);
  }

  lemma TopNotZero(s: seq<Digit>)
    requires s != [] && Val(s) >= BPow(|s| - 1)
    ensures s[|s| - 1] != 0
  {
    ValSplitLast(s);
    ValBound(s[..|s| - 1]);
  }

  predicate Normal(s: seq<Digit>) { s != [] ==> s[|s| - 1] != 0 }

  /** What testing bit 15 and masking it away do to a sum of digits and carry, or to a
      difference. */
  lemma Bit15(x: int)
    requires -0x8000 <= x < 0x10000
    ensures HighBit(x) <==> (x < 0 || x >= 0x8000)
    ensures Low15(x) == if x < 0 then x + 0x8000 else if x >= 0x8000 then x - 0x8000 else x
  {
  }

  /** Digit i of a number, 0 above its length. */
  function At(s: seq<Digit>, i: nat): Digit {
    if i < |s| then s[i] else 0
  }

  function Upto(s: seq<Digit>, i: nat): seq<Digit> {
    if i < |s| then s[..i] else s
  }

  lemma UptoNext(s: seq<Digit>, i: nat)
    ensures Val(Upto(s, i + 1)) == Val(Upto(s, i)) + BPow(i) * At(s, i)
  {
    if i < |s| {
      Prefix(s, i);
      assert s[..|s|] == s;
    }
  }

  function Signed(minus: bool, x: int): int {
    if minus then -x else x
  }

  /** The low |c| digits of a + b, or of a - b, with the carry or borrow still to be added
      above them. */
  ghost predicate Summed(c: seq<Digit>, carry: int, a: seq<Digit>, b: seq<Digit>, minus: bool) {
    Val(c) + carry * BPow(|c|) == Val(Upto(a, |c|)) + Signed(minus, Val(Upto(b, |c|)))
  }

  lemma SumDigit(c: seq<Digit>, carry: int, a: seq<Digit>, b: seq<Digit>, minus: bool, low: Digit, carry': int)
    requires Summed(c, carry, a, b, minus)
    requires carry + At(a, |c|) + Signed(minus, At(b, |c|)) == low + carry' * B
    ensures Summed(c + [low], carry', a, b, minus)
  {
    var i := |c|;
    var p, x, y := BPow(i), At(a, i), At(b, i);
    ValSnoc(c, low);
    UptoNext(a, i);
    UptoNext(b, i);
    Column(p, carry, x + Signed(minus, y), low, carry', Val(c), Val(Upto(a, i)) + Signed(minus, Val(Upto(b, i))));
    Distribute(p, x, y, minus);
  }

  lemma Distribute(p: int, x: int, y: int, minus: bool)
    ensures p * (x + Signed(minus, y)) == p * x + Signed(minus, p * y)
  {
  }

  lemma CarryOut(c: seq<Digit>, a: seq<Digit>, b: seq<Digit>)
    requires Summed(c, 1, a, b, false) && |c| == |a| >= |b|
    ensures Val(c + [1]) == Val(a) + Val(b) >= BPow(|a|)
  {
    ValSnoc(c, 1);
  }

  lemma NoCarryOut(c: seq<Digit>, a: seq<Digit>, b: seq<Digit>)
    requires Summed(c, 0, a, b, false) && |c| == |a| >= |b|
    ensures Val(c) == Val(a) + Val(b) && (Normal(a) ==> Normal(c))
  {
    if a != [] && Normal(a) {
      TopDigit(a);
      TopNotZero(c);
    }
  }

  /** m_add(): the sum of two numbers that are not negative, the longer one first. */
  method MAdd(a: seq<Digit>, b: seq<Digit>) returns (c: Mint)
    requires |a| >= |b|
    ensures |c.val| == c.len && Val(c.val) == Val(a) + Val(b) && (Normal(a) ==> Normal(c.val))
    ensures c.len == |a| || (c.len == |a| + 1 && Val(c.val) >= BPow(|a|))
  {
    var cval := new Digit[|a| + 1];
    var carry: int := 0;
    var i := 0;
    ghost var done: seq<Digit> := [];
    while i < |b|
      invariant i <= |b| && 0 <= carry <= 1
      invariant cval[..i] == done && Summed(done, carry, a, b, false)
    {
      ghost var carry0 := carry;
      var x: int := carry + a[i] + b[i];
      Bit15(x);
      if HighBit(x) {
        carry := 1;
        cval[i] := Low15(x);
      } else {
        carry := 0;
        cval[i] := x;
      }
      SumDigit(done, carry0, a, b, false, cval[i], carry);
      done := done + [cval[i]];
      i := i + 1;
    }
    while i < |a|
      invariant |b| <= i <= |a| && 0 <= carry <= 1
      invariant cval[..i] == done && Summed(done, carry, a, b, false)
    {
      ghost var carry0 := carry;
      var x: int := carry + a[i];
      Bit15(x);
      if HighBit(x) {
        cval[i] := Low15(x);
      } else {
        carry := 0;
        cval[i] := x;
      }
      SumDigit(done, carry0, a, b, false, cval[i], carry);
      done := done + [cval[i]];
      i := i + 1;
    }
    if carry == 1 {
      CarryOut(done, a, b);
      cval[i] := 1;
      c := Mint(i + 1, cval[..i + 1]);
      assert c.val == done + [1];
    } else {
      NoCarryOut(done, a, b);
      c := Mint(|a|, cval[..i]);
    }
  }

  // ----- differences

  /** c ^ 077777 */
  function Flip(s: seq<Digit>): (r: seq<Digit>)
    ensures |r| == |s|
  {
    seq(|s|, i requires 0 <= i < |s| => 0x7fff - s[i])
  }

  lemma {:induction false} ValFlip(s: seq<Digit>)
    ensures Val(Flip(s)) == BPow(|s|) - 1 - Val(s)
  {
    if s != [] {
      assert Flip(s)[1..] == Flip(s[1..]);
      ValFlip(s[1..]);
    }
  }

  lemma {:induction false} StripZeros(s: seq<Digit>, n: nat)
    requires n <= |s| && forall i | n <= i < |s| :: s[i] == 0
    ensures Val(s) == Val(s[..n])
    decreases |s|
  {
    if n < |s| {
      ValSplitLast(s);
      StripZeros(s[..|s| - 1], n);
      assert s[..|s| - 1][..n] == s[..n];
    } else {
      assert s[..n] == s;
    }
  }

  /** The number of digits without leading zeros. */
  method Length(s: seq<Digit>) returns (n: nat)
    ensures n <= |s| && Normal(s[..n]) && Val(s[..n]) == Val(s)
    ensures forall i | n <= i < |s| :: s[i] == 0
  {
    n := |s|;
    while n > 0 && s[n - 1] == 0
      invariant n <= |s| && forall i | n <= i < |s| :: s[i] == 0
    {
      n := n - 1;
    }
    StripZeros(s, n);
  }

  lemma NoBorrow(c: seq<Digit>, a: seq<Digit>, b: seq<Digit>)
    requires Summed(c, 0, a, b, true) && |c| == |a| >= |b|
    ensures Val(c) == Val(a) - Val(b)
  {
  }

  lemma Borrowed(c: seq<Digit>, a: seq<Digit>, b: seq<Digit>)
    requires Summed(c, -1, a, b, true) && |c| == |a| >= |b|
    ensures Val(Flip(c)) + 1 == Val(b) - Val(a) > 0
    ensures Val(Flip(c)) + 1 < BPow(|a|)
  {
    ValFlip(c);
    ValBound(c);
    ValBound(b);
    BPowMono(|b|, |a|);
  }

  /** m_sub(): the difference of two numbers that are not negative, the longer one first;
      a negative difference comes out as its complement and is turned round. */
  method MSub(a: seq<Digit>, b: seq<Digit>) returns (c: Mint)
    requires |a| >= |b|
    ensures c.Valid() && c.Value() == Val(a) - Val(b)
  {
    var cval := new Digit[|a|];
    var borrow: int := 0;
    var i := 0;
    ghost var done: seq<Digit> := [];
    while i < |b|
      invariant i <= |b| && -1 <= borrow <= 0
      invariant cval[..i] == done && Summed(done, borrow, a, b, true)
    {
      ghost var borrow0 := borrow;
      var x: int := borrow + a[i] - b[i];
      Bit15(x);
      if HighBit(x) {
        borrow := -1;
        cval[i] := Low15(x);
      } else {
        borrow := 0;
        cval[i] := x;
      }
      SumDigit(done, borrow0, a, b, true, cval[i], borrow);
      done := done + [cval[i]];
      i := i + 1;
    }
    while i < |a|
      invariant |b| <= i <= |a| && -1 <= borrow <= 0
      invariant cval[..i] == done && Summed(done, borrow, a, b, true)
    {
      ghost var borrow0 := borrow;
      var x: int := borrow + a[i];
      Bit15(x);
      if HighBit(x) {
        cval[i] := Low15(x);
      } else {
        borrow := 0;
        cval[i] := x;
      }
      SumDigit(done, borrow0, a, b, true, cval[i], borrow);
      done := done + [cval[i]];
      i := i + 1;
    }
    assert cval[..] == done;
    c := Finish(cval, borrow, a, b);
  }

  /** The end of m_sub(): turn a borrowed result round and drop the leading zeros. */
  method Finish(cval: array<Digit>, borrow: int, ghost a: seq<Digit>, ghost b: seq<Digit>) returns (c: Mint)
    requires -1 <= borrow <= 0 && cval.Length == |a| >= |b| && Summed(cval[..], borrow, a, b, true)
    modifies cval
    ensures c.Valid() && c.Value() == Val(a) - Val(b)
  {
    var s;
    if borrow < 0 {
      Borrowed(cval[..], a, b);
      ghost var was := cval[..];
      FlipAll(cval);
      ValBound(Flip(was));
      var flipped := cval[..];
      Borrowed(was, a, b);
      assert Val([1]) == 1;
      c := MAdd(flipped, [1]);
      s := c.val;
    } else {
      NoBorrow(cval[..], a, b);
      s := cval[..];
    }
    var n: int := Length(s);
    c := Mint(if borrow == 0 then n else -n, s[..n]);
  }

  method FlipAll(cval: array<Digit>)
    modifies cval
    ensures cval[..] == Flip(old(cval[..]))
  {
    var i := 0;
    while i < cval.Length
      invariant i <= cval.Length && cval[..i] == Flip(old(cval[..]))[..i]
      invariant cval[i..] == old(cval[..])[i..]
    {
      assert cval[i] == cval[i..][0] == old(cval[..])[i];
      cval[i] := 0x7fff - cval[i];
      i := i + 1;
    }
  }

  // ----- signed numbers

  function Negatives(a: Mint, b: Mint): nat {
    (if a.len < 0 then 1 else 0) + if b.len < 0 then 1 else 0
  }

  /** madd() */
  method Add(a: Mint, b: Mint) returns (c: Mint)
    requires a.Valid() && b.Valid()
    ensures c.Valid() && c.Value() == a.Value() + b.Value()
    decreases Negatives(a, b), true
  {
    var z;
    if a.len >= 0 {
      if b.len >= 0 {
        if a.len >= b.len {
          z := MAdd(a.val, b.val);
        } else {
          z := MAdd(b.val, a.val);
        }
      } else {
        z := Sub(a, Mint(-b.len, b.val));
      }
      return z;
    } else if b.len <= 0 {
      z := Add(Mint(-a.len, a.val), Mint(-b.len, b.val));
      return Mint(-z.len, z.val);
    } else {
      z := Sub(b, Mint(-a.len, a.val));
      return z;
    }
  }

  /** What msub() gives: the difference, except that with a negative first operand and a
      second one that is not positive its sign is turned round. */
  function Difference(a: int, b: int): int {
    if a < 0 && b <= 0 then b - a else a - b
  }

  /** msub() */
  method Sub(a: Mint, b: Mint) returns (c: Mint)
    requires a.Valid() && b.Valid()
    ensures c.Valid() && c.Value() == Difference(a.Value(), b.Value())
    decreases Negatives(a, b), b.len > a.len
  {
    SignOfValue(a);
    SignOfValue(b);
    var z;
    if a.len >= 0 {
      if b.len >= 0 {
        if a.len >= b.len {
          z := MSub(a.val, b.val);
          return z;
        } else {
          z := Sub(b, a);
          return Mint(-z.len, z.val);
        }
      } else {
        z := Add(a, Mint(-b.len, b.val));
        return z;
      }
    } else if b.len <= 0 {
      z := Sub(Mint(-b.len, b.val), Mint(-a.len, a.val));
      return Mint(-z.len, z.val);
    } else {
      z := Add(Mint(-a.len, a.val), b);
      return Mint(-z.len, z.val);
    }
  }

  /** msub() gives the difference except when the first operand is negative, the second is
      not positive, and they differ; then it has the wrong sign. */
  lemma SubIsRight(a: int, b: int)
    ensures Difference(a, b) == a - b <==> a >= 0 || b > 0 || a == b
  {
  }

  /** mcmp(): its sign is that of a - b for two numbers that are not both negative, and for
      those of different lengths. */
  method Compare(a: Mint, b: Mint) returns (r: int)
    requires a.Valid() && b.Valid()
    ensures a.len >= 0 || b.len >= 0 || a.len != b.len ==>
              (r > 0 <==> a.Value() > b.Value()) && (r < 0 <==> a.Value() < b.Value())
    ensures a.len == b.len < 0 ==>
              (r > 0 <==> a.Value() < b.Value()) && (r < 0 <==> a.Value() > b.Value())
  {
    SignOfValue(a);
    SignOfValue(b);
    if a.len != b.len {
      if |a.val| < |b.val| {
        LongerIsLarger(a.val, b.val);
      } else if |b.val| < |a.val| {
        LongerIsLarger(b.val, a.val);
      }
      return a.len - b.len;
    }
    var c := Sub(a, b);
    SignOfValue(c);
    return c.len;
  }
}
