/**
 The numbers of libmp: sequences of base-32768 digits, lowest first, with a signed length.
 */
module MpBase {
  import opened Arith

  const B: nat := 32768

  type Digit = d: int | 0 <= d < 32768

  function Val(s: seq<Digit>): (v: nat) {
    if s == [] then 0 else s[0] + B * Val(s[1..])
  }

  function BPow(k: nat): (p: nat)
    ensures p > 0
  {
    if k == 0 then 1 else B * BPow(k - 1)
  }

  lemma {:induction false} BPowAdd(j: nat, k: nat)
    ensures BPow(j + k) == BPow(j) * BPow(k)
  {
    if j > 0 {
      BPowAdd(j - 1, k);
      assert BPow(j) * BPow(k) == B * (BPow(j - 1) * BPow(k));
    }
  }

  lemma {:induction false} ValAppend(s: seq<Digit>, t: seq<Digit>)
    ensures Val(s + t) == Val(s) + BPow(|s|) * Val(t)
  {
    if s == [] {
      assert s + t == t;
    } else {
      assert (s + t)[1..] == s[1..] + t;
      ValAppend(s[1..], t);
      assert BPow(|s|) * Val(t) == B * (BPow(|s| - 1) * Val(t));
    }
  }

  lemma {:induction false} ValBound(s: seq<Digit>)
    ensures Val(s) < BPow(|s|)
  {
    if s != [] {
      ValBound(s[1..]);
    }
  }

  lemma ValSnoc(s: seq<Digit>, d: Digit)
    ensures Val(s + [d]) == Val(s) + BPow(|s|) * d
  {
    ValAppend(s, [d]);
    assert Val([d]) == d;
  }

  /** The digits from position k on, and below it. */
  lemma ValSplit(s: seq<Digit>, k: nat)
    requires k <= |s|
    ensures Val(s) == Val(s[..k]) + BPow(k) * Val(s[k..])
  {
    assert s == s[..k] + s[k..];
    ValAppend(s[..k], s[k..]);
  }

  lemma ValSplitLast(s: seq<Digit>)
    requires s != []
    ensures Val(s) == Val(s[..|s| - 1]) + BPow(|s| - 1) * s[|s| - 1]
  {
    assert s == s[..|s| - 1] + [s[|s| - 1]];
    ValSnoc(s[..|s| - 1], s[|s| - 1]);
  }

  lemma {:induction false} ValZeros(s: seq<Digit>)
    ensures Val(s) == 0 <==> forall i | 0 <= i < |s| :: s[i] == 0
  {
    if s != [] {
      ValZeros(s[1..]);
      if Val(s) == 0 {
        forall i | 0 <= i < |s|
          ensures s[i] == 0
        {
          assert i > 0 ==> s[i] == s[1..][i - 1];
        }
      }
    }
  }

  // ----- MINT

  /** len is the number of digits, negative for a negative number. */
  datatype Mint = Mint(len: int, val: seq<Digit>) {
    predicate Valid() {
      |val| == (if len < 0 then -len else len) && (val != [] ==> val[|val| - 1] != 0)
    }

    function Value(): int {
      if len < 0 then 0 - Val(val) else Val(val)
    }
  }

  /** The lengths are ints of 16 bits. */
  predicate Fits(m: Mint) {
    m.Valid() && |m.val| < 32767
  }

  lemma TopDigit(s: seq<Digit>)
    requires s != [] && s[|s| - 1] != 0
    ensures Val(s) >= BPow(|s| - 1)
  {
    ValSplitLast(s);
    MulMono(1, s[|s| - 1], BPow(|s| - 1));
  }

  lemma {:induction false} BPowMono(j: nat, k: nat)
    requires j <= k
    ensures BPow(j) <= BPow(k)
    decreases k
  {
    if j < k {
      BPowMono(j, k - 1);
    }
  }

  /** Without leading zeros, the longer number is the larger. */
  lemma LongerIsLarger(s: seq<Digit>, t: seq<Digit>)
    requires |s| < |t| && t[|t| - 1] != 0
    ensures Val(s) < Val(t)
  {
    ValBound(s);
    BPowMono(|s|, |t| - 1);
    TopDigit(t);
  }

  lemma SignOfValue(m: Mint)
    requires m.Valid()
    ensures m.len > 0 <==> m.Value() > 0
    ensures m.len < 0 <==> m.Value() < 0
    ensures m.len == 0 <==> m.Value() == 0
  {
    if m.val != [] {
      TopDigit(m.val);
    }
  }

  lemma {:induction false} DigitsUnique(s: seq<Digit>, t: seq<Digit>)
    requires |s| == |t| && Val(s) == Val(t)
    ensures s == t
  {
    if s != [] {
      assert s[0] == t[0] && Val(s[1..]) == Val(t[1..]);
      DigitsUnique(s[1..], t[1..]);
      assert s == [s[0]] + s[1..] && t == [t[0]] + t[1..];
    }
  }

  /** A number has one representation. */
  lemma MintUnique(m: Mint, n: Mint)
    requires m.Valid() && n.Valid() && m.Value() == n.Value()
    ensures m == n
  {
    SignOfValue(m);
    SignOfValue(n);
    if |m.val| < |n.val| {
      LongerIsLarger(m.val, n.val);
    } else if |n.val| < |m.val| {
      LongerIsLarger(n.val, m.val);
    }
    DigitsUnique(m.val, n.val);
  }
}
