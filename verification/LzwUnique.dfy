/** The codes that compress() sends are determined by the input: sent greedily and cleared when due, no other
    codes stand for it. */
module LzwUnique {
  import opened Bits
  import opened LzwSpec
  import opened LzwGreedy

  /** No two zeros stand side by side, so that no string can be missed. */
  predicate NoTwoZeros(s: seq<byte>) {
    forall i | 0 <= i < |s| - 1 :: s[i] != 0 || s[i + 1] != 0
  }

  /** These codes are a way to send the input. */
  ghost predicate Sends(pr: Params, codes: seq<nat>, input: seq<byte>) {
    && ValidCodes(pr, codes) && Run(pr, codes).out == input && !Run(pr, codes).cleared
    && Greedy(pr, codes, input) && ClearsWhenDue(pr, codes)
  }

  // ----- one code more

  lemma {:induction false} OutGrows(pr: Params, codes: seq<nat>, n: nat)
    requires n <= |codes|
    ensures Run(pr, codes[..n]).out <= Run(pr, codes).out
    decreases |codes|
  {
    hide StringOf;
    if n < |codes| {
      var m := |codes| - 1;
      OutGrows(pr, codes[..m], n);
      assert codes[..m][..n] == codes[..n];
    } else {
      assert codes[..n] == codes;
    }
  }

  /** A code for a string: what is sent is the string, and the table has it in the place of the code. */
  lemma StringSent(pr: Params, codes: seq<nat>, code: nat)
    requires pr.Valid() && ValidCodes(pr, codes) && CanFollow(pr, Run(pr, codes), code)
    ensures var d, e := Run(pr, codes), Run(pr, codes + [code]);
            && (e.cleared <==> pr.block && code == CLEAR && d.prev != [])
            && (!e.cleared ==> e.prev != [] && e.out == d.out + e.prev && code < |e.strings| && e.strings[code] == e.prev)
            && (!e.cleared ==> e.strings == if d.prev == [] then Base(pr)
                else if |d.strings| < pr.MaxMaxCode() then d.strings + [d.prev + [e.prev[0]]] else d.strings)
            && (e.cleared ==> e.out == d.out && e.prev == [])
  {
    Snoc(pr, codes, code);
    RunKeepsTable(pr, codes);
    var d := Run(pr, codes);
    if d.prev == [] {
      assert Base(pr)[code] == [code];
    }
  }

  // ----- what the tables are like

  /** With a string its beginnings are in the table. */
  ghost predicate BeginningsToo(strings: seq<seq<byte>>) {
    forall k | 0 <= k < |strings| && |strings[k]| > 1 :: strings[k][..|strings[k]| - 1] in strings
  }

  ghost predicate Distinct(strings: seq<seq<byte>>) {
    forall j, k | 0 <= j < k < |strings| :: strings[j] != strings[k]
  }

  lemma {:induction false} BeginningIn(strings: seq<seq<byte>>, k: nat, s: seq<byte>)
    requires BeginningsToo(strings) && k < |strings| && s != [] && s <= strings[k]
    ensures s in strings
    decreases |strings[k]|
  {
    var t := strings[k];
    if s == t {
    } else {
      assert s <= t[..|t| - 1];
      var j: nat :| j < |strings| && strings[j] == t[..|t| - 1];
      BeginningIn(strings, j, s);
    }
  }

  lemma BaseIsGood(pr: Params)
    ensures BeginningsToo(Base(pr)) && Distinct(Base(pr))
  {
    forall j, k | 0 <= j < k < |Base(pr)|
      ensures Base(pr)[j] != Base(pr)[k] && |Base(pr)[j]| <= 1 && |Base(pr)[k]| <= 1
    {
      assert j < 256 ==> Base(pr)[j] == [j];
      assert k < 256 ==> Base(pr)[k] == [k];
    }
    assert forall k | 0 <= k < 256 :: Base(pr)[k] == [k];
  }

  lemma OneMoreIsGood(strings: seq<seq<byte>>, prev: seq<byte>, c: byte)
    requires BeginningsToo(strings) && Distinct(strings) && prev in strings && prev + [c] !in strings
    ensures BeginningsToo(strings + [prev + [c]]) && Distinct(strings + [prev + [c]])
  {
    var s := prev + [c];
    assert s[..|s| - 1] == prev;
    forall k | 0 <= k < |strings| && |strings[k]| > 1
      ensures strings[k][..|strings[k]| - 1] in strings + [s]
    {
      assert strings[k][..|strings[k]| - 1] in strings;
    }
  }

  /** The part of the input from n on begins with t. */
  predicate BeginsAt(input: seq<byte>, n: nat, t: seq<byte>) {
    n + |t| <= |input| && input[n..n + |t|] == t
  }

  lemma StandsThere(input: seq<byte>, n: nat, s: seq<byte>)
    requires BeginsAt(input, n, s)
    ensures forall k | 0 <= k < |s| :: input[n + k] == s[k]
  {
    forall k | 0 <= k < |s|
      ensures input[n + k] == s[k]
    {
      assert input[n..n + |s|][k] == s[k];
    }
  }

  lemma NotMissable(input: seq<byte>, n: nat, s: seq<byte>, strings: seq<seq<byte>>)
    requires NoTwoZeros(input) && BeginsAt(input, n, s)
    ensures !Missable(strings, s)
  {
    StandsThere(input, n, s);
    assert |s| >= 2 ==> input[n + 0] == s[0] && input[n + 1] == s[1];
  }

  /** What the codes up to n have sent, and where the string of the last one stands in the input. */
  lemma SentSoFar(pr: Params, codes: seq<nat>, input: seq<byte>, n: nat)
    requires pr.Valid() && Sends(pr, codes, input) && n < |codes|
    ensures ValidCodes(pr, codes[..n]) && CanFollow(pr, Run(pr, codes[..n]), codes[n])
    ensures codes[..n + 1] == codes[..n] + [codes[n]] && ValidCodes(pr, codes[..n + 1])
    ensures var d, e := Run(pr, codes[..n]), Run(pr, codes[..n + 1]);
            !e.cleared ==> BeginsAt(input, |d.out|, e.prev) && e.prev[0] == input[|d.out|]
  {
    hide StringOf, Base, Literals, Step, Greedy, ClearsWhenDue, CanFollow;
    ValidPrefix(pr, codes, n + 1);
    assert codes[..n + 1] == codes[..n] + [codes[n]];
    Snoc(pr, codes[..n], codes[n]);
    StringSent(pr, codes[..n], codes[n]);
    OutGrows(pr, codes, n + 1);
    var d, e := Run(pr, codes[..n]), Run(pr, codes[..n + 1]);
    assert codes[..|codes|] == codes;
    if !e.cleared {
      BehindIt(input, d.out, e.prev);
    }
  }

  lemma BehindIt(input: seq<byte>, x: seq<byte>, y: seq<byte>)
    requires x + y <= input && y != []
    ensures BeginsAt(input, |x|, y) && y[0] == input[|x|]
  {
    assert input[..|x + y|] == x + y;
    assert input[|x|..|x| + |y|] == input[..|x + y|][|x|..] == y;
    StandsThere(input, |x|, y);
    assert input[|x| + 0] == y[0];
  }

  /** What the next entry of the table is was not there. */
  lemma NewEntry(pr: Params, codes: seq<nat>, input: seq<byte>, n: nat)
    requires pr.Valid() && Sends(pr, codes, input) && NoTwoZeros(input) && n < |codes|
    requires Run(pr, codes[..n]).prev != [] && !Run(pr, codes[..n + 1]).cleared && Run(pr, codes[..n + 1]).prev != []
    ensures Run(pr, codes[..n]).prev + [Run(pr, codes[..n + 1]).prev[0]] !in Run(pr, codes[..n]).strings
  {
    hide StringOf, Base, Literals, Step;
    assert n > 0 by { assert codes[..0] == []; }
    ValidPrefix(pr, codes, n);
    RunKeepsTable(pr, codes[..n]);
    LongestIsNew(pr, codes, input, n - 1);
    SentSoFar(pr, codes, input, n);
  }

  /** The string of code n with the next character of the input is not in the table. */
  lemma LongestIsNew(pr: Params, codes: seq<nat>, input: seq<byte>, n: nat)
    requires pr.Valid() && Sends(pr, codes, input) && NoTwoZeros(input) && n < |codes| && !Run(pr, codes[..n + 1]).cleared
    ensures var d, e := Run(pr, codes[..n]), Run(pr, codes[..n + 1]);
            e.prev != [] && (|e.out| < |input| ==>
              BeginsAt(input, |d.out|, e.prev + [input[|e.out|]]) && e.prev + [input[|e.out|]] !in e.strings)
  {
    hide StringOf, Base, Literals, Step;
    SentSoFar(pr, codes, input, n);
    StringSent(pr, codes[..n], codes[n]);
    var d, e := Run(pr, codes[..n]), Run(pr, codes[..n + 1]);
    if |e.out| < |input| {
      var s := e.prev + [input[|e.out|]];
      assert input[|d.out|..|d.out| + |s|] == input[|d.out|..|e.out|] + [input[|e.out|]];
      assert LongestSent(pr, codes[..n + 1], input);
      NotMissable(input, |d.out|, s, e.strings);
    }
  }

  /** No string is entered twice. */
  lemma {:induction false} TablesAreGood(pr: Params, codes: seq<nat>, input: seq<byte>, n: nat)
    requires pr.Valid() && Sends(pr, codes, input) && NoTwoZeros(input) && n <= |codes|
    ensures BeginningsToo(Run(pr, codes[..n]).strings) && Distinct(Run(pr, codes[..n]).strings)
    decreases n
  {
    hide StringOf, Base, Literals;
    BaseIsGood(pr);
    if n == 0 {
      assert codes[..0] == [];
    } else {
      TablesAreGood(pr, codes, input, n - 1);
      SentSoFar(pr, codes, input, n - 1);
      StringSent(pr, codes[..n - 1], codes[n - 1]);
      RunKeepsTable(pr, codes[..n - 1]);
      var d, e := Run(pr, codes[..n - 1]), Run(pr, codes[..n]);
      if e.cleared {
        LiteralsAreGood();
      } else if d.prev != [] && |d.strings| < pr.MaxMaxCode() {
        NewEntry(pr, codes, input, n - 1);
        OneMoreIsGood(d.strings, d.prev, e.prev[0]);
      }
    }
  }

  lemma LiteralsAreGood()
    ensures BeginningsToo(Literals()) && Distinct(Literals())
  {
    forall j, k | 0 <= j < k < 256
      ensures Literals()[j] != Literals()[k]
    {
      assert Literals()[j] == [j] && Literals()[k] == [k];
    }
    assert forall k | 0 <= k < 256 :: Literals()[k] == [k];
  }

  // ----- two ways to send an input are the same

  /** Where both send a string they make the same entry. */
  lemma SameTable(pr: Params, c: seq<nat>, d: seq<nat>, input: seq<byte>, n: nat)
    requires pr.Valid() && Sends(pr, c, input) && Sends(pr, d, input) && n < |c| && n < |d| && c[..n] == d[..n]
    requires !Run(pr, c[..n + 1]).cleared && !Run(pr, d[..n + 1]).cleared
    ensures var b, x, y := Run(pr, c[..n]), Run(pr, c[..n + 1]), Run(pr, d[..n + 1]);
            && x.strings == y.strings && c[n] < |x.strings| && x.strings[c[n]] == x.prev
            && d[n] < |y.strings| && y.strings[d[n]] == y.prev
            && x.out == b.out + x.prev && BeginsAt(input, |b.out|, x.prev) && BeginsAt(input, |b.out|, y.prev)
  {
    hide StringOf, Base, Literals, Step, Greedy, ClearsWhenDue, CanFollow, Run, ValidCodes, Sends, BeginsAt;
    SentSoFar(pr, c, input, n);
    SentSoFar(pr, d, input, n);
    StringSent(pr, c[..n], c[n]);
    StringSent(pr, d[..n], d[n]);
  }

  /** Where both send a string, that of the first is not shorter. */
  lemma NotShorter(pr: Params, c: seq<nat>, d: seq<nat>, input: seq<byte>, n: nat)
    requires pr.Valid() && Sends(pr, c, input) && Sends(pr, d, input) && NoTwoZeros(input)
    requires n < |c| && n < |d| && c[..n] == d[..n]
    requires !Run(pr, c[..n + 1]).cleared && !Run(pr, d[..n + 1]).cleared
    ensures |Run(pr, c[..n + 1]).prev| >= |Run(pr, d[..n + 1]).prev|
  {
    hide Run, Sends, NoTwoZeros, Distinct, BeginsAt, BeginningsToo;
    SameTable(pr, c, d, input, n);
    if |Run(pr, c[..n + 1]).prev| < |Run(pr, d[..n + 1]).prev| {
      TablesAreGood(pr, d, input, n + 1);
      LongerBegins(input, |Run(pr, c[..n]).out|, Run(pr, c[..n + 1]).prev, Run(pr, d[..n + 1]).prev, Run(pr, d[..n + 1]).strings, d[n]);
      LongestIsNew(pr, c, input, n);
    }
  }

  lemma LongerBegins(input: seq<byte>, n: nat, s: seq<byte>, t: seq<byte>, strings: seq<seq<byte>>, k: nat)
    requires BeginsAt(input, n, s) && BeginsAt(input, n, t) && |s| < |t| && k < |strings| && strings[k] == t
    requires BeginningsToo(strings)
    ensures n + |s| < |input| && s + [input[n + |s|]] in strings
  {
    hide BeginningsToo;
    StandsThere(input, n, s);
    StandsThere(input, n, t);
    var u := s + [input[n + |s|]];
    assert forall j | 0 <= j < |s| :: s[j] == input[n + j] == t[j];
    assert u == t[..|u|];
    BeginningIn(strings, k, u);
  }

  lemma SameNext(pr: Params, c: seq<nat>, d: seq<nat>, input: seq<byte>, n: nat)
    requires pr.Valid() && Sends(pr, c, input) && Sends(pr, d, input) && NoTwoZeros(input)
    requires n < |c| && n < |d| && c[..n] == d[..n]
    ensures c[n] == d[n]
  {
    hide StringOf, Base, Literals, Step, Greedy, ClearDue, BeginningsToo;
    var x, y := Run(pr, c[..n + 1]), Run(pr, d[..n + 1]);
    assert x.cleared <==> y.cleared;
    if x.cleared {
      SentSoFar(pr, c, input, n);
      SentSoFar(pr, d, input, n);
      StringSent(pr, c[..n], c[n]);
      StringSent(pr, d[..n], d[n]);
    } else {
      SameTable(pr, c, d, input, n);
      NotShorter(pr, c, d, input, n);
      NotShorter(pr, d, c, input, n);
      assert x.prev == y.prev;
      TablesAreGood(pr, c, input, n + 1);
      assert x.strings[c[n]] == x.strings[d[n]];
    }
  }

  /** Nothing can be sent when the input has been sent. */
  lemma SameEnd(pr: Params, c: seq<nat>, d: seq<nat>, input: seq<byte>)
    requires pr.Valid() && Sends(pr, c, input) && Sends(pr, d, input) && |d| <= |c| && c[..|d|] == d
    ensures c == d
  {
    hide StringOf, Base, Literals, Step, Greedy, ClearDue;
    var n := |d|;
    assert c[..|c|] == c;
    if n < |c| {
      SentSoFar(pr, c, input, n);
      StringSent(pr, d, c[n]);
      if Run(pr, c[..n + 1]).cleared {
        assert n + 1 < |c|;
        SentSoFar(pr, c, input, n + 1);
        StringSent(pr, c[..n + 1], c[n + 1]);
      }
    }
  }

  /** Two ways to send an input are the same. */
  lemma CodesAreDetermined(pr: Params, c: seq<nat>, d: seq<nat>, input: seq<byte>)
    requires pr.Valid() && Sends(pr, c, input) && Sends(pr, d, input) && NoTwoZeros(input)
    ensures c == d
  {
    hide Sends;
    var n := 0;
    while n < |c| && n < |d|
      invariant n <= |c| && n <= |d| && c[..n] == d[..n]
    {
      SameNext(pr, c, d, input, n);
      assert c[..n + 1] == c[..n] + [c[n]] && d[..n + 1] == d[..n] + [d[n]];
      n := n + 1;
    }
    if n == |d| {
      assert d[..n] == d;
      SameEnd(pr, c, d, input);
    } else {
      assert c[..n] == c;
      SameEnd(pr, d, c, input);
    }
  }
}
