/** What compress() sends: the longest string that its table has, and CLEAR when the ratio falls. */
module LzwGreedy {
  import opened Bits
  import opened LzwBits
  import opened LzwSpec
  import opened LzwHash

  const CHECK_GAP := 10000

  // ----- the longest string

  ghost predicate TwoZeros(strings: seq<seq<byte>>) {
    exists j, k :: 0 <= j < k < |strings| && strings[j] == [0, 0] && strings[k] == [0, 0]
  }

  /** A string that may be in the table and yet not be found: two zeros, whose key is 0, and what was
      built upon them when they are in the table twice. */
  ghost predicate Missable(strings: seq<seq<byte>>, s: seq<byte>) {
    s == [0, 0] || ([0, 0] <= s && TwoZeros(strings))
  }

  /** The last code of the sequence stands for the longest string there is: with the next character
      of the input it would not be in the table. */
  ghost predicate LongestSent(pr: Params, codes: seq<nat>, input: seq<byte>) {
    var d := Run(pr, codes);
    d.prev != [] && |d.out| < |input| ==>
      var s := d.prev + [input[|d.out|]];
      s !in d.strings || Missable(d.strings, s)
  }

  ghost predicate Greedy(pr: Params, codes: seq<nat>, input: seq<byte>) {
    forall n | 1 <= n <= |codes| :: LongestSent(pr, codes[..n], input)
  }

  lemma GreedyMore(pr: Params, codes: seq<nat>, code: nat, input: seq<byte>)
    requires Greedy(pr, codes, input) && LongestSent(pr, codes + [code], input)
    ensures Greedy(pr, codes + [code], input)
  {
    var more := codes + [code];
    forall n | 1 <= n <= |more|
      ensures LongestSent(pr, more[..n], input)
    {
      if n <= |codes| {
        assert more[..n] == codes[..n];
      } else {
        assert more[..n] == more;
      }
    }
  }

  // ----- what the hash table knows

  /** Entry k is string p with the character c, and its key is in the hash table. */
  ghost predicate EnteredAs(pr: Params, strings: seq<seq<byte>>, h: seq<int>, k: nat, p: nat, c: nat) {
    && p < k < |strings| && c < 256 && strings[p] != [] && strings[k] == strings[p] + [c]
    && ((p == 0 && c == 0) || Fcode(pr.MaxMaxCode(), c, p) in h)
  }

  ghost predicate Entered(pr: Params, strings: seq<seq<byte>>, h: seq<int>, k: nat) {
    exists p: nat, c: nat :: EnteredAs(pr, strings, h, k, p, c)
  }

  /** Each entry that was made is found, but for that of two zeros; and no other string is entered
      again. */
  ghost predicate Knows(pr: Params, strings: seq<seq<byte>>, h: seq<int>) {
    && Base(pr) <= strings
    && (forall k: nat | pr.First() <= k < |strings| :: Entered(pr, strings, h, k))
    && (forall j, k | 0 <= j < k < |strings| && strings[j] == strings[k] :: [0, 0] <= strings[j] && TwoZeros(strings))
  }

  lemma KnowsBase(pr: Params, h: seq<int>)
    ensures Knows(pr, Base(pr), h)
  {
    assert |Base(pr)| == pr.First();
    forall j, k | 0 <= j < k < |Base(pr)|
      ensures Base(pr)[j] != Base(pr)[k]
    {
      assert j < 256 ==> Base(pr)[j] == [j];
      assert k < 256 ==> Base(pr)[k] == [k];
    }
  }

  /** A key not in the hash table means a string not in the table. */
  lemma MissMeansNew(pr: Params, strings: seq<seq<byte>>, h: seq<int>, ent: nat, c: byte)
    requires Knows(pr, strings, h) && ent < |strings| && strings[ent] != [] && Fcode(pr.MaxMaxCode(), c, ent) !in h
    ensures strings[ent] + [c] !in strings || Missable(strings, strings[ent] + [c])
  {
    var s := strings[ent] + [c];
    if s in strings {
      var k: nat :| k < |strings| && strings[k] == s;
      if k >= pr.First() {
        assert Entered(pr, strings, h, k);
        var p: nat, d: nat :| EnteredAs(pr, strings, h, k, p, d);
        assert s[|s| - 1] == c && s[..|s| - 1] == strings[ent];
        assert strings[k][|s| - 1] == d && strings[k][..|s| - 1] == strings[p];
        if p == ent {
          assert strings[0] == Base(pr)[0] == [0];
        } else {
          assert [0, 0] <= strings[ent] <= s;
        }
      }
    }
  }

  /** The string is entered, and its key with it. */
  lemma KnowsMore(pr: Params, strings: seq<seq<byte>>, h: seq<int>, h': seq<int>, ent: nat, c: byte)
    requires Knows(pr, strings, h) && ent < |strings| && strings[ent] != [] && Fcode(pr.MaxMaxCode(), c, ent) !in h
    requires pr.First() <= |strings| && pr.MaxMaxCode() > 0
    requires Fcode(pr.MaxMaxCode(), c, ent) in h' && forall g | g in h && g > 0 :: g in h'
    ensures Knows(pr, strings + [strings[ent] + [c]], h')
  {
    var s, n := strings[ent] + [c], |strings|;
    var strings' := strings + [s];
    MissMeansNew(pr, strings, h, ent, c);
    forall k: nat | pr.First() <= k < |strings'|
      ensures Entered(pr, strings', h', k)
    {
      if k < n {
        assert Entered(pr, strings, h, k);
        var p: nat, d: nat :| EnteredAs(pr, strings, h, k, p, d);
        KeyZero(pr.MaxMaxCode(), d, p);
        assert EnteredAs(pr, strings', h', k, p, d);
      } else {
        assert EnteredAs(pr, strings', h', k, ent, c);
      }
    }
    if TwoZeros(strings) {
      var j, k :| 0 <= j < k < |strings| && strings[j] == [0, 0] && strings[k] == [0, 0];
      assert strings'[j] == [0, 0] && strings'[k] == [0, 0];
    }
    forall j, k | 0 <= j < k < |strings'| && strings'[j] == strings'[k]
      ensures [0, 0] <= strings'[j] && TwoZeros(strings')
    {
      if k == n {
        assert strings[j] == s;
        assert s == [0, 0] ==> strings'[j] == [0, 0] && strings'[n] == [0, 0];
      }
    }
  }

  lemma KeyZero(mm: nat, c: nat, p: nat)
    requires mm > 0
    ensures Fcode(mm, c, p) > 0 || (c == 0 && p == 0)
  {
    if c > 0 {
      assert c * mm >= mm;
    }
  }

  // ----- when the table is cleared

  /** The checkpoint and the ratio of compress(). */
  datatype Watch = Watch(checkpoint: int, ratio: int)

  /** The compression ratio with eight fractional bits. */
  function Ratio(inCount: nat, bytesOut: nat): int
    requires bytesOut > 0
  {
    if inCount > 0x007fffff then
      var rat := bytesOut / 256;
      if rat == 0 then 0x7fffffff else inCount / rat
    else
      inCount * 256 / bytesOut
  }

  /** The characters taken up when the character behind the codes has been read. */
  function TakenUp(pr: Params, codes: seq<nat>): nat {
    |Run(pr, codes).out| + 1
  }

  function RatioAfter(pr: Params, codes: seq<nat>): int {
    Ratio(TakenUp(pr, codes), 3 + LayoutAfter(pr, codes).start)
  }

  /** After these codes cl_block() looks at the ratio. */
  predicate Looks(pr: Params, codes: seq<nat>, w: Watch) {
    && pr.block && Run(pr, codes).prev != [] && |Run(pr, codes).strings| == pr.MaxMaxCode()
    && TakenUp(pr, codes) >= w.checkpoint
  }

  function WatchAfter(pr: Params, codes: seq<nat>): Watch {
    if codes == [] then Watch(10000, 0)
    else
      var w := WatchAfter(pr, codes[..|codes| - 1]);
      if Looks(pr, codes, w) then
        Watch(TakenUp(pr, codes) + 10000, if RatioAfter(pr, codes) > w.ratio then RatioAfter(pr, codes) else 0)
      else w
  }

  /** The ratio has not grown since cl_block() looked last, or since the table was cleared. */
  predicate ClearDue(pr: Params, codes: seq<nat>) {
    codes != [] &&
    var w := WatchAfter(pr, codes[..|codes| - 1]);
    Looks(pr, codes, w) && RatioAfter(pr, codes) <= w.ratio
  }

  /** A code is CLEAR exactly when this is due. */
  predicate ClearsWhenDue(pr: Params, codes: seq<nat>) {
    forall i | 0 <= i < |codes| :: Run(pr, codes[..i + 1]).cleared <==> ClearDue(pr, codes[..i])
  }

  lemma ClearsMore(pr: Params, codes: seq<nat>, code: nat)
    requires ClearsWhenDue(pr, codes) && (Run(pr, codes + [code]).cleared <==> ClearDue(pr, codes))
    ensures ClearsWhenDue(pr, codes + [code])
  {
    var more := codes + [code];
    forall i | 0 <= i < |more|
      ensures Run(pr, more[..i + 1]).cleared <==> ClearDue(pr, more[..i])
    {
      assert more[..i] == codes[..i];
      if i < |codes| {
        assert more[..i + 1] == codes[..i + 1];
      } else {
        assert more[..i + 1] == more && codes[..i] == codes;
      }
    }
  }

  lemma WatchMore(pr: Params, codes: seq<nat>, code: nat)
    ensures WatchAfter(pr, codes + [code]) ==
            var w, more := WatchAfter(pr, codes), codes + [code];
            if Looks(pr, more, w) then
              Watch(TakenUp(pr, more) + CHECK_GAP, if RatioAfter(pr, more) > w.ratio then RatioAfter(pr, more) else 0)
            else w
    ensures ClearDue(pr, codes + [code]) <==>
            Looks(pr, codes + [code], WatchAfter(pr, codes)) && RatioAfter(pr, codes + [code]) <= WatchAfter(pr, codes).ratio
  {
    assert (codes + [code])[..|codes|] == codes;
  }
}
