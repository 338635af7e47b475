/**
 What a sequence of LZW codes means, and where in the byte stream each code lies.

 `Run` replays a code sequence against a table of strings, exactly as far as the decoder's
 table has grown; `Layout` follows the code width through table growth and table clears and
 says which bits of the stream hold the next code.  The encoder and the decoder of
 compress.c are both proved against these two functions.
 */
module LzwSpec {
  import opened Bits
  import opened LzwBits

  const CLEAR := 256
  const INIT_BITS := 9

  /** The -b limit and the block-compression flag of one file. */
  datatype Params = Params(maxbits: nat, block: bool) {
    predicate Valid() { 9 <= maxbits <= 16 }

    function MaxMaxCode(): nat { Pow2(maxbits) }

    /** The first code that stands for a string of the table. */
    function First(): nat { if block then 257 else 256 }
  }

  /** strings[c] is the string of code c; prev is the string of the previous code of this
      block, empty when a block has just begun. */
  datatype Decoded = Decoded(strings: seq<seq<byte>>, prev: seq<byte>, cleared: bool, out: seq<byte>)

  function Literals(): (s: seq<seq<byte>>)
    ensures |s| == 256 && forall c: byte :: s[c] == [c]
  {
    seq(256, i requires 0 <= i < 256 => [i])
  }

  function Base(pr: Params): seq<seq<byte>> {
    if pr.block then Literals() + [[]] else Literals()
  }

  function Start(pr: Params): Decoded {
    Decoded(Base(pr), [], false, [])
  }

  /** The string that a code stands for; a code the table does not hold yet stands for the
      previous string followed by its own first character. */
  function StringOf(d: Decoded, code: nat): (s: seq<byte>)
    requires d.prev != []
    ensures s != []
  {
    if code < |d.strings| && d.strings[code] != [] then d.strings[code] else d.prev + [d.prev[0]]
  }

  function Step(pr: Params, d: Decoded, code: nat): Decoded {
    if pr.block && code == CLEAR && d.prev != [] then
      Decoded(Literals(), [], true, d.out)
    else if d.prev == [] then
      var s := [if code < 256 then code else 0];
      Decoded(Base(pr), s, false, d.out + s)
    else
      var s := StringOf(d, code);
      var grown := if |d.strings| < pr.MaxMaxCode() then d.strings + [d.prev + [s[0]]] else d.strings;
      Decoded(grown, s, false, d.out + s)
  }

  function Run(pr: Params, codes: seq<nat>): Decoded {
    if codes == [] then Start(pr) else Step(pr, Run(pr, codes[..|codes| - 1]), codes[|codes| - 1])
  }

  /** The codes an encoder may send next. */
  predicate CanFollow(pr: Params, d: Decoded, code: nat) {
    if d.prev == [] then
      code < 256
    else
      || (code < |d.strings| && ((pr.block && code == CLEAR) || d.strings[code] != []))
      || (code == |d.strings| < pr.MaxMaxCode())
  }

  predicate ValidCodes(pr: Params, codes: seq<nat>) {
    codes == [] ||
    (ValidCodes(pr, codes[..|codes| - 1]) && CanFollow(pr, Run(pr, codes[..|codes| - 1]), codes[|codes| - 1]))
  }

  /** k codes of n bits each. */
  function Times(k: nat, n: nat): nat {
    if k == 0 then 0 else n + Times(k - 1, n)
  }

  lemma {:induction false} GroupOfEight(k: nat, n: nat)
    requires k <= 8 && n > 0
    ensures Times(k, n) <= k * n <= 8 * n
    ensures Times(k, n) == 8 * n <==> k == 8
  {
    TimesIsProduct(k, n);
    if k < 8 {
      assert k * n + n <= 8 * n;
    }
  }

  lemma {:induction false} TimesIsProduct(k: nat, n: nat)
    ensures Times(k, n) == k * n
  {
    if k > 0 {
      TimesIsProduct(k - 1, n);
      assert k * n == (k - 1) * n + n;
    }
  }

  /** start: byte where the current group of up to eight codes begins; index: codes of the
      group already passed; nbits and maxcode as in the program. */
  datatype Layout = Layout(start: nat, index: nat, nbits: nat, maxcode: nat) {
    function Filled(): nat { Times(index, nbits) }
    function Offset(): nat { 8 * start + Filled() }

    /** The next place at the same width. */
    function Next(): Layout {
      if index == 7 then Layout(start + nbits, 0, nbits, maxcode) else this.(index := index + 1)
    }
  }

  function Advance(pr: Params, l: Layout, free: nat, cleared: bool): Layout {
    if cleared then
      Layout(l.start + l.nbits, 0, INIT_BITS, Pow2(INIT_BITS) - 1)
    else if free > l.maxcode then
      var n := l.nbits + 1;
      Layout(l.start + l.nbits, 0, n, if n == pr.maxbits then pr.MaxMaxCode() else Pow2(n) - 1)
    else
      l.Next()
  }

  /** Where the code after `codes` lies. */
  function LayoutAfter(pr: Params, codes: seq<nat>): Layout {
    if codes == [] then
      Layout(0, 0, INIT_BITS, Pow2(INIT_BITS) - 1)
    else
      var d := Run(pr, codes);
      Advance(pr, LayoutAfter(pr, codes[..|codes| - 1]), |d.strings|, d.cleared)
  }

  /** Code i of the sequence is in its place in z. */
  predicate InPlace(pr: Params, codes: seq<nat>, z: seq<byte>, i: nat)
    requires i < |codes|
  {
    var l := LayoutAfter(pr, codes[..i]);
    FieldAt(z, l.Offset(), l.nbits, codes[i])
  }

  predicate AllInPlace(pr: Params, codes: seq<nat>, z: seq<byte>) {
    forall i | 0 <= i < |codes| :: InPlace(pr, codes, z, i)
  }

  /** z is the byte stream of the code sequence: every code in its place, and only the last
      group cut to the bytes it needs. */
  predicate Packs(pr: Params, codes: seq<nat>, z: seq<byte>) {
    var l := LayoutAfter(pr, codes);
    && ValidCodes(pr, codes)
    && AllInPlace(pr, codes, z)
    && |z| == l.start + (l.Filled() + 7) / 8
  }

  // ----- what every reachable state keeps

  /** Table strings are no longer than the table, and only the unused entry is empty. */
  predicate TableOk(pr: Params, d: Decoded) {
    && 256 <= |d.strings| <= pr.MaxMaxCode()
    && d.strings[..256] == Literals()
    && (forall c | 0 <= c < |d.strings| :: |d.strings[c]| <= c + 1)
    && (forall c | 0 <= c < |d.strings| :: d.strings[c] == [] ==> pr.block && c == CLEAR)
    && (pr.block && 256 < |d.strings| ==> d.strings[256] == [])
    && |d.prev| <= |d.strings|
    && (d.prev != [] ==> !d.cleared && |d.strings| >= pr.First() && d.prev in d.strings)
    && (d.prev == [] ==> d.strings == if d.cleared then Literals() else Base(pr))
    && (d.cleared ==> d.prev == [])
  }

  lemma StepKeepsTable(pr: Params, d: Decoded, code: nat)
    requires pr.Valid() && TableOk(pr, d) && CanFollow(pr, d, code)
    ensures TableOk(pr, Step(pr, d, code))
  {
    Pow2Values();
    Pow2Mono(9, pr.maxbits);
    var e := Step(pr, d, code);
    if d.prev == [] {
      assert Base(pr)[code] == [code];
    } else if !(pr.block && code == CLEAR) {
      var s := StringOf(d, code);
      if code < |d.strings| {
        assert e.strings[code] == s;
      } else {
        assert e.strings[code] == s;
      }
    }
  }

  lemma {:induction false} RunKeepsTable(pr: Params, codes: seq<nat>)
    requires pr.Valid() && ValidCodes(pr, codes)
    ensures TableOk(pr, Run(pr, codes))
  {
    if codes == [] {
      Pow2Values();
      Pow2Mono(9, pr.maxbits);
    } else {
      RunKeepsTable(pr, codes[..|codes| - 1]);
      StepKeepsTable(pr, Run(pr, codes[..|codes| - 1]), codes[|codes| - 1]);
    }
  }

  /** A width is wide enough for every code of the table and for the one about to be added. */
  predicate WidthOk(pr: Params, l: Layout, free: nat) {
    && 9 <= l.nbits <= 16 && l.index < 8
    && l.maxcode == (if l.nbits == pr.maxbits && l.nbits != INIT_BITS then pr.MaxMaxCode() else Pow2(l.nbits) - 1)
    && free <= l.maxcode
  }

  lemma AdvanceKeepsWidth(pr: Params, l: Layout, free: nat, free': nat, cleared: bool)
    requires pr.Valid() && WidthOk(pr, l, free)
    requires if cleared then free' == 256 else free' <= free + 1
    requires free' <= pr.MaxMaxCode()
    ensures WidthOk(pr, Advance(pr, l, free', cleared), free')
  {
    Pow2Values();
    if !cleared && free' > l.maxcode {
      if l.nbits == 16 {
        Pow2Mono(pr.maxbits, 15);
      }
    }
  }

  lemma {:induction false} RunKeepsWidth(pr: Params, codes: seq<nat>)
    requires pr.Valid() && ValidCodes(pr, codes)
    ensures WidthOk(pr, LayoutAfter(pr, codes), |Run(pr, codes).strings|)
  {
    Pow2Values();
    if codes != [] {
      var before := codes[..|codes| - 1];
      RunKeepsWidth(pr, before);
      RunKeepsTable(pr, before);
      RunKeepsTable(pr, codes);
      var d := Run(pr, codes);
      AdvanceKeepsWidth(pr, LayoutAfter(pr, before), |Run(pr, before).strings|, |d.strings|, d.cleared);
    }
  }

  /** Every code an encoder may send next fits the width in force. */
  lemma NextCodeFits(pr: Params, codes: seq<nat>, code: nat)
    requires pr.Valid() && ValidCodes(pr, codes) && CanFollow(pr, Run(pr, codes), code)
    ensures code < Pow2(LayoutAfter(pr, codes).nbits)
    ensures 9 <= LayoutAfter(pr, codes).nbits <= 16 && LayoutAfter(pr, codes).index < 8
  {
    RunKeepsTable(pr, codes);
    RunKeepsWidth(pr, codes);
    Pow2Values();
    Pow2Mono(9, LayoutAfter(pr, codes).nbits);
  }

  /** Appending one code. */
  lemma Snoc(pr: Params, codes: seq<nat>, code: nat)
    ensures Run(pr, codes + [code]) == Step(pr, Run(pr, codes), code)
    ensures ValidCodes(pr, codes + [code]) == (ValidCodes(pr, codes) && CanFollow(pr, Run(pr, codes), code))
    ensures LayoutAfter(pr, codes + [code]) ==
            Advance(pr, LayoutAfter(pr, codes), |Run(pr, codes + [code]).strings|, Run(pr, codes + [code]).cleared)
  {
    assert (codes + [code])[..|codes|] == codes;
  }

  lemma {:induction false} ValidPrefix(pr: Params, codes: seq<nat>, i: nat)
    requires ValidCodes(pr, codes) && i <= |codes|
    ensures ValidCodes(pr, codes[..i])
    decreases |codes|
  {
    if i < |codes| {
      ValidPrefix(pr, codes[..|codes| - 1], i);
      assert codes[..|codes| - 1][..i] == codes[..i];
    } else {
      assert codes[..i] == codes;
    }
  }

  /** A code ends no later than the next begins, and a group of w-bit codes is w bytes. */
  lemma OffsetsGrow(pr: Params, codes: seq<nat>, code: nat)
    requires pr.Valid() && ValidCodes(pr, codes + [code])
    ensures var l, l' := LayoutAfter(pr, codes), LayoutAfter(pr, codes + [code]);
            && l.start <= l'.start <= l.start + l.nbits
            && l.Offset() + l.nbits <= l'.Offset()
  {
    Snoc(pr, codes, code);
    RunKeepsWidth(pr, codes);
    var l := LayoutAfter(pr, codes);
    GroupOfEight(l.index + 1, l.nbits);
  }

  /** Every code of the sequence ends before the place of the next one. */
  lemma {:induction false} CodesEndBefore(pr: Params, codes: seq<nat>, i: nat)
    requires pr.Valid() && ValidCodes(pr, codes) && i < |codes|
    ensures LayoutAfter(pr, codes[..i]).Offset() + LayoutAfter(pr, codes[..i]).nbits <= LayoutAfter(pr, codes).Offset()
    ensures 9 <= LayoutAfter(pr, codes[..i]).nbits <= 16
    decreases |codes|
  {
    var m := |codes| - 1;
    assert codes == codes[..m] + [codes[m]];
    OffsetsGrow(pr, codes[..m], codes[m]);
    if i < m {
      CodesEndBefore(pr, codes[..m], i);
      assert codes[..m][..i] == codes[..i];
      assert LayoutAfter(pr, codes[..m]).nbits >= 0;
    } else {
      RunKeepsWidth(pr, codes[..m]);
    }
  }

  /** Codes stay in place when the bits before the next place stay. */
  lemma StayInPlace(pr: Params, codes: seq<nat>, z: seq<byte>, z': seq<byte>)
    requires pr.Valid() && ValidCodes(pr, codes) && AllInPlace(pr, codes, z)
    requires LayoutAfter(pr, codes).Offset() <= 8 * |z'| && LayoutAfter(pr, codes).Offset() <= 8 * |z|
    requires forall p | 0 <= p < LayoutAfter(pr, codes).Offset() :: BitAt(z', p) == BitAt(z, p)
    ensures AllInPlace(pr, codes, z')
  {
    forall i | 0 <= i < |codes|
      ensures InPlace(pr, codes, z', i)
    {
      assert InPlace(pr, codes, z, i);
      CodesEndBefore(pr, codes, i);
    }
  }

  lemma AppendInPlace(pr: Params, codes: seq<nat>, code: nat, z: seq<byte>)
    requires AllInPlace(pr, codes, z)
    requires FieldAt(z, LayoutAfter(pr, codes).Offset(), LayoutAfter(pr, codes).nbits, code)
    ensures AllInPlace(pr, codes + [code], z)
  {
    var more := codes + [code];
    forall i | 0 <= i < |more|
      ensures InPlace(pr, more, z, i)
    {
      assert more[..i] == codes[..i];
      if i < |codes| {
        assert InPlace(pr, codes, z, i);
      } else {
        assert codes[..i] == codes;
      }
    }
  }

  // ----- the -b limit

  /** Codes are no wider than the -b limit, except that a limit of 9 lets them grow to 10
      bits: the program looks for the limit only after widening. */
  lemma {:induction false} WidthLimit(pr: Params, codes: seq<nat>)
    requires pr.Valid() && ValidCodes(pr, codes)
    ensures LayoutAfter(pr, codes).nbits <= if pr.maxbits == 9 then 10 else pr.maxbits
  {
    Pow2Values();
    if codes != [] {
      var before := codes[..|codes| - 1];
      WidthLimit(pr, before);
      RunKeepsWidth(pr, before);
      RunKeepsTable(pr, codes);
    }
  }

  /** Codes of single characters make an entry each, but for the first, until the table is full. */
  lemma {:induction false} LiteralsFillTable(pr: Params, codes: seq<nat>)
    requires pr.Valid() && pr.maxbits == 9 && forall i | 0 <= i < |codes| :: codes[i] < 256
    ensures ValidCodes(pr, codes)
    ensures var d, n := Run(pr, codes), |codes|;
            && (n > 0 ==> d.prev != []) && !d.cleared
            && |d.strings| == if n == 0 then pr.First() else if pr.First() + n - 1 <= 512 then pr.First() + n - 1 else 512
    decreases |codes|
  {
    hide Literals, StringOf, Advance;
    Pow2Values();
    var n := |codes|;
    if n > 0 {
      var before, c := codes[..n - 1], codes[n - 1];
      LiteralsFillTable(pr, before);
      RunKeepsTable(pr, before);
      var d := Run(pr, before);
      assert d.strings[c] == d.strings[..256][c];
      LiteralString(c);
      Snoc(pr, before, c);
      assert codes == before + [c];
    }
  }

  lemma LiteralString(c: nat)
    requires c < 256
    ensures Literals()[c] == [c]
  {
  }

  lemma LiteralsReachTen(pr: Params, codes: seq<nat>)
    requires pr.Valid() && pr.maxbits == 9 && |codes| == 513 - pr.First() && forall i | 0 <= i < |codes| :: codes[i] < 256
    ensures ValidCodes(pr, codes) && LayoutAfter(pr, codes).nbits == 10
  {
    Pow2Values();
    var before := codes[..|codes| - 1];
    LiteralsFillTable(pr, codes);
    LiteralsFillTable(pr, before);
    RunKeepsWidth(pr, before);
    WidthLimit(pr, before);
    WidthLimit(pr, codes);
    RunKeepsWidth(pr, codes);
  }
}
