/**
 decompress() and getcode() of compress.c, proved against LzwSpec.
 */
module LzwDecoder {
  import opened Arith
  import opened Bits
  import opened LzwBits
  import opened LzwSpec
  import opened LzwHash
  import opened LzwEncoder

  // ----- where the reader of a packed stream stands

  /** In a packed stream the place of code i, or of the end, is inside the stream. */
  lemma PlaceInside(pr: Params, codes: seq<nat>, z: seq<byte>, i: nat)
    requires pr.Valid() && Packs(pr, codes, z) && i <= |codes|
    ensures WidthOk(pr, LayoutAfter(pr, codes[..i]), |Run(pr, codes[..i]).strings|)
    ensures var l := LayoutAfter(pr, codes[..i]);
            l.start <= |z| && if i < |codes| then l.Offset() + l.nbits <= 8 * |z| && FieldAt(z, l.Offset(), l.nbits, codes[i])
                              else |z| == l.start + (l.Filled() + 7) / 8
  {
    ValidPrefix(pr, codes, i);
    RunKeepsWidth(pr, codes[..i]);
    if i < |codes| {
      assert InPlace(pr, codes, z, i);
    } else {
      assert codes[..i] == codes;
    }
  }

  /** How the place moves from one code to the next. */
  lemma PlaceMoves(pr: Params, codes: seq<nat>, i: nat)
    requires 0 < i <= |codes|
    ensures var d := Run(pr, codes[..i]);
            LayoutAfter(pr, codes[..i]) == Advance(pr, LayoutAfter(pr, codes[..i - 1]), |d.strings|, d.cleared)
  {
    assert codes[..i][..i - 1] == codes[..i - 1];
  }

  /** The bytes fread() delivers. */
  function Available(start: nat, n: nat, length: nat): nat {
    if start + n <= length then n else if start <= length then length - start else 0
  }

  /** The arithmetic of "offset >= size" in getcode(): inside a group it tells a code that
      is there from the padding of the last byte. */
  lemma SizeTest(index: nat, n: nat, start: nat, length: nat, more: bool)
    requires index < 8 && 9 <= n <= 16 && start <= length
    requires more ==> 8 * start + Times(index + 1, n) + n <= 8 * length
    requires !more ==> length == start + (Times(index + 1, n) + 7) / 8
    requires index < 7
    ensures var b := Available(start, n, length);
            && (more ==> Times(index + 1, n) < 8 * b - (n - 1) && Times(index + 1, n) + n <= 8 * b)
            && (!more ==> Times(index + 1, n) >= 8 * b - (n - 1) && start + b == length)
  {
    GroupOfEight(index + 1, n);
    GroupOfEight(index + 2, n);
    assert Times(index + 2, n) == n + Times(index + 1, n);
  }

  predicate RefillsRightly(p: Layout, l: Layout, free: nat, cleared: bool, length: nat, more: bool) {
    var b := Available(p.start, p.nbits, length);
    var offset := p.Filled() + p.nbits;
    var refill := cleared || offset >= 8 * b - (p.nbits - 1) || free > p.maxcode;
    && (more ==> (refill <==> l.index == 0))
    && (more && refill ==> p.start + b == l.start && l.Filled() == 0)
    && (more && !refill ==> l == p.(index := p.index + 1) && l.Filled() == offset)
    && (!more ==> refill && p.start + b == length)
  }

  /** getcode() refills its buffer exactly when the next code begins a group, or there is
      no next code; and then the buffer was used up exactly to the group's first byte.
      p is the place of the last code, l of the next. */
  lemma RefillTest(pr: Params, p: Layout, l: Layout, free: nat, cleared: bool, length: nat, more: bool)
    requires p.index < 8 && 9 <= p.nbits <= 16 && p.start <= length
    requires l == Advance(pr, p, free, cleared) && l.start <= length
    requires if more then l.Offset() + l.nbits <= 8 * length else length == l.start + (l.Filled() + 7) / 8
    ensures RefillsRightly(p, l, free, cleared, length, more)
  {
    GroupOfEight(p.index + 1, p.nbits);
    if !cleared && free <= p.maxcode && p.index < 7 {
      SizeTest(p.index, p.nbits, p.start, length, more);
    }
  }

  lemma NextPlace(pr: Params, codes: seq<nat>, z: seq<byte>, i: nat, p: Layout, l: Layout, free: nat, cleared: bool)
    requires pr.Valid() && Packs(pr, codes, z) && 0 < i <= |codes|
    requires p == LayoutAfter(pr, codes[..i - 1]) && l == LayoutAfter(pr, codes[..i])
    requires free == |Run(pr, codes[..i]).strings| && cleared == Run(pr, codes[..i]).cleared
    ensures 9 <= l.nbits <= 16 && p.start <= |z| && l.start <= |z| && l == Advance(pr, p, free, cleared)
    ensures i < |codes| ==> l.start < |z|
    ensures RefillsRightly(p, l, free, cleared, |z|, i < |codes|)
  {
    PlaceInside(pr, codes, z, i - 1);
    PlaceInside(pr, codes, z, i);
    PlaceMoves(pr, codes, i);
    RefillTest(pr, p, l, free, cleared, |z|, i < |codes|);
  }

  lemma FieldInBuffer(z: seq<byte>, buf: seq<byte>, start: nat, b: nat, offset: nat, n: nat, c: nat, code: nat)
    requires start + b <= |z| && b <= |buf| && buf[..b] == z[start..start + b] && offset + n <= 8 * b
    requires FieldAt(z, 8 * start + offset, n, c) && FieldAt(buf, offset, n, code)
    requires c < Pow2(n) && code < Pow2(n)
    ensures c == code
  {
    forall k | 0 <= k < n
      ensures BitAt(buf, offset + k) == Bit(c, k)
    {
      var p := offset + k;
      assert BitAt(z, 8 * start + offset + k) == Bit(c, k);
      assert (8 * start + p) / 8 == start + p / 8 && (8 * start + p) % 8 == p % 8;
      assert buf[p / 8] == buf[..b][p / 8] == z[start + p / 8];
    }
    FieldsAgree(buf, offset, n, c, code);
  }

  lemma {:induction false} CodeFits(pr: Params, codes: seq<nat>, i: nat)
    requires pr.Valid() && ValidCodes(pr, codes) && i < |codes|
    ensures codes[i] < Pow2(LayoutAfter(pr, codes[..i]).nbits)
  {
    ValidPrefix(pr, codes, i);
    ValidPrefix(pr, codes, i + 1);
    assert codes[..i + 1] == codes[..i] + [codes[i]];
    Snoc(pr, codes[..i], codes[i]);
    NextCodeFits(pr, codes[..i], codes[i]);
  }

  lemma CodeInside(pr: Params, codes: seq<nat>, z: seq<byte>, i: nat, l: Layout)
    requires pr.Valid() && Packs(pr, codes, z) && i < |codes| && l == LayoutAfter(pr, codes[..i])
    ensures 9 <= l.nbits <= 16 && l.Filled() + l.nbits <= 8 * Available(l.start, l.nbits, |z|)
  {
    PlaceInside(pr, codes, z, i);
    GroupOfEight(l.index + 1, l.nbits);
  }

  /** The group of the code at l is in the buffer. */
  predicate InBuffer(z: seq<byte>, buf: seq<byte>, l: Layout) {
    var b := Available(l.start, l.nbits, |z|);
    b <= |buf| && l.start + b <= |z| && buf[..b] == z[l.start..l.start + b]
  }

  lemma ReadsCode(pr: Params, codes: seq<nat>, z: seq<byte>, i: nat, l: Layout, buf: seq<byte>, code: nat)
    requires pr.Valid() && Packs(pr, codes, z) && i < |codes| && l == LayoutAfter(pr, codes[..i])
    requires InBuffer(z, buf, l) && l.Filled() + l.nbits <= 8 * Available(l.start, l.nbits, |z|)
    requires code < Pow2(l.nbits) && FieldAt(buf, l.Filled(), l.nbits, code)
    ensures code == codes[i]
  {
    hide Run;
    CodeFits(pr, codes, i);
    var start, filled := l.start, l.Filled();
    assert FieldAt(z, 8 * start + filled, l.nbits, codes[i]) by {
      assert InPlace(pr, codes, z, i);
    }
    FieldInBuffer(z, buf, start, Available(l.start, l.nbits, |z|), filled, l.nbits, codes[i], code);
  }

  /** The state of getcode(). */
  class Reader {
    const pr: Params
    const stdin: seq<byte>
    const buf: array<byte>
    var pos: nat            // bytes of stdin consumed
    var nBits: nat
    var maxCode: nat
    var offset: nat
    var size: int
    ghost const codes: seq<nat>
    ghost var i: nat        // codes read

    ghost predicate Valid()
      reads this, buf
    {
      && pr.Valid() && Packs(pr, codes, stdin) && buf.Length == 16 && i <= |codes|
      && (i == 0 ==> pos == 0 && offset == 0 && size == 0 && nBits == INIT_BITS && maxCode == Pow2(INIT_BITS) - 1)
      && (i > 0 ==> Holds(LayoutAfter(pr, codes[..i - 1])) && offset == LayoutAfter(pr, codes[..i - 1]).Filled() + nBits)
    }

    /** The width and the buffer are those of the code at l. */
    ghost predicate Holds(l: Layout)
      reads this, buf
    {
      var b := Available(l.start, l.nbits, |stdin|);
      && buf.Length == 16 && InBuffer(stdin, buf[..], l) && nBits == l.nbits && maxCode == l.maxcode
      && pos == l.start + b && size == 8 * b - (l.nbits - 1)
    }

    constructor (pr: Params, stdin: seq<byte>, ghost codes: seq<nat>)
      requires pr.Valid() && Packs(pr, codes, stdin)
      ensures this.pr == pr && this.codes == codes && i == 0 && Valid() && fresh(buf)
    {
      this.pr := pr;
      this.stdin := stdin;
      this.codes := codes;
      buf := new byte[16];
      pos, offset, size := 0, 0, 0;
      nBits := INIT_BITS;
      maxCode := Pow2(INIT_BITS) - 1;
      i := 0;
    }

    /** The test at the top of getcode(). */
    predicate MustRefill(freeEnt: nat, clearFlg: bool)
      reads this
    {
      clearFlg || offset >= size || freeEnt > maxCode
    }

    /** l is the place of the next code, if there is one, and the reader can get there. */
    ghost predicate Refillable(freeEnt: nat, clearFlg: bool, l: Layout, more: bool)
      reads this, buf
    {
      && buf.Length == 16 && pos <= |stdin| && 9 <= l.nbits <= 16
      && (MustRefill(freeEnt, clearFlg) && more ==>
            && pos == l.start < |stdin| && l.Filled() == 0
            && l.nbits == (if clearFlg then INIT_BITS else if freeEnt > maxCode then nBits + 1 else nBits)
            && l.maxcode == (
              if clearFlg || (freeEnt > maxCode && l.nbits != pr.maxbits) then Pow2(l.nbits) - 1
              else if freeEnt > maxCode then pr.MaxMaxCode()
              else maxCode))
      && (!MustRefill(freeEnt, clearFlg) ==> more && Holds(l) && offset == l.Filled())
      && (!more ==> pos == |stdin|)
    }

    lemma CanRefill(freeEnt: nat, clearFlg: bool)
      requires Valid()
      requires var d := Run(pr, codes[..i]); clearFlg == d.cleared && freeEnt == |d.strings|
      ensures Refillable(freeEnt, clearFlg, LayoutAfter(pr, codes[..i]), i < |codes|)
    {
      hide Run;
      var l := LayoutAfter(pr, codes[..i]);
      if i == 0 {
        PlaceInside(pr, codes, stdin, i);
      } else {
        NextPlace(pr, codes, stdin, i, LayoutAfter(pr, codes[..i - 1]), l, freeEnt, clearFlg);
      }
    }

    /** getcode(), the part that takes up a new width and reads the next group. */
    method Refill(freeEnt: nat, clearFlg: bool, ghost l: Layout, ghost more: bool) returns (eof: bool)
      requires Refillable(freeEnt, clearFlg, l, more)
      modifies this, buf
      ensures i == old(i) && eof == !more
      ensures more ==> Holds(l) && offset == l.Filled()
    {
      eof := false;
      if clearFlg || offset >= size || freeEnt > maxCode {
        if freeEnt > maxCode {
          nBits := nBits + 1;
          if nBits == pr.maxbits {
            maxCode := pr.MaxMaxCode();
          } else {
            maxCode := Pow2(nBits) - 1;
          }
        }
        if clearFlg {
          nBits := INIT_BITS;
          maxCode := Pow2(INIT_BITS) - 1;
        }
        size := Fread(if nBits <= 16 then nBits else 16);
        if size <= 0 {
          return true;
        }
        offset := 0;
        size := size * 8 - (nBits - 1);
      }
    }

    /** fread(buf, 1, n, stdin) */
    method Fread(n: nat) returns (k: nat)
      requires n <= buf.Length && pos <= |stdin|
      modifies this`pos, buf
      ensures k == Available(old(pos), n, |stdin|) && pos == old(pos) + k
      ensures buf[..k] == stdin[old(pos)..pos]
    {
      k := 0;
      while k < n && pos < |stdin|
        invariant k <= n && old(pos) <= pos == old(pos) + k <= |stdin|
        invariant buf[..k] == stdin[old(pos)..pos]
      {
        buf[k] := stdin[pos];
        k := k + 1;
        pos := pos + 1;
      }
    }

    /** getcode(): the next code, or -1 at the end of the stream. */
    method GetCode(freeEnt: nat, clearFlg: bool) returns (code: int)
      requires Valid()
      requires var d := Run(pr, codes[..i]); clearFlg == d.cleared && freeEnt == |d.strings|
      modifies this, buf
      ensures old(i) < |codes| ==> Valid() && i == old(i) + 1 && code == codes[old(i)]
      ensures old(i) == |codes| ==> i == old(i) && code == -1
    {
      hide Run, LayoutAfter;
      ghost var l := LayoutAfter(pr, codes[..i]);
      CanRefill(freeEnt, clearFlg);
      var eof := Refill(freeEnt, clearFlg, l, i < |codes|);
      if eof {
        return -1;
      }
      CodeInside(pr, codes, stdin, i, l);
      code := ExtractCode(buf, offset, nBits);
      ReadsCode(pr, codes, stdin, i, l, buf[..], code);
      offset := offset + nBits;
      i := i + 1;
    }
  }

  // ----- the decoder's arrays

  /** Room left for the output stack in the memory shared with the hash table. */
  const STACK_SIZE: nat := 4 * HSIZE - 65536

  /** Entry c of the arrays leads, by one prefix step, to a shorter string. */
  predicate Link(strings: seq<seq<byte>>, prefix: seq<nat>, suffix: seq<byte>, c: nat)
    requires c < |strings| <= 65536 && |prefix| == |suffix| == 65536
  {
    if c < 256 then
      suffix[c] == c && strings[c] == [c]
    else
      prefix[c] < c && strings[prefix[c]] != [] && strings[c] == strings[prefix[c]] + [suffix[c]]
  }

  predicate Linked(strings: seq<seq<byte>>, prefix: seq<nat>, suffix: seq<byte>)
    requires |strings| <= 65536 && |prefix| == |suffix| == 65536
  {
    forall c | 0 <= c < |strings| && strings[c] != [] :: Link(strings, prefix, suffix, c)
  }

  /** The decoder's variables agree with the codes read. */
  ghost predicate Agrees(d: Decoded, prefix: seq<nat>, suffix: seq<byte>, oldcode: nat, finchar: byte, freeEnt: nat)
    requires |prefix| == |suffix| == 65536
  {
    && freeEnt == |d.strings| <= 65536
    && Linked(d.strings, prefix, suffix)
    && (d.prev != [] ==> oldcode < freeEnt && d.strings[oldcode] == d.prev && finchar == d.prev[0])
  }

  lemma LinkedAfter(strings: seq<seq<byte>>, prefix: seq<nat>, suffix: seq<byte>, s: seq<byte>, oldcode: nat, c: byte)
    requires 256 <= |strings| < 65536 && |prefix| == |suffix| == 65536
    requires Linked(strings, prefix, suffix)
    requires s == [] || (oldcode < |strings| && strings[oldcode] != [] && s == strings[oldcode] + [c])
    ensures Linked(strings + [s], prefix[|strings| := oldcode], suffix[|strings| := c])
  {
    var n := |strings|;
    var strings', prefix', suffix' := strings + [s], prefix[n := oldcode], suffix[n := c];
    forall k | 0 <= k < |strings'| && strings'[k] != []
      ensures Link(strings', prefix', suffix', k)
    {
      if k < n {
        assert Link(strings, prefix, suffix, k);
      }
    }
  }

  lemma LinkedLiterals(strings: seq<seq<byte>>, prefix: seq<nat>, suffix: seq<byte>)
    requires 256 <= |strings| <= 65536 && |prefix| == |suffix| == 65536
    requires Linked(strings, prefix, suffix) && strings[..256] == Literals()
    ensures Linked(Literals(), prefix, suffix)
  {
    forall c | 0 <= c < 256
      ensures Link(Literals(), prefix, suffix, c)
    {
      assert strings[c] == strings[..256][c] == [c];
      assert Link(strings, prefix, suffix, c);
    }
  }

  /** The array updates of one turn of the decoding loop follow Step. */
  lemma TurnAgrees(pr: Params, d: Decoded, code: nat, prefix: seq<nat>, suffix: seq<byte>, oldcode: nat, finchar: byte, s: seq<byte>)
    requires pr.Valid() && |prefix| == |suffix| == 65536 && pr.MaxMaxCode() <= 65536
    requires LzwSpec.TableOk(pr, d) && CanFollow(pr, d, code) && Agrees(d, prefix, suffix, oldcode, finchar, |d.strings|)
    requires !(pr.block && code == CLEAR && d.prev != [])
    requires d.prev == [] ==> d.cleared && pr.block
    requires s == (if d.prev == [] then [code] else StringOf(d, code))
    ensures var free, e := |d.strings|, Step(pr, d, code);
            && e.out == d.out + s && !e.cleared
            && if free < pr.MaxMaxCode()
               then Agrees(e, prefix[free := oldcode], suffix[free := s[0]], code, s[0], free + 1)
               else Agrees(e, prefix, suffix, code, s[0], free)
  {
    var free, e := |d.strings|, Step(pr, d, code);
    MaxMaxCodeBounds(pr);
    if d.prev == [] {
      assert e.strings == Literals() + [[]];
      assert e.strings[code] == [code];
      LinkedAfter(d.strings, prefix, suffix, [], oldcode, s[0]);
    } else {
      if free < pr.MaxMaxCode() {
        LinkedAfter(d.strings, prefix, suffix, d.prev + [s[0]], oldcode, s[0]);
      }
      assert e.strings[code] == s;
    }
  }

  lemma StringFits(pr: Params, d: Decoded, code: nat, oldcode: nat, finchar: byte, s: seq<byte>)
    requires pr.Valid() && LzwSpec.TableOk(pr, d) && CanFollow(pr, d, code)
    requires !(pr.block && code == CLEAR && d.prev != [])
    requires d.prev != [] ==> oldcode < |d.strings| && d.strings[oldcode] == d.prev && finchar == d.prev[0]
    requires s == if d.prev == [] then [code] else StringOf(d, code)
    ensures 0 < |s| < STACK_SIZE
    ensures if code < |d.strings| then d.strings[code] == s
            else oldcode < |d.strings| && d.strings[oldcode] != [] && s == d.strings[oldcode] + [finchar]
  {
    MaxMaxCodeBounds(pr);
    if d.prev == [] {
      assert d.strings[code] == d.strings[..256][code] == [code];
    }
  }

  lemma FirstAgrees(pr: Params, codes: seq<nat>, prefix: seq<nat>, suffix: seq<byte>)
    requires pr.Valid() && ValidCodes(pr, codes) && codes != [] && |prefix| == |suffix| == 65536
    requires forall c | 0 <= c < 256 :: suffix[c] == c
    ensures codes[0] < 256 && Agrees(Run(pr, codes[..1]), prefix, suffix, codes[0], codes[0], pr.First())
    ensures var d := Run(pr, codes[..1]); d.out == [codes[0]] && d.prev != [] && !d.cleared
  {
    ValidPrefix(pr, codes, 1);
    assert codes[..1] == [] + [codes[0]];
    Snoc(pr, [], codes[0]);
    var b := Base(pr);
    assert b[codes[0]] == [codes[0]];
    forall c | 0 <= c < |b| && b[c] != []
      ensures Link(b, prefix, suffix, c)
    {
    }
  }

  lemma NextStep(pr: Params, codes: seq<nat>, i: nat)
    requires pr.Valid() && ValidCodes(pr, codes) && i < |codes|
    ensures LzwSpec.TableOk(pr, Run(pr, codes[..i])) && CanFollow(pr, Run(pr, codes[..i]), codes[i])
    ensures Run(pr, codes[..i + 1]) == Step(pr, Run(pr, codes[..i]), codes[i])
  {
    hide Run;
    ValidPrefix(pr, codes, i);
    ValidPrefix(pr, codes, i + 1);
    assert codes[..i + 1] == codes[..i] + [codes[i]];
    Snoc(pr, codes[..i], codes[i]);
    RunKeepsTable(pr, codes[..i]);
  }

  lemma LastOf(s: seq<byte>, n: nat, t: seq<byte>, c: byte)
    requires n <= |s| && s[..n] == t + [c]
    ensures n == |t| + 1 && s[n - 1] == c && s[..n - 1] == t
  {
    assert |s[..n]| == n == |t| + 1;
    assert s[n - 1] == s[..n][n - 1];
    assert s[..n - 1] == s[..n][..n - 1] == t;
  }

  /** What is still to be pushed of s, when sp characters are on the stack, is the string of cur. */
  predicate Left(strings: seq<seq<byte>>, s: seq<byte>, sp: nat, cur: nat) {
    cur < |strings| && strings[cur] != [] && sp < |s| && s[..|s| - sp] == strings[cur]
  }

  lemma StepDown(strings: seq<seq<byte>>, prefix: seq<nat>, suffix: seq<byte>, s: seq<byte>, sp: nat, cur: nat)
    requires |strings| <= 65536 && |prefix| == |suffix| == 65536 && Linked(strings, prefix, suffix)
    requires Left(strings, s, sp, cur) && cur >= 256
    ensures prefix[cur] < cur && s[|s| - 1 - sp] == suffix[cur]
    ensures Left(strings, s, sp + 1, prefix[cur])
  {
    assert Link(strings, prefix, suffix, cur);
    LastOf(s, |s| - sp, strings[prefix[cur]], suffix[cur]);
  }

  lemma LastDown(strings: seq<seq<byte>>, prefix: seq<nat>, suffix: seq<byte>, s: seq<byte>, sp: nat, cur: nat)
    requires |strings| <= 65536 && |prefix| == |suffix| == 65536 && Linked(strings, prefix, suffix)
    requires Left(strings, s, sp, cur) && cur < 256
    ensures sp + 1 == |s| && s[0] == suffix[cur]
  {
    assert Link(strings, prefix, suffix, cur);
    LastOf(s, |s| - sp, [], suffix[cur]);
  }

  class Decompressor {
    const pr: Params
    const input: Reader
    const prefix: array<nat>
    const suffix: array<byte>
    const stack: array<byte>
    var freeEnt: nat
    var stdout: seq<byte>

    ghost predicate Separate()
      reads this
    {
      && input.buf as object != suffix && input.buf as object != stack && suffix as object != stack
      && input.buf as object != prefix && prefix as object != suffix && prefix as object != stack
      && input as object != this
    }

    ghost predicate Valid()
      reads this, input
    {
      && pr.Valid() && input.pr == pr && pr.MaxMaxCode() <= 65536 && Separate()
      && prefix.Length == suffix.Length == 65536 && stack.Length == STACK_SIZE
    }

    constructor (pr: Params, stdin: seq<byte>, ghost codes: seq<nat>)
      requires pr.Valid() && Packs(pr, codes, stdin)
      ensures this.pr == pr && Valid() && input.Valid() && input.codes == codes && input.i == 0
      ensures stdout == [] && freeEnt == pr.First()
      ensures fresh(input) && fresh(input.buf) && fresh(prefix) && fresh(suffix) && fresh(stack)
    {
      MaxMaxCodeBounds(pr);
      this.pr := pr;
      input := new Reader(pr, stdin, codes);
      prefix := new nat[65536];
      suffix := new byte[65536];
      stack := new byte[STACK_SIZE];
      freeEnt := if pr.block then 257 else 256;
      stdout := [];
    }

    /** Put out the string of a code: its characters come off the table last one first, so
        they go through the stack.  A code not yet in the table (KwKwK) stands for the
        previous string and its first character. */
    method Expand(code: nat, oldcode: nat, finchar: byte, ghost strings: seq<seq<byte>>, ghost s: seq<byte>)
        returns (finchar': byte)
      requires Valid() && freeEnt == |strings| <= 65536 && Linked(strings, prefix[..], suffix[..])
      requires 0 < |s| < STACK_SIZE
      requires if code < freeEnt then strings[code] == s
               else oldcode < freeEnt && strings[oldcode] != [] && s == strings[oldcode] + [finchar]
      modifies this`stdout, stack
      ensures stdout == old(stdout) + s && finchar' == s[0]
    {
      var sp := Unwind(code, oldcode, finchar, strings, s);
      finchar' := stack[sp - 1];
      PopAll(sp, s);
    }

    /** The stack holds the last n characters of s, the last one at the bottom. */
    predicate Stacked(s: seq<byte>, n: nat)
      requires n <= |s| <= stack.Length
      reads stack
    {
      forall k | 0 <= k < n :: stack[k] == s[|s| - 1 - k]
    }

    method Push(sp: nat, c: byte, ghost s: seq<byte>)
      requires sp < |s| <= stack.Length && Stacked(s, sp) && c == s[|s| - 1 - sp]
      modifies stack
      ensures Stacked(s, sp + 1)
    {
      stack[sp] := c;
    }

    /** Follow the prefixes down to a literal, pushing every character. */
    method Unwind(code: nat, oldcode: nat, finchar: byte, ghost strings: seq<seq<byte>>, ghost s: seq<byte>)
        returns (sp: nat)
      requires Valid() && freeEnt == |strings| <= 65536 && Linked(strings, prefix[..], suffix[..])
      requires 0 < |s| < STACK_SIZE
      requires if code < freeEnt then strings[code] == s
               else oldcode < freeEnt && strings[oldcode] != [] && s == strings[oldcode] + [finchar]
      modifies stack
      ensures sp == |s| && Stacked(s, |s|)
    {
      var cur: nat := code;
      sp := 0;
      if code >= freeEnt {
        LastOf(s, |s|, strings[oldcode], finchar);
        Push(sp, finchar, s);
        sp := sp + 1;
        cur := oldcode;
      }
      assert s[..|s|] == s;
      while cur >= 256
        invariant Left(strings, s, sp, cur) && Stacked(s, sp)
      {
        StepDown(strings, prefix[..], suffix[..], s, sp, cur);
        Push(sp, suffix[cur], s);
        sp := sp + 1;
        cur := prefix[cur];
      }
      LastDown(strings, prefix[..], suffix[..], s, sp, cur);
      Push(sp, suffix[cur], s);
      sp := sp + 1;
    }

    /** Put the stack out in forward order. */
    method PopAll(n: nat, ghost s: seq<byte>)
      requires n == |s| <= stack.Length && Stacked(s, n)
      modifies this`stdout
      ensures stdout == old(stdout) + s
    {
      var sp: nat := n;
      while sp > 0
        invariant sp <= n && stdout == old(stdout) + s[..n - sp]
      {
        sp := sp - 1;
        TakeMore(s, n - sp - 1);
        stdout := stdout + [stack[sp]];
      }
      assert s[..n] == s;
    }

    /** One turn of the decoding loop: put the string out and make the new entry. */
    method Turn(code: nat, oldcode: nat, finchar: byte, ghost d: Decoded) returns (finchar': byte)
      requires Valid() && LzwSpec.TableOk(pr, d) && CanFollow(pr, d, code)
      requires Agrees(d, prefix[..], suffix[..], oldcode, finchar, freeEnt) && stdout == d.out
      requires !(pr.block && code == CLEAR && d.prev != [])
      requires d.prev == [] ==> d.cleared && pr.block
      modifies this, prefix, suffix, stack
      ensures var e := Step(pr, d, code);
              Agrees(e, prefix[..], suffix[..], code, finchar', freeEnt) && stdout == e.out && !e.cleared
    {
      ghost var s := if d.prev == [] then [code] else StringOf(d, code);
      StringFits(pr, d, code, oldcode, finchar, s);
      finchar' := Expand(code, oldcode, finchar, d.strings, s);
      TurnAgrees(pr, d, code, prefix[..], suffix[..], oldcode, finchar, s);
      var free := freeEnt;
      if free < pr.MaxMaxCode() {
        prefix[free] := oldcode;
        suffix[free] := finchar';
        freeEnt := free + 1;
      }
    }

    /** The first 256 entries of the table. */
    method InitTable()
      requires Valid()
      modifies prefix, suffix
      ensures forall k | 0 <= k < 256 :: suffix[k] == k
    {
      var c := 255;
      while c >= 0
        invariant -1 <= c <= 255
        invariant forall k | c < k < 256 :: suffix[k] == k
      {
        prefix[c] := 0;
        suffix[c] := c;
        c := c - 1;
      }
    }

    /** The table after a clear code: the literals. */
    method ClearTable(ghost strings: seq<seq<byte>>)
      requires Valid() && 256 <= |strings| <= 65536 && strings[..256] == Literals()
      requires Linked(strings, prefix[..], suffix[..])
      modifies this`freeEnt, prefix
      ensures freeEnt == 256 && Linked(Literals(), prefix[..], suffix[..])
    {
      LinkedLiterals(strings, prefix[..], suffix[..]);
      var c := 255;
      while c >= 0
        invariant -1 <= c <= 255
      {
        prefix[c] := 0;
        c := c - 1;
      }
      forall k | 0 <= k < 256
        ensures Link(Literals(), prefix[..], suffix[..], k)
      {
        assert Link(Literals(), old(prefix[..]), suffix[..], k);
      }
      freeEnt := 256;
    }

    /** Where the decoding loop stands: `d` is what the codes before `code` stand for. */
    ghost predicate AtCode(d: Decoded, code: int, oldcode: nat, finchar: byte)
      requires Valid()
      reads this, input, input.buf, prefix, suffix
    {
      && stdout == d.out && Agrees(d, prefix[..], suffix[..], oldcode, finchar, freeEnt)
      && (code == -1 || code >= 0)
      && (code == -1 ==> d == Run(pr, input.codes))
      && (code >= 0 ==> input.Valid() && 0 < input.i && code == input.codes[input.i - 1]
                        && d == Run(pr, input.codes[..input.i - 1]))
    }

    /** getcode() from the decoding loop, after the code that led to d. */
    method Fetch(ghost d: Decoded, ghost oldcode: nat, ghost finchar: byte, clearFlg: bool) returns (code: int)
      requires Valid() && input.Valid() && d == Run(pr, input.codes[..input.i])
      requires stdout == d.out && Agrees(d, prefix[..], suffix[..], oldcode, finchar, freeEnt) && clearFlg == d.cleared
      modifies input, input.buf
      ensures AtCode(d, code, oldcode, finchar)
      ensures code >= 0 ==> input.i == old(input.i) + 1
    {
      hide Run;
      assert input.codes[..|input.codes|] == input.codes;
      code := input.GetCode(freeEnt, clearFlg);
    }

    /** The clear code in the decoding loop: the table is cleared and the next code read. */
    method Restart(oldcode: nat, finchar: byte, ghost d: Decoded) returns (code: int, ghost d': Decoded)
      requires Valid() && AtCode(d, CLEAR, oldcode, finchar) && pr.block && d.prev != [] && !d.cleared
      modifies this`freeEnt, input, input.buf, prefix
      ensures AtCode(d', code, oldcode, finchar) && d'.prev == [] && d'.cleared
      ensures code >= 0 ==> input.i > old(input.i)
    {
      hide Run, Link, Linked;
      NextStep(pr, input.codes, input.i - 1);
      ClearTable(d.strings);
      d' := Step(pr, d, CLEAR);
      code := Fetch(d', oldcode, finchar, true);
    }

    /** A code that is not the clear code, and the reading of the next one. */
    method OneCode(code: nat, oldcode: nat, finchar: byte, ghost d: Decoded)
        returns (code': int, finchar': byte, ghost d': Decoded)
      requires Valid() && AtCode(d, code, oldcode, finchar) && (pr.block && code == CLEAR ==> d.prev == [])
      requires d.prev == [] ==> d.cleared && pr.block
      modifies this, input, input.buf, prefix, suffix, stack
      ensures AtCode(d', code', code, finchar')
      ensures code' >= 0 ==> d'.prev != [] && !d'.cleared && input.i > old(input.i)
    {
      hide Run, Link, Linked;
      NextStep(pr, input.codes, input.i - 1);
      finchar' := Turn(code, oldcode, finchar, d);
      d' := Step(pr, d, code);
      code' := Fetch(d', code, finchar', false);
    }

    /** One turn of the decoding loop, clear code included, up to the next code. */
    method Round(code: nat, oldcode: nat, finchar: byte, ghost d: Decoded)
        returns (code': int, oldcode': nat, finchar': byte, ghost d': Decoded)
      requires Valid() && AtCode(d, code, oldcode, finchar) && d.prev != [] && !d.cleared
      modifies this, input, input.buf, prefix, suffix, stack
      ensures AtCode(d', code', oldcode', finchar')
      ensures code' >= 0 ==> d'.prev != [] && !d'.cleared && input.i > old(input.i)
    {
      hide AtCode;
      code', oldcode', finchar', d' := code, oldcode, finchar, d;
      if code == CLEAR && pr.block {
        code', d' := Restart(oldcode, finchar, d);
        if code' == -1 {
          return;
        }
        CodeOrEnd(code', oldcode, finchar, d');
      }
      oldcode' := code';
      code', finchar', d' := OneCode(code', oldcode, finchar, d');
    }

    lemma CodeOrEnd(code: int, oldcode: nat, finchar: byte, d: Decoded)
      requires Valid() && AtCode(d, code, oldcode, finchar)
      ensures code >= -1
    {
    }

    /** decompress(): the output is what the codes of the stream stand for. */
    method Decompress()
      requires Valid() && input.Valid() && input.i == 0 && stdout == [] && freeEnt == pr.First()
      modifies this, input, input.buf, prefix, suffix, stack
      ensures stdout == Run(pr, input.codes).out
    {
      InitTable();
      var code := input.GetCode(freeEnt, false);
      if code == -1 {
        return;
      }
      FirstAgrees(pr, input.codes, prefix[..], suffix[..]);
      var oldcode: nat, finchar: byte := code, code;
      stdout := [finchar];
      ghost var d := Run(pr, input.codes[..1]);
      code := Fetch(d, oldcode, finchar, false);
      while code > -1
        invariant Valid() && AtCode(d, code, oldcode, finchar)
        invariant code > -1 ==> d.prev != [] && !d.cleared
        decreases code > -1, |input.codes| - input.i
      {
        code, oldcode, finchar, d := Round(code, oldcode, finchar, d);
      }
    }
  }
}