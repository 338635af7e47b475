/**
 compress(), output() and cl_block() of compress.c, proved against LzwSpec: the bytes
 written pack a valid code sequence, and that sequence decodes to the input.
 */
module LzwEncoder {
  import opened Arith
  import opened Bits
  import opened LzwBits
  import opened LzwSpec
  import opened LzwHash
  import opened LzwGreedy

  function Header(pr: Params): seq<byte>
    requires pr.Valid()
  {
    [0x1f, 0x9d, pr.maxbits + if pr.block then 0x80 else 0]
  }

  // ----- bits of a stream whose tail is still in the buffer

  lemma FieldInTail(body: seq<byte>, tail: seq<byte>, offset: nat, n: nat, code: nat)
    requires FieldAt(tail, offset, n, code)
    ensures FieldAt(body + tail, 8 * |body| + offset, n, code)
  {
    var z := body + tail;
    forall b | 0 <= b < n
      ensures BitAt(z, 8 * |body| + offset + b) == Bit(code, b)
    {
      var p := offset + b;
      assert BitAt(tail, p) == Bit(code, b);
      assert (8 * |body| + p) / 8 == |body| + p / 8 && (8 * |body| + p) % 8 == p % 8;
      assert z[|body| + p / 8] == tail[p / 8];
    }
  }

  lemma SameTailBits(body: seq<byte>, tail: seq<byte>, tail': seq<byte>, offset: nat)
    requires offset <= 8 * |tail| && |tail| == |tail'|
    requires forall p | 0 <= p < offset :: BitAt(tail', p) == BitAt(tail, p)
    ensures forall p | 0 <= p < 8 * |body| + offset :: BitAt(body + tail', p) == BitAt(body + tail, p)
  {
    forall p | 0 <= p < 8 * |body| + offset
      ensures BitAt(body + tail', p) == BitAt(body + tail, p)
    {
      if p >= 8 * |body| {
        var t := p - 8 * |body|;
        assert BitAt(tail', t) == BitAt(tail, t);
        assert p / 8 == |body| + t / 8 && p % 8 == t % 8;
      }
    }
  }

  lemma SameBytesSameBits(z: seq<byte>, z': seq<byte>, n: nat)
    requires n <= |z| && n <= |z'| && z[..n] == z'[..n]
    ensures forall p | 0 <= p < 8 * n :: BitAt(z', p) == BitAt(z, p)
  {
    forall p | 0 <= p < 8 * n
      ensures BitAt(z', p) == BitAt(z, p)
    {
      assert z[p / 8] == z[..n][p / 8] == z'[..n][p / 8] == z'[p / 8];
    }
  }

  // ----- the encoder's table runs one entry ahead of the decoder's

  /** strings: the encoder's table; ent: the code of the string being extended. */
  ghost predicate Ahead(pr: Params, d: Decoded, strings: seq<seq<byte>>, ent: nat) {
    && ent < |strings| && strings[ent] != [] && (d.prev == [] ==> ent < 256)
    && strings == (
      if d.prev == [] then Base(pr)
      else if |d.strings| < pr.MaxMaxCode() then d.strings + [d.prev + [strings[ent][0]]]
      else d.strings)
  }

  /** Sending ent is valid, and makes the decoder's table equal to the encoder's. */
  lemma SendEntry(pr: Params, d: Decoded, strings: seq<seq<byte>>, ent: nat)
    requires pr.Valid() && LzwSpec.TableOk(pr, d) && Ahead(pr, d, strings, ent)
    ensures CanFollow(pr, d, ent)
    ensures Step(pr, d, ent) == Decoded(strings, strings[ent], false, d.out + strings[ent])
  {
    if d.prev == [] {
      assert Base(pr)[ent] == [ent];
    } else if pr.block && ent == CLEAR {
    } else if ent == |d.strings| {
      assert strings[ent] == d.prev + [strings[ent][0]];
      assert strings[ent][0] == d.prev[0];
    } else {
      assert strings[ent] == d.strings[ent];
    }
  }

  /** Every slot in use holds a key whose string, one character longer, is its code's. */
  ghost predicate SlotsSound(strings: seq<seq<byte>>, h: seq<int>, codes: seq<nat>, mm: nat)
    requires mm > 0 && |h| == |codes|
  {
    forall s | 0 <= s < |h| && h[s] >= 0 :: SlotSound(strings, h[s], codes[s], mm)
  }

  ghost predicate SlotSound(strings: seq<seq<byte>>, f: nat, code: nat, mm: nat)
    requires mm > 0
  {
    && code < |strings| && f % mm < |strings| && strings[f % mm] != [] && f / mm < 256
    && strings[code] == strings[f % mm] + [f / mm]
  }

  /** The state of output(): a group of up to eight codes is gathered in buf. */
  class Writer {
    const pr: Params
    const buf: array<byte>
    var nBits: nat
    var maxCode: nat
    var offset: nat
    var bytesOut: nat
    var stdout: seq<byte>
    ghost var body: seq<byte>   // stdout without the header
    ghost var codes: seq<nat>   // the codes sent

    /** The bytes already written and those in the buffer hold the codes sent so far. */
    ghost predicate Valid()
      reads this, buf
    {
      var l := LayoutAfter(pr, codes);
      && pr.Valid() && buf.Length == 16 && stdout == Header(pr) + body
      && ValidCodes(pr, codes)
      && nBits == l.nbits && maxCode == l.maxcode
      && l.start == |body| && offset == l.Filled()
      && AllInPlace(pr, codes, body + buf[..])
      && bytesOut == 3 + |body|
    }

    /** The start of compress(). */
    constructor (pr: Params)
      requires pr.Valid()
      ensures this.pr == pr && Valid() && fresh(buf) && codes == [] && offset == 0
    {
      this.pr := pr;
      buf := new byte[16];
      stdout, body, codes := Header(pr), [], [];
      offset := 0;
      bytesOut := 3;
      nBits := INIT_BITS;
      maxCode := Pow2(INIT_BITS) - 1;
    }

    /** output(code) for a code.  The globals free_ent and clear_flg say how the string
        table stands after it. */
    method Output(code: nat, freeEnt: nat, clearFlg: bool)
      requires Valid() && CanFollow(pr, Run(pr, codes), code)
      requires clearFlg == Run(pr, codes + [code]).cleared
      requires !clearFlg ==> freeEnt == |Run(pr, codes + [code]).strings|
      modifies this, buf
      ensures Valid() && codes == old(codes) + [code]
    {
      hide Header, Step, LayoutAfter;
      ghost var l, l', body0 := LayoutAfter(pr, codes), LayoutAfter(pr, codes + [code]), body;
      assert l' == Advance(pr, l, freeEnt, clearFlg) && ValidCodes(pr, codes + [code]) by {
        Snoc(pr, codes, code);
      }
      NextCodeFits(pr, codes, code);
      PutCode(code);
      AdjustWidth(freeEnt, clearFlg);
      codes := codes + [code];
      assert l'.Filled() == offset && nBits == l'.nbits && maxCode == l'.maxcode && |body| == l'.start;
      GroupFlushed(pr, codes, body0, buf[..], body, l.nbits);
    }

    /** output(), the part that inserts the code and writes a full group. */
    method PutCode(code: nat)
      requires Valid()
      modifies this`offset, this`stdout, this`body, this`bytesOut, buf
      ensures stdout == Header(pr) + body && bytesOut == 3 + |body|
      ensures nBits <= 16 && (body == old(body) || body == old(body) + buf[..nBits])
      ensures var l := LayoutAfter(pr, codes).Next(); offset == l.Filled() && |body| == l.start
      ensures offset + 8 * |body| <= 8 * (|old(body)| + nBits)
      ensures AllInPlace(pr, codes + [code], old(body) + buf[..])
    {
      ghost var l, body0, was := LayoutAfter(pr, codes), body, buf[..];
      RunKeepsWidth(pr, codes);
      GroupOfEight(l.index + 1, l.nbits);
      InsertCode(buf, offset, nBits, code);
      CodePlaced(pr, codes, code, body0, was, buf[..], offset);
      offset := offset + nBits;
      if offset == nBits * 8 {
        bytesOut := bytesOut + nBits;
        PutBuffer(nBits);
        offset := 0;
      }
    }

    /** output(), the part that changes the code width: the whole group is written first,
        because the reader finds out about the new width only after reading it. */
    method AdjustWidth(freeEnt: nat, clearFlg: bool)
      requires pr.Valid() && nBits <= buf.Length && stdout == Header(pr) + body && bytesOut == 3 + |body|
      modifies this`offset, this`stdout, this`body, this`bytesOut, this`nBits, this`maxCode
      ensures stdout == Header(pr) + body && bytesOut == 3 + |body|
      ensures freeEnt <= old(maxCode) && !clearFlg ==>
                offset == old(offset) && body == old(body) && nBits == old(nBits) && maxCode == old(maxCode)
      ensures freeEnt > old(maxCode) || clearFlg ==>
                && offset == 0 && body == (if old(offset) > 0 then old(body) + buf[..old(nBits)] else old(body))
                && nBits == (if clearFlg then INIT_BITS else old(nBits) + 1)
                && maxCode == if !clearFlg && nBits == pr.maxbits then pr.MaxMaxCode() else Pow2(nBits) - 1
    {
      if freeEnt > maxCode || clearFlg {
        if offset > 0 {
          PutBuffer(nBits);
          bytesOut := bytesOut + nBits;
        }
        offset := 0;
        if clearFlg {
          nBits := INIT_BITS;
          maxCode := Pow2(INIT_BITS) - 1;
        } else {
          nBits := nBits + 1;
          if nBits == pr.maxbits {
            maxCode := pr.MaxMaxCode();
          } else {
            maxCode := Pow2(nBits) - 1;
          }
        }
      }
    }

    /** Write the first n bytes of the buffer. */
    method PutBuffer(n: nat)
      requires pr.Valid() && n <= buf.Length && stdout == Header(pr) + body
      modifies this`stdout, this`body
      ensures body == old(body) + buf[..n] && stdout == Header(pr) + body
    {
      var bp := 0;
      while bp < n
        invariant bp <= n && body == old(body) + buf[..bp] && stdout == Header(pr) + body
      {
        stdout := stdout + [buf[bp]];
        body := body + [buf[bp]];
        bp := bp + 1;
      }
    }

    /** output(-1): the last group is cut to the bytes it needs. */
    method OutputEof()
      requires Valid()
      modifies this`offset, this`stdout, this`body, this`bytesOut
      ensures stdout == Header(pr) + body && Packs(pr, codes, body)
      ensures old(offset) == 0 ==> Valid() && offset == 0
    {
      ghost var l, body0 := LayoutAfter(pr, codes), body;
      RunKeepsWidth(pr, codes);
      GroupOfEight(l.index + 1, l.nbits);
      if offset > 0 {
        PutBuffer((offset + 7) / 8);
      }
      bytesOut := bytesOut + (offset + 7) / 8;
      offset := 0;
      ghost var n := (l.Filled() + 7) / 8;
      assert body == body0 + buf[..n];
      LastGroup(pr, codes, body0, buf[..], n);
    }
  }

  lemma CodePlaced(pr: Params, codes: seq<nat>, code: nat, body: seq<byte>, was: seq<byte>, now: seq<byte>, offset: nat)
    requires pr.Valid() && ValidCodes(pr, codes) && |was| == |now| && offset <= 8 * |was|
    requires LayoutAfter(pr, codes).start == |body|
    requires offset == LayoutAfter(pr, codes).Filled()
    requires AllInPlace(pr, codes, body + was)
    requires forall p | 0 <= p < offset :: BitAt(now, p) == BitAt(was, p)
    requires FieldAt(now, offset, LayoutAfter(pr, codes).nbits, code)
    ensures AllInPlace(pr, codes + [code], body + now)
  {
    SameTailBits(body, was, now, offset);
    StayInPlace(pr, codes, body + was, body + now);
    FieldInTail(body, now, offset, LayoutAfter(pr, codes).nbits, code);
    AppendInPlace(pr, codes, code, body + now);
  }

  /** Writing out the group, or nothing, keeps every code in place. */
  lemma GroupFlushed(pr: Params, codes: seq<nat>, body: seq<byte>, buf: seq<byte>, body': seq<byte>, n: nat)
    requires pr.Valid() && ValidCodes(pr, codes) && |buf| == 16 && n <= 16
    requires AllInPlace(pr, codes, body + buf)
    requires body' == body || body' == body + buf[..n]
    requires LayoutAfter(pr, codes).Offset() <= 8 * (|body| + n)
    ensures AllInPlace(pr, codes, body' + buf)
  {
    var z, z' := body + buf, body' + buf;
    assert z[..|body| + n] == body + buf[..n] == z'[..|body| + n];
    SameBytesSameBits(z, z', |body| + n);
    StayInPlace(pr, codes, z, z');
  }

  lemma LastGroup(pr: Params, codes: seq<nat>, body: seq<byte>, buf: seq<byte>, n: nat)
    requires pr.Valid() && ValidCodes(pr, codes) && |buf| == 16 && n <= 16
    requires AllInPlace(pr, codes, body + buf)
    requires LayoutAfter(pr, codes).Offset() <= 8 * (|body| + n)
    ensures AllInPlace(pr, codes, body + buf[..n])
  {
    var z, z' := body + buf, body + buf[..n];
    assert z[..|body| + n] == body + buf[..n] == z'[..|body| + n];
    SameBytesSameBits(z, z', |body| + n);
    StayInPlace(pr, codes, z, z');
  }

  // ----- the string table and the input

  /** The hash table holds the strings of the codes from First() on, and has room left. */
  ghost predicate TableHolds(pr: Params, freeEnt: nat, strings: seq<seq<byte>>, h: seq<int>, codetab: seq<nat>)
    requires |h| == |codetab| == HSIZE
  {
    && pr.First() <= freeEnt == |strings| <= pr.MaxMaxCode()
    && SlotsSound(strings, h, codetab, pr.MaxMaxCode())
    && |Occupied(h)| <= freeEnt - pr.First()
  }

  /** The input read so far is what the codes sent stand for, followed by the string of ent. */
  ghost predicate InStep(pr: Params, codes: seq<nat>, strings: seq<seq<byte>>, ent: nat, read: seq<byte>) {
    Ahead(pr, Run(pr, codes), strings, ent) && read == Run(pr, codes).out + strings[ent]
  }

  lemma EmptyTable(pr: Params, h: seq<int>, codetab: seq<nat>)
    requires pr.Valid() && |h| == |codetab| == HSIZE && forall s | 0 <= s < HSIZE :: h[s] == -1
    ensures TableHolds(pr, pr.First(), Base(pr), h, codetab)
  {
    Pow2Values();
    Pow2Mono(9, pr.maxbits);
    assert Occupied(h) == {};
  }

  lemma MaxMaxCodeBounds(pr: Params)
    requires pr.Valid()
    ensures 512 <= pr.MaxMaxCode() <= 65536
  {
    Pow2Values();
    Pow2Mono(9, pr.maxbits);
    Pow2Mono(pr.maxbits, 16);
  }

  /** A hit lengthens the current string by the character read. */
  lemma HitExtends(pr: Params, codes: seq<nat>, freeEnt: nat, strings: seq<seq<byte>>, h: seq<int>, codetab: seq<nat>,
                   slot: nat, c: byte, ent: nat, read: seq<byte>)
    requires pr.Valid() && |h| == |codetab| == HSIZE && slot < HSIZE
    requires TableHolds(pr, freeEnt, strings, h, codetab) && InStep(pr, codes, strings, ent, read)
    requires h[slot] == Fcode(pr.MaxMaxCode(), c, ent)
    ensures InStep(pr, codes, strings, codetab[slot], read + [c])
  {
    MaxMaxCodeBounds(pr);
    HomeOfFcode(pr.MaxMaxCode(), c, ent);
    assert SlotSound(strings, h[slot], codetab[slot], pr.MaxMaxCode());
    assert slot in Occupied(h);
  }

  /** Sending the code of the current string. */
  lemma SendCurrent(pr: Params, codes: seq<nat>, strings: seq<seq<byte>>, ent: nat, read: seq<byte>)
    requires pr.Valid() && ValidCodes(pr, codes) && InStep(pr, codes, strings, ent, read)
    ensures CanFollow(pr, Run(pr, codes), ent)
    ensures Run(pr, codes + [ent]) == Decoded(strings, strings[ent], false, read)
  {
    RunKeepsTable(pr, codes);
    SendEntry(pr, Run(pr, codes), strings, ent);
    Snoc(pr, codes, ent);
  }

  /** Entering the next code in the hash table. */
  lemma StoreHolds(pr: Params, freeEnt: nat, strings: seq<seq<byte>>, h: seq<int>, codetab: seq<nat>,
                   slot: nat, c: byte, ent: nat)
    requires pr.Valid() && |h| == |codetab| == HSIZE && slot < HSIZE
    requires TableHolds(pr, freeEnt, strings, h, codetab) && freeEnt < pr.MaxMaxCode()
    requires ent < freeEnt && strings[ent] != []
    ensures var f := Fcode(pr.MaxMaxCode(), c, ent);
            TableHolds(pr, freeEnt + 1, strings + [strings[ent] + [c]], h[slot := f], codetab[slot := freeEnt])
  {
    var mm := pr.MaxMaxCode();
    var f := Fcode(mm, c, ent);
    MaxMaxCodeBounds(pr);
    HomeOfFcode(mm, c, ent);
    var strings', h', codetab' := strings + [strings[ent] + [c]], h[slot := f], codetab[slot := freeEnt];
    forall s | 0 <= s < |h'| && h'[s] >= 0
      ensures SlotSound(strings', h'[s], codetab'[s], mm)
    {
      if s != slot {
        assert SlotSound(strings, h[s], codetab[s], mm);
      }
    }
    SubsetSize(Occupied(h'), Occupied(h) + {slot});
  }

  /** After sending, the current string is the one character just read. */
  lemma BeginAgain(pr: Params, codes: seq<nat>, strings: seq<seq<byte>>, strings': seq<seq<byte>>, s: seq<byte>,
                   c: byte, read: seq<byte>)
    requires pr.Valid() && ValidCodes(pr, codes) && Run(pr, codes) == Decoded(strings, s, false, read) && s != []
    requires strings' == if |strings| < pr.MaxMaxCode() then strings + [s + [c]] else strings
    ensures InStep(pr, codes, strings', c, read + [c])
  {
    RunKeepsTable(pr, codes);
    assert strings[c] == strings[..256][c] == [c];
  }

  lemma ClearAndBegin(pr: Params, codes: seq<nat>, strings: seq<seq<byte>>, s: seq<byte>, c: byte, read: seq<byte>)
    requires pr.Valid() && pr.block && ValidCodes(pr, codes)
    requires Run(pr, codes) == Decoded(strings, s, false, read) && s != []
    ensures CanFollow(pr, Run(pr, codes), CLEAR) && Run(pr, codes + [CLEAR]).cleared
    ensures InStep(pr, codes + [CLEAR], Base(pr), c, read + [c])
  {
    RunKeepsTable(pr, codes);
    Snoc(pr, codes, CLEAR);
    assert Base(pr)[c] == [c];
  }

  // ----- an input with no pair of characters twice

  ghost predicate PairsDiffer(s: seq<byte>) {
    forall i, j | 0 <= i < j < |s| - 1 :: PairAt(s, i) != PairAt(s, j)
  }

  function PairAt(s: seq<byte>, i: nat): seq<byte>
    requires i + 1 < |s|
  {
    [s[i], s[i + 1]]
  }

  /** Each character read but the last has been sent by itself, and the strings entered are pairs
      of characters read. */
  ghost predicate OneByOne(pr: Params, codes: seq<nat>, strings: seq<seq<byte>>, ent: nat, read: seq<byte>) {
    && read != [] && codes == read[..|read| - 1] && ent == read[|read| - 1]
    && Base(pr) <= strings
    && (forall k | |Base(pr)| <= k < |strings| :: IsPair(read, strings[k]))
  }

  ghost predicate IsPair(s: seq<byte>, t: seq<byte>) {
    exists i: nat :: i + 1 < |s| && t == PairAt(s, i)
  }

  /** So a longer string is never found. */
  lemma NoHit(pr: Params, codes: seq<nat>, strings: seq<seq<byte>>, ent: nat, read: seq<byte>, c: byte, code: nat)
    requires OneByOne(pr, codes, strings, ent, read) && PairsDiffer(read + [c]) && code < |strings|
    ensures strings[code] != strings[ent] + [c]
  {
    var n := |read| - 1;
    assert strings[ent] == Base(pr)[ent] == [read[n]];
    assert PairAt(read + [c], n) == strings[ent] + [c];
    if code < |Base(pr)| {
      assert strings[code] == Base(pr)[code];
    } else {
      assert IsPair(read, strings[code]);
      var i: nat :| i + 1 < |read| && strings[code] == PairAt(read, i);
      assert PairAt(read + [c], i) == PairAt(read, i);
    }
  }

  lemma OneMoreSent(pr: Params, codes: seq<nat>, strings: seq<seq<byte>>, strings': seq<seq<byte>>, ent: nat, read: seq<byte>, c: byte)
    requires OneByOne(pr, codes, strings, ent, read)
    requires strings' == strings || strings' == strings + [strings[ent] + [c]]
    ensures OneByOne(pr, codes + [ent], strings', c, read + [c])
  {
    var n, more := |read| - 1, read + [c];
    assert strings[ent] == Base(pr)[ent] == [read[n]];
    assert more[..|more| - 1] == read && read == read[..n] + [read[n]];
    forall k | |Base(pr)| <= k < |strings'|
      ensures IsPair(more, strings'[k])
    {
      if k < |strings| {
        assert IsPair(read, strings[k]);
        var i: nat :| i + 1 < |read| && strings[k] == PairAt(read, i);
        assert strings'[k] == PairAt(more, i);
      } else {
        assert strings'[k] == PairAt(more, n);
      }
    }
  }

  lemma StartsOneByOne(pr: Params, c: byte)
    ensures OneByOne(pr, [], Base(pr), c, [c])
  {
  }

  /** The beginning of cl_block(). */
  method CurrentRatio(inCount: nat, bytesOut: nat) returns (rat: int)
    requires bytesOut > 0
    ensures rat == Ratio(inCount, bytesOut)
  {
    if inCount > 0x007fffff {
      rat := bytesOut / 256;
      if rat == 0 {
        rat := 0x7fffffff;
      } else {
        rat := inCount / rat;
      }
    } else {
      rat := inCount * 256 / bytesOut;
    }
  }

  class Compressor {
    const pr: Params
    const out: Writer
    const table: HashTable
    var freeEnt: nat
    var inCount: nat
    var ratio: int
    var checkpoint: int
    ghost var strings: seq<seq<byte>>   // what the codes of the table stand for

    ghost predicate Valid()
      reads this, out, out.buf, table, table.htab, table.codetab
    {
      && pr.Valid() && out.pr == pr && table.mm == pr.MaxMaxCode() && Separate()
      && out.Valid() && table.Valid()
      && TableHolds(pr, freeEnt, strings, table.htab[..], table.codetab[..]) && Knows(pr, strings, table.htab[..])
    }

    ghost predicate Separate()
      reads this
    {
      && out.buf as object != table.htab && out.buf as object != table.codetab
      && table.htab as object != table.codetab && out as object != this && table as object != this
      && out as object != table
    }

    constructor (pr: Params)
      requires pr.Valid()
      ensures this.pr == pr && Valid() && fresh(out) && fresh(out.buf)
      ensures fresh(table) && fresh(table.htab) && fresh(table.codetab)
      ensures strings == Base(pr) && out.codes == [] && out.offset == 0
      ensures inCount == 1 && checkpoint == CHECK_GAP && ratio == 0
    {
      MaxMaxCodeBounds(pr);
      this.pr := pr;
      out := new Writer(pr);
      table := new HashTable(pr.MaxMaxCode());
      freeEnt := if pr.block then 257 else 256;
      inCount := 1;
      ratio := 0;
      checkpoint := CHECK_GAP;
      strings := Base(pr);
      new;
      table.Clear();
      EmptyTable(pr, table.htab[..], table.codetab[..]);
      KnowsBase(pr, table.htab[..]);
    }

    /** cl_block(): decide by the compression ratio so far whether to start a new table. */
    method ClBlock(ghost s: seq<byte>, ghost c: byte, ghost read: seq<byte>)
      requires Valid() && pr.block && s != []
      requires Run(pr, out.codes) == Decoded(strings, s, false, read) && |strings| == pr.MaxMaxCode()
      modifies this, out, out.buf, table, table.htab
      ensures Valid() && InStep(pr, out.codes, strings, c, read + [c])
      ensures inCount == old(inCount) && checkpoint == inCount + CHECK_GAP
      ensures var rat := Ratio(inCount, old(out.bytesOut));
              && ratio == (if rat > old(ratio) then rat else 0)
              && out.codes == old(out.codes) + if rat > old(ratio) then [] else [CLEAR]
    {
      hide InStep, Base, ValidCodes, Step, Header, Knows, Ratio;
      checkpoint := inCount + CHECK_GAP;
      var rat := CurrentRatio(inCount, out.bytesOut);
      if rat > ratio {
        ratio := rat;
        BeginAgain(pr, out.codes, strings, strings, s, c, read);
      } else {
        ClearAndBegin(pr, out.codes, strings, s, c, read);
        ratio := 0;
        table.Clear();
        freeEnt := 257;
        strings := Base(pr);
        EmptyTable(pr, table.htab[..], table.codetab[..]);
        KnowsBase(pr, table.htab[..]);
        out.Output(CLEAR, freeEnt, true);
      }
    }

    /** checkpoint and ratio */
    ghost function Now(): Watch
      reads this
    {
      Watch(checkpoint, ratio)
    }

    /** codetab[i] = free_ent++ and htab[i] = fcode */
    method Enter(ent: nat, c: byte, slot: nat, ghost probes: nat)
      requires Valid() && freeEnt < pr.MaxMaxCode() && ent < |strings| && strings[ent] != []
      requires table.CanStore(Fcode(table.mm, c, ent), slot, probes)
      modifies this`freeEnt, this`strings, table, table.htab, table.codetab
      ensures Valid() && strings == old(strings) + [old(strings)[ent] + [c]]
    {
      hide Knows, SlotsSound;
      ghost var h := table.htab[..];
      StoreHolds(pr, freeEnt, strings, h, table.codetab[..], slot, c, ent);
      table.Store(Fcode(table.mm, c, ent), slot, freeEnt, probes);
      KnowsMore(pr, strings, h, table.htab[..], ent, c);
      strings := strings + [strings[ent] + [c]];
      freeEnt := freeEnt + 1;
    }

    /** nomatch: send the code, enter the longer string, and begin again with c. */
    method NoMatch(ent: nat, c: byte, slot: nat, ghost probes: nat, ghost read: seq<byte>, ghost input: seq<byte>)
      requires Valid() && InStep(pr, out.codes, strings, ent, read)
      requires table.CanStore(Fcode(table.mm, c, ent), slot, probes)
      requires inCount == |read| + 1 && SentWell(pr, out.codes, input, Now()) && read + [c] <= input
      modifies this, out, out.buf, table, table.htab, table.codetab
      ensures Valid() && InStep(pr, out.codes, strings, c, read + [c])
      ensures inCount == old(inCount) && SentWell(pr, out.codes, input, Now())
      ensures out.codes == old(out.codes) + [ent] || out.codes == old(out.codes) + [ent] + [CLEAR]
      ensures old(inCount) < old(checkpoint) ==>
                && checkpoint == old(checkpoint) && out.codes == old(out.codes) + [ent]
                && (strings == old(strings) || strings == old(strings) + [old(strings)[ent] + [c]])
    {
      hide Run, SlotsSound, CanFollow, ValidCodes, Knows, SentWell, Ratio, Looks, TakenUp, RatioAfter, LayoutAfter;
      ghost var s, w, codes, strings0 := strings[ent], Now(), out.codes, strings;
      SendCurrent(pr, out.codes, strings, ent, read);
      LongestIsSent(pr, codes, strings, table.htab[..], ent, c, read, input, w);
      out.Output(ent, freeEnt, false);
      if freeEnt < pr.MaxMaxCode() {
        BeginAgain(pr, out.codes, strings, strings + [s + [c]], s, c, read);
        Enter(ent, c, slot, probes);
      } else if inCount >= checkpoint && pr.block {
        BytesSent(out);
        ghost var bytes, sent := out.bytesOut, out.codes;
        ClBlock(s, c, read);
        ClearIsDue(pr, sent, strings0, s, read, bytes, input, w, out.codes, Now());
      } else {
        BeginAgain(pr, out.codes, strings, strings, s, c, read);
      }
    }

    /** One turn of the loop of compress(): look the longer string up. */
    method NextChar(ent: nat, c: byte, ghost read: seq<byte>, ghost input: seq<byte>) returns (ent': nat)
      requires Valid() && InStep(pr, out.codes, strings, ent, read)
      requires inCount == |read| && SentWell(pr, out.codes, input, Now()) && read + [c] <= input
      modifies this, out, out.buf, table, table.htab, table.codetab
      ensures Valid() && InStep(pr, out.codes, strings, ent', read + [c])
      ensures inCount == old(inCount) + 1 && SentWell(pr, out.codes, input, Now())
      ensures old(OneByOne(pr, out.codes, strings, ent, read)) && PairsDiffer(read + [c]) && inCount < old(checkpoint) ==>
                checkpoint == old(checkpoint) && OneByOne(pr, out.codes, strings, ent', read + [c])
    {
      hide OneByOne, PairsDiffer, SentWell, Knows;
      inCount := inCount + 1;
      var hit, slot, probes := table.Find(c, ent);
      if hit {
        HitExtends(pr, out.codes, freeEnt, strings, table.htab[..], table.codetab[..], slot, c, ent, read);
        ent' := table.codetab[slot];
        if OneByOne(pr, out.codes, strings, ent, read) && PairsDiffer(read + [c]) {
          SameStep(pr, out.codes, strings, ent, ent', read, c);
          NoHit(pr, out.codes, strings, ent, read, c, ent');
        }
      } else {
        ghost var codes, before := out.codes, strings;
        NoMatch(ent, c, slot, probes, read, input);
        ent' := c;
        if OneByOne(pr, codes, before, ent, read) && inCount < old(checkpoint) {
          OneMoreSent(pr, codes, before, strings, ent, read, c);
        }
      }
    }

    /** compress(): the bytes written after the header pack a valid code sequence, and that
        sequence stands for the input, each code for the longest string there is. */
    method Compress(input: seq<byte>)
      requires Valid() && strings == Base(pr) && out.codes == [] && out.offset == 0
      requires inCount == 1 && checkpoint == CHECK_GAP && ratio == 0
      modifies this, out, out.buf, table, table.htab, table.codetab
      ensures out.stdout == Header(pr) + out.body
      ensures Packs(pr, out.codes, out.body) && Run(pr, out.codes).out == input
      ensures Greedy(pr, out.codes, input) && ClearsWhenDue(pr, out.codes) && !Run(pr, out.codes).cleared
      ensures PairsDiffer(input) && |input| < CHECK_GAP ==> out.codes == input
    {
      hide OneByOne, SentWell, Knows, Greedy, ClearsWhenDue, PairsDiffer, InStep, TableHolds, LayoutAfter, Run, Header;
      SentNothing(pr, input);
      if input == [] {
        // the first getchar() gives EOF, -1, and so output() gets it twice
        out.OutputEof();
        out.OutputEof();
        return;
      }
      var ent: nat := input[0];
      var pos := 1;
      ghost var read := [input[0]];
      Begin(pr, input[0]);
      StartsOneByOne(pr, input[0]);
      TakeMore(input, 0);
      while pos < |input|
        invariant Valid() && InStep(pr, out.codes, strings, ent, read)
        invariant 1 <= pos <= |input| && read == input[..pos] && inCount == pos
        invariant SentWell(pr, out.codes, input, Now())
        invariant PairsDiffer(input) && |input| < CHECK_GAP ==>
                    checkpoint == CHECK_GAP && OneByOne(pr, out.codes, strings, ent, read)
      {
        TakeMore(input, pos);
        PairsBefore(input, pos + 1);
        ent := NextChar(ent, input[pos], read, input);
        read := read + [input[pos]];
        pos := pos + 1;
      }
      LastSent(pr, out.codes, strings, ent, read);
      assert read == input;
      Finish(ent, input);
    }

    /** The final code. */
    method Finish(ent: nat, ghost input: seq<byte>)
      requires Valid() && InStep(pr, out.codes, strings, ent, input) && SentWell(pr, out.codes, input, Now())
      modifies out, out.buf
      ensures out.stdout == Header(pr) + out.body
      ensures Packs(pr, out.codes, out.body) && Run(pr, out.codes).out == input
      ensures out.codes == old(out.codes) + [ent]
      ensures Greedy(pr, out.codes, input) && ClearsWhenDue(pr, out.codes) && !Run(pr, out.codes).cleared
    {
      hide Knows;
      SendCurrent(pr, out.codes, strings, ent, input);
      GreedyMore(pr, out.codes, ent, input);
      ClearsMore(pr, out.codes, ent);
      out.Output(ent, freeEnt, false);
      out.OutputEof();
    }
  }

  // ----- what has been sent

  /** The codes sent are the longest and cleared when due, and w is what cl_block() goes by. */
  ghost predicate SentWell(pr: Params, codes: seq<nat>, input: seq<byte>, w: Watch) {
    Greedy(pr, codes, input) && ClearsWhenDue(pr, codes) && !ClearDue(pr, codes) && w == WatchAfter(pr, codes)
  }

  lemma SentNothing(pr: Params, input: seq<byte>)
    ensures SentWell(pr, [], input, Watch(CHECK_GAP, 0)) && Greedy(pr, [], input) && ClearsWhenDue(pr, [])
    ensures Run(pr, []).out == [] && !Run(pr, []).cleared
  {
  }

  /** The code of the current string is sent when the longer one is not known; what cl_block() goes by
      does not change unless it looks. */
  lemma LongestIsSent(pr: Params, codes: seq<nat>, strings: seq<seq<byte>>, h: seq<int>, ent: nat, c: byte,
                      read: seq<byte>, input: seq<byte>, w: Watch)
    requires SentWell(pr, codes, input, w) && Knows(pr, strings, h) && ent < |strings| && strings[ent] != []
    requires Run(pr, codes + [ent]) == Decoded(strings, strings[ent], false, read)
    requires Fcode(pr.MaxMaxCode(), c, ent) !in h && read + [c] <= input
    ensures Greedy(pr, codes + [ent], input) && ClearsWhenDue(pr, codes + [ent])
    ensures w == WatchAfter(pr, (codes + [ent])[..|codes|])
    ensures !(pr.block && |strings| == pr.MaxMaxCode() && |read| + 1 >= w.checkpoint) ==> SentWell(pr, codes + [ent], input, w)
  {
    hide Knows, Ratio, Run, LayoutAfter;
    assert input[|read|] == (read + [c])[|read|] == c;
    MissMeansNew(pr, strings, h, ent, c);
    GreedyMore(pr, codes, ent, input);
    ClearsMore(pr, codes, ent);
    WatchMore(pr, codes, ent);
    assert (codes + [ent])[..|codes|] == codes;
  }

  lemma BytesSent(out: Writer)
    requires out.Valid()
    ensures out.bytesOut == 3 + LayoutAfter(out.pr, out.codes).start
  {
  }

  /** cl_block() has looked at the ratio. */
  lemma ClearIsDue(pr: Params, codes: seq<nat>, strings: seq<seq<byte>>, s: seq<byte>, read: seq<byte>, bytes: nat,
                   input: seq<byte>, w: Watch, codes': seq<nat>, w': Watch)
    requires codes != [] && Greedy(pr, codes, input) && ClearsWhenDue(pr, codes) && w == WatchAfter(pr, codes[..|codes| - 1])
    requires Run(pr, codes) == Decoded(strings, s, false, read) && bytes == 3 + LayoutAfter(pr, codes).start
    requires pr.block && s != [] && |strings| == pr.MaxMaxCode() && |read| + 1 >= w.checkpoint
    requires var rat := Ratio(|read| + 1, bytes);
             && w' == Watch(|read| + 1 + CHECK_GAP, if rat > w.ratio then rat else 0)
             && codes' == codes + if rat > w.ratio then [] else [CLEAR]
    ensures SentWell(pr, codes', input, w')
  {
    hide Ratio, LayoutAfter, Run, Greedy, ClearsWhenDue, CHECK_GAP;
    Looked(pr, codes, strings, s, read, bytes, w);
    if Ratio(|read| + 1, bytes) > w.ratio {
      assert codes' == codes;
    } else {
      ClearSent(pr, codes, input);
      assert codes' == codes + [CLEAR];
    }
  }

  lemma Looked(pr: Params, codes: seq<nat>, strings: seq<seq<byte>>, s: seq<byte>, read: seq<byte>, bytes: nat, w: Watch)
    requires codes != [] && w == WatchAfter(pr, codes[..|codes| - 1])
    requires Run(pr, codes) == Decoded(strings, s, false, read) && bytes == 3 + LayoutAfter(pr, codes).start
    requires pr.block && s != [] && |strings| == pr.MaxMaxCode() && |read| + 1 >= w.checkpoint
    ensures var rat := Ratio(|read| + 1, bytes);
            && WatchAfter(pr, codes) == Watch(|read| + 1 + CHECK_GAP, if rat > w.ratio then rat else 0)
            && (ClearDue(pr, codes) <==> rat <= w.ratio)
  {
    hide Ratio, LayoutAfter, Run, WatchAfter, ClearDue, Looks, TakenUp, RatioAfter;
    LooksNow(pr, codes, strings, s, read, w);
    var front := codes[..|codes| - 1];
    assert codes == front + [codes[|codes| - 1]];
    WatchMore(pr, front, codes[|codes| - 1]);
  }

  lemma LooksNow(pr: Params, codes: seq<nat>, strings: seq<seq<byte>>, s: seq<byte>, read: seq<byte>, w: Watch)
    requires Run(pr, codes) == Decoded(strings, s, false, read)
    ensures TakenUp(pr, codes) == |read| + 1
    ensures RatioAfter(pr, codes) == Ratio(|read| + 1, 3 + LayoutAfter(pr, codes).start)
    ensures Looks(pr, codes, w) <==> pr.block && s != [] && |strings| == pr.MaxMaxCode() && |read| + 1 >= w.checkpoint
  {
  }

  lemma ClearSent(pr: Params, codes: seq<nat>, input: seq<byte>)
    requires pr.block && Run(pr, codes).prev != []
    requires Greedy(pr, codes, input) && ClearsWhenDue(pr, codes) && ClearDue(pr, codes)
    ensures SentWell(pr, codes + [CLEAR], input, WatchAfter(pr, codes))
  {
    hide LayoutAfter, Run, Greedy, ClearsWhenDue;
    Snoc(pr, codes, CLEAR);
    GreedyMore(pr, codes, CLEAR, input);
    ClearsMore(pr, codes, CLEAR);
    WatchMore(pr, codes, CLEAR);
  }

  lemma SameStep(pr: Params, codes: seq<nat>, strings: seq<seq<byte>>, ent: nat, ent': nat, read: seq<byte>, c: byte)
    requires InStep(pr, codes, strings, ent, read) && InStep(pr, codes, strings, ent', read + [c])
    ensures ent < |strings| && ent' < |strings| && strings[ent'] == strings[ent] + [c]
  {
    var done := Run(pr, codes).out;
    assert (done + strings[ent]) + [c] == done + (strings[ent] + [c]);
    assert strings[ent'] == (done + strings[ent'])[|done|..];
    assert strings[ent] + [c] == (done + (strings[ent] + [c]))[|done|..];
  }

  lemma PairsBefore(s: seq<byte>, n: nat)
    requires n <= |s|
    ensures PairsDiffer(s) ==> PairsDiffer(s[..n])
  {
    forall i, j | 0 <= i < j < n - 1 && PairsDiffer(s)
      ensures PairAt(s[..n], i) != PairAt(s[..n], j)
    {
      assert PairAt(s, i) != PairAt(s, j);
    }
  }

  lemma LastSent(pr: Params, codes: seq<nat>, strings: seq<seq<byte>>, ent: nat, read: seq<byte>)
    ensures OneByOne(pr, codes, strings, ent, read) ==> codes + [ent] == read
  {
  }

  lemma TakeMore<T>(s: seq<T>, i: nat)
    requires i < |s|
    ensures s[..i + 1] == s[..i] + [s[i]]
  {
  }

  lemma Begin(pr: Params, c: byte)
    ensures InStep(pr, [], Base(pr), c, [c])
  {
    assert Base(pr)[c] == [c];
  }
}
