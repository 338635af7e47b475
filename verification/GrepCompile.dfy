/** compile() of grep.c. */
module GrepCompile {
  import opened Bits
  import opened GrepPattern

  /** astr[i], with the NUL behind the last character. */
  function At(p: seq<Ch>, i: nat): int
    requires i <= |p|
  {
    if i < |p| then p[i] else 0
  }

  // ----- classes

  ghost predicate MapIs(m: seq<int>, s: set<int>) {
    Bytes(m) && forall c: nat | c < 128 :: HasBit(m, c) <==> c in s
  }

  /** ep[c>>3] |= bittab[c&07] */
  function SetBit(m: seq<int>, c: nat): seq<int>
    requires Bytes(m) && c < 128
  {
    m[c / 8 := WithBit(m[c / 8], c % 8)]
  }

  lemma SetBitHas(m: seq<int>, c: nat, d: nat)
    requires Bytes(m) && c < 128 && d < 128
    ensures Bytes(SetBit(m, c)) && (HasBit(SetBit(m, c), d) <==> d == c || HasBit(m, d))
  {
    WithBitSets(m[c / 8], c % 8, d % 8);
    assert d == 8 * (d / 8) + d % 8 && c == 8 * (c / 8) + c % 8;
  }

  /** In the course of a range, s and the characters from lo before c are set. */
  ghost predicate MapAdds(m: seq<int>, s: set<int>, lo: int, c: int) {
    Bytes(m) && forall d: nat | d < 128 :: HasBit(m, d) <==> d in s || lo <= d < c
  }

  lemma AddBit(m: seq<int>, s: set<int>, lo: int, c: nat)
    requires MapAdds(m, s, lo, c) && lo <= c < 128
    ensures MapAdds(SetBit(m, c), s, lo, c + 1)
  {
    forall d: nat | d < 128
      ensures Bytes(SetBit(m, c)) && (HasBit(SetBit(m, c), d) <==> d in s || lo <= d < c + 1)
    {
      SetBitHas(m, c, d);
    }
    SetBitHas(m, c, c);
  }

  lemma StartRange(m: seq<int>, s: set<int>, lo: int)
    requires MapIs(m, s)
    ensures MapAdds(m, s, lo, lo)
  {
  }

  lemma EndRange(m: seq<int>, s: set<int>, lo: int, hi: int)
    requires MapAdds(m, s, lo, (if lo < hi then hi else lo) + 1)
    ensures MapIs(m, s + Range(lo, hi))
  {
  }

  lemma EndOne(m: seq<int>, s: set<int>, c: int)
    requires MapAdds(m, s, c, c + 1)
    ensures MapIs(m, s + {c})
  {
  }

  lemma NoBits()
    ensures MapIs(seq(16, _ => 0), {})
  {
    var z := seq(16, _ => 0);
    forall c: nat | c < 128
      ensures !HasBit(z, c)
    {
      ZeroHasNoBits(c % 8);
    }
  }

  /** The loop of case '[' that turns all bits over, and NUL out. */
  method Complement(m: seq<int>, ghost s: set<int>) returns (r: seq<int>)
    requires MapIs(m, s) && Chars(s)
    ensures MapIs(r, AllBut(s))
  {
    r := m;
    var k: nat := 0;
    while k < 16
      invariant k <= 16 && |r| == 16
      invariant forall i | 0 <= i < 16 :: r[i] == if i < k then 255 - m[i] else m[i]
    {
      r := r[k := 255 - r[k]];
      k := k + 1;
    }
    r := r[0 := WithoutBit(r[0], 0)];
    Complemented(m, r, s);
  }

  lemma Complemented(m: seq<int>, r: seq<int>, s: set<int>)
    requires MapIs(m, s) && Chars(s) && |r| == 16 && r[0] == WithoutBit(255 - m[0], 0)
    requires forall i | 1 <= i < 16 :: r[i] == 255 - m[i]
    ensures MapIs(r, AllBut(s))
  {
    forall c: nat | c < 128
      ensures HasBit(r, c) <==> c in AllBut(s)
    {
      assert 0 <= c / 8 < 16;
      ComplementBit(m[c / 8], c % 8);
      WithoutBitClears(255 - m[0], 0, c % 8);
      assert HasBit(m, c) <==> c in s;
    }
  }

  lemma ComplementBit(b: nat, j: nat)
    requires b < 256 && j < 8
    ensures Bit(255 - b, j) == !Bit(b, j)
  {
    OneByte(b);
    Pow2Values();
    BitOfComplement(b, 8, j);
  }

  /** ReadClass from the start of the class whose bracket stands at i. */
  function ClassFrom(p: seq<Ch>, i: nat): ClassText
    requires i < |p|
  {
    ReadClass(p, if Negated(p, i) then i + 2 else i + 1, true, {})
  }

  /** The state at the head of the do loop: c has just been read, sp stands behind it. */
  ghost predicate InClass(p: seq<Ch>, sp: nat, cstart: nat, c: int, s: set<int>, whole: ClassText) {
    && 1 < cstart <= sp <= |p| + 1 && c == At(p, sp - 1) && Chars(s)
    && ReadClass(p, sp - 1, sp == cstart, s) == whole && !whole.Overrun?
  }

  /** A dash between two characters: the range is set, and the next character read. */
  lemma RangeRead(p: seq<Ch>, sp: nat, cstart: nat, s: set<int>, whole: ClassText)
    requires InClass(p, sp, cstart, DASH, s, whole) && sp > cstart && sp <= |p| && At(p, sp) != CLOSE
    ensures sp < |p| && whole == ReadMore(p, sp + 1, s + Range(p[sp - 2], p[sp])) && Chars(s + Range(p[sp - 2], p[sp]))
  {
  }

  lemma OneRead(p: seq<Ch>, sp: nat, cstart: nat, c: int, s: set<int>, whole: ClassText)
    requires InClass(p, sp, cstart, c, s, whole) && c != 0 && !(c == DASH && sp > cstart && sp <= |p| && At(p, sp) != CLOSE)
    ensures sp <= |p| && c == p[sp - 1] && whole == ReadMore(p, sp, s + {c}) && Chars(s + {c})
  {
  }

  lemma NextRead(p: seq<Ch>, sp: nat, cstart: nat, s: set<int>, whole: ClassText)
    requires 1 < cstart <= sp <= |p| && Chars(s) && whole == ReadMore(p, sp, s) && !whole.Overrun?
    ensures if At(p, sp) == CLOSE then whole == Closed(s, sp + 1) else InClass(p, sp + 1, cstart, At(p, sp), s, whole)
  {
  }

  /** case '[': the map of the class whose bracket stands at i, and the place behind it. */
  method Bracket(p: seq<Ch>, i: nat) returns (ok: bool, m: seq<int>, next: nat)
    requires i < |p| && p[i] == BRACKET && !ClassFrom(p, i).Overrun?
    ensures ok <==> ClassFrom(p, i).Closed?
    ensures ok ==> next == ClassFrom(p, i).next
    ensures ok ==> m == MapOf(if Negated(p, i) then AllBut(ClassFrom(p, i).chars) else ClassFrom(p, i).chars)
  {
    hide ReadClass, ReadMore, InClass, MapIs, MapAdds, Bytes, Range, MapOf, Chars;
    ghost var whole := ClassFrom(p, i);
    m := seq(16, _ => 0);
    NoBits();
    var sp: nat := i + 1;
    var neg := false;
    var c := At(p, sp);
    sp := sp + 1;
    if c == CARET {
      neg := true;
      c := At(p, sp);
      sp := sp + 1;
    }
    var cstart := sp;
    ghost var s: set<int> := {};
    StartClass(p, i, sp);
    while true
      invariant InClass(p, sp, cstart, c, s, whole) && MapIs(m, s) && 1 < cstart <= sp <= |p| + 1
      decreases |p| + 1 - sp
    {
      if c == 0 {
        EndsOpen(p, sp, cstart, s, whole);
        return false, m, sp;
      }
      NotAtEnd(p, sp, cstart, c, s, whole);
      if c == DASH && sp > cstart && At(p, sp) != CLOSE {
        RangeRead(p, sp, cstart, s, whole);
        m := SetRange(m, s, p[sp - 2], p[sp]);
        s := s + Range(p[sp - 2], p[sp]);
        sp := sp + 1;
      } else {
        OneRead(p, sp, cstart, c, s, whole);
        m := SetOne(m, s, c);
        s := s + {c};
      }
      NextRead(p, sp, cstart, s, whole);
      c := At(p, sp);
      sp := sp + 1;
      if c == CLOSE {
        break;
      }
    }
    ok, next := true, sp;
    ClosedChars(p, i);
    if neg {
      m := Complement(m, s);
      Unique(m, AllBut(s));
    } else {
      Unique(m, s);
    }
  }

  /** The bits of a range: those before its end one by one, and the last. */
  method SetRange(m: seq<int>, ghost s: set<int>, lo: Ch, hi: Ch) returns (r: seq<int>)
    requires MapIs(m, s)
    ensures MapIs(r, s + Range(lo, hi))
  {
    hide MapIs, MapAdds;
    r := m;
    StartRange(m, s, lo);
    var c: nat := lo;
    AddsBytes(r, s, lo, c);
    while c < hi
      invariant lo <= c <= if lo < hi then hi else lo
      invariant MapAdds(r, s, lo, c) && Bytes(r)
    {
      AddBit(r, s, lo, c);
      r := SetBit(r, c);
      c := c + 1;
      AddsBytes(r, s, lo, c);
    }
    AddBit(r, s, lo, c);
    r := SetBit(r, c);
    EndRange(r, s, lo, hi);
  }

  method SetOne(m: seq<int>, ghost s: set<int>, c: Ch) returns (r: seq<int>)
    requires MapIs(m, s)
    ensures MapIs(r, s + {c})
  {
    hide MapAdds;
    StartRange(m, s, c);
    AddBit(m, s, c, c);
    r := SetBit(m, c);
    EndOne(r, s, c);
  }

  lemma AddsBytes(m: seq<int>, s: set<int>, lo: int, c: int)
    requires MapAdds(m, s, lo, c)
    ensures Bytes(m)
  {
  }

  lemma StartClass(p: seq<Ch>, i: nat, sp: nat)
    requires i < |p| && !ClassFrom(p, i).Overrun? && sp == if Negated(p, i) then i + 3 else i + 2
    ensures InClass(p, sp, sp, At(p, sp - 1), {}, ClassFrom(p, i))
  {
  }

  lemma NotAtEnd(p: seq<Ch>, sp: nat, cstart: nat, c: int, s: set<int>, whole: ClassText)
    requires InClass(p, sp, cstart, c, s, whole) && c != 0
    ensures sp <= |p| && 0 < c < 128
  {
  }

  lemma EndsOpen(p: seq<Ch>, sp: nat, cstart: nat, s: set<int>, whole: ClassText)
    requires InClass(p, sp, cstart, 0, s, whole)
    ensures whole.Unclosed?
  {
  }

  lemma ClosedChars(p: seq<Ch>, i: nat)
    requires i < |p|
    ensures ClassFrom(p, i).Closed? ==> Chars(ClassFrom(p, i).chars)
  {
  }

  lemma Unique(m: seq<int>, s: set<int>)
    requires MapIs(m, s)
    ensures m == MapOf(s)
  {
    MapIsUnique(s, m);
  }

  // ----- the whole pattern

  /** The last item: there is none that can be starred, this one can, or the pattern has ended. */
  datatype Last = Nothing | Open(kind: Kind, starred: bool) | Ended

  function LastItem(k: Kind, starred: bool): Item {
    if starred then Star(k) else One(k)
  }

  /** The pattern read on from i, with the last item if it may still get its star. */
  ghost function Rest(p: seq<Ch>, i: nat, last: Last): Parsed
    requires i <= |p|
  {
    match last
    case Nothing => ParseAt(p, i, true)
    case Ended => Items([])
    case Open(k, starred) =>
      var n := Stars(p, i);
      Join([LastItem(k, starred || n > i)], ParseAt(p, n, false))
  }

  /** compile() has come to place sp with this code: the items done and the last one stand there. */
  ghost predicate Compiling(p: seq<Ch>, sp: nat, code: seq<int>, lastep: int, done: seq<Item>, last: Last) {
    && sp <= |p| && Parse(p) == Join(done, Rest(p, sp, last)) && !Parse(p).Foreign?
    && (match last
        case Nothing => lastep == -1 && code == Encode(done)
        case Ended => lastep >= 0 && sp == |p| && code == Encode(done)
        case Open(k, starred) => lastep == |Encode(done)| && code == Encode(done + [LastItem(k, starred)]))
  }

  lemma JoinTwice(a: seq<Item>, b: seq<Item>, r: Parsed)
    ensures Join(a, Join(b, r)) == Join(a + b, r)
  {
    if r.Items? {
      assert (a + b) + r.items == a + (b + r.items);
    }
  }

  lemma Started(p: seq<Ch>)
    requires !Parse(p).Foreign?
    ensures Compiling(p, if Anchored(p) then 1 else 0, [], -1, [], Nothing)
  {
    var r := ParseAt(p, if Anchored(p) then 1 else 0, true);
    assert r.Items? ==> [] + r.items == r.items;
  }

  /** The items there are when no star can come any more. */
  ghost function Settled(done: seq<Item>, last: Last): seq<Item> {
    if last.Open? then done + [LastItem(last.kind, last.starred)] else done
  }

  /** Any other character than an asterisk settles the item before it. */
  lemma Settles(p: seq<Ch>, sp: nat, code: seq<int>, lastep: int, done: seq<Item>, last: Last)
    requires Compiling(p, sp, code, lastep, done, last) && (sp == |p| || p[sp] != ASTERISK)
    ensures code == Encode(Settled(done, last))
    ensures Parse(p) == Join(Settled(done, last), ParseAt(p, sp, last.Nothing?))
  {
    if last.Open? {
      JoinTwice(done, [LastItem(last.kind, last.starred)], ParseAt(p, sp, false));
    }
  }

  /** A new atom goes to the end of the code. */
  lemma AtomRead(p: seq<Ch>, sp: nat, code: seq<int>, lastep: int, done: seq<Item>, last: Last, k: Kind, next: nat)
    requires Compiling(p, sp, code, lastep, done, last) && sp < |p| && p[sp] != ASTERISK && ReadAtom(p, sp) == Got(k, next)
    ensures Compiling(p, next, code + KindCode(k, 0), |code|, Settled(done, last), Open(k, false))
  {
    hide ReadAtom;
    Settles(p, sp, code, lastep, done, last);
    EncodeJoin(Settled(done, last), [One(k)]);
    EncodeOne(One(k));
  }

  /** An asterisk with nothing before it is itself. */
  lemma AsteriskRead(p: seq<Ch>, sp: nat, code: seq<int>, lastep: int, done: seq<Item>)
    requires Compiling(p, sp, code, lastep, done, Nothing) && sp < |p| && p[sp] == ASTERISK
    ensures Compiling(p, sp + 1, code + [CCHR, ASTERISK], -1, done + [One(Char(ASTERISK))], Nothing)
  {
    EncodeJoin(done, [One(Char(ASTERISK))]);
    EncodeOne(One(Char(ASTERISK)));
    JoinTwice(done, [One(Char(ASTERISK))], ParseAt(p, sp + 1, true));
  }

  /** Any other stars the last item. */
  lemma StarRead(p: seq<Ch>, sp: nat, code: seq<int>, lastep: int, done: seq<Item>, k: Kind, starred: bool)
    requires Compiling(p, sp, code, lastep, done, Open(k, starred)) && sp < |p| && p[sp] == ASTERISK
    ensures 0 <= lastep < |code| && code[lastep] == KindCode(k, if starred then STAR else 0)[0]
    ensures Compiling(p, sp + 1, code[lastep := KindCode(k, STAR)[0]], lastep, done, Open(k, true))
  {
    var item := LastItem(k, starred);
    EncodeJoin(done, [item]);
    EncodeOne(item);
    EncodeJoin(done, [Star(k)]);
    EncodeOne(Star(k));
    StarIsOneBit(k, starred);
    assert code == Encode(done) + Encoded(item);
    assert code[lastep := KindCode(k, STAR)[0]] == Encode(done) + Encoded(Star(k));
    assert Stars(p, sp) == Stars(p, sp + 1);
  }

  lemma StarIsOneBit(k: Kind, starred: bool)
    ensures |KindCode(k, STAR)| == |KindCode(k, 0)|
    ensures KindCode(k, STAR) == Encoded(LastItem(k, starred))[0 := KindCode(k, STAR)[0]]
    ensures Encoded(LastItem(k, starred)) == KindCode(k, if starred then STAR else 0)
  {
  }

  lemma EndRead(p: seq<Ch>, code: seq<int>, lastep: int, done: seq<Item>, last: Last)
    requires Compiling(p, |p|, code, lastep, done, last)
    ensures Parse(p) == Items(Settled(done, last)) && code == Encode(Parse(p).items)
  {
    Settles(p, |p|, code, lastep, done, last);
    assert Settled(done, last) + [] == Settled(done, last);
  }

  /** A dollar sign at the end of the pattern. */
  lemma DollarRead(p: seq<Ch>, sp: nat, code: seq<int>, lastep: int, done: seq<Item>, last: Last)
    requires Compiling(p, sp, code, lastep, done, last) && sp + 1 == |p| && p[sp] == DOLLAR
    ensures Compiling(p, sp + 1, code + [CDOL], |code|, Settled(done, last) + [End], Ended)
  {
    Settles(p, sp, code, lastep, done, last);
    EncodeJoin(Settled(done, last), [End]);
    EncodeOne(End);
    assert Settled(done, last) + [End] + [] == Settled(done, last) + [End];
  }

  lemma BrokenRead(p: seq<Ch>, sp: nat, code: seq<int>, lastep: int, done: seq<Item>, last: Last)
    requires Compiling(p, sp, code, lastep, done, last) && sp < |p| && p[sp] != ASTERISK
    ensures ReadAtom(p, sp).Broken? ==> Parse(p).Bad?
    ensures !ReadAtom(p, sp).Outside?
    ensures ReadAtom(p, sp).LineEnd? ==> p[sp] == DOLLAR && sp + 1 == |p|
  {
    hide ReadClass;
    Settles(p, sp, code, lastep, done, last);
  }

  /** The code only grows. */
  lemma TooLong(p: seq<Ch>, sp: nat, code: seq<int>, lastep: int, done: seq<Item>, last: Last)
    requires Compiling(p, sp, code, lastep, done, last) && Parse(p).Items?
    ensures |Encode(Parse(p).items)| >= |code|
  {
    hide Parse, Encoded, KindCode;
    var all := Parse(p).items;
    match last {
      case Ended =>
        assert done + [] == done;
      case Nothing =>
        EncodeJoin(done, ParseAt(p, sp, true).items);
      case Open(k, starred) =>
        var n := Stars(p, sp);
        var tail := ParseAt(p, n, false).items;
        var item := LastItem(k, starred || n > sp);
        assert all == (done + [item]) + tail;
        EncodeJoin(done + [item], tail);
        EncodeJoin(done, [item]);
        EncodeJoin(done, [LastItem(k, starred)]);
        EncodeOne(item);
        EncodeOne(LastItem(k, starred));
        StarIsOneBit(k, starred);
        StarIsOneBit(k, starred || n > sp);
    }
  }

  lemma NotEnded(p: seq<Ch>, sp: nat, code: seq<int>, lastep: int, done: seq<Item>, last: Last)
    requires Compiling(p, sp, code, lastep, done, last) && sp < |p|
    ensures !last.Ended?
  {
  }

  /** x | STAR */
  function OrStar(x: int): int {
    if x % 2 == 1 then x else x + STAR
  }

  lemma OrIsStar(k: Kind, starred: bool)
    ensures OrStar(KindCode(k, if starred then STAR else 0)[0]) == KindCode(k, STAR)[0]
  {
  }

  /** The cases of compile() for an atom that is not at its end: its code, or nothing for an
      RE error. */
  method AtomCode(p: seq<Ch>, i: nat) returns (code: seq<int>, ghost kind: Kind, next: nat)
    requires i < |p| && p[i] != ASTERISK && !ReadAtom(p, i).Outside? && !ReadAtom(p, i).LineEnd?
    ensures code == [] <==> ReadAtom(p, i).Broken?
    ensures code != [] ==> ReadAtom(p, i) == Got(kind, next) && code == KindCode(kind, 0)
  {
    hide ReadClass, MapOf;
    var c := p[i];
    next := i + 1;
    if c == DOT {
      return [CDOT], Any, next;
    }
    if c == BRACKET {
      var ok, m;
      ok, m, next := Bracket(p, i);
      if !ok {
        return [], Any, next;
      }
      kind := ReadAtom(p, i).kind;
      code := [CCL] + m;
      return;
    }
    if c == BACKSLASH {
      c := p[i + 1];
      next := i + 2;
      if c == CLOSES || ONE <= c <= NINE {
        return [], Any, next;
      }
    }
    return [CCHR, c], Char(c), next;
  }

  class Compiler {
    var expbuf: seq<int>
    var circf: bool

    constructor ()
      ensures expbuf == [] && !circf
    {
      expbuf, circf := [], false;
    }

    /** compile(); false is an RE error. */
    method Compile(astr: seq<Ch>) returns (ok: bool)
      requires !circf && !Parse(astr).Foreign?
      modifies this
      ensures ok <==> Parse(astr).Items? && |Encode(Parse(astr).items)| < 256
      ensures ok ==> expbuf == Code(Parse(astr).items) && circf == Anchored(astr)
    {
      hide Compiling, Parse, ReadAtom, Encode, KindCode, ReadClass;
      var sp: nat := 0;
      var lastep := -1;
      expbuf := [];
      Started(astr);
      if At(astr, sp) == CARET {
        circf := true;
        sp := sp + 1;
      }
      ghost var done: seq<Item> := [];
      ghost var last := Nothing;
      while true
        invariant sp <= |astr| && Compiling(astr, sp, expbuf, lastep, done, last) && circf == Anchored(astr)
        invariant lastep >= -1 && (lastep == -1 <==> last.Nothing?)
        decreases |astr| - sp
      {
        if |expbuf| >= ESIZE {
          if Parse(astr).Items? {
            TooLong(astr, sp, expbuf, lastep, done, last);
          }
          return false;
        }
        var c := At(astr, sp);
        if c == 0 {
          EndRead(astr, expbuf, lastep, done, last);
          expbuf := expbuf + [CEOF];
          return true;
        }
        NotEnded(astr, sp, expbuf, lastep, done, last);
        if c == ASTERISK {
          if lastep < 0 {
            AsteriskRead(astr, sp, expbuf, lastep, done);
            expbuf := expbuf + [CCHR, c];
            done := done + [One(Char(ASTERISK))];
          } else {
            StarRead(astr, sp, expbuf, lastep, done, last.kind, last.starred);
            OrIsStar(last.kind, last.starred);
            expbuf := expbuf[lastep := OrStar(expbuf[lastep])];
            last := Open(last.kind, true);
          }
          sp := sp + 1;
          continue;
        }
        if c == DOLLAR && At(astr, sp + 1) == 0 {
          DollarRead(astr, sp, expbuf, lastep, done, last);
          done, last := Settled(done, last) + [End], Ended;
          lastep := |expbuf|;
          expbuf := expbuf + [CDOL];
          sp := sp + 1;
          continue;
        }
        BrokenRead(astr, sp, expbuf, lastep, done, last);
        var atom, kind, next := AtomCode(astr, sp);
        if atom == [] {
          return false;
        }
        AtomRead(astr, sp, expbuf, lastep, done, last, kind, next);
        done, last := Settled(done, last), Open(kind, false);
        lastep := |expbuf|;
        expbuf := expbuf + atom;
        sp := next;
      }
    }
  }
}
