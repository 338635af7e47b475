/** The patterns of grep.c: how they are read, which characters and lines they stand for, and the
    code compile() makes of them. */
module GrepPattern {
  import opened Bits

  /** A character of a line or of a pattern: seven bits, not NUL. */
  type Ch = x: int | 0 < x < 128 witness 1

  const CCHR := 2
  const CDOT := 4
  const CCL := 6
  const CDOL := 10
  const CEOF := 11
  const STAR := 1
  const ESIZE := 256

  const DOT: Ch := '.' as int
  const ASTERISK: Ch := '*' as int
  const DOLLAR: Ch := '$' as int
  const BRACKET: Ch := '[' as int
  const CLOSE: Ch := ']' as int
  const CARET: Ch := '^' as int
  const DASH: Ch := '-' as int
  const BACKSLASH: Ch := '\\' as int
  const OPENS: Ch := '(' as int
  const CLOSES: Ch := ')' as int
  const ONE: Ch := '1' as int
  const NINE: Ch := '9' as int

  /** What stands for one character. */
  datatype Kind = Char(c: Ch) | Any | Class(chars: set<int>)

  datatype Item = One(kind: Kind) | Star(kind: Kind) | End

  predicate Has(k: Kind, c: Ch) {
    match k
    case Char(d) => c == d
    case Any => true
    case Class(chars) => c in chars
  }

  // ----- reading a pattern

  datatype ClassText = Closed(chars: set<int>, next: nat) | Unclosed | Overrun

  /** The characters from lo to hi, and lo in any case. */
  function Range(lo: int, hi: int): (r: set<int>)
    ensures forall x :: x in r <==> x == lo || lo <= x <= hi
    decreases hi - lo
  {
    if lo >= hi then {lo} else {lo} + Range(lo + 1, hi)
  }

  ghost predicate Chars(s: set<int>) {
    forall c | c in s :: 0 < c < 128
  }

  /** The characters of a class from place i to the closing bracket, and the place behind it.
      A dash is itself where it comes first or last. */
  function ReadClass(p: seq<Ch>, i: nat, first: bool, s: set<int>): (r: ClassText)
    requires i > 0 && Chars(s)
    ensures r.Closed? ==> i < r.next <= |p| && Chars(r.chars)
    decreases |p| - i, 0
  {
    if i >= |p| then Unclosed
    else if p[i] == DASH && !first && (i + 1 == |p| || p[i + 1] != CLOSE) then
      if i + 1 == |p| then Overrun
      else ReadMore(p, i + 2, s + Range(p[i - 1], p[i + 1]))
    else ReadMore(p, i + 1, s + {p[i]})
  }

  function ReadMore(p: seq<Ch>, i: nat, s: set<int>): (r: ClassText)
    requires 0 < i <= |p| && Chars(s)
    ensures r.Closed? ==> i < r.next <= |p| && Chars(r.chars)
    decreases |p| - i, 1
  {
    if i < |p| && p[i] == CLOSE then Closed(s, i + 1) else ReadClass(p, i, false, s)
  }

  datatype Atom = Got(kind: Kind, next: nat) | LineEnd | Broken | Outside

  predicate Negated(p: seq<Ch>, i: nat) {
    i + 1 < |p| && p[i + 1] == CARET
  }

  function AllBut(s: set<int>): set<int> {
    Range(1, 127) - s
  }

  /** The atom at place i.  Outside is what is not covered here: a sub-expression, or a pattern
      that makes compile() read behind its end. */
  function ReadAtom(p: seq<Ch>, i: nat): (r: Atom)
    requires i < |p|
    ensures r.Got? ==> i < r.next <= |p|
  {
    if p[i] == DOT then Got(Any, i + 1)
    else if p[i] == DOLLAR && i + 1 == |p| then LineEnd
    else if p[i] == BRACKET then
      match ReadClass(p, if Negated(p, i) then i + 2 else i + 1, true, {})
      case Unclosed => Broken
      case Overrun => Outside
      case Closed(s, next) => Got(Class(if Negated(p, i) then AllBut(s) else s), next)
    else if p[i] == BACKSLASH then
      if i + 1 == |p| || p[i + 1] == OPENS then Outside
      else if p[i + 1] == CLOSES || ONE <= p[i + 1] <= NINE then Broken
      else Got(Char(p[i + 1]), i + 2)
    else Got(Char(p[i]), i + 1)
  }

  /** The place behind the asterisks that stand at i. */
  function Stars(p: seq<Ch>, i: nat): (r: nat)
    requires i <= |p|
    ensures i <= r <= |p|
    decreases |p| - i
  {
    if i < |p| && p[i] == ASTERISK then Stars(p, i + 1) else i
  }

  datatype Parsed = Items(items: seq<Item>) | Bad | Foreign

  function Join(items: seq<Item>, r: Parsed): Parsed {
    if r.Items? then Items(items + r.items) else r
  }

  /** The items of the pattern from place i; asterisks at the start are themselves. */
  function ParseAt(p: seq<Ch>, i: nat, start: bool): Parsed
    requires i <= |p|
    decreases |p| - i
  {
    if i == |p| then Items([])
    else if p[i] == ASTERISK && start then Join([One(Char(ASTERISK))], ParseAt(p, i + 1, true))
    else
      match ReadAtom(p, i)
      case LineEnd => Items([End])
      case Broken => Bad
      case Outside => Foreign
      case Got(k, next) =>
        var n := Stars(p, next);
        Join([if n > next then Star(k) else One(k)], ParseAt(p, n, false))
  }

  predicate Anchored(p: seq<Ch>) {
    |p| > 0 && p[0] == CARET
  }

  function Parse(p: seq<Ch>): Parsed {
    ParseAt(p, if Anchored(p) then 1 else 0, true)
  }

  /** $ stands for the end of a line at the end of a pattern only. */
  ghost predicate EndIsLast(items: seq<Item>) {
    forall k | 0 <= k < |items| - 1 :: items[k] != End
  }

  lemma {:induction false} ParsedEndIsLast(p: seq<Ch>, i: nat, start: bool)
    requires i <= |p|
    ensures ParseAt(p, i, start).Items? ==> EndIsLast(ParseAt(p, i, start).items)
    decreases |p| - i
  {
    if i < |p| {
      if p[i] == ASTERISK && start {
        ParsedEndIsLast(p, i + 1, true);
      } else if ReadAtom(p, i).Got? {
        ParsedEndIsLast(p, Stars(p, ReadAtom(p, i).next), false);
      }
    }
  }

  // ----- the bits of a class

  /** The low n bits of byte k of the map of a class. */
  function LowBits(s: set<int>, k: nat, n: nat): nat {
    if n == 0 then 0 else LowBits(s, k, n - 1) + if 8 * k + n - 1 in s then Pow2(n - 1) else 0
  }

  /** The sixteen bytes that stand for a class. */
  function MapOf(s: set<int>): (r: seq<int>)
    ensures |r| == 16
  {
    seq(16, k requires 0 <= k < 16 => LowBits(s, k, 8))
  }

  /** ep[c>>3] & bittab[c&07] */
  predicate HasBit(m: seq<int>, c: nat)
    requires |m| == 16 && c < 128
  {
    m[c / 8] >= 0 && Bit(m[c / 8], c % 8)
  }

  lemma {:induction false} LowBitsBelow(s: set<int>, k: nat, n: nat)
    ensures LowBits(s, k, n) < Pow2(n)
  {
    if n > 0 {
      LowBitsBelow(s, k, n - 1);
    }
  }

  lemma {:induction false} HighBitsClear(b: nat, n: nat, j: nat)
    requires b < Pow2(n) && n <= j
    ensures !Bit(b, j)
    decreases j
  {
    if j > 0 {
      if n > 0 {
        HighBitsClear(b / 2, n - 1, j - 1);
      } else {
        ZeroHasNoBits(j);
      }
    }
  }

  lemma {:induction false} BitOfLowBits(s: set<int>, k: nat, n: nat, j: nat)
    requires j < n
    ensures Bit(LowBits(s, k, n), j) <==> 8 * k + j in s
  {
    var b := LowBits(s, k, n - 1);
    LowBitsBelow(s, k, n - 1);
    HighBitsClear(b, n - 1, n - 1);
    BitOfSum(b, n - 1, j);
    if j < n - 1 {
      BitOfLowBits(s, k, n - 1, j);
    }
  }

  lemma MapHas(s: set<int>, c: nat)
    requires c < 128
    ensures HasBit(MapOf(s), c) <==> c in s
  {
    BitOfLowBits(s, c / 8, 8, c % 8);
  }

  ghost predicate Bytes(m: seq<int>) {
    |m| == 16 && forall k | 0 <= k < 16 :: 0 <= m[k] < 256
  }

  /** Nothing else has just these bits. */
  lemma MapIsUnique(s: set<int>, m: seq<int>)
    requires Bytes(m) && forall c: nat | c < 128 :: HasBit(m, c) <==> c in s
    ensures m == MapOf(s)
  {
    forall k | 0 <= k < 16
      ensures m[k] == LowBits(s, k, 8)
    {
      LowBitsBelow(s, k, 8);
      OneByte(m[k]);
      forall j | 0 <= j < 8
        ensures Bit(m[k], j) == Bit(LowBits(s, k, 8), j)
      {
        BitOfLowBits(s, k, 8, j);
        assert (8 * k + j) / 8 == k && (8 * k + j) % 8 == j;
        assert HasBit(m, 8 * k + j) <==> 8 * k + j in s;
      }
      BitsDetermine(m[k], LowBits(s, k, 8), 8);
    }
  }

  /** b ^ -1, in eight bits. */
  lemma {:induction false} BitOfComplement(b: nat, w: nat, j: nat)
    requires b < Pow2(w) && j < w
    ensures Pow2(w) - 1 - b >= 0 && Bit(Pow2(w) - 1 - b, j) == !Bit(b, j)
    decreases w
  {
    var d := Pow2(w) - 1 - b;
    assert d % 2 == 1 - b % 2 && d / 2 == Pow2(w - 1) - 1 - b / 2;
    if j > 0 {
      BitOfComplement(b / 2, w - 1, j - 1);
    }
  }

  // ----- the code

  function Encoded(item: Item): (r: seq<int>)
    ensures |r| > 0
  {
    match item
    case End => [CDOL]
    case One(k) => KindCode(k, 0)
    case Star(k) => KindCode(k, STAR)
  }

  function KindCode(k: Kind, star: int): (r: seq<int>)
    ensures |r| > 0
  {
    match k
    case Char(c) => [CCHR + star, c]
    case Any => [CDOT + star]
    case Class(s) => [CCL + star] + MapOf(s)
  }

  function Encode(items: seq<Item>): seq<int> {
    if items == [] then [] else Encoded(items[0]) + Encode(items[1..])
  }

  lemma Associates(x: seq<int>, y: seq<int>, z: seq<int>)
    ensures (x + y) + z == x + (y + z)
  {
  }

  lemma {:induction false} EncodeJoin(a: seq<Item>, b: seq<Item>)
    ensures Encode(a + b) == Encode(a) + Encode(b)
  {
    hide Encoded;
    if a == [] {
      assert a + b == b;
    } else {
      EncodeJoin(a[1..], b);
      assert (a + b)[1..] == a[1..] + b && (a + b)[0] == a[0];
      Associates(Encoded(a[0]), Encode(a[1..]), Encode(b));
    }
  }

  lemma EncodeOne(item: Item)
    ensures Encode([item]) == Encoded(item)
  {
    assert [item][1..] == [];
  }

  /** What expbuf holds: the code of the items, and the end mark. */
  function Code(items: seq<Item>): seq<int> {
    Encode(items) + [CEOF]
  }
}
