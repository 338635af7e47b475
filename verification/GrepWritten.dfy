/**
 Patterns as they are written: characters, quoted or not, the dot, classes with single characters,
 ranges and a caret for negation, stars, and the marks for begin and end of the line.  What is written
 is read back as it was meant, and grep finds just the lines that contain what it stands for.  The
 characters with a meaning are spelled out here.
 */
module GrepWritten {
  import opened GrepPattern
  import opened GrepMatch
  import opened GrepQuoted
  import opened GrepCompile

  datatype Part = Single(c: Ch) | Span(lo: Ch, hi: Ch)

  datatype Symbol = Plain(c: Ch, quoted: bool) | Dot | Brackets(neg: bool, parts: seq<Part>)

  /** A symbol with the stars behind it. */
  datatype Unit = Unit(symbol: Symbol, stars: nat)

  /** A pattern; lead counts the stars before its first symbol. */
  datatype Pattern = Pattern(begin: bool, lead: nat, units: seq<Unit>, end: bool)

  // ----- what is meant

  predicate PartHas(p: Part, c: int) {
    match p
    case Single(d) => c == d
    case Span(lo, hi) => c == lo || lo <= c <= hi
  }

  predicate PartsHave(parts: seq<Part>, c: int) {
    exists k :: 0 <= k < |parts| && PartHas(parts[k], c)
  }

  predicate SymbolHas(s: Symbol, c: Ch) {
    match s
    case Plain(d, _) => c == d
    case Dot => true
    case Brackets(neg, parts) => neg != PartsHave(parts, c)
  }

  predicate UnitStands(u: Unit, w: seq<Ch>) {
    (u.stars > 0 || |w| == 1) && forall n | 0 <= n < |w| :: SymbolHas(u.symbol, w[n])
  }

  /** The word is made of what the units stand for, one behind the other. */
  ghost predicate Stands(units: seq<Unit>, w: seq<Ch>)
    decreases |units|
  {
    if units == [] then w == []
    else exists j :: 0 <= j <= |w| && UnitStands(units[0], w[..j]) && Stands(units[1..], w[j..])
  }

  /** Stars with nothing before them are themselves. */
  function Meant(p: Pattern): seq<Unit> {
    seq(p.lead, _ => Unit(Plain('*' as int, true), 0)) + p.units
  }

  /** From i to j the line has what is meant, at its begin and end where this is asked for. */
  ghost predicate StandsAt(p: Pattern, line: seq<Ch>, i: nat, j: nat) {
    i <= j <= |line| && Stands(Meant(p), line[i..j]) && (p.begin ==> i == 0) && (p.end ==> j == |line|)
  }

  ghost predicate Contains(line: seq<Ch>, p: Pattern) {
    exists i, j :: StandsAt(p, line, i, j)
  }

  // ----- how it is written

  function PartText(p: Part): seq<Ch> {
    match p
    case Single(c) => [c]
    case Span(lo, hi) => [lo, '-' as int, hi]
  }

  function PartsText(parts: seq<Part>): seq<Ch> {
    if parts == [] then [] else PartText(parts[0]) + PartsText(parts[1..])
  }

  function SymbolText(s: Symbol): seq<Ch> {
    match s
    case Plain(c, quoted) => if quoted then ['\\' as int, c] else [c]
    case Dot => ['.' as int]
    case Brackets(neg, parts) => (if neg then ['[' as int, '^' as int] else ['[' as int]) + PartsText(parts) + [']' as int]
  }

  function StarText(n: nat): seq<Ch> {
    if n == 0 then [] else ['*' as int] + StarText(n - 1)
  }

  function UnitText(u: Unit): seq<Ch> {
    SymbolText(u.symbol) + StarText(u.stars)
  }

  function UnitsText(units: seq<Unit>): seq<Ch> {
    if units == [] then [] else UnitText(units[0]) + UnitsText(units[1..])
  }

  function EndText(end: bool): seq<Ch> {
    if end then ['$' as int] else []
  }

  function BeginText(p: Pattern): seq<Ch> {
    (if p.begin then ['^' as int] else []) + StarText(p.lead)
  }

  function Text(p: Pattern): seq<Ch> {
    BeginText(p) + UnitsText(p.units) + EndText(p.end)
  }

  function First(p: Part): Ch {
    if p.Single? then p.c else p.lo
  }

  /** A closing bracket stands first if at all, a dash first or last and a caret not first, unless
      the class is negated; no range ends in a closing bracket. */
  predicate WellPut(parts: seq<Part>, first: bool) {
    && (forall k | 0 <= k < |parts| && (k > 0 || !first) ::
          First(parts[k]) != ']' as int && (First(parts[k]) == '-' as int ==> k == |parts| - 1 && parts[k].Single?))
    && (forall k | 0 <= k < |parts| && parts[k].Span? :: parts[k].hi != ']' as int)
  }

  /** A parenthesis or a digit is not quoted; the dot, the star, the bracket and the backslash are. */
  predicate Writable(s: Symbol) {
    match s
    case Plain(c, quoted) =>
      if quoted then c != '(' as int && c != ')' as int && !('1' as int <= c <= '9' as int)
      else c !in {'.' as int, '*' as int, '[' as int, '\\' as int}
    case Dot => true
    case Brackets(neg, parts) =>
      parts != [] && WellPut(parts, true) && (!neg ==> First(parts[0]) != '^' as int)
  }

  predicate Bare(s: Symbol, c: Ch) {
    s == Plain(c, false)
  }

  predicate AllWritable(units: seq<Unit>) {
    forall k | 0 <= k < |units| :: Writable(units[k].symbol)
  }

  /** A caret that is not quoted does not begin the pattern, and a dollar sign does not end it. */
  predicate WellWritten(p: Pattern) {
    && AllWritable(p.units)
    && (p.units != [] && Bare(p.units[0].symbol, '^' as int) ==> p.begin || p.lead > 0)
    && (!p.end ==> NoDollarLast(p.units))
  }

  predicate NoDollarLast(units: seq<Unit>) {
    units != [] ==> !(Bare(units[|units| - 1].symbol, '$' as int) && units[|units| - 1].stars == 0)
  }

  // ----- a class is read as it was meant

  ghost predicate Gathered(parts: seq<Part>, s: set<int>, t: set<int>) {
    Chars(t) && forall c :: c in t <==> c in s || PartsHave(parts, c)
  }

  lemma OneMorePart(parts: seq<Part>, s: set<int>, u: set<int>, t: set<int>)
    requires parts != [] && (forall c :: c in u <==> c in s || PartHas(parts[0], c)) && Gathered(parts[1..], u, t)
    ensures Gathered(parts, s, t)
  {
    forall c
      ensures PartsHave(parts, c) <==> PartHas(parts[0], c) || PartsHave(parts[1..], c)
    {
      if PartsHave(parts, c) {
        var k :| 0 <= k < |parts| && PartHas(parts[k], c);
        assert k > 0 ==> parts[1..][k - 1] == parts[k];
      }
      if PartsHave(parts[1..], c) {
        var k :| 0 <= k < |parts[1..]| && PartHas(parts[1..][k], c);
        assert parts[k + 1] == parts[1..][k];
      }
    }
  }

  lemma LaterPut(parts: seq<Part>, first: bool)
    requires parts != [] && WellPut(parts, first)
    ensures WellPut(parts[1..], false)
  {
    forall k | 0 <= k < |parts| - 1
      ensures parts[1..][k] == parts[k + 1]
    {
    }
  }

  lemma {:induction false} PartsRead(p: seq<Ch>, i: nat, parts: seq<Part>, first: bool, s: set<int>, rest: seq<Ch>) returns (t: set<int>)
    requires 0 < i <= |p| && p[i..] == PartsText(parts) + [']' as int] + rest && parts != []
    requires WellPut(parts, first) && Chars(s)
    ensures ReadClass(p, i, first, s) == Closed(t, i + |PartsText(parts)| + 1) && Gathered(parts, s, t)
    decreases |parts|
  {
    hide PartHas, First;
    var head, tail := PartText(parts[0]), PartsText(parts[1..]);
    var n := i + |head|;
    assert PartsText(parts) + [']' as int] + rest == head + (tail + [']' as int] + rest);
    Tail(p, i, head, tail + [']' as int] + rest);
    assert p[n] == (tail + [']' as int] + rest)[0];
    var u := PartRead(p, i, parts, first, s);
    if parts[1..] == [] {
      t := u;
      NoParts(u);
    } else {
      LaterPut(parts, first);
      StartsWith(parts[1..], tail);
      t := PartsRead(p, n, parts[1..], false, u, rest);
    }
    OneMorePart(parts, s, u, t);
  }

  lemma NoParts(s: set<int>)
    requires Chars(s)
    ensures Gathered([], s, s)
  {
  }

  lemma StartsWith(parts: seq<Part>, text: seq<Ch>)
    requires parts != [] && text == PartsText(parts)
    ensures text != [] && text[0] == First(parts[0])
  {
  }

  /** One part is read, and the place behind it reached. */
  lemma PartRead(p: seq<Ch>, i: nat, parts: seq<Part>, first: bool, s: set<int>) returns (u: set<int>)
    requires parts != [] && WellPut(parts, first) && Chars(s) && 0 < i
    requires var head := PartText(parts[0]); i + |head| <= |p| && forall k | 0 <= k < |head| :: p[i + k] == head[k]
    requires First(parts[0]) == '-' as int && !first ==> i + 1 < |p| && p[i + 1] == ']' as int
    ensures Chars(u) && (forall c :: c in u <==> c in s || PartHas(parts[0], c))
    ensures ReadClass(p, i, first, s) == ReadMore(p, i + |PartText(parts[0])|, u)
  {
    var head := PartText(parts[0]);
    assert p[i + 0] == head[0] == First(parts[0]);
    match parts[0] {
      case Single(c) =>
        u := s + {c};
      case Span(lo, hi) =>
        assert p[i + 1] == head[1] && p[i + 2] == head[2];
        u := s + {lo} + Range(lo, hi);
        assert ReadClass(p, i, first, s) == ReadMore(p, i + 1, s + {lo});
        assert ReadMore(p, i + 1, s + {lo}) == ReadClass(p, i + 1, false, s + {lo});
    }
  }

  // ----- a symbol is read as it was meant

  function KindOf(s: Symbol): Kind {
    match s
    case Plain(c, _) => Char(c)
    case Dot => Any
    case Brackets(neg, parts) => Class(set c: int | 0 < c < 128 && neg != PartsHave(parts, c))
  }

  lemma KindHas(s: Symbol, c: Ch)
    ensures Has(KindOf(s), c) <==> SymbolHas(s, c)
  {
  }

  lemma SymbolRead(p: seq<Ch>, i: nat, s: Symbol, rest: seq<Ch>)
    requires i <= |p| && p[i..] == SymbolText(s) + rest && Writable(s) && (Bare(s, '$' as int) ==> rest != [])
    ensures |SymbolText(s)| > 0 && i + |SymbolText(s)| <= |p|
    ensures p[i] != '*' as int && (p[i] == '^' as int ==> Bare(s, '^' as int))
    ensures ReadAtom(p, i) == Got(KindOf(s), i + |SymbolText(s)|)
  {
    Tail(p, i, SymbolText(s), rest);
    match s {
      case Plain(c, quoted) =>
        assert p[i] == SymbolText(s)[0];
        assert quoted ==> p[i + 1] == SymbolText(s)[1];
      case Dot =>
      case Brackets(neg, parts) =>
        BracketsRead(p, i, neg, parts, rest);
    }
  }

  lemma BracketsRead(p: seq<Ch>, i: nat, neg: bool, parts: seq<Part>, rest: seq<Ch>)
    requires i <= |p| && p[i..] == SymbolText(Brackets(neg, parts)) + rest && Writable(Brackets(neg, parts))
    ensures i < |p| && p[i] == '[' as int
    ensures ReadAtom(p, i) == Got(KindOf(Brackets(neg, parts)), i + |SymbolText(Brackets(neg, parts))|)
  {
    hide ReadClass, PartsText;
    var head := if neg then ['[' as int, '^' as int] else ['[' as int];
    var body := PartsText(parts) + [']' as int] + rest;
    assert SymbolText(Brackets(neg, parts)) + rest == head + body;
    Tail(p, i, head, body);
    StartsWith(parts, PartsText(parts));
    var n := i + |head|;
    assert p[n] == body[0] == First(parts[0]);
    assert p[i] == head[0] && (neg ==> p[i + 1] == head[1]);
    assert Negated(p, i) == neg;
    var t := PartsRead(p, n, parts, true, {}, rest);
    ClassMeant(neg, parts, t);
  }

  lemma ClassMeant(neg: bool, parts: seq<Part>, t: set<int>)
    requires Gathered(parts, {}, t)
    ensures KindOf(Brackets(neg, parts)) == Class(if neg then AllBut(t) else t)
  {
    forall c
      ensures c in (if neg then AllBut(t) else t) <==> 0 < c < 128 && neg != PartsHave(parts, c)
    {
    }
  }

  // ----- a pattern is read as it was meant

  function ItemOf(u: Unit): Item {
    if u.stars > 0 then Star(KindOf(u.symbol)) else One(KindOf(u.symbol))
  }

  function UnitItems(units: seq<Unit>): seq<Item> {
    if units == [] then [] else [ItemOf(units[0])] + UnitItems(units[1..])
  }

  function EndItems(end: bool): seq<Item> {
    if end then [End] else []
  }

  function ItemsOf(p: Pattern): seq<Item> {
    UnitItems(Meant(p)) + EndItems(p.end)
  }

  lemma UnitsSplit(units: seq<Unit>, tail: seq<Ch>)
    requires units != []
    ensures UnitsText(units) + tail == SymbolText(units[0].symbol) + (StarText(units[0].stars) + (UnitsText(units[1..]) + tail))
  {
    Regrouped(SymbolText(units[0].symbol), StarText(units[0].stars), UnitsText(units[1..]), tail);
  }

  lemma Regrouped(a: seq<Ch>, b: seq<Ch>, c: seq<Ch>, d: seq<Ch>)
    ensures a + b + c + d == a + (b + (c + d))
  {
  }

  /** What follows the units does not begin with a star, and is there if a bare dollar sign needs it. */
  predicate Follows(units: seq<Unit>, tail: seq<Ch>) {
    (tail != [] ==> tail[0] != '*' as int) && (tail == [] ==> NoDollarLast(units))
  }

  /** The text after the first symbol is not empty where that is a bare dollar sign. */
  lemma MoreBehindDollar(units: seq<Unit>, tail: seq<Ch>)
    requires units != [] && AllWritable(units) && Follows(units, tail) && Bare(units[0].symbol, '$' as int)
    ensures StarText(units[0].stars) + (UnitsText(units[1..]) + tail) != []
  {
    if |units| > 1 {
      assert units[1..][0] == units[1] && Writable(units[1].symbol);
      TextThere(units[1..]);
    }
  }

  lemma TextThere(units: seq<Unit>)
    requires units != [] && Writable(units[0].symbol)
    ensures UnitsText(units) != []
  {
  }

  lemma RestFollows(units: seq<Unit>, tail: seq<Ch>)
    requires units != [] && Follows(units, tail) && AllWritable(units)
    ensures Follows(units[1..], tail) && AllWritable(units[1..])
  {
    if |units| > 1 {
      assert units[1..][|units| - 2] == units[|units| - 1];
    }
  }

  lemma NoStarThere(p: seq<Ch>, i: nat, units: seq<Unit>, tail: seq<Ch>)
    requires i <= |p| && p[i..] == UnitsText(units) + tail && AllWritable(units) && Follows(units, tail)
    ensures i < |p| ==> p[i] != '*' as int
    ensures i < |p| && p[i] == '^' as int ==>
              if units == [] then tail != [] && tail[0] == '^' as int else Bare(units[0].symbol, '^' as int)
  {
    hide SymbolText, ReadAtom, KindOf, Writable, UnitText, StarText;
    if units != [] {
      UnitsSplit(units, tail);
      if Bare(units[0].symbol, '$' as int) {
        MoreBehindDollar(units, tail);
      }
      SymbolRead(p, i, units[0].symbol, StarText(units[0].stars) + (UnitsText(units[1..]) + tail));
    } else if i < |p| {
      assert p[i] == p[i..][0];
    }
  }

  /** The units are read, and then what follows. */
  lemma {:induction false} UnitsRead(p: seq<Ch>, i: nat, start: bool, units: seq<Unit>, tail: seq<Ch>)
    requires i <= |p| && p[i..] == UnitsText(units) + tail && AllWritable(units) && Follows(units, tail)
    ensures i + |UnitsText(units)| <= |p| && p[i + |UnitsText(units)|..] == tail
    ensures ParseAt(p, i, start) ==
            Join(UnitItems(units), ParseAt(p, i + |UnitsText(units)|, start && units == []))
    decreases |units|
  {
    hide ReadAtom, SymbolText, KindOf, Writable, UnitText, StarText, ParseAt, Stars, UnitItems, Follows, AllWritable, ItemOf, Join;
    if units == [] {
      NoUnits();
      JoinNone(ParseAt(p, i, start));
    } else {
      hide UnitsText;
      NoStarThere(p, i, units, tail);
      var next, n := UnitRead(p, i, units, tail);
      ParseStep(p, i, start, KindOf(units[0].symbol), next, n);
      FirstItem(units);
      RestFollows(units, tail);
      UnitsRead(p, n, false, units[1..], tail);
      JoinTwice([ItemOf(units[0])], UnitItems(units[1..]), ParseAt(p, i + |UnitsText(units)|, false));
    }
  }

  lemma NoUnits()
    ensures UnitItems([]) == []
  {
  }

  lemma FirstItem(units: seq<Unit>)
    requires units != []
    ensures UnitItems(units) == [ItemOf(units[0])] + UnitItems(units[1..])
    ensures ItemOf(units[0]) == if units[0].stars > 0 then Star(KindOf(units[0].symbol)) else One(KindOf(units[0].symbol))
  {
  }

  lemma JoinNone(r: Parsed)
    ensures Join([], r) == r
  {
    if r.Items? {
      assert [] + r.items == r.items;
    }
  }

  /** The first unit is read, and the place n behind it reached. */
  lemma UnitRead(p: seq<Ch>, i: nat, units: seq<Unit>, tail: seq<Ch>) returns (next: nat, n: nat)
    requires i <= |p| && p[i..] == UnitsText(units) + tail && units != [] && AllWritable(units) && Follows(units, tail)
    ensures i < next <= n <= |p| && ReadAtom(p, i) == Got(KindOf(units[0].symbol), next) && Stars(p, next) == n
    ensures p[n..] == UnitsText(units[1..]) + tail && (n > next <==> units[0].stars > 0)
    ensures n + |UnitsText(units[1..])| == i + |UnitsText(units)|
  {
    hide ReadAtom, SymbolText, KindOf, Writable, StarText, Stars;
    var u, text, star := units[0], SymbolText(units[0].symbol), StarText(units[0].stars);
    var more := UnitsText(units[1..]) + tail;
    UnitsSplit(units, tail);
    if Bare(u.symbol, '$' as int) {
      MoreBehindDollar(units, tail);
    }
    SymbolRead(p, i, u.symbol, star + more);
    Tail(p, i, text, star + more);
    next := i + |text|;
    Tail(p, next, star, more);
    n := next + |star|;
    RestFollows(units, tail);
    NoStarThere(p, n, units[1..], tail);
    StarsOnly(u.stars);
    forall j | next <= j < n
      ensures p[j] == '*' as int
    {
      assert p[next + (j - next)] == star[j - next];
    }
    StarsRead(p, next, u.stars);
  }

  lemma ParseStep(p: seq<Ch>, i: nat, start: bool, k: Kind, next: nat, n: nat)
    requires i < next <= n <= |p| && p[i] != '*' as int && ReadAtom(p, i) == Got(k, next) && Stars(p, next) == n
    ensures ParseAt(p, i, start) == Join([if n > next then Star(k) else One(k)], ParseAt(p, n, false))
  {
  }

  lemma {:induction false} StarsRead(p: seq<Ch>, i: nat, n: nat)
    requires i + n <= |p| && (i + n < |p| ==> p[i + n] != '*' as int)
    requires forall j | i <= j < i + n :: p[j] == '*' as int
    ensures Stars(p, i) == i + n
    decreases n
  {
    if n > 0 {
      StarsRead(p, i + 1, n - 1);
    }
  }

  lemma {:induction false} StarsOnly(n: nat)
    ensures |StarText(n)| == n && forall k | 0 <= k < n :: StarText(n)[k] == '*' as int
  {
    if n > 0 {
      StarsOnly(n - 1);
    }
  }

  /** Stars at the start are read as characters. */
  lemma {:induction false} LeadRead(p: seq<Ch>, i: nat, n: nat)
    requires i + n <= |p| && forall j | i <= j < i + n :: p[j] == '*' as int
    ensures ParseAt(p, i, true) == Join(UnitItems(seq(n, _ => Unit(Plain('*' as int, true), 0))), ParseAt(p, i + n, true))
    decreases n
  {
    hide ReadAtom;
    var stars := seq(n, _ => Unit(Plain('*' as int, true), 0));
    if n == 0 {
      assert stars == [];
      JoinNone(ParseAt(p, i, true));
    } else {
      LeadRead(p, i + 1, n - 1);
      assert stars[1..] == seq(n - 1, _ => Unit(Plain('*' as int, true), 0));
      JoinTwice([One(Char('*' as int))], UnitItems(stars[1..]), ParseAt(p, i + n, true));
    }
  }

  lemma {:induction false} ItemsJoin(a: seq<Unit>, b: seq<Unit>)
    ensures UnitItems(a + b) == UnitItems(a) + UnitItems(b)
  {
    if a == [] {
      assert a + b == b;
    } else {
      assert (a + b)[1..] == a[1..] + b;
      ItemsJoin(a[1..], b);
    }
  }

  /** A pattern up to its units, and then whatever follows. */
  lemma BeginRead(p: Pattern, tail: seq<Ch>)
    requires AllWritable(p.units) && Follows(p.units, tail)
    requires p.units != [] && Bare(p.units[0].symbol, '^' as int) ==> p.begin || p.lead > 0
    requires p.units == [] && tail != [] && tail[0] == '^' as int ==> p.begin || p.lead > 0
    ensures var text := BeginText(p) + UnitsText(p.units) + tail;
            var n := |BeginText(p)| + |UnitsText(p.units)|;
            && n <= |text| && text[n..] == tail && Anchored(text) == p.begin
            && Parse(text) == Join(UnitItems(Meant(p)), ParseAt(text, n, p.units == []))
  {
    hide UnitItems, Follows, AllWritable, ReadAtom, SymbolText, KindOf, Writable, UnitText, UnitsText;
    var text, i, m := BeginText(p) + UnitsText(p.units) + tail, if p.begin then 1 else 0, |BeginText(p)|;
    StarsOnly(p.lead);
    assert m == i + p.lead;
    assert text[m..] == UnitsText(p.units) + tail;
    forall j | i <= j < m
      ensures text[j] == '*' as int
    {
      assert text[j] == BeginText(p)[j] == StarText(p.lead)[j - i];
    }
    NoStarThere(text, m, p.units, tail);
    assert Anchored(text) == p.begin by {
      assert p.begin ==> text[0] == BeginText(p)[0];
    }
    LeadRead(text, i, p.lead);
    UnitsRead(text, m, true, p.units, tail);
    var stars := seq(p.lead, _ => Unit(Plain('*' as int, true), 0));
    ItemsJoin(stars, p.units);
    JoinTwice(UnitItems(stars), UnitItems(p.units), ParseAt(text, m + |UnitsText(p.units)|, p.units == []));
  }

  /** What is written is read back. */
  lemma WrittenIsRead(p: Pattern)
    requires WellWritten(p)
    ensures Parse(Text(p)) == Items(ItemsOf(p)) && Anchored(Text(p)) == p.begin
  {
    BeginRead(p, EndText(p.end));
    var n := |BeginText(p)| + |UnitsText(p.units)|;
    ParseEnd(Text(p), n, p.units == [], p.end);
  }

  lemma ParseEnd(p: seq<Ch>, i: nat, start: bool, end: bool)
    requires i <= |p| && p[i..] == EndText(end)
    ensures ParseAt(p, i, start) == Items(EndItems(end))
  {
    assert |p[i..]| == |p| - i;
    if end {
      assert p[i] == p[i..][0];
    }
  }

  // ----- patterns that are refused

  /** What no pattern may go on with: a closing parenthesis or a digit after a backslash, or a class that
      is not closed. */
  datatype Fault = Backslash(c: Ch, rest: seq<Ch>) | Unclosed(neg: bool, parts: seq<Part>)

  function FaultText(f: Fault): seq<Ch> {
    match f
    case Backslash(c, rest) => ['\\' as int, c] + rest
    case Unclosed(neg, parts) => (if neg then ['[' as int, '^' as int] else ['[' as int]) + PartsText(parts)
  }

  predicate Faulty(f: Fault) {
    match f
    case Backslash(c, _) => c == ')' as int || '1' as int <= c <= '9' as int
    case Unclosed(neg, parts) =>
      && WellPut(parts, true) && (!neg && parts != [] ==> First(parts[0]) != '^' as int)
      && (|parts| > 1 ==> First(parts[|parts| - 1]) != '-' as int)
  }

  lemma {:induction false} PartsUnclosed(p: seq<Ch>, i: nat, parts: seq<Part>, first: bool, s: set<int>)
    requires 0 < i <= |p| && p[i..] == PartsText(parts) && parts != [] && WellPut(parts, first) && Chars(s)
    requires |parts| > 1 || !first ==> First(parts[|parts| - 1]) != '-' as int
    ensures ReadClass(p, i, first, s).Unclosed?
    decreases |parts|
  {
    var head, tail := PartText(parts[0]), PartsText(parts[1..]);
    Tail(p, i, head, tail);
    var n := i + |head|;
    var u := PartRead(p, i, parts, first, s);
    if parts[1..] == [] {
      assert |p[n..]| == 0;
    } else {
      LaterPut(parts, first);
      assert p[n] == p[n..][0];
      StartsWith(parts[1..], tail);
      assert parts[1..][|parts| - 2] == parts[|parts| - 1];
      PartsUnclosed(p, n, parts[1..], false, u);
    }
  }

  lemma FaultRead(p: seq<Ch>, i: nat, f: Fault)
    requires i <= |p| && p[i..] == FaultText(f) && Faulty(f)
    ensures i < |p| && p[i] != '*' as int && ReadAtom(p, i).Broken?
  {
    assert p[i] == p[i..][0];
    match f {
      case Backslash(c, rest) =>
        assert p[i + 1] == p[i..][1];
      case Unclosed(neg, parts) =>
        var head := if neg then ['[' as int, '^' as int] else ['[' as int];
        Tail(p, i, head, PartsText(parts));
        var n := i + |head|;
        assert neg ==> p[i + 1] == head[1];
        if parts == [] {
          assert |p[n..]| == 0;
        } else {
          StartsWith(parts, PartsText(parts));
          assert p[n] == p[n..][0];
          PartsUnclosed(p, n, parts, true, {});
        }
    }
  }

  /** A pattern that goes on so is refused, whatever stands before. */
  lemma FaultyIsRefused(p: Pattern, f: Fault)
    requires AllWritable(p.units) && Faulty(f)
    requires p.units != [] && Bare(p.units[0].symbol, '^' as int) ==> p.begin || p.lead > 0
    ensures Parse(BeginText(p) + UnitsText(p.units) + FaultText(f)) == Bad
  {
    hide ReadAtom, Writable;
    FaultBegins(f);
    BeginRead(p, FaultText(f));
    var text := BeginText(p) + UnitsText(p.units) + FaultText(f);
    FaultRead(text, |BeginText(p)| + |UnitsText(p.units)|, f);
  }

  lemma FaultBegins(f: Fault)
    ensures FaultText(f) != [] && FaultText(f)[0] != '*' as int && FaultText(f)[0] != '^' as int
  {
  }

  // ----- and finds what was meant

  lemma {:induction false} LanguageIsMeant(units: seq<Unit>, end: bool, w: seq<Ch>)
    ensures InLanguage(UnitItems(units) + EndItems(end), w) <==> Stands(units, w)
    ensures ToEnd(UnitItems(units) + EndItems(end)) == end
    decreases |units|
  {
    var items := UnitItems(units) + EndItems(end);
    if units == [] {
      assert end ==> items[1..] == [];
    } else {
      var u := units[0];
      var rest := UnitItems(units[1..]) + EndItems(end);
      assert items[0] == ItemOf(u) && items[1..] == rest;
      LanguageIsMeant(units[1..], end, w);
      forall c: Ch
        ensures Has(KindOf(u.symbol), c) <==> SymbolHas(u.symbol, c)
      {
        KindHas(u.symbol, c);
      }
      forall j | 0 <= j <= |w|
        ensures InLanguage(rest, w[j..]) <==> Stands(units[1..], w[j..])
        ensures UnitStands(u, w[..j]) <==> (u.stars > 0 || j == 1) && AllHas(KindOf(u.symbol), w, 0, j)
      {
        LanguageIsMeant(units[1..], end, w[j..]);
        UnitIsMeant(u, w, j);
      }
      assert ToEnd(items) == end by { LastOfRest(items); }
      OneOrMany(units, w, items);
    }
  }

  lemma LastOfRest(items: seq<Item>)
    requires |items| >= 1 && items[0] != End
    ensures ToEnd(items) == ToEnd(items[1..])
  {
  }

  lemma UnitIsMeant(u: Unit, w: seq<Ch>, j: nat)
    requires j <= |w| && forall c: Ch :: Has(KindOf(u.symbol), c) <==> SymbolHas(u.symbol, c)
    ensures UnitStands(u, w[..j]) <==> (u.stars > 0 || j == 1) && AllHas(KindOf(u.symbol), w, 0, j)
  {
    hide Has, SymbolHas;
    forall n | 0 <= n < j
      ensures w[..j][n] == w[n]
    {
    }
    if UnitStands(u, w[..j]) {
      forall n | 0 <= n < j
        ensures Has(KindOf(u.symbol), w[n])
      {
        assert SymbolHas(u.symbol, w[..j][n]);
      }
    }
  }

  lemma {:induction false} OneOrMany(units: seq<Unit>, w: seq<Ch>, items: seq<Item>)
    requires units != [] && items != [] && items[0] == ItemOf(units[0])
    requires forall j | 0 <= j <= |w| :: InLanguage(items[1..], w[j..]) <==> Stands(units[1..], w[j..])
    requires forall j | 0 <= j <= |w| ::
               UnitStands(units[0], w[..j]) <==>
               (units[0].stars > 0 || j == 1) && AllHas(KindOf(units[0].symbol), w, 0, j)
    ensures InLanguage(items, w) <==> Stands(units, w)
  {
    var k := KindOf(units[0].symbol);
    if InLanguage(items, w) {
      var j :| 0 <= j <= |w| && (units[0].stars > 0 || j == 1) && AllHas(k, w, 0, j) && InLanguage(items[1..], w[j..]);
      assert UnitStands(units[0], w[..j]);
    }
    if Stands(units, w) {
      var j :| 0 <= j <= |w| && UnitStands(units[0], w[..j]) && Stands(units[1..], w[j..]);
      assert AllHas(k, w, 0, j);
    }
  }

  /** grep, for a pattern as it is written: refused just when its code is too long, and otherwise the
      line is found exactly when it contains what is meant. */
  method GrepFor(p: Pattern, line: seq<Ch>) returns (ok: bool, found: bool)
    requires WellWritten(p)
    ensures ok <==> |Encode(ItemsOf(p))| < 256
    ensures ok ==> (found <==> Contains(line, p))
  {
    WrittenIsRead(p);
    ok, found := Grep(Text(p), line);
    AcceptedIsContained(p, line);
  }

  lemma AcceptedIsContained(p: Pattern, line: seq<Ch>)
    ensures Accepts(p.begin, ItemsOf(p), line) <==> Contains(line, p)
  {
    hide Meant, UnitItems, EndItems, Stands, InLanguage;
    var items := ItemsOf(p);
    forall i: nat, j: nat
      ensures Piece(p.begin, items, line, i, j) <==> StandsAt(p, line, i, j)
    {
      if i <= j <= |line| {
        LanguageIsMeant(Meant(p), p.end, line[i..j]);
      }
    }
    if Accepts(p.begin, items, line) {
      var i: nat, j: nat :| Piece(p.begin, items, line, i, j);
      assert StandsAt(p, line, i, j);
    }
    if Contains(line, p) {
      var i: nat, j: nat :| StandsAt(p, line, i, j);
      assert Piece(p.begin, items, line, i, j);
    }
  }
}
