/** advance() and the search loop of execute() in grep.c: a line is found exactly when a piece of
    it is in the language of the pattern. */
module GrepMatch {
  import opened GrepPattern
  import opened GrepCompile

  // ----- languages

  /** The word is made of the items one after the other; a starred item takes any number of its
      characters.  $ takes none. */
  ghost predicate InLanguage(items: seq<Item>, w: seq<Ch>)
    decreases |items|
  {
    if items == [] then w == []
    else
      match items[0]
      case One(k) => |w| > 0 && Has(k, w[0]) && InLanguage(items[1..], w[1..])
      case Star(k) => exists j :: 0 <= j <= |w| && AllHas(k, w, 0, j) && InLanguage(items[1..], w[j..])
      case End => InLanguage(items[1..], w)
  }

  ghost predicate AllHas(k: Kind, w: seq<Ch>, i: int, j: int) {
    forall n | i <= n < j && 0 <= n < |w| :: Has(k, w[n])
  }

  predicate ToEnd(items: seq<Item>) {
    |items| > 0 && items[|items| - 1] == End
  }

  /** The piece of the line from i to j is what the pattern asks for. */
  ghost predicate Piece(anchored: bool, items: seq<Item>, line: seq<Ch>, i: nat, j: nat) {
    i <= j <= |line| && InLanguage(items, line[i..j]) && (anchored ==> i == 0) && (ToEnd(items) ==> j == |line|)
  }

  ghost predicate Accepts(anchored: bool, items: seq<Item>, line: seq<Ch>) {
    exists i, j :: Piece(anchored, items, line, i, j)
  }

  // ----- matching from one place on

  ghost predicate Matches(items: seq<Item>, line: seq<Ch>, i: nat)
    decreases |items|
  {
    if i > |line| then false
    else if items == [] then true
    else
      match items[0]
      case One(k) => i < |line| && Has(k, line[i]) && Matches(items[1..], line, i + 1)
      case Star(k) => exists j: nat :: Spans(k, line, i, j) && Matches(items[1..], line, j)
      case End => i == |line| && Matches(items[1..], line, i)
  }

  ghost predicate Spans(k: Kind, line: seq<Ch>, i: nat, j: nat) {
    i <= j <= |line| && AllHas(k, line, i, j)
  }

  /** The place where a match ends is the end of a word of the language. */
  lemma {:induction false} MatchIsWord(items: seq<Item>, line: seq<Ch>, i: nat) returns (j: nat)
    requires EndIsLast(items) && Matches(items, line, i)
    ensures i <= j <= |line| && InLanguage(items, line[i..j]) && (ToEnd(items) ==> j == |line|)
    decreases |items|
  {
    if items == [] {
      j := i;
    } else {
      var rest := items[1..];
      assert rest != [] ==> ToEnd(rest) == ToEnd(items);
      match items[0] {
        case One(k) =>
          j := MatchIsWord(rest, line, i + 1);
          assert line[i..j][1..] == line[i + 1..j];
        case Star(k) =>
          var m: nat :| Spans(k, line, i, m) && Matches(rest, line, m);
          j := MatchIsWord(rest, line, m);
          assert line[i..j][m - i..] == line[m..j];
          assert AllHas(k, line[i..j], 0, m - i);
        case End =>
          j := MatchIsWord(rest, line, i);
          assert rest == [];
      }
    }
  }

  lemma {:induction false} WordIsMatch(items: seq<Item>, line: seq<Ch>, i: nat, j: nat)
    requires EndIsLast(items) && i <= j <= |line| && InLanguage(items, line[i..j]) && (ToEnd(items) ==> j == |line|)
    ensures Matches(items, line, i)
    decreases |items|
  {
    hide Has;
    if items != [] {
      var rest := items[1..];
      assert rest != [] ==> ToEnd(rest) == ToEnd(items);
      var w := line[i..j];
      match items[0] {
        case One(k) =>
          assert w[1..] == line[i + 1..j];
          WordIsMatch(rest, line, i + 1, j);
        case Star(k) =>
          var n :| 0 <= n <= |w| && AllHas(k, w, 0, n) && InLanguage(rest, w[n..]);
          assert w[n..] == line[i + n..j];
          WordIsMatch(rest, line, i + n, j);
          forall z | i <= z < i + n
            ensures Has(k, line[z])
          {
            assert line[z] == w[z - i];
          }
          assert Spans(k, line, i, i + n);
        case End =>
          assert rest == [];
      }
    }
  }

  ghost predicate MatchesFrom(anchored: bool, items: seq<Item>, line: seq<Ch>, i: nat) {
    (anchored ==> i == 0) && Matches(items, line, i)
  }

  lemma MatchesAreAccepted(anchored: bool, items: seq<Item>, line: seq<Ch>)
    requires EndIsLast(items)
    ensures Accepts(anchored, items, line) <==> exists i: nat :: MatchesFrom(anchored, items, line, i)
  {
    hide Matches, InLanguage;
    if Accepts(anchored, items, line) {
      var i, j :| Piece(anchored, items, line, i, j);
      WordIsMatch(items, line, i, j);
      assert MatchesFrom(anchored, items, line, i);
    } else if exists i: nat :: MatchesFrom(anchored, items, line, i) {
      var i: nat :| MatchesFrom(anchored, items, line, i);
      WordFrom(anchored, items, line, i);
    }
  }

  lemma WordFrom(anchored: bool, items: seq<Item>, line: seq<Ch>, i: nat)
    requires EndIsLast(items) && MatchesFrom(anchored, items, line, i)
    ensures Accepts(anchored, items, line)
  {
    var j := MatchIsWord(items, line, i);
    assert Piece(anchored, items, line, i, j);
  }

  // ----- the code at a place of expbuf

  ghost predicate Here(expbuf: seq<int>, ep: nat, items: seq<Item>) {
    ep <= |expbuf| && expbuf[ep..] == Code(items)
  }

  lemma AtEnd(expbuf: seq<int>, ep: nat)
    requires Here(expbuf, ep, [])
    ensures ep < |expbuf| && expbuf[ep] == CEOF
  {
    assert expbuf[ep..][0] == CEOF;
  }

  function Size(item: Item): nat { |Encoded(item)| }

  lemma AtItem(expbuf: seq<int>, ep: nat, items: seq<Item>)
    requires Here(expbuf, ep, items) && items != []
    ensures ep + Size(items[0]) < |expbuf| && expbuf[ep..ep + Size(items[0])] == Encoded(items[0])
    ensures expbuf[ep] == Encoded(items[0])[0] && Here(expbuf, ep + Size(items[0]), items[1..])
  {
    hide Encoded;
    var e := Encoded(items[0]);
    var tail := Encode(items[1..]) + [CEOF];
    assert expbuf[ep..] == e + tail;
    assert expbuf[ep..][..|e|] == e && expbuf[ep..][|e|..] == tail;
    assert expbuf[ep + |e|..] == expbuf[ep..][|e|..];
    assert expbuf[ep..ep + |e|] == expbuf[ep..][..|e|];
    assert expbuf[ep] == expbuf[ep..][0];
  }

  /** No character of a class is NUL. */
  ghost predicate Proper(items: seq<Item>) {
    forall k | 0 <= k < |items| && !items[k].End? && items[k].kind.Class? :: Chars(items[k].kind.chars)
  }

  lemma {:induction false} ParsedProper(p: seq<Ch>, i: nat, start: bool)
    requires i <= |p|
    ensures ParseAt(p, i, start).Items? ==> Proper(ParseAt(p, i, start).items)
    decreases |p| - i
  {
    if i < |p| {
      if p[i] == ASTERISK && start {
        ParsedProper(p, i + 1, true);
      } else if ReadAtom(p, i).Got? {
        ParsedProper(p, Stars(p, ReadAtom(p, i).next), false);
      }
    }
  }

  /** Does the code of the first item, at ep, fit the character c or the NUL? */
  predicate Fits(expbuf: seq<int>, ep: nat, op: int, c: int)
    requires ep < |expbuf| && (op != CCHR && op != CDOT ==> ep + 16 <= |expbuf|) && 0 <= c < 128
  {
    if op == CCHR then expbuf[ep] == c
    else if op == CDOT then c != 0
    else HasBit(expbuf[ep..ep + 16], c)
  }

  function Op(k: Kind): int {
    match k
    case Char(_) => CCHR
    case Any => CDOT
    case Class(_) => CCL
  }

  function Width(k: Kind): nat {
    match k
    case Char(_) => 1
    case Any => 0
    case Class(_) => 16
  }

  lemma FitsIsHas(expbuf: seq<int>, ep: nat, items: seq<Item>, k: Kind, line: seq<Ch>, lp: nat)
    requires Here(expbuf, ep, items) && Proper(items) && items != [] && (items[0] == One(k) || items[0] == Star(k))
    requires lp <= |line|
    ensures Size(items[0]) == 1 + Width(k) && ep + 1 + Width(k) < |expbuf|
    ensures Fits(expbuf, ep + 1, Op(k), At(line, lp)) <==> lp < |line| && Has(k, line[lp])
  {
    AtItem(expbuf, ep, items);
    var e := Encoded(items[0]);
    assert expbuf[ep..ep + |e|] == e;
    match k {
      case Char(c) =>
        assert expbuf[ep..ep + |e|][1] == c;
      case Any =>
      case Class(s) =>
        assert e == [e[0]] + MapOf(s);
        assert expbuf[ep + 1..ep + 17] == expbuf[ep..ep + |e|][1..] == MapOf(s);
        MapHas(s, At(line, lp));
    }
  }

  /** The operation at ep tells the first item. */
  lemma Opcode(expbuf: seq<int>, ep: nat, items: seq<Item>)
    requires Here(expbuf, ep, items)
    ensures ep < |expbuf|
    ensures expbuf[ep] == if items == [] then CEOF else match items[0]
                          case End => CDOL
                          case One(k) => Op(k)
                          case Star(k) => Op(k) + STAR
  {
    if items == [] {
      AtEnd(expbuf, ep);
    } else {
      AtItem(expbuf, ep, items);
    }
  }

  // ----- advance

  /** Up to m the characters fit, that at m does not. */
  ghost predicate Reach(k: Kind, line: seq<Ch>, i: nat, m: nat) {
    Spans(k, line, i, m) && (m < |line| ==> !Has(k, line[m]))
  }

  lemma StarMatches(items: seq<Item>, k: Kind, line: seq<Ch>, i: nat, m: nat)
    requires items != [] && items[0] == Star(k) && Reach(k, line, i, m)
    ensures Matches(items, line, i) <==> exists j: nat :: i <= j <= m && Matches(items[1..], line, j)
  {
    hide Has;
    var rest := items[1..];
    if Matches(items, line, i) {
      var j: nat :| Spans(k, line, i, j) && Matches(rest, line, j);
      assert i <= j <= m && Matches(rest, line, j);
    }
    if exists j: nat :: i <= j <= m && Matches(rest, line, j) {
      var j: nat :| i <= j <= m && Matches(rest, line, j);
      assert Spans(k, line, i, j);
    }
  }

  /** The loops before the label star: the place of the first character that does not fit. */
  method Scan(line: seq<Ch>, lp: nat, expbuf: seq<int>, ep: nat, ghost items: seq<Item>, ghost k: Kind, op: int) returns (m: nat)
    requires Here(expbuf, ep, items) && Proper(items) && items != [] && items[0] == Star(k) && op == Op(k) && lp <= |line|
    ensures Reach(k, line, lp, m)
  {
    hide Here, Proper, Fits, Has, Size, Op, Width;
    m := lp;
    Fitting(expbuf, ep, items, k, line, m);
    while Fits(expbuf, ep + 1, op, At(line, m))
      invariant Spans(k, line, lp, m) && CanFit(expbuf, ep + 1, op)
      invariant Fits(expbuf, ep + 1, op, At(line, m)) <==> m < |line| && Has(k, line[m])
      decreases |line| - m
    {
      m := m + 1;
      Fitting(expbuf, ep, items, k, line, m);
    }
  }

  ghost predicate CanFit(expbuf: seq<int>, ep: nat, op: int) {
    ep < |expbuf| && (op != CCHR && op != CDOT ==> ep + 16 <= |expbuf|)
  }

  lemma Fitting(expbuf: seq<int>, ep: nat, items: seq<Item>, k: Kind, line: seq<Ch>, lp: nat)
    requires Here(expbuf, ep, items) && Proper(items) && items != [] && (items[0] == One(k) || items[0] == Star(k))
    requires lp <= |line|
    ensures CanFit(expbuf, ep + 1, Op(k))
    ensures Fits(expbuf, ep + 1, Op(k), At(line, lp)) <==> lp < |line| && Has(k, line[lp])
  {
    hide Fits, Has;
    FitsIsHas(expbuf, ep, items, k, line, lp);
  }

  lemma After(expbuf: seq<int>, ep: nat, items: seq<Item>)
    requires Here(expbuf, ep, items) && Proper(items) && items != []
    ensures Here(expbuf, ep + Size(items[0]), items[1..]) && Proper(items[1..])
    ensures match items[0]
            case End => Size(items[0]) == 1
            case One(k) => Size(items[0]) == 1 + Width(k)
            case Star(k) => Size(items[0]) == 1 + Width(k)
  {
    AtItem(expbuf, ep, items);
    forall k | 0 <= k < |items| - 1 && !items[1..][k].End? && items[1..][k].kind.Class?
      ensures Chars(items[1..][k].kind.chars)
    {
      assert items[1..][k] == items[k + 1];
    }
  }

  /** The character asked for by a CCHR at ep: elsewhere there is no match. */
  lemma FirstCharacter(expbuf: seq<int>, ep: nat, items: seq<Item>, line: seq<Ch>, i: nat)
    requires Here(expbuf, ep, items) && ep < |expbuf| && expbuf[ep] == CCHR && i <= |line|
    ensures ep + 1 < |expbuf| && (At(line, i) != expbuf[ep + 1] ==> !Matches(items, line, i))
  {
    Opcode(expbuf, ep, items);
    AtItem(expbuf, ep, items);
    var e := Encoded(items[0]);
    assert |e| == 2 && expbuf[ep + 1] == expbuf[ep..ep + |e|][1];
  }

  /** advance(lp, ep): does the line from lp on match the code from ep on? */
  method Advance(line: seq<Ch>, lp0: nat, expbuf: seq<int>, ep0: nat, ghost items0: seq<Item>) returns (r: bool)
    requires lp0 <= |line| && Here(expbuf, ep0, items0) && Proper(items0)
    ensures r <==> Matches(items0, line, lp0)
    decreases |items0|, 0
  {
    hide Here, Proper, Fits, Has, Size, Reach, Spans, CanFit;
    var lp: nat, ep: nat := lp0, ep0;
    ghost var items := items0;
    while true
      invariant lp <= |line| && Here(expbuf, ep, items) && Proper(items)
      invariant Matches(items0, line, lp0) <==> Matches(items, line, lp)
      invariant |items| <= |items0|
      decreases |items|
    {
      Opcode(expbuf, ep, items);
      var op := expbuf[ep];
      if op == CEOF {
        return true;
      }
      After(expbuf, ep, items);
      if op == CDOL {
        if At(line, lp) != 0 {
          return false;
        }
        ep := ep + 1;
      } else if op == CCHR || op == CDOT || op == CCL {
        Fitting(expbuf, ep, items, items[0].kind, line, lp);
        FittingReads(expbuf, ep + 1, op);
        if !Fits(expbuf, ep + 1, op, At(line, lp)) {
          return false;
        }
        lp := lp + 1;
        ep := ep + 1 + Skip(op);
      } else {
        var curlp := lp;
        ghost var k := items[0].kind;
        lp := Scan(line, lp, expbuf, ep, items, k, op - STAR);
        ep := ep + 1 + Skip(op - STAR);
        StarMatches(items, k, line, curlp, lp);
        ReachBounds(k, line, curlp, lp);
        if lp != curlp {
          r := Back(line, curlp, lp, expbuf, ep, items[1..]);
          return;
        }
      }
      items := items[1..];
    }
  }

  /** How far ep moves over what stands behind an operation. */
  function Skip(op: int): nat {
    if op == CCHR then 1 else if op == CDOT then 0 else 16
  }

  lemma FittingReads(expbuf: seq<int>, ep: nat, op: int)
    requires CanFit(expbuf, ep, op)
    ensures ep < |expbuf| && (op != CCHR && op != CDOT ==> ep + 16 <= |expbuf|)
  {
  }

  lemma ReachBounds(k: Kind, line: seq<Ch>, i: nat, m: nat)
    requires Reach(k, line, i, m)
    ensures i <= m <= |line|
  {
  }

  /** Behind the label star: the rest of the code is tried from lp down to curlp, only where its
      first character stands if it asks for one. */
  method Back(line: seq<Ch>, curlp: nat, lp0: nat, expbuf: seq<int>, ep: nat, ghost rest: seq<Item>) returns (r: bool)
    requires curlp <= lp0 <= |line| && Here(expbuf, ep, rest) && Proper(rest)
    ensures r <==> exists j: nat :: curlp <= j <= lp0 && Matches(rest, line, j)
    decreases |rest|, 1
  {
    hide Here, Proper, Matches;
    Opcode(expbuf, ep, rest);
    var lp: nat := lp0;
    while true
      invariant curlp <= lp <= lp0 && forall j: nat | lp < j <= lp0 :: !Matches(rest, line, j)
      decreases lp
    {
      var try := true;
      if expbuf[ep] == CCHR {
        FirstCharacter(expbuf, ep, rest, line, lp);
        try := At(line, lp) == expbuf[ep + 1];
      }
      if try {
        var found := Advance(line, lp, expbuf, ep, rest);
        if found {
          return true;
        }
      }
      if lp <= curlp {
        return false;
      }
      lp := lp - 1;
    }
  }

  // ----- the search

  /** The part of execute() that looks for the pattern in one line. */
  method Execute(circf: bool, expbuf: seq<int>, line: seq<Ch>, ghost items: seq<Item>) returns (found: bool)
    requires expbuf == Code(items) && Proper(items) && EndIsLast(items)
    ensures found <==> Accepts(circf, items, line)
  {
    hide Matches, Proper, Accepts, Here, EndIsLast;
    MatchesAreAccepted(circf, items, line);
    StartsHere(expbuf, items);
    if circf {
      found := Advance(line, 0, expbuf, 0, items);
      assert found ==> MatchesFrom(circf, items, line, 0);
      return;
    }
    var p1: nat := 0;
    while true
      invariant 0 <= p1 <= |line| && forall i: nat | i < p1 :: !Matches(items, line, i)
      decreases |line| - p1
    {
      var try := true;
      if expbuf[0] == CCHR {
        FirstCharacter(expbuf, 0, items, line, p1);
        try := At(line, p1) == expbuf[1];
      }
      if try {
        found := Advance(line, p1, expbuf, 0, items);
        if found {
          assert MatchesFrom(circf, items, line, p1);
          return;
        }
      }
      if At(line, p1) == 0 {
        NoMatchBehind(items, line);
        return false;
      }
      p1 := p1 + 1;
    }
  }

  lemma StartsHere(expbuf: seq<int>, items: seq<Item>)
    requires expbuf == Code(items)
    ensures Here(expbuf, 0, items) && |expbuf| > 0
  {
    assert expbuf[0..] == expbuf;
  }

  lemma NoMatchBehind(items: seq<Item>, line: seq<Ch>)
    ensures forall i: nat | i > |line| :: !Matches(items, line, i)
  {
  }

  /** grep, for one line: compiled and searched for, or refused. */
  method Grep(pattern: seq<Ch>, line: seq<Ch>) returns (ok: bool, found: bool)
    requires !Parse(pattern).Foreign?
    ensures ok <==> Parse(pattern).Items? && |Encode(Parse(pattern).items)| < 256
    ensures ok ==> (found <==> Accepts(Anchored(pattern), Parse(pattern).items, line))
  {
    hide Accepts, Code, Encode;
    var g := new Compiler();
    ok := g.Compile(pattern);
    found := false;
    if ok {
      ParsedProper(pattern, if Anchored(pattern) then 1 else 0, true);
      ParsedEndIsLast(pattern, if Anchored(pattern) then 1 else 0, true);
      found := Execute(g.circf, g.expbuf, line, Parse(pattern).items);
    }
  }
}
