/** Any string can be written as a pattern that finds just the lines that contain it. */
module GrepQuoted {
  import opened GrepPattern
  import opened GrepMatch

  predicate Special(c: Ch) {
    c == DOT || c == ASTERISK || c == BRACKET || c == CARET || c == DOLLAR || c == BACKSLASH
  }

  /** w with a backslash before each special character. */
  function Quoted(w: seq<Ch>): seq<Ch> {
    if w == [] then []
    else (if Special(w[0]) then [BACKSLASH, w[0]] else [w[0]]) + Quoted(w[1..])
  }

  function Literal(w: seq<Ch>): (r: seq<Item>)
    ensures |r| == |w|
  {
    if w == [] then [] else [One(Char(w[0]))] + Literal(w[1..])
  }

  lemma NoStarFirst(w: seq<Ch>)
    ensures Quoted(w) == [] || (Quoted(w)[0] != ASTERISK && Quoted(w)[0] != CARET && Quoted(w)[0] != DOLLAR)
  {
  }

  lemma Tail(p: seq<Ch>, i: nat, head: seq<Ch>, rest: seq<Ch>)
    requires i <= |p| && p[i..] == head + rest
    ensures i + |head| <= |p| && p[i + |head|..] == rest && forall k | 0 <= k < |head| :: p[i + k] == head[k]
  {
    assert p[i + |head|..] == p[i..][|head|..];
    forall k | 0 <= k < |head|
      ensures p[i + k] == head[k]
    {
      assert p[i..][k] == head[k];
    }
  }

  /** A quoted string is read as its characters. */
  lemma {:induction false} QuotedIsLiteral(p: seq<Ch>, i: nat, start: bool, w: seq<Ch>)
    requires i <= |p| && p[i..] == Quoted(w)
    ensures ParseAt(p, i, start) == Items(Literal(w))
    decreases |w|
  {
    if w != [] {
      var head := if Special(w[0]) then [BACKSLASH, w[0]] else [w[0]];
      Tail(p, i, head, Quoted(w[1..]));
      var next := i + |head|;
      assert ReadAtom(p, i) == Got(Char(w[0]), next) by {
        assert p[i] == head[0];
        assert Special(w[0]) ==> p[i + 1] == head[1];
      }
      NoStarFirst(w[1..]);
      assert next < |p| ==> p[next] == Quoted(w[1..])[0];
      assert Stars(p, next) == next;
      QuotedIsLiteral(p, next, false, w[1..]);
    }
  }

  lemma {:induction false} LiteralLanguage(w: seq<Ch>, v: seq<Ch>)
    ensures InLanguage(Literal(w), v) <==> v == w
  {
    if w != [] {
      assert Literal(w)[1..] == Literal(w[1..]);
      if v != [] {
        LiteralLanguage(w[1..], v[1..]);
        assert v == [v[0]] + v[1..] && w == [w[0]] + w[1..];
      }
    }
  }

  lemma {:induction false} LiteralHasNoEnd(w: seq<Ch>)
    ensures !ToEnd(Literal(w))
  {
    if w != [] {
      LiteralHasNoEnd(w[1..]);
    }
  }

  /** The quoted string is found just in the lines it is a part of. */
  lemma QuotedFinds(w: seq<Ch>, line: seq<Ch>)
    ensures !Anchored(Quoted(w)) && Parse(Quoted(w)) == Items(Literal(w))
    ensures Accepts(false, Literal(w), line) <==> exists i, j :: 0 <= i <= j <= |line| && line[i..j] == w
  {
    NoStarFirst(w);
    assert Quoted(w)[0..] == Quoted(w);
    QuotedIsLiteral(Quoted(w), 0, true, w);
    LiteralHasNoEnd(w);
    if Accepts(false, Literal(w), line) {
      var i: nat, j: nat :| Piece(false, Literal(w), line, i, j);
      LiteralLanguage(w, line[i..j]);
    }
    if i: nat, j: nat :| i <= j <= |line| && line[i..j] == w {
      LiteralLanguage(w, line[i..j]);
      assert Piece(false, Literal(w), line, i, j);
    }
  }
}
