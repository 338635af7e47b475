/** main() of tsort.c: the order printed respects every given pair but those into nodes that were
    taken out of a cycle. */
module TsortMain {
  import opened Options
  import opened Sequences
  import opened Tsort

  ghost predicate OnLoop(inedges: seq<seq<nat>>, b: nat) {
    exists c: seq<nat> :: Loop(inedges, c) && b in c
  }

  /** A predecessor of v has not been printed. */
  ghost predicate Waits(inedges: seq<seq<nat>>, done: seq<nat>, v: nat)
    requires v < |inedges|
  {
    exists p :: p in inedges[v] && p !in done
  }

  /** When number k was printed all nodes before it in the list, and if findloop chose it all nodes
      left, were waiting. */
  ghost predicate InTurn(inedges: seq<seq<nat>>, out: seq<nat>, k: nat, broken: set<nat>)
    requires k < |out|
  {
    forall v: nat | v < |inedges| && v !in out[..k] && (out[k] in broken || v < out[k]) :: Waits(inedges, out[..k], v)
  }

  /** out has been printed: just its nodes are dead, each of them is there once, and all
      predecessors of a node stand before it unless findloop chose it. */
  ghost predicate Printed(inedges: seq<seq<nat>>, live: seq<Mark>, out: seq<nat>, broken: set<nat>) {
    && |live| == |inedges| && NoneTwice(out)
    && (forall v | 0 <= v < |live| :: live[v] == if v in out then DEAD else LIVE)
    && (forall v | v in out :: v < |live|)
    && (forall k, p | 0 <= k < |out| && out[k] < |inedges| && p in inedges[out[k]] :: p in out[..k] || out[k] in broken)
    && (forall b | b in broken :: b in out && OnLoop(inedges, b))
    && (forall k | 0 <= k < |out| :: InTurn(inedges, out, k, broken))
  }

  /** A living node with a living predecessor waits. */
  lemma AliveWaits(inedges: seq<seq<nat>>, live: seq<Mark>, out: seq<nat>, broken: set<nat>, v: nat)
    requires Printed(inedges, live, out, broken) && v < |live| && Alive(inedges[v], live).Some?
    ensures Waits(inedges, out, v)
  {
    var p := Alive(inedges[v], live).value;
    assert live[p] != DEAD;
    assert p in inedges[v] && p !in out;
  }

  lemma NewInTurn(inedges: seq<seq<nat>>, live: seq<Mark>, out: seq<nat>, broken: set<nat>, i: nat, broken': set<nat>)
    requires Printed(inedges, live, out, broken) && i < |live| && live[i] == LIVE
    requires broken' == broken || broken' == broken + {i}
    requires forall v: nat | v < |live| && live[v] == LIVE && (i in broken' || v < i) :: Alive(inedges[v], live).Some?
    ensures forall k | 0 <= k < |out + [i]| :: InTurn(inedges, out + [i], k, broken')
  {
    hide Alive, OnLoop;
    var more := out + [i];
    forall k | 0 <= k < |more|
      ensures InTurn(inedges, more, k, broken')
    {
      if k < |out| {
        assert more[..k] == out[..k] && more[k] == out[k] && out[k] in out;
        assert InTurn(inedges, out, k, broken);
      } else {
        assert more[..k] == out;
        forall v: nat | v < |inedges| && v !in out && (i in broken' || v < i)
          ensures Waits(inedges, out, v)
        {
          AliveWaits(inedges, live, out, broken, v);
        }
      }
    }
  }

  lemma PrintOne(inedges: seq<seq<nat>>, live: seq<Mark>, out: seq<nat>, broken: set<nat>, i: nat, broken': set<nat>)
    requires Printed(inedges, live, out, broken) && i < |live| && live[i] == LIVE
    requires forall p | p in inedges[i] :: p < |live|
    requires if Alive(inedges[i], live).Some? then OnLoop(inedges, i) && broken' == broken + {i} else broken' == broken
    requires forall v: nat | v < |live| && live[v] == LIVE && (Alive(inedges[i], live).Some? || v < i) :: Alive(inedges[v], live).Some?
    ensures Printed(inedges, live[i := DEAD], out + [i], broken') && Living(live[i := DEAD]) < Living(live)
  {
    hide InTurn, OnLoop, Alive;
    assert i in Living(live) && i !in Living(live[i := DEAD]);
    NewInTurn(inedges, live, out, broken, i, broken');
    forall k, p | 0 <= k < |out + [i]| && (out + [i])[k] < |inedges| && p in inedges[(out + [i])[k]]
      ensures p in (out + [i])[..k] || (out + [i])[k] in broken'
    {
      assert (out + [i])[..k] == out[..k];
      if k < |out| {
        assert p in out[..k] || out[k] in broken;
      } else {
        assert out[..k] == out;
      }
    }
  }

  lemma AllPrinted(inedges: seq<seq<nat>>, live: seq<Mark>, out: seq<nat>, broken: set<nat>)
    requires Printed(inedges, live, out, broken) && forall v | 0 <= v < |live| :: live[v] != LIVE
    ensures forall v: nat | v < |inedges| :: v in out
  {
  }

  lemma SomeAlive(inedges: seq<seq<nat>>, live: seq<Mark>, names: seq<string>, i: nat)
    requires Formed(names, inedges) && |live| == |names| && i < |names|
    ensures forall p | p in inedges[i] :: p < |live|
  {
  }

  lemma IsStuck(inedges: seq<seq<nat>>, live: seq<Mark>, out: seq<nat>, broken: set<nat>)
    requires Printed(inedges, live, out, broken)
    requires forall v | 0 <= v < |live| && live[v] == LIVE :: Alive(inedges[v], live).Some?
    ensures Stuck(inedges, live)
  {
  }

  lemma AnyIsAlive(inedges: seq<seq<nat>>, live: seq<Mark>, out: seq<nat>, broken: set<nat>, i: nat)
    requires Printed(inedges, live, out, broken) && i < |live| && forall p | p in inedges[i] :: p < |live|
    ensures Alive(inedges[i], live).Some? <==> exists p :: p in inedges[i] && live[p] == LIVE
  {
    var r := Alive(inedges[i], live);
    if r.Some? {
      assert live[r.value] == LIVE;
    }
  }

  /** The sweep over the list: does anything live, and where does the first node without a living
      predecessor stand? */
  method Sweep(g: Graph, ghost out: seq<nat>, ghost broken: set<nat>) returns (x: bool, i: nat)
    requires g.Valid() && Printed(g.inedges, g.live, out, broken)
    ensures i <= |g.names| && (x <==> Living(g.live) != {})
    ensures i < |g.names| ==> g.live[i] == LIVE && Alive(g.inedges[i], g.live).None?
    ensures forall v: nat | v < i && g.live[v] == LIVE :: Alive(g.inedges[v], g.live).Some?
    ensures i == |g.names| ==> Stuck(g.inedges, g.live)
  {
    hide Printed, Formed, Alive;
    FormedFacts(g.names, g.inedges);
    x, i := false, 0;
    while i < |g.names|
      invariant i <= |g.names|
      invariant x <==> exists v :: 0 <= v < i && g.live[v] == LIVE
      invariant forall v | 0 <= v < i && g.live[v] == LIVE :: Alive(g.inedges[v], g.live).Some?
    {
      if g.live[i] == LIVE {
        x := true;
        assert i in Living(g.live);
        SomeAlive(g.inedges, g.live, g.names, i);
        AnyIsAlive(g.inedges, g.live, out, broken, i);
        var any := g.AnyPred(i);
        if !any {
          return;
        }
      }
      i := i + 1;
    }
    FormedFacts(g.names, g.inedges);
    if x {
      ghost var v :| 0 <= v < i && g.live[v] == LIVE;
      assert v in Living(g.live);
    }
    IsStuck(g.inedges, g.live, out, broken);
  }

  /** The second loop of main. */
  method Order(g: Graph) returns (out: seq<nat>, ghost broken: set<nat>)
    requires g.Valid() && forall v | 0 <= v < |g.live| :: g.live[v] == LIVE
    modifies g`live
    ensures NoneTwice(out) && (forall v: nat :: v in out <==> v < |g.names|)
    ensures forall k, p | 0 <= k < |out| && out[k] < |g.inedges| && p in g.inedges[out[k]] :: p in out[..k] || out[k] in broken
    ensures forall b | b in broken :: OnLoop(g.inedges, b)
    ensures forall k | 0 <= k < |out| :: InTurn(g.inedges, out, k, broken)
  {
    hide Alive, Cycle, Stuck, Loop;
    out, broken := [], {};
    FormedFacts(g.names, g.inedges);
    assert Printed(g.inedges, g.live, out, broken);
    while true
      invariant g.Valid() && Printed(g.inedges, g.live, out, broken)
      decreases Living(g.live)
    {
      hide Printed, Formed, Living, OnLoop;
      var x, i := Sweep(g, out, broken);
      if !x {
        break;
      }
      ghost var chosen := {};
      if i == |g.names| {
        ghost var noted;
        i, noted := g.FindLoop();
        FromLoop(g.inedges, g.live, noted);
        chosen := {i};
      }
      SomeAlive(g.inedges, g.live, g.names, i);
      StuckAreAlive(g.inedges, g.live);
      PrintOne(g.inedges, g.live, out, broken, i, broken + chosen);
      out, broken := out + [i], broken + chosen;
      g.live := g.live[i := DEAD];
    }
    FormedFacts(g.names, g.inedges);
    NoneLiving(g.live);
    AllPrinted(g.inedges, g.live, out, broken);
  }

  lemma StuckAreAlive(inedges: seq<seq<nat>>, live: seq<Mark>)
    ensures Stuck(inedges, live) ==> forall v: nat | v < |live| && live[v] == LIVE :: Alive(inedges[v], live).Some?
  {
  }

  lemma NoneLiving(live: seq<Mark>)
    requires Living(live) == {}
    ensures forall v | 0 <= v < |live| :: live[v] != LIVE
  {
    forall v | 0 <= v < |live|
      ensures live[v] != LIVE
    {
      assert v !in Living(live);
    }
  }

  lemma FromLoop(inedges: seq<seq<nat>>, live: seq<Mark>, c: seq<nat>)
    requires Stuck(inedges, live) && Cycle(inedges, live, c)
    ensures c[0] < |live| && live[c[0]] == LIVE && OnLoop(inedges, c[0]) && Alive(inedges[c[0]], live).Some?
  {
  }

  // ----- the whole program

  /** Each of these items is given as preceded by the one after it, going round. */
  ghost predicate ItemLoop(words: seq<string>, c: seq<string>) {
    |c| > 0 && forall k | 0 <= k < |c| :: After(c, k) != c[k] && Precedes(words, After(c, k), c[k])
  }

  ghost predicate Before(out: seq<string>, x: string, y: string) {
    exists i, j :: 0 <= i < j < |out| && out[i] == x && out[j] == y
  }

  /** When item number k was printed, all items that stand before it in the input, and if it was chosen
      to break a cycle all items left, were to be preceded by one not yet printed. */
  ghost predicate ItemInTurn(words: seq<string>, out: seq<string>, k: nat, broken: set<string>)
    requires k < |out|
  {
    forall y | y in words && y !in out[..k] && (out[k] in broken || Before(Items(words), y, out[k])) ::
      ItemWaits(words, out[..k], y)
  }

  ghost predicate ItemWaits(words: seq<string>, done: seq<string>, y: string) {
    exists x :: x !in done && x != y && Precedes(words, x, y)
  }

  /** out is what tsort prints: every item once, each in its turn, and x before y whenever the pair was
      given, unless y was chosen to break a cycle it is on. */
  ghost predicate Sorted(words: seq<string>, out: seq<string>, broken: set<string>) {
    && NoneTwice(out) && (forall s :: s in out <==> s in words)
    && (forall x, y | x != y && Precedes(words, x, y) && y !in broken :: Before(out, x, y))
    && (forall b | b in broken :: exists c :: ItemLoop(words, c) && b in c)
    && (forall k | 0 <= k < |out| :: ItemInTurn(words, out, k, broken))
  }

  function Named(names: seq<string>, c: seq<nat>): (r: seq<string>)
    requires forall v | v in c :: v < |names|
    ensures |r| == |c| && forall k | 0 <= k < |c| :: c[k] < |names| && r[k] == names[c[k]]
  {
    if c == [] then [] else
      assert c[0] in c && forall v | v in c[1..] :: v in c;
      [names[c[0]]] + Named(names, c[1..])
  }

  lemma LoopOfItems(words: seq<string>, names: seq<string>, inedges: seq<seq<nat>>, b: nat)
    requires Formed(names, inedges) && GraphOf(words, names, inedges) && OnLoop(inedges, b)
    ensures b < |names| && exists c :: ItemLoop(words, c) && names[b] in c
  {
    var c: seq<nat> :| Loop(inedges, c) && b in c;
    forall v | v in c
      ensures v < |names|
    {
      var k: nat :| k < |c| && c[k] == v;
      assert c[k] < |inedges|;
    }
    var d := Named(names, c);
    forall k | 0 <= k < |d|
      ensures After(d, k) != d[k] && Precedes(words, After(d, k), d[k])
    {
      var u := After(c, k);
      assert u in inedges[c[k]] && After(d, k) == names[u];
    }
    var z: nat :| z < |c| && c[z] == b;
    assert d[z] == names[b];
    assert ItemLoop(words, d);
  }

  lemma OrderIsSorted(words: seq<string>, names: seq<string>, inedges: seq<seq<nat>>, out: seq<nat>, broken: set<nat>, x: string, y: string)
    requires Formed(names, inedges) && GraphOf(words, names, inedges) && (forall v: nat :: v in out <==> v < |names|)
    requires forall k, p | 0 <= k < |out| && out[k] < |inedges| && p in inedges[out[k]] :: p in out[..k] || out[k] in broken
    requires x != y && Precedes(words, x, y) && forall v: nat | v < |names| && names[v] == y :: v !in broken
    ensures Before(Named(names, out), x, y)
  {
    PairsAreItems(words, x, y);
    var u: nat :| u < |names| && names[u] == x;
    var v: nat :| v < |names| && names[v] == y;
    assert u in inedges[v];
    assert v in out;
    var k: nat :| k < |out| && out[k] == v;
    assert u in out[..k];
    var j: nat :| j < k && out[..k][j] == u;
    var d := Named(names, out);
    assert d[j] == x && d[k] == y;
  }

  lemma NamedOnce(names: seq<string>, out: seq<nat>)
    requires NoneTwice(names) && NoneTwice(out) && forall v: nat :: v in out <==> v < |names|
    ensures NoneTwice(Named(names, out)) && forall s :: s in Named(names, out) <==> s in names
  {
    var d := Named(names, out);
    forall s | s in names
      ensures s in d
    {
      var v: nat :| v < |names| && names[v] == s;
      assert v in out;
      var k: nat :| k < |out| && out[k] == v;
      assert d[k] == s;
    }
    forall s | s in d
      ensures s in names
    {
      var k: nat :| k < |d| && d[k] == s;
      assert names[out[k]] == s;
    }
    forall i, j | 0 <= i < j < |d|
      ensures d[i] != d[j]
    {
      assert out[i] != out[j] && out[i] in out && out[j] in out;
      assert out[i] < out[j] || out[j] < out[i];
    }
  }

  /** Items take their turns as their nodes do. */
  lemma NamedInTurn(words: seq<string>, names: seq<string>, inedges: seq<seq<nat>>, out: seq<nat>, broken: set<nat>,
                    k: nat, named: set<string>)
    requires Formed(names, inedges) && GraphOf(words, names, inedges) && (forall v: nat :: v in out <==> v < |names|)
    requires k < |out| && InTurn(inedges, out, k, broken) && forall v: nat | v < |names| && names[v] in named :: v in broken
    ensures ItemInTurn(words, Named(names, out), k, named)
  {
    hide GraphOf;
    var d := Named(names, out);
    ItemsAreWords(words);
    NamesAreItems(words, names, inedges);
    forall y | y in words && y !in d[..k] && (d[k] in named || Before(Items(words), y, d[k]))
      ensures ItemWaits(words, d[..k], y)
    {
      var v: nat :| v < |names| && names[v] == y;
      NamedIn(names, out, k, v);
      if d[k] !in named {
        var i, j :| 0 <= i < j < |names| && names[i] == y && names[j] == d[k];
        assert i == v && j == out[k];
      }
      var p: nat :| p in inedges[v] && p !in out[..k];
      NamedWaits(words, names, inedges, out, k, v, p);
    }
  }

  lemma NamesAreItems(words: seq<string>, names: seq<string>, inedges: seq<seq<nat>>)
    requires GraphOf(words, names, inedges)
    ensures names == Items(words) && |inedges| == |names|
  {
  }

  lemma NamedWaits(words: seq<string>, names: seq<string>, inedges: seq<seq<nat>>, out: seq<nat>, k: nat, v: nat, p: nat)
    requires Formed(names, inedges) && GraphOf(words, names, inedges) && (forall v: nat :: v in out <==> v < |names|)
    requires k < |out| && v < |names| && p in inedges[v] && p !in out[..k]
    ensures ItemWaits(words, Named(names, out)[..k], names[v])
  {
    NamedIn(names, out, k, p);
    assert names[p] != names[v] && Precedes(words, names[p], names[v]);
  }

  lemma NamedIn(names: seq<string>, out: seq<nat>, k: nat, v: nat)
    requires NoneTwice(names) && (forall u | u in out :: u < |names|) && k <= |out| && v < |names|
    ensures names[v] in Named(names, out)[..k] <==> v in out[..k]
  {
    var d := Named(names, out);
    if v in out[..k] {
      var j: nat :| j < k && out[..k][j] == v;
      assert d[..k][j] == names[v];
    }
    if names[v] in d[..k] {
      var j: nat :| j < k && d[..k][j] == names[v];
      assert names[out[j]] == names[v] && out[j] in out;
      assert out[..k][j] == v;
    }
  }

  lemma Conclude(words: seq<string>, names: seq<string>, inedges: seq<seq<nat>>, out: seq<nat>, broken: set<nat>)
    returns (named: set<string>)
    requires Formed(names, inedges) && GraphOf(words, names, inedges)
    requires NoneTwice(out) && (forall v: nat :: v in out <==> v < |names|)
    requires forall k, p | 0 <= k < |out| && out[k] < |inedges| && p in inedges[out[k]] :: p in out[..k] || out[k] in broken
    requires forall b | b in broken :: OnLoop(inedges, b)
    requires forall k | 0 <= k < |out| :: InTurn(inedges, out, k, broken)
    ensures Sorted(words, Named(names, out), named)
  {
    forall b | b in broken
      ensures b < |names| && exists c :: ItemLoop(words, c) && names[b] in c
    {
      LoopOfItems(words, names, inedges, b);
    }
    named := set b | b in broken :: names[b];
    ItemsAreWords(words);
    NamedOnce(names, out);
    forall k | 0 <= k < |out|
      ensures ItemInTurn(words, Named(names, out), k, named)
    {
      NamedInTurn(words, names, inedges, out, broken, k, named);
    }
    forall x, y | x != y && Precedes(words, x, y) && y !in named
      ensures Before(Named(names, out), x, y)
    {
      OrderIsSorted(words, names, inedges, out, broken, x, y);
    }
  }

  /** tsort on the words of its input; None is the complaint about odd data. */
  method TopologicalSort(words: seq<string>) returns (r: Option<seq<string>>, ghost broken: set<string>)
    ensures r.None? <==> |words| % 2 == 1
    ensures r.Some? ==> Sorted(words, r.value, broken)
  {
    hide Sorted, GraphOf, OnLoop;
    var g := new Graph();
    var ok := g.Read(words);
    broken := {};
    if !ok {
      return None, broken;
    }
    ghost var names, inedges := g.names, g.inedges;
    var out;
    ghost var nodes;
    out, nodes := Order(g);
    broken := Conclude(words, names, inedges, out, nodes);
    return Some(Named(g.names, out)), broken;
  }

  lemma BrokenMeansLoop(words: seq<string>, out: seq<string>, broken: set<string>)
    requires Sorted(words, out, broken)
    ensures broken != {} ==> exists c :: ItemLoop(words, c)
  {
    if broken != {} {
      var b :| b in broken;
      var c :| ItemLoop(words, c) && b in c;
    }
  }

  /** When no item is given as preceding itself by way of others, every given pair is respected. */
  lemma AcyclicIsRespected(words: seq<string>, out: seq<string>, broken: set<string>)
    requires Sorted(words, out, broken) && forall c :: !ItemLoop(words, c)
    ensures broken == {} && forall x, y | x != y && Precedes(words, x, y) :: Before(out, x, y)
  {
    BrokenMeansLoop(words, out, broken);
  }

  /** The first of a pair comes out first, and an item that is given with itself just once. */
  method OnePair() returns (r: Option<seq<string>>)
    ensures r == Some(["a", "b"])
  {
    var words := ["b", "b", "a", "b"];
    ghost var broken;
    r, broken := TopologicalSort(words);
    assert Given(words, 1, "a", "b");
    if b :| b in broken {
      var c :| ItemLoop(words, c) && b in c;
      NoLoop(words, c);
    }
    TwoInOrder(words, r.value, "a", "b");
  }

  lemma NoLoop(words: seq<string>, c: seq<string>)
    requires words == ["b", "b", "a", "b"]
    ensures !ItemLoop(words, c)
  {
    if ItemLoop(words, c) {
      OnlyStep(words, After(c, 0), c[0]);
      if |c| > 1 {
        OnlyStep(words, After(c, 1), c[1]);
      }
    }
  }

  lemma OnlyStep(words: seq<string>, x: string, y: string)
    requires words == ["b", "b", "a", "b"] && x != y && Precedes(words, x, y)
    ensures x == "a" && y == "b"
  {
    var j :| Given(words, j, x, y);
  }

  lemma TwoInOrder(words: seq<string>, out: seq<string>, x: string, y: string)
    requires NoneTwice(out) && Before(out, x, y) && forall s :: s in out <==> s == x || s == y
    ensures out == [x, y]
  {
    var i, j :| 0 <= i < j < |out| && out[i] == x && out[j] == y;
    var three := if |out| > 2 then [out[0], out[1], out[2]] else [];
    forall k | 0 <= k < |out|
      ensures out[k] == x || out[k] == y
    {
      assert out[k] in out;
    }
  }
}
