/** The topological sort of tsort.c: nodes in the order of the nodelist, named by their places in it. */
module Tsort {
  import opened Options
  import opened Sequences

  datatype Mark = DEAD | LIVE | ONCE | TWICE

  // ----- graphs and cycles

  ghost predicate Formed(names: seq<string>, inedges: seq<seq<nat>>) {
    && |inedges| == |names| && NoneTwice(names)
    && (forall j, p | 0 <= j < |inedges| && p in inedges[j] :: p < |names| && p != j)
    && (forall j | 0 <= j < |inedges| :: NoneTwice(inedges[j]))
  }

  /** The element after the k-th, going round. */
  function After<T>(c: seq<T>, k: nat): T
    requires k < |c|
  {
    if k + 1 == |c| then c[0] else c[k + 1]
  }

  /** Each node of c has the one after it as a predecessor, going round. */
  ghost predicate Loop(inedges: seq<seq<nat>>, c: seq<nat>) {
    |c| > 0 && forall k | 0 <= k < |c| :: c[k] < |inedges| && After(c, k) in inedges[c[k]]
  }

  /** A loop of living nodes, each of them once. */
  ghost predicate Cycle(inedges: seq<seq<nat>>, live: seq<Mark>, c: seq<nat>) {
    Loop(inedges, c) && NoneTwice(c) && forall k | 0 <= k < |c| :: c[k] < |live| == |inedges| && live[c[k]] == LIVE
  }

  /** The first predecessor that is not dead. */
  ghost function Alive(preds: seq<nat>, live: seq<Mark>): (r: Option<nat>)
    ensures r.Some? ==> r.value in preds && r.value < |live| && live[r.value] != DEAD
    ensures r.None? ==> forall p | p in preds && p < |live| :: live[p] == DEAD
  {
    if preds == [] then None
    else if preds[0] < |live| && live[preds[0]] != DEAD then Some(preds[0])
    else Alive(preds[1..], live)
  }

  lemma {:induction false} AliveSame(preds: seq<nat>, live: seq<Mark>, live': seq<Mark>)
    requires |live| == |live'| && forall v | 0 <= v < |live| :: live[v] == DEAD <==> live'[v] == DEAD
    ensures Alive(preds, live') == Alive(preds, live)
  {
    if preds != [] {
      AliveSame(preds[1..], live, live');
    }
  }

  // ----- the walk of findloop

  /** path goes from node to first living predecessor. */
  ghost predicate Walk(inedges: seq<seq<nat>>, live: seq<Mark>, path: seq<nat>) {
    && NoneTwice(path)
    && (forall k | 0 <= k < |path| :: path[k] < |live| == |inedges| && live[path[k]] == LIVE)
    && (forall j, k | 0 <= j < k < |path| && k == j + 1 :: Next(inedges, live, path[j], path[k]))
  }

  ghost predicate Next(inedges: seq<seq<nat>>, live: seq<Mark>, u: nat, v: nat) {
    u < |inedges| && Alive(inedges[u], live) == Some(v)
  }

  /** The marks while the nodes of path are marked ONCE, and those of path from m up to t TWICE. */
  ghost predicate Marked(live0: seq<Mark>, live: seq<Mark>, once: seq<nat>, twice: seq<nat>) {
    && |live| == |live0|
    && (forall v | 0 <= v < |live| :: live[v] == if v in twice then TWICE else if v in once then ONCE else live0[v])
  }

  lemma Same(inedges: seq<seq<nat>>, live0: seq<Mark>, live: seq<Mark>, path: seq<nat>, twice: seq<nat>, preds: seq<nat>)
    requires Walk(inedges, live0, path) && Marked(live0, live, path, twice) && forall v | v in twice :: v in path
    ensures Alive(preds, live) == Alive(preds, live0)
  {
    AliveSame(preds, live0, live);
  }

  /** A walk that comes back to its m-th node has gone round a cycle. */
  lemma WalkedRound(inedges: seq<seq<nat>>, live: seq<Mark>, path: seq<nat>, m: nat)
    requires Walk(inedges, live, path) && m < |path|
    requires Next(inedges, live, path[|path| - 1], path[m])
    ensures Cycle(inedges, live, path[m..])
  {
    var c := path[m..];
    forall k | 0 <= k < |c|
      ensures c[k] < |inedges| && After(c, k) in inedges[c[k]]
    {
      assert c[k] == path[m + k];
      if k + 1 < |c| {
        assert c[k + 1] == path[m + k + 1];
        assert Next(inedges, live, path[m + k], path[m + k + 1]);
      }
    }
  }

  lemma Longer(inedges: seq<seq<nat>>, live: seq<Mark>, path: seq<nat>, v: nat)
    requires Walk(inedges, live, path) && v < |live| == |inedges| && live[v] == LIVE && v !in path
    requires |path| > 0 ==> Next(inedges, live, path[|path| - 1], v)
    ensures Walk(inedges, live, path + [v])
  {
  }

  lemma MarkOnce(live0: seq<Mark>, live: seq<Mark>, path: seq<nat>, v: nat)
    requires Marked(live0, live, path, []) && v < |live|
    ensures Marked(live0, live[v := ONCE], path + [v], [])
  {
  }

  lemma MarkTwice(live0: seq<Mark>, live: seq<Mark>, path: seq<nat>, twice: seq<nat>, v: nat)
    requires Marked(live0, live, path, twice) && v < |live|
    ensures Marked(live0, live[v := TWICE], path, twice + [v])
  {
  }

  /** findloop has walked along path and come to i, which is on the path if it is marked. */
  ghost predicate Going(inedges: seq<seq<nat>>, live0: seq<Mark>, live: seq<Mark>, path: seq<nat>, i: nat) {
    && i < |live0| == |inedges| && live0[i] == LIVE
    && Walk(inedges, live0, path) && Marked(live0, live, path, [])
    && (|path| > 0 ==> Next(inedges, live0, path[|path| - 1], i))
  }

  /** A node that is left alive has a living predecessor. */
  ghost predicate Stuck(inedges: seq<seq<nat>>, live: seq<Mark>) {
    && |inedges| == |live|
    && (forall v | 0 <= v < |live| :: live[v] == DEAD || live[v] == LIVE)
    && (forall v | 0 <= v < |live| && live[v] == LIVE :: Alive(inedges[v], live).Some?)
  }

  ghost function Living(live: seq<Mark>): set<nat> {
    set v: nat | v < |live| && live[v] == LIVE
  }

  lemma Goes(inedges: seq<seq<nat>>, live0: seq<Mark>, live: seq<Mark>, path: seq<nat>, i: nat) returns (j: nat)
    requires Going(inedges, live0, live, path, i) && Stuck(inedges, live0) && live[i] == LIVE
    ensures Alive(inedges[i], live[i := ONCE]) == Some(j) && Going(inedges, live0, live[i := ONCE], path + [i], j)
    ensures Living(live[i := ONCE]) < Living(live)
  {
    hide Alive;
    Longer(inedges, live0, path, i);
    MarkOnce(live0, live, path, i);
    Same(inedges, live0, live[i := ONCE], path + [i], [], inedges[i]);
    j := Alive(inedges[i], live0).value;
    assert i in Living(live) && i !in Living(live[i := ONCE]);
  }

  lemma Start(inedges: seq<seq<nat>>, live: seq<Mark>, i: nat)
    requires i < |live| == |inedges| && live[i] == LIVE
    ensures Going(inedges, live, live, [], i)
  {
  }

  lemma Inside(inedges: seq<seq<nat>>, live0: seq<Mark>, live: seq<Mark>, path: seq<nat>, i: nat)
    requires Going(inedges, live0, live, path, i)
    ensures i < |live|
  {
  }

  lemma InsideRound(inedges: seq<seq<nat>>, live0: seq<Mark>, live: seq<Mark>, path: seq<nat>, m: nat, noted: seq<nat>, i: nat)
    requires Round(inedges, live0, live, path, m, noted, i)
    ensures i < |live| == |live0| && |noted| <= |path|
  {
  }

  /** The second walk has gone from the m-th node of path over those noted, to i. */
  ghost predicate Round(inedges: seq<seq<nat>>, live0: seq<Mark>, live: seq<Mark>, path: seq<nat>, m: nat, noted: seq<nat>, i: nat) {
    && |live0| == |inedges| && Walk(inedges, live0, path) && Marked(live0, live, path, noted)
    && m < |path| && m + |noted| <= |path| && noted == path[m..m + |noted|]
    && Next(inedges, live0, path[|path| - 1], path[m])
    && i == (if m + |noted| < |path| then path[m + |noted|] else path[m])
  }

  lemma StartRound(inedges: seq<seq<nat>>, live0: seq<Mark>, live: seq<Mark>, path: seq<nat>, i: nat) returns (m: nat)
    requires Going(inedges, live0, live, path, i) && live[i] != LIVE
    ensures Round(inedges, live0, live, path, m, [], i)
  {
    m :| m < |path| && path[m] == i;
  }

  lemma MarkHere(inedges: seq<seq<nat>>, live0: seq<Mark>, live: seq<Mark>, path: seq<nat>, m: nat, noted: seq<nat>, i: nat)
    requires Round(inedges, live0, live, path, m, noted, i)
    ensures i < |live| && live[i] == if m + |noted| < |path| then ONCE else TWICE
  {
    var t := m + |noted|;
    if t < |path| {
      assert i in path;
      forall z | 0 <= z < |noted|
        ensures noted[z] != i
      {
        assert noted[z] == path[m + z];
      }
    } else {
      assert noted[0] == i;
    }
  }

  lemma GoesRound(inedges: seq<seq<nat>>, live0: seq<Mark>, live: seq<Mark>, path: seq<nat>, m: nat, noted: seq<nat>, i: nat)
    returns (j: nat)
    requires Round(inedges, live0, live, path, m, noted, i) && i < |live| && live[i] == ONCE
    ensures m + |noted| < |path| && Alive(inedges[i], live[i := TWICE]) == Some(j)
    ensures Round(inedges, live0, live[i := TWICE], path, m, noted + [i], j)
  {
    MarkHere(inedges, live0, live, path, m, noted, i);
    var t := m + |noted|;
    assert path[m..t + 1] == noted + [i];
    MarkTwice(live0, live, path, noted, i);
    Same(inedges, live0, live[i := TWICE], path, noted + [i], inedges[i]);
    j := if t + 1 < |path| then path[t + 1] else path[m];
    assert t + 1 < |path| ==> Next(inedges, live0, path[t], path[t + 1]);
  }

  lemma EndRound(inedges: seq<seq<nat>>, live0: seq<Mark>, live: seq<Mark>, path: seq<nat>, m: nat, noted: seq<nat>, i: nat)
    requires Round(inedges, live0, live, path, m, noted, i) && i < |live| && live[i] != ONCE
    ensures Cycle(inedges, live0, noted) && noted[0] == i
    ensures forall v | 0 <= v < |live| :: live[v] == DEAD <==> live0[v] == DEAD
  {
    MarkHere(inedges, live0, live, path, m, noted, i);
    assert noted == path[m..];
    WalkedRound(inedges, live0, path, m);
  }

  // ----- the graph that a list of words gives

  /** The k-th pair of words is x and y. */
  ghost predicate Given(words: seq<string>, k: nat, x: string, y: string) {
    2 * k + 1 < |words| && words[2 * k] == x && words[2 * k + 1] == y
  }

  ghost predicate Precedes(words: seq<string>, x: string, y: string) {
    exists k :: Given(words, k, x, y)
  }

  /** The words, each where it first stands. */
  function Items(words: seq<string>): seq<string> {
    if words == [] then []
    else
      var former := Items(words[..|words| - 1]);
      var w := words[|words| - 1];
      if w in former then former else former + [w]
  }

  ghost predicate GraphOf(words: seq<string>, names: seq<string>, inedges: seq<seq<nat>>) {
    && names == Items(words) && |inedges| == |names|
    && (forall u: nat, v: nat | u < |names| && v < |names| ::
          u in inedges[v] <==> u != v && Precedes(words, names[u], names[v]))
  }

  lemma NoWords(inedges: seq<seq<nat>>, names: seq<string>)
    requires names == [] && inedges == []
    ensures GraphOf([], names, inedges)
  {
  }

  lemma {:induction false} ItemsAreWords(words: seq<string>)
    ensures NoneTwice(Items(words)) && forall s :: s in Items(words) <==> s in words
  {
    if words != [] {
      var n := |words| - 1;
      ItemsAreWords(words[..n]);
      assert words == words[..n] + [words[n]];
    }
  }

  function Added(names: seq<string>, w: string): seq<string> {
    if w in names then names else names + [w]
  }

  lemma OneWordMore(words: seq<string>, k: nat)
    requires k < |words|
    ensures Items(words[..k + 1]) == Added(Items(words[..k]), words[k])
  {
    assert words[..k + 1][..k] == words[..k];
  }

  lemma OnePairMore(words: seq<string>, k: nat, x: string, y: string)
    requires k % 2 == 0 && k + 2 <= |words|
    ensures Precedes(words[..k + 2], x, y) <==> Precedes(words[..k], x, y) || (x == words[k] && y == words[k + 1])
  {
    if Precedes(words[..k], x, y) {
      var j: nat :| Given(words[..k], j, x, y);
      assert Given(words[..k + 2], j, x, y);
    }
    if x == words[k] && y == words[k + 1] {
      assert Given(words[..k + 2], k / 2, x, y);
    }
    if Precedes(words[..k + 2], x, y) {
      var j: nat :| Given(words[..k + 2], j, x, y);
      if 2 * j < k {
        assert Given(words[..k], j, x, y);
      }
    }
  }

  lemma PairsAreItems(words: seq<string>, x: string, y: string)
    requires Precedes(words, x, y)
    ensures x in Items(words) && y in Items(words)
  {
    var k: nat :| Given(words, k, x, y);
    assert words[2 * k] in words && words[2 * k + 1] in words;
    ItemsAreWords(words);
  }

  /** The list after the index() of two words: maybe longer, the new nodes without predecessors. */
  ghost predicate Grown(names: seq<string>, names': seq<string>, inedges: seq<seq<nat>>, inedges': seq<seq<nat>>) {
    && |inedges| == |names| <= |names'| == |inedges'| && names <= names' && inedges <= inedges'
    && (forall v | |names| <= v < |names'| :: inedges'[v] == [])
  }

  /** The edge from i to j is on j's list of predecessors, at most once. */
  ghost predicate EdgePut(inedges: seq<seq<nat>>, inedges': seq<seq<nat>>, i: nat, j: nat) {
    && |inedges'| == |inedges|
    && (forall u: nat, v: nat | v < |inedges| :: u in inedges'[v] <==> u in inedges[v] || (u == i && v == j && i != j))
  }

  lemma NewEdge(names: seq<string>, inedges: seq<seq<nat>>, i: nat, j: nat)
    requires Formed(names, inedges) && i < |names| && j < |names| && i != j && i !in inedges[j]
    ensures Formed(names, inedges[j := [i] + inedges[j]]) && EdgePut(inedges, inedges[j := [i] + inedges[j]], i, j)
  {
  }

  lemma NoNewEdge(inedges: seq<seq<nat>>, i: nat, j: nat)
    requires j < |inedges| && (i == j || i in inedges[j])
    ensures EdgePut(inedges, inedges, i, j)
  {
  }

  lemma GraphGrows(words: seq<string>, k: nat, names: seq<string>, inedges: seq<seq<nat>>,
                   names1: seq<string>, inedges1: seq<seq<nat>>, inedges2: seq<seq<nat>>, i: nat, j: nat)
    requires k % 2 == 0 && k + 2 <= |words| && GraphOf(words[..k], names, inedges)
    requires names1 == Added(Added(names, words[k]), words[k + 1]) && Grown(names, names1, inedges, inedges1)
    requires i < |names1| && j < |names1| && names1[i] == words[k] && names1[j] == words[k + 1]
    requires EdgePut(inedges1, inedges2, i, j) && Formed(names, inedges) && NoneTwice(names1)
    ensures GraphOf(words[..k + 2], names1, inedges2)
  {
    OneWordMore(words, k);
    OneWordMore(words, k + 1);
    forall u: nat, v: nat | u < |names1| && v < |names1|
      ensures u in inedges2[v] <==> u != v && Precedes(words[..k + 2], names1[u], names1[v])
    {
      var x, y := names1[u], names1[v];
      OnePairMore(words, k, x, y);
      OldEdge(words[..k], names, inedges, names1, inedges1, u, v);
      assert x == words[k] <==> u == i;
      assert y == words[k + 1] <==> v == j;
    }
  }

  lemma OldEdge(words: seq<string>, names: seq<string>, inedges: seq<seq<nat>>, names1: seq<string>, inedges1: seq<seq<nat>>, u: nat, v: nat)
    requires GraphOf(words, names, inedges) && Formed(names, inedges) && Grown(names, names1, inedges, inedges1)
    requires u < |names1| && v < |names1| && NoneTwice(names1)
    ensures u in inedges1[v] <==> u != v && Precedes(words, names1[u], names1[v])
  {
    var x, y := names1[u], names1[v];
    if u < |names| && v < |names| {
      assert names[u] == x && names[v] == y;
    } else {
      if u >= |names| {
        NewName(names, names1, u);
      }
      if v >= |names| {
        NewName(names, names1, v);
      } else {
        assert inedges1[v] == inedges[v];
      }
      NotAnItem(words, x, y);
    }
  }

  lemma NewName(names: seq<string>, names1: seq<string>, u: nat)
    requires names <= names1 && NoneTwice(names1) && |names| <= u < |names1|
    ensures names1[u] !in names
  {
    forall k | 0 <= k < |names|
      ensures names[k] != names1[u]
    {
      assert names1[k] == names[k];
    }
  }

  lemma NotAnItem(words: seq<string>, x: string, y: string)
    requires x !in Items(words) || y !in Items(words)
    ensures !Precedes(words, x, y)
  {
    if Precedes(words, x, y) {
      PairsAreItems(words, x, y);
    }
  }

  lemma FormedFacts(names: seq<string>, inedges: seq<seq<nat>>)
    requires Formed(names, inedges)
    ensures |inedges| == |names| && NoneTwice(names)
  {
  }

  class Graph {
    var names: seq<string>
    var inedges: seq<seq<nat>>
    var live: seq<Mark>

    ghost predicate Valid()
      reads this
    {
      Formed(names, inedges) && |live| == |names|
    }

    constructor ()
      ensures Valid() && names == []
    {
      names, inedges, live := [], [], [];
    }

    /** The inner loop of findloop, twice there: None at the end of the list is error 1 or error 2. */
    method FirstAlive(i: nat) returns (r: Option<nat>)
      requires Valid() && i < |names|
      ensures r == Alive(inedges[i], live)
    {
      var p: nat := 0;
      while true
        invariant p <= |inedges[i]| && Alive(inedges[i], live) == Alive(inedges[i][p..], live)
        decreases |inedges[i]| - p
      {
        if p == |inedges[i]| {
          return None;
        }
        var j := inedges[i][p];
        assert j in inedges[i];
        if live[j] != DEAD {
          return Some(j);
        }
        p := p + 1;
      }
    }

    /** The first loop of findloop. */
    method FirstLiving() returns (i: nat)
      requires Valid() && Living(live) != {}
      ensures i < |live| && live[i] == LIVE
    {
      ghost var v :| v in Living(live);
      i := 0;
      while live[i] != LIVE
        invariant i <= v
        decreases v - i
      {
        i := i + 1;
      }
    }

    /** findloop, called when every living node has a living predecessor.  Neither error is
        reached; the nodes noted are a cycle in reverse order, the marks are as before. */
    method FindLoop() returns (i: nat, noted: seq<nat>)
      requires Valid() && Stuck(inedges, live) && Living(live) != {}
      modifies `live
      ensures live == old(live) && Cycle(inedges, live, noted) && i == noted[0]
    {
      hide Formed, Going, Walk, Marked, Next, Cycle, Round, Living, Alive;
      ghost var live0 := live;
      i := FirstLiving();
      ghost var path: seq<nat> := [];
      Start(inedges, live, i);
      while live[i] == LIVE
        invariant i < |live| && Valid() && Going(inedges, live0, live, path, i)
        decreases Living(live)
      {
        ghost var to := Goes(inedges, live0, live, path, i);
        live := live[i := ONCE];
        path := path + [i];
        var j := FirstAlive(i);
        match j {
          case None => assert false;
          case Some(p) => i := p;
        }
        Inside(inedges, live0, live, path, i);
      }
      ghost var m := StartRound(inedges, live0, live, path, i);
      noted := [];
      while live[i] == ONCE
        invariant i < |live| && Valid() && Round(inedges, live0, live, path, m, noted, i)
        decreases |path| - |noted|
      {
        ghost var to := GoesRound(inedges, live0, live, path, m, noted, i);
        live := live[i := TWICE];
        noted := noted + [i];
        var j := FirstAlive(i);
        match j {
          case None => assert false;
          case Some(p) => i := p;
        }
        InsideRound(inedges, live0, live, path, m, noted, i);
      }
      EndRound(inedges, live0, live, path, m, noted, i);
      Restore(live0);
    }

    /** The last loop of findloop. */
    method Restore(ghost live0: seq<Mark>)
      requires Valid() && |live| == |live0| && (forall v | 0 <= v < |live| :: live0[v] == DEAD || live0[v] == LIVE)
      requires forall v | 0 <= v < |live| :: live[v] == DEAD <==> live0[v] == DEAD
      modifies `live
      ensures live == live0
    {
      var j: nat := 0;
      while j < |names|
        invariant j <= |names| && |live| == |live0| && |live0| == |names|
        invariant forall v | 0 <= v < j :: live[v] == live0[v]
        invariant forall v | j <= v < |live| :: live[v] == DEAD <==> live0[v] == DEAD
      {
        if live[j] != DEAD {
          live := live[j := LIVE];
        }
        j := j + 1;
      }
    }

    // ----- the graph read

    /** index: the node of that name, put at the end of the list if there is none. */
    method Index(s: string) returns (i: nat)
      requires Valid()
      modifies this
      ensures Valid() && i < |names| && names[i] == s
      ensures if s in old(names) then names == old(names) && inedges == old(inedges) && live == old(live)
              else names == old(names) + [s] && inedges == old(inedges) + [[]] && live == old(live) + [LIVE]
    {
      i := 0;
      while i < |names|
        invariant i <= |names| && s !in names[..i]
      {
        if s == names[i] {
          return;
        }
        i := i + 1;
      }
      assert names[..i] == names;
      names, inedges, live := names + [s], inedges + [[]], live + [LIVE];
    }

    method Present(i: nat, j: nat) returns (r: bool)
      requires Valid() && j < |names|
      ensures r <==> i in inedges[j]
    {
      var t := 0;
      while t < |inedges[j]|
        invariant 0 <= t <= |inedges[j]| && i !in inedges[j][..t]
      {
        if inedges[j][t] == i {
          return true;
        }
        t := t + 1;
      }
      assert inedges[j][..t] == inedges[j];
      return false;
    }

    method AnyPred(i: nat) returns (r: bool)
      requires Valid() && i < |names|
      ensures r <==> exists p :: p in inedges[i] && live[p] == LIVE
    {
      var t := 0;
      while t < |inedges[i]|
        invariant 0 <= t <= |inedges[i]| && forall p | p in inedges[i][..t] :: p < |live| && live[p] != LIVE
      {
        assert inedges[i][t] in inedges[i];
        assert inedges[i][..t + 1] == inedges[i][..t] + [inedges[i][t]];
        if live[inedges[i][t]] == LIVE {
          return true;
        }
        t := t + 1;
      }
      assert inedges[i][..t] == inedges[i];
      return false;
    }

    /** One turn of the first loop of main. */
    method Pair(precedes: string, follows: string) returns (ghost gi: nat, ghost gj: nat, ghost inedges1: seq<seq<nat>>)
      requires Valid()
      modifies this
      ensures Valid() && names == Added(Added(old(names), precedes), follows)
      ensures Grown(old(names), names, old(inedges), inedges1) && EdgePut(inedges1, inedges, gi, gj)
      ensures gi < |names| && gj < |names| && names[gi] == precedes && names[gj] == follows
      ensures (forall v | 0 <= v < |old(live)| :: old(live)[v] == LIVE) ==> forall v | 0 <= v < |live| :: live[v] == LIVE
    {
      hide Formed, EdgePut;
      FormedFacts(names, inedges);
      var i := Index(precedes);
      var j := Index(follows);
      inedges1 := inedges;
      gi, gj := i, j;
      FormedFacts(names, inedges);
      var skip := i == j;
      if !skip {
        skip := Present(i, j);
      }
      if skip {
        NoNewEdge(inedges, i, j);
      } else {
        NewEdge(names, inedges, i, j);
        inedges := inedges[j := [i] + inedges[j]];
      }
    }

    /** The first loop of main, on an empty list of nodes. */
    method Read(words: seq<string>) returns (ok: bool)
      requires Valid() && names == []
      modifies this
      ensures Valid() && ok == (|words| % 2 == 0)
      ensures ok ==> GraphOf(words, names, inedges) && forall v | 0 <= v < |live| :: live[v] == LIVE
    {
      hide Formed, GraphOf, EdgePut, NoneTwice, Items, Precedes;
      var k: nat := 0;
      FormedFacts(names, inedges);
      NoWords(inedges, names);
      assert words[..0] == [];
      while k < |words|
        invariant k <= |words| && k % 2 == 0 && Valid() && GraphOf(words[..k], names, inedges)
        invariant forall v | 0 <= v < |live| :: live[v] == LIVE
      {
        if k + 1 == |words| {
          return false;
        }
        ghost var names0, inedges0 := names, inedges;
        FormedFacts(names, inedges);
        ghost var i, j, inedges1 := Pair(words[k], words[k + 1]);
        FormedFacts(names, inedges);
        GraphGrows(words, k, names0, inedges0, names, inedges1, inedges, i, j);
        k := k + 2;
      }
      assert words[..k] == words;
      return true;
    }
  }
}
