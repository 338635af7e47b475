/** The order in which firstkey() and nextkey() of dbm.c visit the leaves of the trie. */
module DbmWalk {
  import opened Bits
  import opened DbmTrie
  import opened Sequences

  /** The pages below a node, bit d clear before bit d set. */
  function Trail(D: set<nat>, d: nat, p: nat): seq<nat>
    requires p < Pow2(d)
    decreases NodesFrom(D, d)
  {
    if Node(d, p) !in D then [p]
    else
      assert Node(d, p) in NodesFrom(D, d) && Node(d, p) !in NodesFrom(D, d + 1);
      Trail(D, d + 1, p) + Trail(D, d + 1, p + Pow2(d))
  }

  /** Those of them from the leaf of hash h on, for a node on its way. */
  function From(D: set<nat>, d: nat, h: nat): (t: seq<nat>)
    decreases NodesFrom(D, d)
  {
    if On(h, d) !in D then [Low(h, d)]
    else
      assert On(h, d) in NodesFrom(D, d) && On(h, d) !in NodesFrom(D, d + 1);
      From(D, d + 1, h) + if Bit(h, d) then [] else Trail(D, d + 1, Low(h, d) + Pow2(d))
  }

  /** hashinc(): 0, or the hash with its last clear bit below d set and the bits after it
      cleared. */
  ghost predicate NextHash(h: nat, d: nat, h': nat) {
    if h' == 0 then forall j | 0 <= j < d :: Bit(h, j)
    else exists k :: ClearAt(h, d, k) && h' == Low(h, k) + Pow2(k)
  }

  ghost predicate ClearAt(h: nat, d: nat, k: nat) {
    k < d && !Bit(h, k) && forall j | k < j < d :: Bit(h, j)
  }

  // ----- the trail is complete and has no page twice

  lemma {:induction false} TrailPages(D: set<nat>, d: nat, p: nat, i: nat)
    requires p < Pow2(d) && i < |Trail(D, d, p)|
    ensures Low(Trail(D, d, p)[i], d) == p
    decreases NodesFrom(D, d)
  {
    if Node(d, p) !in D {
      LowOfSmall(p, d);
    } else {
      assert Node(d, p) in NodesFrom(D, d) && Node(d, p) !in NodesFrom(D, d + 1);
      var first := Trail(D, d + 1, p);
      if i < |first| {
        TrailPages(D, d + 1, p, i);
        LowOfSmall(p, d);
        LowOfLow(first[i], d, d + 1);
      } else {
        var q := p + Pow2(d);
        TrailPages(D, d + 1, q, i - |first|);
        LowPlusPower(p, d);
        LowOfLow(Trail(D, d, p)[i], d, d + 1);
      }
    }
  }

  lemma {:induction false} TrailNoneTwice(D: set<nat>, d: nat, p: nat)
    requires p < Pow2(d)
    ensures NoneTwice(Trail(D, d, p))
    decreases NodesFrom(D, d)
  {
    if Node(d, p) in D {
      assert Node(d, p) in NodesFrom(D, d) && Node(d, p) !in NodesFrom(D, d + 1);
      TrailNoneTwice(D, d + 1, p);
      TrailNoneTwice(D, d + 1, p + Pow2(d));
      Apart(D, d, p);
      Joined(Trail(D, d + 1, p), Trail(D, d + 1, p + Pow2(d)));
    }
  }

  ghost predicate NoneShared(t: seq<nat>, u: seq<nat>) {
    forall x | x in t :: x !in u
  }

  lemma Joined(t: seq<nat>, u: seq<nat>)
    requires NoneTwice(t) && NoneTwice(u) && NoneShared(t, u)
    ensures NoneTwice(t + u)
  {
    forall i, j | 0 <= i < j < |t + u|
      ensures (t + u)[i] != (t + u)[j]
    {
      assert i < |t| ==> t[i] in t && t[i] !in u;
    }
  }

  /** The two subtrees of a node share no page. */
  lemma Apart(D: set<nat>, d: nat, p: nat)
    requires p < Pow2(d)
    ensures NoneShared(Trail(D, d + 1, p), Trail(D, d + 1, p + Pow2(d)))
  {
    var q := p + Pow2(d);
    var t, u := Trail(D, d + 1, p), Trail(D, d + 1, q);
    if x :| x in t && x in u {
      var i :| 0 <= i < |t| && t[i] == x;
      var j :| 0 <= j < |u| && u[j] == x;
      TrailPages(D, d + 1, p, i);
      TrailPages(D, d + 1, q, j);
    }
  }

  /** The trail below a node has the page of every hash that passes the node. */
  lemma {:induction false} TrailComplete(D: set<nat>, d: nat, g: nat)
    requires d <= Depth(D, g)
    ensures PageOf(D, g) in Trail(D, d, Low(g, d))
    decreases Depth(D, g) - d
  {
    if d < Depth(D, g) {
      TrailComplete(D, d + 1, g);
      NextLow(g, d);
      var t, u := Trail(D, d + 1, Low(g, d)), Trail(D, d + 1, Low(g, d) + Pow2(d));
      assert On(g, d) in D && Trail(D, d, Low(g, d)) == t + u;
      assert PageOf(D, g) in if Bit(g, d) then u else t;
    }
  }

  /** From a hash with no bits beyond, the whole trail. */
  lemma {:induction false} FromStart(D: set<nat>, d: nat, h: nat)
    requires h < Pow2(d)
    ensures From(D, d, h) == Trail(D, d, h)
    decreases NodesFrom(D, d)
  {
    LowOfSmall(h, d);
    if On(h, d) in D {
      assert On(h, d) in NodesFrom(D, d) && On(h, d) !in NodesFrom(D, d + 1);
      LowOfSmall(h, d + 1);
      NextLow(h, d);
      FromStart(D, d + 1, h);
    }
  }

  ghost predicate Within(t: seq<nat>, u: seq<nat>) {
    forall x | x in t :: x in u
  }

  lemma {:induction false} FromWithin(D: set<nat>, d: nat, h: nat)
    ensures Within(From(D, d, h), Trail(D, d, Low(h, d)))
    decreases NodesFrom(D, d)
  {
    hide Bit, Pow2, Low;
    if On(h, d) in D {
      assert On(h, d) in NodesFrom(D, d) && On(h, d) !in NodesFrom(D, d + 1) by { StepDown(D, h, d); }
      FromWithin(D, d + 1, h);
      NextLow(h, d);
    }
  }

  lemma StepDown(D: set<nat>, h: nat, d: nat)
    requires On(h, d) in D
    ensures On(h, d) in NodesFrom(D, d) && On(h, d) !in NodesFrom(D, d + 1) && NodesFrom(D, d + 1) < NodesFrom(D, d)
  {
  }

  lemma {:induction false} FromNoneTwice(D: set<nat>, d: nat, h: nat)
    ensures NoneTwice(From(D, d, h))
    decreases NodesFrom(D, d)
  {
    hide Bit, Low, NoneTwice, NodesFrom;
    if On(h, d) in D {
      StepDown(D, h, d);
      FromNoneTwice(D, d + 1, h);
      FromStep(D, d, h);
      if !Bit(h, d) {
        NextLow(h, d);
        var p := Low(h, d);
        TrailNoneTwice(D, d + 1, p + Pow2(d));
        Apart(D, d, p);
        FromWithin(D, d + 1, h);
        Joined(From(D, d + 1, h), Trail(D, d + 1, p + Pow2(d)));
      } else {
        assert From(D, d, h) == From(D, d + 1, h);
      }
    } else {
      NotTwice(Low(h, d));
    }
  }

  lemma NotTwice(p: nat)
    ensures NoneTwice([p])
  {
  }

  // ----- one leaf after the other

  lemma {:induction false} SameFrom(D: set<nat>, d: nat, h: nat, g: nat)
    requires d <= Depth(D, h) && Low(g, Depth(D, h)) == Low(h, Depth(D, h))
    ensures From(D, d, g) == From(D, d, h)
    decreases Depth(D, h) - d
  {
    SameLow(g, h, d, Depth(D, h));
    if d < Depth(D, h) {
      SameFrom(D, d + 1, h, g);
    }
  }

  /** The leaf of h comes first, and where all the bits left are set, last as well. */
  lemma {:induction false} LastLeaf(D: set<nat>, d: nat, h: nat)
    requires d <= Depth(D, h) && forall j | d <= j < Depth(D, h) :: Bit(h, j)
    ensures From(D, d, h) == [PageOf(D, h)]
    decreases Depth(D, h) - d
  {
    if d < Depth(D, h) {
      LastLeaf(D, d + 1, h);
    }
  }

  /** From the leaf of h to the first one behind the next hash: h' is the start of the
      subtree that h leaves to its right. */
  lemma LeafBefore(D: set<nat>, d: nat, h: nat, h': nat)
    requires ClearAt(h, Depth(D, h), d) && h' == Low(h, d) + Pow2(d)
    ensures From(D, d, h) == [PageOf(D, h)] + From(D, d, h')
  {
    hide Low, Trail, PageOf;
    LowPlusPower(Low(h, d), d);
    assert On(h, d) in D && On(h', d) == On(h, d);
    LastLeaf(D, d + 1, h);
    LowOfSmall(h', d + 1);
    FromStart(D, d + 1, h');
  }

  lemma {:induction false} LeafAfter(D: set<nat>, d: nat, h: nat, k: nat, h': nat)
    requires d <= k && ClearAt(h, Depth(D, h), k) && h' == Low(h, k) + Pow2(k)
    ensures From(D, d, h) == [PageOf(D, h)] + From(D, d, h')
    decreases k - d
  {
    hide Trail, PageOf, Bit, Pow2, Low;
    if d < k {
      LeafAfter(D, d + 1, h, k, h');
      LowPlusPower(Low(h, k), k);
      SameLow(h', h, d, k);
      assert On(h, d) in D && On(h', d) == On(h, d) && Bit(h', d) == Bit(h, d);
      FromStep(D, d, h);
      FromStep(D, d, h');
    } else {
      LeafBefore(D, d, h, h');
    }
  }

  lemma FromStep(D: set<nat>, d: nat, h: nat)
    requires On(h, d) in D
    ensures From(D, d, h) == From(D, d + 1, h) + if Bit(h, d) then [] else Trail(D, d + 1, Low(h, d) + Pow2(d))
  {
  }
}
