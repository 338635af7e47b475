/**
 Where an inode can refer to blocks: ten addresses of data blocks, and one each of an indirect block,
 of a double and of a triple one.  ckinode() and iblock() come upon each such place once.
 */
module FsckPlaces {
  import opened FsckClaims
  import opened Sequences

  /** Address k of the inode, and the entries to follow from there through indirect blocks. */
  datatype Place = Place(k: nat, path: seq<nat>)

  /** The block number at a place, 0 if there is none. */
  function At(v: Volume, d: Inode, p: Place): int
    requires Formed(v) && |d.addr| == 13
    decreases |p.path|
  {
    if p.path == [] then (if p.k < 13 then d.addr[p.k] else 0)
    else
      var n := |p.path| - 1;
      var b := At(v, d, Place(p.k, p.path[..n]));
      if b != 0 && v.fmin <= b < v.fmax && p.path[n] < 128 then v.block(b)[p.path[n]] else 0
  }

  /** The inode refers to a block here. */
  predicate IsPlace(v: Volume, d: Inode, p: Place)
    requires Formed(v) && |d.addr| == 13
  {
    |p.path| <= (if p.k < 10 then 0 else p.k - 9) && At(v, d, p) != 0
  }

  /** On the way to a place there are valid indirect blocks. */
  lemma {:induction false} OnTheWay(v: Volume, d: Inode, p: Place, n: nat)
    requires Formed(v) && |d.addr| == 13 && At(v, d, p) != 0 && n < |p.path|
    ensures var b := At(v, d, Place(p.k, p.path[..n]));
            b != 0 && InRange(v, b) && p.path[n] < 128 && At(v, d, Place(p.k, p.path[..n + 1])) == v.block(b)[p.path[n]]
    decreases |p.path|
  {
    var m := |p.path| - 1;
    var front := Place(p.k, p.path[..m]);
    if n < m {
      OnTheWay(v, d, front, n);
      assert front.path[..n] == p.path[..n] && front.path[..n + 1] == p.path[..n + 1];
    } else {
      assert p.path[..n + 1] == p.path;
    }
  }

  lemma OneEntry(v: Volume, d: Inode, k: nat, q: seq<nat>, i: nat)
    requires Formed(v) && |d.addr| == 13 && i < 128
    requires var b := At(v, d, Place(k, q)); b != 0 && InRange(v, b)
    ensures At(v, d, Place(k, q + [i])) == v.block(At(v, d, Place(k, q)))[i]
  {
    assert (q + [i])[..|q|] == q;
  }

  /** The visits are those of the places, in this order. */
  ghost predicate Lists(v: Volume, d: Inode, ps: seq<Place>, visits: seq<int>)
    requires Formed(v) && |d.addr| == 13
  {
    |ps| == |visits| && forall j | 0 <= j < |ps| :: At(v, d, ps[j]) == visits[j]
  }

  lemma ListsJoin(v: Volume, d: Inode, a: seq<Place>, b: seq<Place>, x: seq<int>, y: seq<int>)
    requires Formed(v) && |d.addr| == 13 && Lists(v, d, a, x) && Lists(v, d, b, y) && NoneTwice(a) && NoneTwice(b)
    requires forall p | p in a :: p !in b
    ensures Lists(v, d, a + b, x + y) && NoneTwice(a + b)
    ensures forall p :: p in a + b <==> p in a || p in b
  {
    hide At;
    forall i, j | 0 <= i < j < |a + b|
      ensures (a + b)[i] != (a + b)[j]
    {
      assert i < |a| ==> (a + b)[i] in a;
      assert j >= |a| ==> (a + b)[j] in b;
    }
  }

  // ----- the places below an indirect block

  /** The place is reached from q through an entry before n, and at most l more. */
  ghost predicate Below(v: Volume, d: Inode, p: Place, k: nat, q: seq<nat>, n: nat, l: nat)
    requires Formed(v) && |d.addr| == 13
  {
    && p.k == k && |q| < |p.path| <= |q| + l + 1 && q == p.path[..|q|] && p.path[|q|] < n
    && At(v, d, p) != 0
  }

  /** The place is q, or is reached from there through at most l entries. */
  ghost predicate From(v: Volume, d: Inode, p: Place, k: nat, q: seq<nat>, l: nat)
    requires Formed(v) && |d.addr| == 13
  {
    p.k == k && |q| <= |p.path| <= |q| + l && q == p.path[..|q|] && At(v, d, p) != 0
  }

  lemma {:induction false} EntriesPlaced(v: Volume, d: Inode, k: nat, q: seq<nat>, n: nat, level: nat) returns (ps: seq<Place>)
    requires Formed(v) && |d.addr| == 13 && n <= 128
    requires var b := At(v, d, Place(k, q)); b != 0 && InRange(v, b)
    ensures Lists(v, d, ps, EntryVisits(v, v.block(At(v, d, Place(k, q)))[..n], level)) && NoneTwice(ps)
    ensures forall p :: p in ps <==> Below(v, d, p, k, q, n, level)
    decreases level, n, 0
  {
    var entries := v.block(At(v, d, Place(k, q)));
    if n == 0 {
      ps := [];
    } else {
      var i := n - 1;
      var before := EntriesPlaced(v, d, k, q, i, level);
      assert entries[..n][..i] == entries[..i];
      OneEntry(v, d, k, q, i);
      var more: seq<Place> := [];
      if entries[i] == 0 {
      } else if level > 0 {
        more := BlockPlaced(v, d, k, q + [i], level);
      } else {
        more := [Place(k, q + [i])];
      }
      forall p
        ensures p in more <==> From(v, d, p, k, q + [i], level)
      {
        EntryFrom(v, d, p, k, q, i, level);
      }
      forall p
        ensures Below(v, d, p, k, q, n, level) <==> Below(v, d, p, k, q, i, level) || From(v, d, p, k, q + [i], level)
        ensures !(Below(v, d, p, k, q, i, level) && From(v, d, p, k, q + [i], level))
      {
        BelowOrFrom(v, d, p, k, q, i, level);
      }
      var visits := if entries[i] == 0 then [] else if level > 0 then BlockVisits(v, entries[i], level) else [entries[i]];
      ListsJoin(v, d, before, more, EntryVisits(v, entries[..i], level), visits);
      ps := before + more;
    }
  }

  lemma EntryFrom(v: Volume, d: Inode, p: Place, k: nat, q: seq<nat>, i: nat, level: nat)
    requires Formed(v) && |d.addr| == 13
    ensures At(v, d, Place(k, q + [i])) == 0 ==> !From(v, d, p, k, q + [i], level)
    ensures level == 0 && At(v, d, Place(k, q + [i])) != 0 ==> (From(v, d, p, k, q + [i], level) <==> p == Place(k, q + [i]))
  {
    if From(v, d, p, k, q + [i], level) {
      assert p.path[..|p.path|] == p.path;
      if |p.path| > |q| + 1 {
        OnTheWay(v, d, p, |q| + 1);
      }
    }
  }

  lemma BelowOrFrom(v: Volume, d: Inode, p: Place, k: nat, q: seq<nat>, i: nat, level: nat)
    requires Formed(v) && |d.addr| == 13
    ensures Below(v, d, p, k, q, i + 1, level) <==> Below(v, d, p, k, q, i, level) || From(v, d, p, k, q + [i], level)
    ensures !(Below(v, d, p, k, q, i, level) && From(v, d, p, k, q + [i], level))
  {
    if |p.path| > |q| {
      assert p.path[..|q| + 1] == p.path[..|q|] + [p.path[|q|]];
      assert (q + [i])[..|q|] == q;
      assert p.path[..|q| + 1][..|q|] == p.path[..|q|];
    }
  }

  lemma {:induction false} BlockPlaced(v: Volume, d: Inode, k: nat, q: seq<nat>, level: nat) returns (ps: seq<Place>)
    requires Formed(v) && |d.addr| == 13 && level > 0 && At(v, d, Place(k, q)) != 0
    ensures Lists(v, d, ps, BlockVisits(v, At(v, d, Place(k, q)), level)) && NoneTwice(ps)
    ensures forall p :: p in ps <==> From(v, d, p, k, q, level)
    decreases level, 0, 0
  {
    var b := At(v, d, Place(k, q));
    var more: seq<Place> := [];
    if InRange(v, b) {
      assert v.block(b)[..128] == v.block(b);
      more := EntriesPlaced(v, d, k, q, 128, level - 1);
    }
    forall p
      ensures From(v, d, p, k, q, level) <==> p == Place(k, q) || (InRange(v, b) && Below(v, d, p, k, q, 128, level - 1))
    {
      ItselfOrBelow(v, d, p, k, q, level);
    }
    ListsJoin(v, d, [Place(k, q)], more, [b], if InRange(v, b) then EntryVisits(v, v.block(b), level - 1) else []);
    ps := [Place(k, q)] + more;
  }

  lemma ItselfOrBelow(v: Volume, d: Inode, p: Place, k: nat, q: seq<nat>, level: nat)
    requires Formed(v) && |d.addr| == 13 && level > 0 && At(v, d, Place(k, q)) != 0
    ensures From(v, d, p, k, q, level) <==>
            p == Place(k, q) || (InRange(v, At(v, d, Place(k, q))) && Below(v, d, p, k, q, 128, level - 1))
  {
    assert q[..|q|] == q;
    if From(v, d, p, k, q, level) {
      if |p.path| == |q| {
        assert p.path[..|q|] == p.path;
      } else {
        OnTheWay(v, d, p, |q|);
      }
    }
  }

  // ----- the places of an inode

  lemma {:induction false} DirectPlaced(v: Volume, d: Inode, n: nat) returns (ps: seq<Place>)
    requires Formed(v) && |d.addr| == 13 && n <= 10
    ensures Lists(v, d, ps, EntryVisits(v, d.addr[..n], 0)) && NoneTwice(ps)
    ensures forall p :: p in ps <==> p.k < n && IsPlace(v, d, p)
  {
    if n == 0 {
      ps := [];
    } else {
      var before := DirectPlaced(v, d, n - 1);
      assert d.addr[..n][..n - 1] == d.addr[..n - 1];
      var e := d.addr[n - 1];
      var more := if e == 0 then [] else [Place(n - 1, [])];
      ListsJoin(v, d, before, more, EntryVisits(v, d.addr[..n - 1], 0), if e == 0 then [] else [e]);
      ps := before + more;
    }
  }

  lemma {:induction false} IndirectPlaced(v: Volume, d: Inode, n: nat) returns (ps: seq<Place>)
    requires Formed(v) && |d.addr| == 13 && 1 <= n <= 4
    ensures Lists(v, d, ps, IndirectUpto(v, d, n)) && NoneTwice(ps)
    ensures forall p :: p in ps <==> 10 <= p.k < n + 9 && IsPlace(v, d, p)
  {
    hide BlockVisits;
    if n == 1 {
      ps := [];
    } else {
      var before := IndirectPlaced(v, d, n - 1);
      var k := n + 8;
      var more: seq<Place> := [];
      if d.addr[k] != 0 {
        more := BlockPlaced(v, d, k, [], n - 1);
      }
      forall p
        ensures p in more <==> p.k == k && IsPlace(v, d, p)
      {
        FromAddress(v, d, p, k);
      }
      ListsJoin(v, d, before, more, IndirectUpto(v, d, n - 1), IndirectVisits(v, d.addr[k], n - 1));
      ps := before + more;
    }
  }

  lemma FromAddress(v: Volume, d: Inode, p: Place, k: nat)
    requires Formed(v) && |d.addr| == 13 && 10 <= k < 13
    ensures p.k == k && IsPlace(v, d, p) <==> d.addr[k] != 0 && From(v, d, p, k, [], k - 9)
  {
    assert p.path[..0] == [];
    if p.k == k && IsPlace(v, d, p) && p.path != [] {
      OnTheWay(v, d, p, 0);
    }
  }

  /** ckinode() comes upon each place of the inode once, and upon nothing else. */
  lemma InodePlaced(v: Volume, d: Inode) returns (ps: seq<Place>)
    requires Formed(v) && |d.addr| == 13
    ensures Lists(v, d, ps, InodeVisits(v, d)) && NoneTwice(ps)
    ensures forall p :: p in ps <==> !d.special && IsPlace(v, d, p)
  {
    hide EntryVisits, IndirectUpto;
    if d.special {
      ps := [];
    } else {
      var direct := DirectPlaced(v, d, 10);
      var indirect := IndirectPlaced(v, d, 4);
      forall p | IsPlace(v, d, p)
        ensures p.k < 13
      {
        KnownAddress(v, d, p);
      }
      ListsJoin(v, d, direct, indirect, EntryVisits(v, d.addr[..10], 0), IndirectUpto(v, d, 4));
      ps := direct + indirect;
    }
  }

  lemma KnownAddress(v: Volume, d: Inode, p: Place)
    requires Formed(v) && |d.addr| == 13 && At(v, d, p) != 0
    ensures p.k < 13
  {
    if p.path != [] {
      OnTheWay(v, d, p, 0);
    }
  }

  // ----- claims

  /** Inode i refers to block b. */
  ghost predicate Refers(v: Volume, i: nat, b: int)
    requires Formed(v)
  {
    && 1 <= i <= |v.inodes|
    && (var d := v.inodes[i - 1]; d.alloc && d.known && !d.special && exists p :: IsPlace(v, d, p) && At(v, d, p) == b)
  }

  lemma VisitedIsReferred(v: Volume, i: nat, b: int)
    requires Formed(v) && 1 <= i <= |v.inodes|
    ensures b in VisitsOf(v, i) <==> Refers(v, i, b)
  {
    hide InodeVisits, At;
    var d := v.inodes[i - 1];
    var ps := InodePlaced(v, d);
    if d.alloc && d.known {
      if b in InodeVisits(v, d) {
        var j :| 0 <= j < |ps| && InodeVisits(v, d)[j] == b;
        assert ps[j] in ps && At(v, d, ps[j]) == b;
      }
      if Refers(v, i, b) {
        var p :| IsPlace(v, d, p) && At(v, d, p) == b;
        var j :| 0 <= j < |ps| && ps[j] == p;
        assert InodeVisits(v, d)[j] == b;
      }
    }
  }

  /** An inode claims a valid block as often as it has places that refer to it. */
  lemma ClaimsOfPlaces(v: Volume, d: Inode, b: int, places: set<Place>)
    requires Formed(v) && |d.addr| == 13 && !d.special && v.fmin <= b < v.fmax
    requires forall p :: p in places <==> IsPlace(v, d, p) && At(v, d, p) == b
    ensures ClaimsIn(v, InodeVisits(v, d))[b] == |places|
  {
    hide InodeVisits, At;
    var ps := InodePlaced(v, d);
    CountPlaces(v, d, ps, InodeVisits(v, d), b);
    assert places == PlacesAt(v, d, ps, b);
  }

  ghost function PlacesAt(v: Volume, d: Inode, ps: seq<Place>, b: int): set<Place>
    requires Formed(v) && |d.addr| == 13
  {
    set p | p in ps && At(v, d, p) == b
  }

  lemma {:induction false} CountPlaces(v: Volume, d: Inode, ps: seq<Place>, visits: seq<int>, b: int)
    requires Formed(v) && |d.addr| == 13 && Lists(v, d, ps, visits) && NoneTwice(ps) && InRange(v, b)
    ensures ClaimsIn(v, visits)[b] == |PlacesAt(v, d, ps, b)|
    decreases |ps|
  {
    hide At, PlacesAt;
    if ps != [] {
      var n := |ps| - 1;
      CountPlaces(v, d, ps[..n], visits[..n], b);
      OneMorePlace(v, d, ps, b);
    } else {
      NoPlaces(v, d, b);
    }
  }

  lemma NoPlaces(v: Volume, d: Inode, b: int)
    requires Formed(v) && |d.addr| == 13
    ensures PlacesAt(v, d, [], b) == {}
  {
  }

  lemma OneMorePlace(v: Volume, d: Inode, ps: seq<Place>, b: int)
    requires Formed(v) && |d.addr| == 13 && ps != [] && NoneTwice(ps)
    ensures |PlacesAt(v, d, ps, b)| ==
            |PlacesAt(v, d, ps[..|ps| - 1], b)| + if At(v, d, ps[|ps| - 1]) == b then 1 else 0
  {
    hide At;
    var n := |ps| - 1;
    var p, before := ps[n], PlacesAt(v, d, ps[..n], b);
    assert ps == ps[..n] + [p] && p !in ps[..n];
    assert PlacesAt(v, d, ps, b) == if At(v, d, p) == b then before + {p} else before;
  }

  /** Pass 1 counts a bad block for each place that refers to one that is not valid. */
  lemma BadsOfPlaces(v: Volume, d: Inode, places: set<Place>)
    requires Formed(v) && |d.addr| == 13 && !d.special
    requires forall p :: p in places <==> IsPlace(v, d, p) && !(v.fmin <= At(v, d, p) < v.fmax)
    ensures BadsIn(v, InodeVisits(v, d)) == |places|
  {
    hide InodeVisits, At;
    var ps := InodePlaced(v, d);
    CountBads(v, d, ps, InodeVisits(v, d));
    assert places == BadPlaces(v, d, ps);
  }

  ghost function BadPlaces(v: Volume, d: Inode, ps: seq<Place>): set<Place>
    requires Formed(v) && |d.addr| == 13
  {
    set p | p in ps && !InRange(v, At(v, d, p))
  }

  lemma {:induction false} CountBads(v: Volume, d: Inode, ps: seq<Place>, visits: seq<int>)
    requires Formed(v) && |d.addr| == 13 && Lists(v, d, ps, visits) && NoneTwice(ps)
    ensures BadsIn(v, visits) == |BadPlaces(v, d, ps)|
    decreases |ps|
  {
    hide At, BadPlaces;
    if ps != [] {
      var n := |ps| - 1;
      CountBads(v, d, ps[..n], visits[..n]);
      OneMoreBad(v, d, ps);
    } else {
      NoBads(v, d);
    }
  }

  lemma NoBads(v: Volume, d: Inode)
    requires Formed(v) && |d.addr| == 13
    ensures BadPlaces(v, d, []) == {}
  {
  }

  lemma OneMoreBad(v: Volume, d: Inode, ps: seq<Place>)
    requires Formed(v) && |d.addr| == 13 && ps != [] && NoneTwice(ps)
    ensures |BadPlaces(v, d, ps)| ==
            |BadPlaces(v, d, ps[..|ps| - 1])| + if InRange(v, At(v, d, ps[|ps| - 1])) then 0 else 1
  {
    hide At;
    var n := |ps| - 1;
    var p, before := ps[n], BadPlaces(v, d, ps[..n]);
    assert ps == ps[..n] + [p] && p !in ps[..n];
    assert BadPlaces(v, d, ps) == if InRange(v, At(v, d, p)) then before else before + {p};
  }

  /** Inode i refers to block b from this place. */
  ghost predicate RefersAt(v: Volume, i: nat, p: Place, b: int)
    requires Formed(v)
  {
    && 1 <= i <= |v.inodes|
    && (var d := v.inodes[i - 1]; d.alloc && d.known && !d.special && IsPlace(v, d, p) && At(v, d, p) == b)
  }

  ghost predicate ReferredBefore(v: Volume, n: nat, b: int)
    requires Formed(v)
  {
    exists i: nat, p :: RefersAt(v, i, p, b) && i < n
  }

  /** Block b is referred to from two places, of one inode or of two, before inode n. */
  ghost predicate ReferredTwice(v: Volume, n: nat, b: int)
    requires Formed(v)
  {
    exists i: nat, p, j: nat, q :: RefersAt(v, i, p, b) && RefersAt(v, j, q, b) && i < n && j < n && (i != j || p != q)
  }

  lemma PlacesOfInode(v: Volume, i: nat, b: int) returns (places: set<Place>)
    requires Formed(v) && 1 <= i <= |v.inodes| && v.fmin <= b < v.fmax
    ensures forall p :: p in places <==> RefersAt(v, i, p, b)
    ensures ClaimsIn(v, VisitsOf(v, i))[b] == |places|
  {
    hide InodeVisits, At;
    var d := v.inodes[i - 1];
    if d.alloc && d.known && !d.special {
      var ps := InodePlaced(v, d);
      places := PlacesAt(v, d, ps, b);
      ClaimsOfPlaces(v, d, b, places);
    } else {
      places := {};
      assert d.special ==> InodeVisits(v, d) == [] by {
        SpecialHasNone(v, d);
      }
    }
  }

  lemma SpecialHasNone(v: Volume, d: Inode)
    requires |d.addr| == NADDR
    ensures d.special ==> InodeVisits(v, d) == []
  {
  }

  /** A block is multiply claimed when it is referred to from two places. */
  lemma {:induction false} ClaimedTwice(v: Volume, n: nat, b: int)
    requires Formed(v) && n <= |v.inodes| + 1 && v.fmin <= b < v.fmax
    ensures ClaimsBelow(v, n)[b] >= 1 <==> ReferredBefore(v, n, b)
    ensures ClaimsBelow(v, n)[b] >= 2 <==> ReferredTwice(v, n, b)
  {
    hide VisitsOf, ClaimsIn, At, RefersAt, Formed;
    if n <= 1 {
      NoneBefore(v, b);
    } else {
      ClaimedTwice(v, n - 1, b);
      var places := PlacesOfInode(v, n - 1, b);
      TwoOrOne(v, n - 1, b, places);
    }
  }

  lemma NoneBefore(v: Volume, b: int)
    requires Formed(v)
    ensures forall i: nat, p | RefersAt(v, i, p, b) :: i >= 1
  {
  }

  /** With inode n there are two places if there were, or there are two of its own, or one of its own
      and one before. */
  lemma TwoOrOne(v: Volume, n: nat, b: int, places: set<Place>)
    requires Formed(v) && forall p :: p in places <==> RefersAt(v, n, p, b)
    ensures ReferredTwice(v, n + 1, b) <==>
            ReferredTwice(v, n, b) || |places| >= 2 || (|places| >= 1 && ReferredBefore(v, n, b))
    ensures ReferredBefore(v, n + 1, b) <==>
            |places| >= 1 || ReferredBefore(v, n, b)
  {
    hide RefersAt;
    if ReferredTwice(v, n + 1, b) {
      var i: nat, p, j: nat, q :| RefersAt(v, i, p, b) && RefersAt(v, j, q, b) && i < n + 1 && j < n + 1 && (i != j || p != q);
      if i == n && j == n {
        assert {p, q} <= places;
        TwoIn(places, p, q);
      } else if i == n {
        assert p in places;
      } else if j == n {
        assert q in places;
      }
    }
    if |places| >= 1 {
      var p :| p in places;
      assert RefersAt(v, n, p, b);
      if |places| >= 2 {
        OneOther(places, p);
        var q :| q in places && q != p;
        assert RefersAt(v, n, q, b);
      }
    }
  }

  lemma TwoIn<T>(s: set<T>, x: T, y: T)
    requires x in s && y in s && x != y
    ensures |s| >= 2
  {
    assert s == {x, y} + (s - {x, y});
  }

  lemma OneOther<T>(s: set<T>, x: T)
    requires x in s && |s| >= 2
    ensures exists y :: y in s && y != x
  {
    assert |s - {x}| == |s| - 1;
    var y :| y in s - {x};
  }
}
