/**
 The encoder's string table: open addressing with an exclusive-or primary hash and
 Knott's secondary probe, as in compress() of compress.c.

 A slot holding -1 is free.  The key 0 (character 0 after code 0) is special: a slot that
 holds it stops the secondary probe of any other key and is then taken over.
 */
module LzwHash {
  import opened Arith

  const HSIZE: nat := 69001

  // ----- the table size is prime, so a probe sequence visits every slot

  ghost predicate Prime(p: nat) {
    p > 1 && forall d | 1 < d < p :: p % d != 0
  }

  lemma TableSizeIsPrime()
    ensures Prime(HSIZE)
  {
    assert forall d | 2 <= d < 263 :: 69001 % d != 0;
    forall d | 1 < d < HSIZE
      ensures HSIZE % d != 0
    {
      if HSIZE % d == 0 {
        var e := HSIZE / d;
        assert d * e == HSIZE;
        var s := if d <= e then d else e;
        assert s < 263 by {
          if s >= 263 {
            MulMono(263, d, e);
            MulMono(263, e, 263);
          }
        }
        assert 1 < s && HSIZE % s == 0 by {
          if d > e {
            DivUnique(HSIZE, e, d, 0);
          }
        }
      }
    }
  }

  /** Euclid's lemma: a prime divides no product of two smaller numbers. */
  lemma {:induction false} PrimeProduct(p: nat, a: nat, b: nat, t: int)
    requires Prime(p) && 0 < a < p && 0 < b < p
    ensures a * b != t * p
    decreases a
  {
    if a * b == t * p {
      if a == 1 {
        if t >= 1 {
          MulMono(1, t, p);
        } else {
          MulMono(t, 0, p);
        }
      } else {
        var q, r := p / a, p % a;
        assert p == q * a + r;
        calc {
          r * b;
          (p - q * a) * b;
          p * b - q * (a * b);
          p * b - q * (t * p);
          (b - q * t) * p;
        }
        PrimeProduct(p, r, b, b - q * t);
      }
    }
  }

  // ----- probe sequences

  /** fcode: the character above the prefix code, mm being 1 << maxbits. */
  function Fcode(mm: nat, c: nat, ent: nat): nat {
    c * mm + ent
  }

  /** (c << 8) ^ ent, hshift being 8 for a table of at least 65536 slots. */
  function Primary(c: nat, ent: nat): (i: nat)
    requires c < 256 && ent < 65536
    ensures i < HSIZE
  {
    (((c as bv16) << 8) ^ (ent as bv16)) as int
  }

  function Displacement(i: nat): (d: nat)
    requires i < HSIZE
    ensures 0 < d < HSIZE
  {
    if i == 0 then 1 else HSIZE - i
  }

  /** The slot of probe k of the sequence that begins at slot i. */
  function Probe(i: nat, k: nat): (s: nat)
    requires i < HSIZE
    ensures s < HSIZE
  {
    if k == 0 then i else
      var j := Probe(i, k - 1) - Displacement(i);
      if j < 0 then j + HSIZE else j
  }

  lemma {:induction false} ProbeForm(i: nat, k: nat) returns (t: int)
    requires i < HSIZE
    ensures Probe(i, k) + k * Displacement(i) == i + t * HSIZE
  {
    if k == 0 {
      t := 0;
    } else {
      t := ProbeForm(i, k - 1);
      assert k * Displacement(i) == (k - 1) * Displacement(i) + Displacement(i);
      if Probe(i, k - 1) < Displacement(i) {
        t := t + 1;
      }
    }
  }

  /** A probe sequence repeats no slot before it has visited them all. */
  lemma ProbesDiffer(i: nat, j: nat, k: nat)
    requires i < HSIZE && j < k < HSIZE
    ensures Probe(i, j) != Probe(i, k)
  {
    if Probe(i, j) == Probe(i, k) {
      var t := ProbeForm(i, j);
      var u := ProbeForm(i, k);
      var d := Displacement(i);
      assert (k - j) * d == k * d - j * d == (u - t) * HSIZE;
      TableSizeIsPrime();
      PrimeProduct(HSIZE, k - j, d, u - t);
    }
  }

  /** The first slot probed for a key. */
  function Home(mm: nat, f: nat): (i: nat)
    requires 256 <= mm <= 65536 && f < 256 * mm
    ensures i < HSIZE
  {
    DivBelow(f, mm, 256);
    Primary(f / mm, f % mm)
  }

  lemma HomeOfFcode(mm: nat, c: nat, ent: nat)
    requires 256 <= mm <= 65536 && c < 256 && ent < mm
    ensures Fcode(mm, c, ent) < 256 * mm
    ensures Fcode(mm, c, ent) / mm == c && Fcode(mm, c, ent) % mm == ent
    ensures Home(mm, Fcode(mm, c, ent)) == Primary(c, ent)
  {
    MulMono(c + 1, 256, mm);
    DivUnique(Fcode(mm, c, ent), mm, c, ent);
  }

  // ----- the table

  /** Probe k of key f goes on to the next slot. */
  predicate Passes(h: seq<int>, mm: nat, f: nat, k: nat)
    requires |h| == HSIZE && 256 <= mm <= 65536 && f < 256 * mm
  {
    var v := h[Probe(Home(mm, f), k)];
    v != f && if k == 0 then v >= 0 else v > 0
  }

  /** A lookup of f reaches probe k. */
  predicate Reaches(h: seq<int>, mm: nat, f: nat, k: nat)
    requires |h| == HSIZE && 256 <= mm <= 65536 && f < 256 * mm
  {
    forall j: nat | j < k :: Passes(h, mm, f, j)
  }

  /** Slot s is where a lookup of the key it holds ends up. */
  predicate Findable(h: seq<int>, depth: seq<nat>, mm: nat, s: nat)
    requires |h| == |depth| == HSIZE && 256 <= mm <= 65536 && s < HSIZE
    requires 0 <= h[s] < 256 * mm
  {
    Probe(Home(mm, h[s]), depth[s]) == s && Reaches(h, mm, h[s], depth[s])
  }

  predicate TableOk(h: seq<int>, depth: seq<nat>, mm: nat)
    requires 256 <= mm <= 65536
  {
    && |h| == |depth| == HSIZE
    && (forall s | 0 <= s < HSIZE :: -1 <= h[s] < 256 * mm)
    && (forall s: nat | s < HSIZE && h[s] >= 0 :: Findable(h, depth, mm, s))
  }

  lemma PassedIsOther(h: seq<int>, mm: nat, f: nat, k: nat, j: nat)
    requires |h| == HSIZE && 256 <= mm <= 65536 && f < 256 * mm
    requires Reaches(h, mm, f, k) && j < k
    ensures h[Probe(Home(mm, f), j)] != f
  {
    assert Passes(h, mm, f, j);
  }

  /** A lookup that ends unsuccessfully at probe k has not missed the key. */
  lemma StopMeansAbsent(h: seq<int>, depth: seq<nat>, mm: nat, f: nat, k: nat)
    requires 256 <= mm <= 65536 && TableOk(h, depth, mm) && f < 256 * mm
    requires Reaches(h, mm, f, k) && !Passes(h, mm, f, k) && h[Probe(Home(mm, f), k)] != f
    ensures f !in h
  {
    if f in h {
      var s: nat :| s < HSIZE && h[s] == f;
      assert Findable(h, depth, mm, s);
      var d := depth[s];
      if d < k {
        PassedIsOther(h, mm, f, k, d);
      }
    }
  }

  /** Storing an absent key in the slot where its lookup stopped keeps the table in order. */
  lemma StoreKeepsTable(h: seq<int>, depth: seq<nat>, mm: nat, f: nat, k: nat)
    requires 256 <= mm <= 65536 && TableOk(h, depth, mm) && f < 256 * mm && f !in h
    requires k < HSIZE && Reaches(h, mm, f, k) && !Passes(h, mm, f, k)
    ensures var s := Probe(Home(mm, f), k); TableOk(h[s := f], depth[s := k], mm)
  {
    var s := Probe(Home(mm, f), k);
    var h', depth' := h[s := f], depth[s := k];
    forall r: nat | r < HSIZE && h'[r] >= 0
      ensures Findable(h', depth', mm, r)
    {
      if r == s {
        NewIsFindable(h, mm, f, k);
      } else {
        assert Findable(h, depth, mm, r);
        OldIsFindable(h, mm, f, k, r, depth[r]);
      }
    }
  }

  lemma NewIsFindable(h: seq<int>, mm: nat, f: nat, k: nat)
    requires 256 <= mm <= 65536 && |h| == HSIZE && f < 256 * mm && f !in h
    requires k < HSIZE && Reaches(h, mm, f, k) && !Passes(h, mm, f, k)
    ensures Reaches(h[Probe(Home(mm, f), k) := f], mm, f, k)
  {
    var h' := h[Probe(Home(mm, f), k) := f];
    forall j: nat | j < k
      ensures Passes(h', mm, f, j)
    {
      assert Passes(h, mm, f, j);
      ProbesDiffer(Home(mm, f), j, k);
      StillPasses(h, mm, f, k, f, j);
    }
  }

  lemma OldIsFindable(h: seq<int>, mm: nat, f: nat, k: nat, r: nat, d: nat)
    requires 256 <= mm <= 65536 && |h| == HSIZE && f < 256 * mm && f !in h
    requires !Passes(h, mm, f, k)
    requires r < HSIZE && 0 <= h[r] < 256 * mm && Reaches(h, mm, h[r], d)
    ensures Reaches(h[Probe(Home(mm, f), k) := f], mm, h[r], d)
  {
    var g, h' := h[r], h[Probe(Home(mm, f), k) := f];
    assert g != f;
    forall j: nat | j < d
      ensures Passes(h', mm, g, j)
    {
      assert Passes(h, mm, g, j);
      StillPasses(h, mm, f, k, g, j);
    }
  }

  /** The slot a key f is stored in can have been passed only as a first probe, holding the
      key 0, and is passed as well when it holds f. */
  lemma StillPasses(h: seq<int>, mm: nat, f: nat, k: nat, g: nat, j: nat)
    requires 256 <= mm <= 65536 && |h| == HSIZE && f < 256 * mm && g < 256 * mm && f !in h
    requires !Passes(h, mm, f, k)
    requires Passes(h, mm, g, j)
    requires f == g ==> Probe(Home(mm, g), j) != Probe(Home(mm, f), k)
    ensures Passes(h[Probe(Home(mm, f), k) := f], mm, g, j)
  {
  }

  lemma OneSlotPerKey(h: seq<int>, depth: seq<nat>, mm: nat, r: nat, s: nat)
    requires 256 <= mm <= 65536 && TableOk(h, depth, mm)
    requires r < HSIZE && s < HSIZE && h[r] == h[s] >= 0
    ensures r == s
  {
    assert Findable(h, depth, mm, r) && Findable(h, depth, mm, s);
    var f, d, e := h[r], depth[r], depth[s];
    if d < e {
      PassedIsOther(h, mm, f, e, d);
    } else if e < d {
      PassedIsOther(h, mm, f, d, e);
    }
  }

  /** What storing f does to the set of keys: f is added, nothing else is, and the one key
      that can be lost is 0, exactly when f's lookup stopped at the slot holding it. */
  lemma KeysAfterStore(h: seq<int>, depth: seq<nat>, mm: nat, f: nat, k: nat, g: nat)
    requires 256 <= mm <= 65536 && TableOk(h, depth, mm) && f < 256 * mm && f !in h
    requires k < HSIZE && Reaches(h, mm, f, k) && !Passes(h, mm, f, k)
    ensures var s := Probe(Home(mm, f), k);
            g in h[s := f] <==> g == f || (g in h && !(g == 0 && h[s] == 0))
  {
    var s := Probe(Home(mm, f), k);
    var h' := h[s := f];
    assert h[s] <= 0;
    if g in h {
      var r: nat :| r < HSIZE && h[r] == g;
      assert r != s ==> h'[r] == g;
      if h[s] == 0 && g == 0 {
        OneSlotPerKey(h, depth, mm, r, s);
        forall t: nat | t < HSIZE
          ensures h'[t] != 0
        {
          if h[t] == 0 {
            OneSlotPerKey(h, depth, mm, t, s);
          }
        }
      }
    }
    if g in h' {
      var r: nat :| r < HSIZE && h'[r] == g;
      assert r != s ==> h[r] == g;
    }
    assert h'[s] == f;
  }

  lemma SomeHomes(mm: nat, a: nat, b: nat, f: nat)
    requires mm == 65536 && a == 65792 && b == 8782020 && f == 34500
    ensures Home(mm, a) == 0 && Home(mm, b) == 34500 && Home(mm, f) == 34500 && Home(mm, 0) == 0
  {
    HomeOfFcode(mm, 1, 256);
    HomeOfFcode(mm, 134, 196);
    HomeOfFcode(mm, 0, 34500);
    HomeOfFcode(mm, 0, 0);
  }

  /** The key 0 can indeed be lost: here it sits in the last slot, where the second probe of
      another key ends. */
  lemma ZeroKeyCanBeLost(mm: nat, a: nat, b: nat, f: nat) returns (h: seq<int>, depth: seq<nat>)
    requires mm == 65536 && a == 65792 && b == 8782020 && f == 34500
    ensures TableOk(h, depth, mm) && f < 256 * mm && f !in h && 0 in h
    ensures Reaches(h, mm, f, 1) && !Passes(h, mm, f, 1)
    ensures 0 !in h[Probe(Home(mm, f), 1) := f]
  {
    SomeHomes(mm, a, b, f);
    var empty: seq<int> := seq(HSIZE, _ => -1);
    h := empty[0 := a][69000 := 0][34500 := b];
    depth := seq(HSIZE, _ => 0)[69000 := 1];
    var i, j, k := 0, 34500, 69000;
    assert Probe(i, 0) == i && Probe(i, 1) == k && Probe(j, 0) == j && Probe(j, 1) == k;
    assert h[i] == a && h[j] == b && h[k] == 0;
    assert forall s | 0 <= s < HSIZE && h[s] >= 0 :: s == i || s == j || s == k;
    assert Passes(h, mm, 0, 0) && Passes(h, mm, f, 0);
    assert Findable(h, depth, mm, i) && Findable(h, depth, mm, j) && Findable(h, depth, mm, k);
  }

  /** The first k + 1 slots of a probe sequence. */
  ghost function Visited(i: nat, k: nat): set<nat>
    requires i < HSIZE
  {
    if k == 0 then {i} else Visited(i, k - 1) + {Probe(i, k)}
  }

  lemma {:induction false} InVisited(i: nat, k: nat, s: nat) returns (j: nat)
    requires i < HSIZE && s in Visited(i, k)
    ensures j <= k && s == Probe(i, j)
  {
    if k == 0 {
      j := 0;
    } else if s == Probe(i, k) {
      j := k;
    } else {
      j := InVisited(i, k - 1, s);
    }
  }

  lemma {:induction false} VisitedSize(i: nat, k: nat)
    requires i < HSIZE && k < HSIZE
    ensures |Visited(i, k)| == k + 1
  {
    if k > 0 {
      VisitedSize(i, k - 1);
      if Probe(i, k) in Visited(i, k - 1) {
        var j := InVisited(i, k - 1, Probe(i, k));
        ProbesDiffer(i, j, k);
      }
    }
  }

  /** The slots in use; a free slot holds -1. */
  function Occupied(h: seq<int>): set<nat>
    requires |h| == HSIZE
  {
    set s: nat | s < HSIZE && h[s] >= 0
  }

  /** While some slot is free, a lookup does not get through all the slots. */
  lemma LookupEnds(h: seq<int>, mm: nat, f: nat, k: nat)
    requires |h| == HSIZE && 256 <= mm <= 65536 && f < 256 * mm
    requires k < HSIZE && Reaches(h, mm, f, k + 1) && |Occupied(h)| < HSIZE
    ensures k + 1 < HSIZE
  {
    var home := Home(mm, f);
    VisitedSize(home, k);
    forall s | s in Visited(home, k)
      ensures s in Occupied(h)
    {
      var j := InVisited(home, k, s);
      assert Passes(h, mm, f, j);
    }
    SubsetSize(Visited(home, k), Occupied(h));
  }

  /** The table of one encoder, with mm = 1 << maxbits. */
  class HashTable {
    const mm: nat
    const htab: array<int>
    const codetab: array<nat>
    ghost var depth: seq<nat>

    ghost predicate Valid()
      reads this, htab, codetab
    {
      && 256 <= mm <= 65536 && htab.Length == codetab.Length == HSIZE
      && TableOk(htab[..], depth, mm)
    }

    constructor (maxmaxcode: nat)
      requires 256 <= maxmaxcode <= 65536
      ensures mm == maxmaxcode && fresh(htab) && fresh(codetab)
      ensures htab.Length == codetab.Length == HSIZE
    {
      mm := maxmaxcode;
      htab := new int[HSIZE];
      codetab := new nat[HSIZE];
    }

    /** cl_hash(): every slot becomes free, sixteen at a time from the top. */
    method Clear()
      requires 256 <= mm <= 65536 && htab.Length == codetab.Length == HSIZE
      modifies this, htab
      ensures Valid()
      ensures forall s | 0 <= s < HSIZE :: htab[s] == -1
    {
      var p := HSIZE;
      var i := HSIZE - 16;
      while i >= 0
        invariant p == i + 16 && 0 <= p <= HSIZE
        invariant forall s | p <= s < HSIZE :: htab[s] == -1
        decreases i
      {
        forall s | p - 16 <= s < p {
          htab[s] := -1;
        }
        p := p - 16;
        i := i - 16;
      }
      i := i + 16;
      while i > 0
        invariant p == i && 0 <= p <= HSIZE
        invariant forall s | p <= s < HSIZE :: htab[s] == -1
      {
        p := p - 1;
        htab[p] := -1;
        i := i - 1;
      }
      depth := seq(HSIZE, _ => 0);
    }

    /** The probe of compress(): a hit is a slot holding the key; without a hit the key is
        nowhere in the table and the slot is the one to store it in. */
    method Find(c: nat, ent: nat) returns (hit: bool, slot: nat, ghost probes: nat)
      requires Valid() && c < 256 && ent < mm
      requires |Occupied(htab[..])| < HSIZE
      ensures slot < HSIZE && hit == (htab[slot] == Fcode(mm, c, ent))
      ensures hit <==> Fcode(mm, c, ent) in htab[..]
      ensures !hit ==> htab[slot] <= 0 && CanStore(Fcode(mm, c, ent), slot, probes)
    {
      hide TableOk;
      var fcode := Fcode(mm, c, ent);
      HomeOfFcode(mm, c, ent);
      var i: int := Primary(c, ent);
      probes := 0;
      if htab[i] == fcode {
        return true, i, 0;
      } else if htab[i] < 0 {
        StopMeansAbsent(htab[..], depth, mm, fcode, 0);
        return false, i, 0;
      }
      var disp := HSIZE - i;
      if i == 0 {
        disp := 1;
      }
      ghost var home, h := i, htab[..];
      while true
        invariant i == Probe(home, probes) && Reaches(h, mm, fcode, probes + 1)
        invariant probes < HSIZE
        decreases HSIZE - probes
      {
        LookupEnds(h, mm, fcode, probes);
        i := i - disp;
        if i < 0 {
          i := i + HSIZE;
        }
        probes := probes + 1;
        if htab[i] == fcode {
          return true, i, probes;
        }
        if htab[i] <= 0 {
          StopMeansAbsent(h, depth, mm, fcode, probes);
          return false, i, probes;
        }
      }
    }

    ghost predicate CanStore(f: nat, slot: nat, probes: nat)
      requires Valid()
      reads this, htab, codetab
    {
      && f < 256 * mm && slot < HSIZE && probes < HSIZE && f !in htab[..]
      && slot == Probe(Home(mm, f), probes)
      && Reaches(htab[..], mm, f, probes) && !Passes(htab[..], mm, f, probes)
    }

    /** codetab[i] = free_ent++; htab[i] = fcode */
    method Store(f: nat, slot: nat, code: nat, ghost probes: nat)
      requires Valid() && CanStore(f, slot, probes)
      modifies this, htab, codetab
      ensures Valid()
      ensures htab[..] == old(htab[..])[slot := f]
      ensures codetab[..] == old(codetab[..])[slot := code]
      ensures f in htab[..] && forall g | g in old(htab[..]) && g > 0 :: g in htab[..]
    {
      StoreKeepsTable(htab[..], depth, mm, f, probes);
      forall g: nat
        ensures g in htab[..][slot := f] <==> g == f || (g in htab[..] && !(g == 0 && htab[slot] == 0))
      {
        KeysAfterStore(htab[..], depth, mm, f, probes, g);
      }
      codetab[slot] := code;
      htab[slot] := f;
      depth := depth[slot := probes];
    }
  }

  lemma SubsetSize(a: set<nat>, b: set<nat>)
    requires a <= b
    ensures |a| <= |b|
  {
    assert b == a + (b - a);
  }
}
