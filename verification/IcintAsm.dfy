/** The assembler of icint.c: memory and the label vector are changed item by item, and references
    to labels not yet set are chained through the words that wait for them. */
module IcintAsm {
  import opened Options
  import opened Icint
  import opened IcintChain
  import opened IcintRead

  lemma {:induction false} CpValues(items: seq<Item>, k: nat)
    requires k <= |items|
    ensures Where(items, k).cp in {0, 8, 16, 24}
  {
    if k > 0 {
      CpValues(items, k - 1);
    }
  }

  lemma PointFits(items: seq<Item>, k: nat)
    requires Assemblable(items) && k < |items|
    ensures START <= Where(items, k).p <= Where(items, k + 1).p <= VSIZE
  {
    WhereGrows(items, k, k + 1);
    WhereGrows(items, k + 1, |items|);
  }

  lemma Begin(items: seq<Item>, m: seq<int>, labv: seq<int>, chains: seq<seq<nat>>)
    requires Assemblable(items) && |m| == VSIZE && |labv| == LABELS == |chains|
    requires forall n | 0 <= n < LABELS :: labv[n] == 0 && chains[n] == []
    ensures Kept(items, 0, m, labv, chains)
  {
  }

  /** What setlab needs to know of a chain: its z-th word is k, or the chain has ended. */
  ghost predicate AtLink(items: seq<Item>, u: nat, c: seq<nat>, z: nat, k: int) {
    References(items, u, c) && z <= |c| && k == if z < |c| then (assert c[z] in c; Place(items, c[z])) else 0
  }

  /** The first z words of c are filled. */
  ghost predicate FilledTo(items: seq<Item>, u: nat, m: seq<int>, m': seq<int>, c: seq<nat>, z: nat, p: int) {
    z <= |c| && References(items, u, c) && (forall i | i in c[..z] :: i in c) && Filled(items, u, m, m', c[..z], p)
  }

  lemma StartFilling(items: seq<Item>, u: nat, m: seq<int>, c: seq<nat>, lab: int, n: nat, p: int)
    requires LabelOk(items, u, m, lab, c, n) && u <= |items|
    ensures References(items, u, c) && FilledTo(items, u, m, m, c, 0, p) && (lab < 0 ==> c == [])
    ensures lab >= 0 ==> AtLink(items, u, c, 0, lab)
  {
    NegativeIsSet(items, u, m, lab, c, n);
    assert c[..0] == [];
  }

  lemma FillOne(items: seq<Item>, u: nat, m: seq<int>, m': seq<int>, c: seq<nat>, z: nat, n: nat, p: int, k: int, lab: int)
    requires Assemblable(items) && u <= |items| && |m| == |m'| == VSIZE && LabelOk(items, u, m, lab, c, n) && lab >= 0
    requires FilledTo(items, u, m, m', c, z, p) && AtLink(items, u, c, z, k) && k > 0
    ensures z < |c| && k < VSIZE && AtLink(items, u, c, z + 1, m'[k])
    ensures FilledTo(items, u, m, m'[k := p], c, z + 1, p)
  {
    hide Where, Owns, Assemblable, Place, Pending;
    NegativeIsSet(items, u, m, lab, c, n);
    assert c[z] in c;
    PlaceIsOwned(items, c[z]);
    OwnedFits(items, c[z], k);
    assert c[z] !in c[..z];
    FilledElsewhere(items, u, m, m', c[..z], p, c[z], k);
    assert LeadsOn(items, u, m, c, z);
    assert c[z + 1..] != [] ==> c[z + 1..][0] == c[z + 1];
    assert c[..z + 1] == c[..z] + [c[z]];
    FilledMore(items, u, m, m', c[..z], c[z], p);
  }

  lemma FilledMore(items: seq<Item>, u: nat, m: seq<int>, m': seq<int>, d: seq<nat>, i: nat, p: int)
    requires Filled(items, u, m, m', d, p) && i < u && u <= |items| && Refers(items[i]) && Place(items, i) < |m'|
    ensures Filled(items, u, m, m'[Place(items, i) := p], d + [i], p)
  {
    hide Place;
    var m2 := m'[Place(items, i) := p];
    forall a | 0 <= a < |m| && m2[a] != m[a]
      ensures exists j :: j in d + [i] && Place(items, j) == a
    {
      if a == Place(items, i) {
        assert i in d + [i];
      } else {
        var j :| j in d && Place(items, j) == a;
        assert j in d + [i];
      }
    }
  }

  lemma EndFilling(items: seq<Item>, u: nat, m: seq<int>, m': seq<int>, c: seq<nat>, z: nat, k: int, p: int)
    requires u <= |items| && FilledTo(items, u, m, m', c, z, p) && AtLink(items, u, c, z, k) && k <= 0
    ensures Filled(items, u, m, m', c, p)
  {
    if z < |c| {
      assert c[z] in c;
      PlaceIsOwned(items, c[z]);
    }
    assert c[..|c|] == c;
  }

  class Assembler {
    const M: array<int>
    const Labv: array<int>
    var P: nat
    var Cp: nat

    ghost predicate Valid()
      reads this
    {
      M.Length == VSIZE && Labv.Length == LABELS && M != Labv
    }

    constructor ()
      ensures Valid() && P == START && fresh(M) && fresh(Labv)
      ensures M[MPROG] == LIG1 && M[MPROG + 1] == K2 && M[MPROG + 2] == X22
    {
      M, Labv := new int[VSIZE], new int[LABELS];
      P, Cp := MPROG, 0;
      new;
      M[P] := LIG1;
      M[P + 1] := K2;
      M[P + 2] := X22;
      P := P + 3;
    }

    method Stw(w: int)
      requires Valid() && P < VSIZE
      modifies M, `P, `Cp
      ensures M[..] == old(M[..])[old(P) := w] && P == old(P) + 1 && Cp == 0
    {
      M[P] := w;
      P := P + 1;
      Cp := 0;
    }

    method Stc(c: int)
      requires Valid() && Cp in {0, 8, 16, 24} && (if Cp == 0 then P < VSIZE else 0 < P <= VSIZE)
      modifies M, `P, `Cp
      ensures old(Cp) == 0 ==> M[..] == old(M[..])[old(P) := Wrap(0 + Shifted(c, 24))] && P == old(P) + 1 && Cp == 24
      ensures old(Cp) > 0 ==> M[..] == old(M[..])[old(P) - 1 := Wrap(old(M[P - 1]) + Shifted(c, old(Cp) - 8))]
      ensures old(Cp) > 0 ==> P == old(P) && Cp == old(Cp) - 8
    {
      if Cp == 0 {
        Stw(0);
        Cp := WORDSIZE;
      }
      Cp := Cp - BYTESIZE;
      M[P - 1] := Wrap(M[P - 1] + Shifted(c, Cp));
    }

    /** Every word that waits for the label gets its address. */
    method SetLab(n: nat, ghost items: seq<Item>, ghost u: nat, ghost c: seq<nat>)
      requires Valid() && n < LABELS && u <= |items| && Assemblable(items) && LabelOk(items, u, M[..], Labv[n], c, n)
      modifies M, Labv
      ensures Filled(items, u, old(M[..]), M[..], c, P) && Labv[..] == old(Labv[..])[n := 0 - P]
    {
      hide LabelOk, Filled, AtLink, FilledTo, References, Assemblable;
      ghost var m0 := M[..];
      ghost var lab := Labv[n];
      var k := Labv[n];
      ghost var z: nat := 0;
      StartFilling(items, u, m0, c, lab, n, P);
      while k > 0
        invariant FilledTo(items, u, m0, M[..], c, z, P) && (if lab >= 0 then AtLink(items, u, c, z, k) else k < 0 && c == [] && z == 0)
        invariant z <= |c| && Labv[..] == old(Labv[..])
        decreases |c| - z
      {
        ghost var m := M[..];
        FillOne(items, u, m0, m, c, z, n, P, k, lab);
        var next := M[k];
        M[k] := P;
        assert M[..] == m[k := P];
        k := next;
        z := z + 1;
      }
      if lab >= 0 {
        EndFilling(items, u, m0, M[..], c, z, k, P);
      } else {
        EndFilled(items, u, m0, M[..], c, P);
      }
      Labv[n] := 0 - P;
    }

    method LabRef(n: nat, a: nat)
      requires Valid() && n < LABELS && a < VSIZE
      modifies M, Labv
      ensures M[..] == old(M[..])[a := old(M[a]) + if old(Labv[n]) < 0 then -old(Labv[n]) else old(Labv[n])]
      ensures Labv[..] == if old(Labv[n]) < 0 then old(Labv[..]) else old(Labv[..])[n := a]
    {
      var k := Labv[n];
      if k < 0 {
        k := -k;
      } else {
        Labv[n] := a;
      }
      M[a] := M[a] + k;
    }

    /** The label clear: in assemble(). */
    method ClearLabels()
      requires Valid()
      modifies Labv, `Cp
      ensures Cp == 0 && forall n | 0 <= n < LABELS :: Labv[n] == 0
    {
      var i: nat := 0;
      while i <= 500
        invariant i <= LABELS && forall n | 0 <= n < i :: Labv[n] == 0
      {
        Labv[i] := 0;
        i := i + 1;
      }
      Cp := 0;
    }

    /** assemble(), from a stream of items. */
    method Assemble(items: seq<Item>)
      requires Valid() && P == START && Assemblable(items)
      modifies M, Labv, `P, `Cp
      ensures P == Where(items, |items|).p && M[MPROG..START] == old(M[MPROG..START])
      ensures forall i | 0 <= i < |items| :: Holds(items, i, |items|, M[..]) && Resolved(items, i, |items|, M[..])
      ensures forall i | 0 <= i < |items| :: Fetches(items, i, M[..])
      ensures forall i | 0 <= i < |items| && items[i].Chr? :: CharRead(items, i, M[..])
    {
      hide Kept, Assemblable, Where, Holds, Resolved;
      ghost var chains: seq<seq<nat>> := seq(LABELS, _ => []);
      ClearLabels();
      Begin(items, M[..], Labv[..], chains);
      WhereFirst(items);
      var k: nat := 0;
      while k < |items|
        invariant k <= |items| && Kept(items, k, M[..], Labv[..], chains)
        invariant P == Where(items, k).p && Cp == Where(items, k).cp && HeadSame(old(M[..]), M[..])
      {
        chains := One(items, k, chains);
        k := k + 1;
      }
      KeptValues(items, M[..], Labv[..], chains);
      AllRead(items, M[..]);
    }

    /** case 'C' */
    method Character(items: seq<Item>, k: nat, c: int, ghost chains: seq<seq<nat>>)
      requires Valid() && Assemblable(items) && k < |items| && Kept(items, k, M[..], Labv[..], chains) && items[k] == Chr(c)
      requires P == Where(items, k).p && Cp == Where(items, k).cp
      modifies M, `P, `Cp
      ensures Kept(items, k + 1, M[..], Labv[..], chains) && HeadSame(old(M[..]), M[..])
      ensures P == Where(items, k + 1).p && Cp == Where(items, k + 1).cp
    {
      hide Kept, Assemblable, Where, Fresh, Holds, HeadSame, Wrap, Shifted;
      PointFits(items, k);
      WhereNext(items, k);
      ghost var m, labv := M[..], Labv[..];
      CpValues(items, k);
      Stc(c);
      if Where(items, k).cp < BYTESIZE {
        PlainStored(items, k, m, M[..]);
        HeadNotFresh(items, k, m, M[..]);
        PlainKept(items, k, m, M[..], labv, chains);
      } else {
        CharacterKept(items, k, m, M[..], labv, chains, P - 1);
        HeadNotBegun(items, k, m, M[..], P - 1);
      }
    }

    /** One turn of the switch of assemble(). */
    method One(items: seq<Item>, k: nat, ghost chains: seq<seq<nat>>) returns (ghost chains': seq<seq<nat>>)
      requires Valid() && Assemblable(items) && k < |items| && Kept(items, k, M[..], Labv[..], chains)
      requires P == Where(items, k).p && Cp == Where(items, k).cp
      modifies M, Labv, `P, `Cp
      ensures Kept(items, k + 1, M[..], Labv[..], chains')
      ensures P == Where(items, k + 1).p && Cp == Where(items, k + 1).cp
      ensures HeadSame(old(M[..]), M[..])
    {
      hide Kept, Assemblable, Where, LabelOk, Filled, Fresh, Holds, HeadSame;
      PointFits(items, k);
      Sizes(items, k, M[..], Labv[..], chains);
      WhereNext(items, k);
      chains' := chains;
      ghost var m, labv := M[..], Labv[..];
      match items[k] {
        case Label(n) =>
          ItemInRange(items, k);
          LabelOf(items, k, m, labv, chains, n);
          SetLab(n, items, k, chains[n]);
          Cp := 0;
          chains' := chains[n := []];
          HeadNotFilled(items, k, m, M[..], chains[n], P);
          LabelSetKept(items, k, m, M[..], labv, chains, Labv[..], chains');
        case Clear =>
          ClearLabels();
          chains' := seq(LABELS, _ => []);
          ClearKept(items, k, m, labv, chains, Labv[..], chains');
          HeadStays(m);
        case Chr(c) =>
          Character(items, k, c, chains);
        case Data(w) =>
          Stw(w);
          PlainStored(items, k, m, M[..]);
          HeadNotFresh(items, k, m, M[..]);
          PlainKept(items, k, m, M[..], labv, chains);
        case Code(h, a) =>
          if Short(a) {
            Stw(Bits(h) + a);
          } else {
            Stw(Bits(h) + DBIT);
            Stw(a);
          }
          PlainStored(items, k, m, M[..]);
          HeadNotFresh(items, k, m, M[..]);
          PlainKept(items, k, m, M[..], labv, chains);
        case DataLabel(n) =>
          ItemInRange(items, k);
          Stw(0);
          LabRef(n, P - 1);
          chains' := Referred(items, k, m, M[..], labv, chains, Labv[..]);
        case CodeLabel(h, n) =>
          ItemInRange(items, k);
          Stw(Bits(h) + DBIT);
          Stw(0);
          LabRef(n, P - 1);
          chains' := Referred(items, k, m, M[..], labv, chains, Labv[..]);
        case Global(g, n) =>
          ItemInRange(items, k);
          var a := g + MGLOB;
          M[a] := 0;
          LabRef(n, a);
          chains' := Referred(items, k, m, M[..], labv, chains, Labv[..]);
      }
    }
  }

  lemma EndFilled(items: seq<Item>, u: nat, m: seq<int>, m': seq<int>, c: seq<nat>, p: int)
    requires c == [] && FilledTo(items, u, m, m', c, 0, p)
    ensures Filled(items, u, m, m', c, p)
  {
    assert c[..0] == c;
  }

  /** The words before the program belong to no item. */
  lemma HeadNotOwned(items: seq<Item>, i: nat, a: nat)
    requires Assemblable(items) && i < |items| && MPROG <= a < START
    ensures !Owns(items, i, a)
  {
    WhereGrows(items, i, i);
  }

  /** The words before the program are as they were. */
  ghost predicate HeadSame(m: seq<int>, m': seq<int>) {
    |m| == |m'| == VSIZE && m'[MPROG..START] == m[MPROG..START]
  }

  lemma HeadStays(m: seq<int>)
    requires |m| == VSIZE
    ensures HeadSame(m, m)
  {
  }

  lemma HeadNotFresh(items: seq<Item>, k: nat, m: seq<int>, m': seq<int>)
    requires Fresh(items, k, m, m')
    ensures HeadSame(m, m')
  {
    forall a | MPROG <= a < START
      ensures m'[a] == m[a]
    {
      HeadNotOwned(items, k, a);
    }
  }

  lemma HeadNotBegun(items: seq<Item>, k: nat, m: seq<int>, m': seq<int>, a: nat)
    requires Assemblable(items) && k <= |items| && Where(items, k).cp > 0 && a + 1 == Where(items, k).p
    requires |m| == |m'| == VSIZE && forall b | 0 <= b < VSIZE && b != a :: m'[b] == m[b]
    ensures HeadSame(m, m')
  {
    PointsPositive(items, k);
    BegunOwns(items, k, a);
    if MPROG <= a < START {
      HeadNotOwned(items, Begun(items, k), a);
    }
  }

  lemma HeadNotFilled(items: seq<Item>, u: nat, m: seq<int>, m': seq<int>, c: seq<nat>, p: int)
    requires Assemblable(items) && u <= |items| && |m| == VSIZE && Filled(items, u, m, m', c, p)
    ensures HeadSame(m, m')
  {
    forall a | MPROG <= a < START
      ensures m'[a] == m[a]
    {
      if m'[a] != m[a] {
        var i :| i in c && Place(items, i) == a;
        PlaceIsOwned(items, i);
        HeadNotOwned(items, i, a);
      }
    }
  }

  lemma WhereFirst(items: seq<Item>)
    ensures Where(items, 0) == Point(START, 0)
  {
  }

  lemma WhereNext(items: seq<Item>, k: nat)
    requires k < |items|
    ensures Where(items, k + 1) == Step(Where(items, k), items[k])
  {
  }

  lemma Sizes(items: seq<Item>, k: nat, m: seq<int>, labv: seq<int>, chains: seq<seq<nat>>)
    requires Kept(items, k, m, labv, chains)
    ensures |labv| == LABELS == |chains|
  {
  }

  lemma LabelOf(items: seq<Item>, k: nat, m: seq<int>, labv: seq<int>, chains: seq<seq<nat>>, n: nat)
    requires Kept(items, k, m, labv, chains) && n < LABELS
    ensures n < |labv| && n < |chains| && LabelOk(items, k, m, labv[n], chains[n], n)
  {
  }

  lemma KeptValues(items: seq<Item>, m: seq<int>, labv: seq<int>, chains: seq<seq<nat>>)
    requires Kept(items, |items|, m, labv, chains)
    ensures Assemblable(items) && |m| == VSIZE
    ensures forall i | 0 <= i < |items| :: Holds(items, i, |items|, m) && Resolved(items, i, |items|, m)
  {
  }

  lemma AllRead(items: seq<Item>, m: seq<int>)
    requires Assemblable(items) && |m| == VSIZE
    requires forall i | 0 <= i < |items| :: Holds(items, i, |items|, m) && Resolved(items, i, |items|, m)
    ensures forall i | 0 <= i < |items| :: Fetches(items, i, m)
    ensures forall i | 0 <= i < |items| && items[i].Chr? :: CharRead(items, i, m)
  {
    hide Assemblable, Holds, Resolved, Fetches, CharRead;
    forall i | 0 <= i < |items|
      ensures Fetches(items, i, m)
    {
      InstructionFetched(items, i, m);
    }
    forall i | 0 <= i < |items| && items[i].Chr?
      ensures CharRead(items, i, m)
    {
      CharacterRead(items, i, m);
    }
  }

  lemma ItemInRange(items: seq<Item>, k: nat)
    requires Assemblable(items) && k < |items|
    ensures items[k].Label? ==> items[k].n < LABELS
    ensures Refers(items[k]) ==> items[k].n < LABELS
    ensures items[k].Global? ==> items[k].g + MGLOB < MPROG
  {
  }

  /** An item without reference has been stored at the next free words. */
  lemma PlainStored(items: seq<Item>, k: nat, m: seq<int>, m': seq<int>)
    requires Assemblable(items) && k < |items| && |m| == VSIZE && Where(items, k).p < VSIZE
    requires Where(items, k).p + 1 == Where(items, k + 1).p || Where(items, k).p + 2 == Where(items, k + 1).p <= VSIZE
    requires match items[k]
             case Data(w) => m' == m[Where(items, k).p := w]
             case Code(h, a) => if Short(a) then m' == m[Where(items, k).p := Bits(h) + a]
                                else Where(items, k).p + 1 < VSIZE && m' == m[Where(items, k).p := Bits(h) + DBIT][Where(items, k).p + 1 := a]
             case Chr(c) => Where(items, k).cp < BYTESIZE && m' == m[Where(items, k).p := Wrap(0 + Shifted(c, 24))]
             case _ => false
    ensures Fresh(items, k, m, m') && Written(items, k, m')
  {
  }

  lemma Referred(items: seq<Item>, k: nat, m: seq<int>, m': seq<int>, labv: seq<int>, chains: seq<seq<nat>>, labv': seq<int>)
    returns (chains': seq<seq<nat>>)
    requires Kept(items, k, m, labv, chains) && Assemblable(items) && k < |items| && |m| == |m'| == VSIZE && |labv| == LABELS == |chains|
    requires Refers(items[k]) && items[k].n < LABELS && Place(items, k) < VSIZE && Where(items, k + 1).p <= VSIZE
    requires var lab := labv[items[k].n];
             && m'[Place(items, k)] == (if lab < 0 then -lab else lab)
             && labv' == if lab < 0 then labv else labv[items[k].n := Place(items, k)]
    requires forall a | 0 <= a < VSIZE && a != Place(items, k) && !(items[k].CodeLabel? && a == Where(items, k).p) :: m'[a] == m[a]
    requires items[k].CodeLabel? ==> Where(items, k).p < VSIZE && m'[Where(items, k).p] == Bits(items[k].head) + DBIT
    ensures Kept(items, k + 1, m', labv', chains') && HeadSame(m, m')
  {
    hide Kept, Assemblable;
    assert Fresh(items, k, m, m');
    HeadNotFresh(items, k, m, m');
    assert Written(items, k, m');
    var n := items[k].n;
    if labv[n] < 0 {
      KnownKept(items, k, m, m', labv, chains);
      chains' := chains;
    } else {
      chains' := chains[n := [k] + chains[n]];
      UnknownKept(items, k, m, m', labv, chains, labv', chains');
    }
  }

  // ----- labels set once

  /** When a label is set once and nothing is cleared, every reference to it, before or behind,
      stands for the place where it is set. */
  lemma SetOnce(items: seq<Item>, i: nat, j: nat)
    requires i < |items| && j < |items| && Refers(items[i]) && items[j] == Label(items[i].n) && i != j
    requires forall u | 0 <= u < |items| && u != j :: items[u] != items[j]
    requires forall u | 0 <= u < |items| :: items[u] != Clear
    ensures Target(items, i, |items|) == Some(Where(items, j).p)
  {
    if j < i {
      LastIs(items, j, i, items[i].n);
    } else {
      NotSetBefore(items, j, i, items[i].n);
      NextIs(items, i + 1, j, items[i].n);
    }
  }

  lemma {:induction false} LastIs(items: seq<Item>, j: nat, k: nat, n: nat)
    requires j < k <= |items| && items[j] == Label(n)
    requires forall u | j < u < k :: items[u] != Label(n) && items[u] != Clear
    ensures LastSet(items, k, n) == Some(Where(items, j).p)
    decreases k
  {
    if j < k - 1 {
      LastIs(items, j, k - 1, n);
    }
  }

  lemma {:induction false} NotSetBefore(items: seq<Item>, j: nat, k: nat, n: nat)
    requires k <= j < |items| && forall u | 0 <= u < k :: items[u] != Label(n)
    ensures LastSet(items, k, n) == None
    decreases k
  {
    if k > 0 {
      NotSetBefore(items, j, k - 1, n);
    }
  }

  lemma {:induction false} NextIs(items: seq<Item>, i: nat, j: nat, n: nat)
    requires i <= j < |items| && items[j] == Label(n)
    requires forall u | i <= u < j :: items[u] != Label(n) && items[u] != Clear
    ensures NextSet(items, i, |items|, n) == Some(Where(items, j).p)
    decreases j - i
  {
    if i < j {
      NextIs(items, i + 1, j, n);
    }
  }
}
