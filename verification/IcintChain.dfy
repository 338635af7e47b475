/** The reference chains of icint.c: words that wait for a label hold the place of the next such
    word, down to 0. */
module IcintChain {
  import opened Options
  import opened Icint

  /** The place of the first item of c, or 0. */
  function First(items: seq<Item>, c: seq<nat>): nat
    requires forall i | i in c :: i < |items| && Refers(items[i])
  {
    if c == [] then 0 else (assert c[0] in c; Place(items, c[0]))
  }

  ghost predicate References(items: seq<Item>, k: nat, c: seq<nat>) {
    k <= |items| && forall i | i in c :: i < k && Refers(items[i])
  }

  /** Each word of the chain leads to the next one. */
  ghost predicate Linked(items: seq<Item>, k: nat, m: seq<int>, c: seq<nat>)
    requires References(items, k, c)
  {
    forall z | 0 <= z < |c| :: LeadsOn(items, k, m, c, z)
  }

  ghost predicate LeadsOn(items: seq<Item>, k: nat, m: seq<int>, c: seq<nat>, z: nat)
    requires References(items, k, c) && z < |c|
  {
    assert c[z] in c;
    assert forall i | i in c[z + 1..] :: i in c;
    Place(items, c[z]) < |m| && m[Place(items, c[z])] == First(items, c[z + 1..])
  }

  /** c lists the references to n that wait, each once. */
  ghost predicate Waiting(items: seq<Item>, k: nat, c: seq<nat>, n: nat) {
    && References(items, k, c)
    && (forall i | 0 <= i < k :: i in c <==> RefersTo(items[i], n) && Pending(items, i, k))
    && (forall y, z | 0 <= y < z < |c| :: c[y] != c[z])
  }

  /** The entry of label n: minus its address if it is set, else the head of its chain. */
  ghost predicate LabelOk(items: seq<Item>, k: nat, m: seq<int>, lab: int, c: seq<nat>, n: nat) {
    && Waiting(items, k, c, n)
    && (if LastSet(items, k, n).Some? then lab + LastSet(items, k, n).value == 0 && c == []
        else lab == First(items, c) && Linked(items, k, m, c))
  }

  ghost predicate Values(items: seq<Item>, k: nat, m: seq<int>) {
    && Assemblable(items) && k <= |items| && |m| == VSIZE
    && (forall i | 0 <= i < k :: Holds(items, i, k, m) && Resolved(items, i, k, m))
  }

  /** What the assembler keeps: after the items before k. */
  ghost predicate Kept(items: seq<Item>, k: nat, m: seq<int>, labv: seq<int>, chains: seq<seq<nat>>) {
    && Values(items, k, m) && |labv| == LABELS == |chains|
    && (forall n | 0 <= n < LABELS :: LabelOk(items, k, m, labv[n], chains[n], n))
  }

  // ----- changing memory

  /** Only words of item k have changed. */
  ghost predicate Fresh(items: seq<Item>, k: nat, m: seq<int>, m': seq<int>) {
    && Assemblable(items) && k < |items| && |m| == |m'| == VSIZE
    && (forall a | 0 <= a < VSIZE && m'[a] != m[a] :: Owns(items, k, a))
  }

  lemma SameAt(items: seq<Item>, k: nat, m: seq<int>, m': seq<int>, i: nat, a: nat)
    requires Fresh(items, k, m, m') && i < |items| && i != k && Owns(items, i, a) && a < VSIZE
    ensures m'[a] == m[a]
  {
    if m'[a] != m[a] {
      OwnersDiffer(items, i, k, a);
    }
  }

  lemma HoldsOn(items: seq<Item>, k: nat, m: seq<int>, m': seq<int>, i: nat)
    requires Fresh(items, k, m, m') && i < k && Holds(items, i, k, m)
    ensures Holds(items, i, k, m')
  {
    WhereGrows(items, i + 1, |items|);
    forall a | Where(items, i).p <= a < Where(items, i + 1).p
      ensures m'[a] == m[a]
    {
      SameAt(items, k, m, m', i, a);
    }
  }

  lemma ResolvedOn(items: seq<Item>, k: nat, m: seq<int>, m': seq<int>, i: nat)
    requires Fresh(items, k, m, m') && i < k && Resolved(items, i, k, m)
    ensures Resolved(items, i, k, m')
  {
    hide Owns, Target;
    if Refers(items[i]) {
      PlaceIsOwned(items, i);
      OwnedFits(items, i, Place(items, i));
      SameAt(items, k, m, m', i, Place(items, i));
    }
  }

  lemma LinkedOn(items: seq<Item>, k: nat, m: seq<int>, m': seq<int>, c: seq<nat>)
    requires Fresh(items, k, m, m') && References(items, k, c) && Linked(items, k, m, c)
    ensures Linked(items, k, m', c)
  {
    hide Owns, First;
    forall z | 0 <= z < |c|
      ensures LeadsOn(items, k, m', c, z)
    {
      assert c[z] in c;
      assert LeadsOn(items, k, m, c, z);
      PlaceIsOwned(items, c[z]);
      SameAt(items, k, m, m', c[z], Place(items, c[z]));
    }
  }

  // ----- reading one item more

  predicate Plain(item: Item) {
    !item.Label? && !item.Clear?
  }

  lemma TargetStep(items: seq<Item>, i: nat, k: nat)
    requires i < k < |items| && Refers(items[i])
    ensures Target(items, i, k + 1) ==
            if Target(items, i, k).Some? then Target(items, i, k)
            else if Open(items, i + 1, k) && items[k] == Label(items[i].n) then Some(Where(items, k).p) else None
  {
    NextSetStep(items, i + 1, k, items[i].n);
  }

  lemma PendingStep(items: seq<Item>, i: nat, k: nat)
    requires i < k < |items|
    ensures Pending(items, i, k + 1) <==>
            Pending(items, i, k) && items[k] != Clear && !(Refers(items[i]) && items[k] == Label(items[i].n))
  {
    if Refers(items[i]) {
      hide Target;
      TargetStep(items, i, k);
      assert Open(items, i + 1, k + 1) <==> Open(items, i + 1, k) && items[k] != Clear;
    }
  }

  /** The new item: a reference waits unless its label is set already. */
  lemma NewReference(items: seq<Item>, k: nat)
    requires k < |items| && Refers(items[k])
    ensures Target(items, k, k + 1) == LastSet(items, k, items[k].n)
    ensures Pending(items, k, k + 1) <==> LastSet(items, k, items[k].n).None?
  {
  }

  /** A word for characters begun before goes on only with a character put into it. */
  lemma PackedStep(items: seq<Item>, i: nat, k: nat)
    requires i < k < |items| && items[i].Chr? && Where(items, i).cp < BYTESIZE
    requires !(items[k].Chr? && Where(items, k).cp >= BYTESIZE)
    ensures Packed(items, i, k + 1) == Packed(items, i, k)
  {
  }

  lemma HoldsStep(items: seq<Item>, i: nat, k: nat, m: seq<int>)
    requires Assemblable(items) && i < k < |items| && |m| == VSIZE && Holds(items, i, k, m)
    requires !(items[k].Chr? && Where(items, k).cp >= BYTESIZE)
    ensures Holds(items, i, k + 1, m)
  {
    if items[i].Chr? && Where(items, i).cp < BYTESIZE {
      PackedStep(items, i, k);
    }
  }

  lemma ResolvedStep(items: seq<Item>, i: nat, k: nat, m: seq<int>)
    requires Assemblable(items) && i < k < |items| && |m| == VSIZE && Resolved(items, i, k, m) && Plain(items[k])
    ensures Resolved(items, i, k + 1, m)
  {
    if Refers(items[i]) {
      hide Target;
      TargetStep(items, i, k);
    }
  }

  lemma ReferencesStep(items: seq<Item>, k: nat, m: seq<int>, c: seq<nat>)
    requires k < |items| && References(items, k, c)
    ensures References(items, k + 1, c) && (Linked(items, k, m, c) ==> Linked(items, k + 1, m, c))
  {
    if Linked(items, k, m, c) {
      var next := k + 1;
      forall z | 0 <= z < |c|
        ensures LeadsOn(items, next, m, c, z)
      {
        assert LeadsOn(items, k, m, c, z);
      }
    }
  }

  /** A label that item k neither refers to nor sets. */
  lemma LabelStep(items: seq<Item>, k: nat, m: seq<int>, m': seq<int>, lab: int, c: seq<nat>, n: nat)
    requires k < |items| && LabelOk(items, k, m, lab, c, n) && !RefersTo(items[k], n) && items[k] != Label(n) && items[k] != Clear
    requires Linked(items, k, m, c) ==> Linked(items, k, m', c)
    ensures LabelOk(items, k + 1, m', lab, c, n)
  {
    ReferencesStep(items, k, m', c);
    forall i | 0 <= i < k + 1
      ensures i in c <==> RefersTo(items[i], n) && Pending(items, i, k + 1)
    {
      if i < k {
        hide Pending;
        PendingStep(items, i, k);
      }
    }
  }

  // ----- what each kind of item does

  /** The words of item k that are not references are in m. */
  ghost predicate Written(items: seq<Item>, k: nat, m: seq<int>) {
    Assemblable(items) && k < |items| && |m| == VSIZE && Holds(items, k, k + 1, m)
  }

  lemma ValuesOn(items: seq<Item>, k: nat, m: seq<int>, m': seq<int>)
    requires Values(items, k, m) && Fresh(items, k, m, m') && Plain(items[k]) && Written(items, k, m')
    requires !(items[k].Chr? && Where(items, k).cp >= BYTESIZE)
    requires Resolved(items, k, k + 1, m')
    ensures Values(items, k + 1, m')
  {
    hide Holds, Resolved, Fresh, Where, Assemblable;
    var next := k + 1;
    forall i | 0 <= i < k
      ensures Holds(items, i, next, m') && Resolved(items, i, next, m')
    {
      assert |m'| == |m| && k < |items| by { FreshSizes(items, k, m, m'); }
      HoldsOn(items, k, m, m', i);
      ResolvedOn(items, k, m, m', i);
      HoldsStep(items, i, k, m');
      ResolvedStep(items, i, k, m');
    }
  }

  lemma FreshSizes(items: seq<Item>, k: nat, m: seq<int>, m': seq<int>)
    requires Fresh(items, k, m, m')
    ensures Assemblable(items) && k < |items| && |m| == |m'| == VSIZE
  {
  }

  /** Anything but a reference, a label and Z. */
  lemma PlainKept(items: seq<Item>, k: nat, m: seq<int>, m': seq<int>, labv: seq<int>, chains: seq<seq<nat>>)
    requires Kept(items, k, m, labv, chains) && Fresh(items, k, m, m') && Plain(items[k]) && !Refers(items[k])
    requires Written(items, k, m') && !(items[k].Chr? && Where(items, k).cp >= BYTESIZE)
    ensures Kept(items, k + 1, m', labv, chains)
  {
    hide LabelOk, Fresh, Written, Values, Where, Assemblable;
    assert k < |items| by { FreshSizes(items, k, m, m'); }
    ValuesOn(items, k, m, m');
    forall n | 0 <= n < LABELS
      ensures LabelOk(items, k + 1, m', labv[n], chains[n], n)
    {
      OtherLabel(items, k, m, m', labv[n], chains[n], n);
    }
  }

  lemma OtherLabel(items: seq<Item>, k: nat, m: seq<int>, m': seq<int>, lab: int, c: seq<nat>, n: nat)
    requires LabelOk(items, k, m, lab, c, n) && Fresh(items, k, m, m')
    requires !RefersTo(items[k], n) && items[k] != Label(n) && items[k] != Clear
    ensures LabelOk(items, k + 1, m', lab, c, n)
  {
    hide Fresh, Linked, Pending;
    FreshSizes(items, k, m, m');
    if Linked(items, k, m, c) {
      LinkedOn(items, k, m, m', c);
    }
    LabelStep(items, k, m, m', lab, c, n);
  }

  /** A reference to a label that is set holds its address at once. */
  lemma KnownKept(items: seq<Item>, k: nat, m: seq<int>, m': seq<int>, labv: seq<int>, chains: seq<seq<nat>>)
    requires Kept(items, k, m, labv, chains) && Fresh(items, k, m, m') && Refers(items[k])
    requires Written(items, k, m') && items[k].n < LABELS && labv[items[k].n] < 0
    requires Place(items, k) < |m'| && m'[Place(items, k)] == -labv[items[k].n]
    ensures Kept(items, k + 1, m', labv, chains)
  {
    hide LabelOk, Fresh, Written, Values, Where, Assemblable, Place, Target;
    FreshSizes(items, k, m, m');
    var n0 := items[k].n;
    NewReference(items, k);
    NegativeIsSet(items, k, m, labv[n0], chains[n0], n0);
    assert Resolved(items, k, k + 1, m');
    ValuesOn(items, k, m, m');
    forall n | 0 <= n < LABELS
      ensures LabelOk(items, k + 1, m', labv[n], chains[n], n)
    {
      if n == n0 {
        KnownLabel(items, k, m, m', labv[n], chains[n], n);
      } else {
        OtherLabel(items, k, m, m', labv[n], chains[n], n);
      }
    }
  }

  /** Addresses are positive, so the sign tells a set label. */
  lemma NegativeIsSet(items: seq<Item>, k: nat, m: seq<int>, lab: int, c: seq<nat>, n: nat)
    requires LabelOk(items, k, m, lab, c, n) && k <= |items|
    ensures lab < 0 <==> LastSet(items, k, n).Some?
    ensures lab < 0 ==> LastSet(items, k, n) == Some(-lab)
    ensures lab >= 0 ==> lab == First(items, c) && Linked(items, k, m, c)
    ensures lab == 0 ==> c == []
  {
    LastSetPositive(items, k, n);
    if c != [] {
      assert c[0] in c;
      PlaceIsOwned(items, c[0]);
    }
  }

  lemma {:induction false} LastSetPositive(items: seq<Item>, k: nat, n: nat)
    requires k <= |items|
    ensures LastSet(items, k, n).Some? ==> LastSet(items, k, n).value >= MPROG
  {
    if k > 0 {
      LastSetPositive(items, k - 1, n);
      WhereGrows(items, k - 1, k - 1);
    }
  }

  lemma KnownLabel(items: seq<Item>, k: nat, m: seq<int>, m': seq<int>, lab: int, c: seq<nat>, n: nat)
    requires k < |items| && LabelOk(items, k, m, lab, c, n) && RefersTo(items[k], n) && LastSet(items, k, n).Some?
    ensures LabelOk(items, k + 1, m', lab, c, n)
  {
    NewReference(items, k);
    forall i | 0 <= i < k + 1
      ensures i in c <==> RefersTo(items[i], n) && Pending(items, i, k + 1)
    {
      if i < k {
        hide Pending;
        PendingStep(items, i, k);
      }
    }
  }

  /** A reference to any other label goes to the head of the chain. */
  lemma UnknownKept(items: seq<Item>, k: nat, m: seq<int>, m': seq<int>, labv: seq<int>, chains: seq<seq<nat>>,
                    labv': seq<int>, chains': seq<seq<nat>>)
    requires Kept(items, k, m, labv, chains) && Fresh(items, k, m, m') && Refers(items[k])
    requires Written(items, k, m') && items[k].n < LABELS && labv[items[k].n] >= 0
    requires Place(items, k) < |m'| && m'[Place(items, k)] == labv[items[k].n]
    requires labv' == labv[items[k].n := Place(items, k)] && chains' == chains[items[k].n := [k] + chains[items[k].n]]
    ensures Kept(items, k + 1, m', labv', chains')
  {
    hide LabelOk, Fresh, Written, Values, Where, Assemblable, Place, Target, Linked, First;
    FreshSizes(items, k, m, m');
    var n0 := items[k].n;
    NewReference(items, k);
    NegativeIsSet(items, k, m, labv[n0], chains[n0], n0);
    assert Resolved(items, k, k + 1, m');
    ValuesOn(items, k, m, m');
    forall n | 0 <= n < LABELS
      ensures LabelOk(items, k + 1, m', labv'[n], chains'[n], n)
    {
      if n == n0 {
        ChainedLabel(items, k, m, m', labv[n], chains[n], n);
      } else {
        OtherLabel(items, k, m, m', labv[n], chains[n], n);
      }
    }
  }

  lemma ChainedLabel(items: seq<Item>, k: nat, m: seq<int>, m': seq<int>, lab: int, c: seq<nat>, n: nat)
    requires Fresh(items, k, m, m') && LabelOk(items, k, m, lab, c, n) && RefersTo(items[k], n) && LastSet(items, k, n).None?
    requires Place(items, k) < |m'| && m'[Place(items, k)] == lab
    ensures LabelOk(items, k + 1, m', Place(items, k), [k] + c, n)
  {
    hide Fresh, Place, Where;
    FreshSizes(items, k, m, m');
    NewReference(items, k);
    LinkedOn(items, k, m, m', c);
    ReferencesStep(items, k, m', c);
    ChainGrows(items, k, m', c);
    forall i | 0 <= i < k + 1
      ensures i in [k] + c <==> RefersTo(items[i], n) && Pending(items, i, k + 1)
    {
      if i < k {
        hide Pending;
        PendingStep(items, i, k);
      }
    }
  }

  lemma ChainGrows(items: seq<Item>, k: nat, m: seq<int>, c: seq<nat>)
    requires k < |items| && Refers(items[k]) && References(items, k + 1, c) && Linked(items, k + 1, m, c)
    requires Place(items, k) < |m| && m[Place(items, k)] == First(items, c)
    ensures References(items, k + 1, [k] + c) && Linked(items, k + 1, m, [k] + c)
    ensures First(items, [k] + c) == Place(items, k)
  {
    hide Place;
    var d := [k] + c;
    var next := k + 1;
    forall z | 0 <= z < |d|
      ensures LeadsOn(items, next, m, d, z)
    {
      if z == 0 {
        assert d[1..] == c;
      } else {
        assert d[z + 1..] == c[z..];
        assert LeadsOn(items, next, m, c, z - 1);
      }
    }
  }

  /** One character more in the word begun. */
  lemma CharacterKept(items: seq<Item>, k: nat, m: seq<int>, m': seq<int>, labv: seq<int>, chains: seq<seq<nat>>, a: nat)
    requires Kept(items, k, m, labv, chains) && k < |items| && items[k].Chr? && Where(items, k).cp >= BYTESIZE
    requires a + 1 == Where(items, k).p && a < VSIZE
    requires m' == m[a := Wrap(m[a] + Shifted(items[k].c, Where(items, k).cp - BYTESIZE))]
    ensures Kept(items, k + 1, m', labv, chains)
  {
    hide LabelOk, Holds, Resolved, Wrap, Shifted, Where, Assemblable, Linked, Owns;
    var next := k + 1;
    forall i | 0 <= i < next
      ensures Holds(items, i, next, m') && Resolved(items, i, next, m')
    {
      if i < k {
        CharacterHolds(items, k, m, m', i, a);
        CharacterResolves(items, k, m, m', i, a);
      } else {
        NewCharacter(items, k, m');
      }
    }
    forall n | 0 <= n < LABELS
      ensures LabelOk(items, k + 1, m', labv[n], chains[n], n)
    {
      CharacterLabel(items, k, m, m', labv[n], chains[n], n, a);
    }
  }

  lemma NewCharacter(items: seq<Item>, k: nat, m: seq<int>)
    requires Assemblable(items) && k < |items| && |m| == VSIZE && items[k].Chr? && Where(items, k).cp >= BYTESIZE
    ensures Holds(items, k, k + 1, m) && Resolved(items, k, k + 1, m)
  {
  }

  lemma BegunOwns(items: seq<Item>, k: nat, a: nat)
    requires 0 < k <= |items| && Where(items, k).cp > 0 && a + 1 == Where(items, k).p
    ensures Owns(items, Begun(items, k), a) && items[Begun(items, k)].Chr?
  {
  }

  lemma PointsPositive(items: seq<Item>, k: nat)
    requires k <= |items| && Where(items, k).cp > 0
    ensures k > 0
  {
  }

  lemma HoldsSame(items: seq<Item>, i: nat, k: nat, m: seq<int>, m': seq<int>)
    requires Assemblable(items) && i < k <= |items| && |m| == |m'| == VSIZE && Holds(items, i, k, m)
    requires forall a | Where(items, i).p <= a < Where(items, i + 1).p && a < VSIZE :: m'[a] == m[a]
    ensures Holds(items, i, k, m')
  {
    WhereGrows(items, i + 1, |items|);
  }

  lemma BegunNotOwned(items: seq<Item>, k: nat, i: nat, a: nat)
    requires Assemblable(items) && 0 < k <= |items| && Where(items, k).cp > 0 && a + 1 == Where(items, k).p
    requires i < |items| && i != Begun(items, k)
    ensures !Owns(items, i, a)
  {
    hide Owns, Where, Assemblable, Begun;
    BegunOwns(items, k, a);
    if Owns(items, i, a) {
      OwnersDiffer(items, i, Begun(items, k), a);
    }
  }

  lemma CharacterHolds(items: seq<Item>, k: nat, m: seq<int>, m': seq<int>, i: nat, a: nat)
    requires Assemblable(items) && i < k < |items| && |m| == VSIZE && items[k].Chr? && Where(items, k).cp >= BYTESIZE
    requires a + 1 == Where(items, k).p && a < VSIZE && Holds(items, i, k, m)
    requires m' == m[a := Wrap(m[a] + Shifted(items[k].c, Where(items, k).cp - BYTESIZE))]
    ensures Holds(items, i, k + 1, m')
  {
    hide Wrap, Shifted, Assemblable, Begun;
    PointsPositive(items, k);
    if i == Begun(items, k) {
      WhereGrows(items, i + 1, |items|);
      assert Packed(items, i, k + 1) == Wrap(Packed(items, i, k) + Shifted(items[k].c, Where(items, k).cp - BYTESIZE));
    } else {
      BegunNotOwned(items, k, i, a);
      HoldsSame(items, i, k, m, m');
      assert items[i].Chr? && Where(items, i).cp < BYTESIZE ==> Packed(items, i, k + 1) == Packed(items, i, k);
    }
  }

  lemma PlaceIsNotBegun(items: seq<Item>, k: nat, i: nat, a: nat)
    requires Assemblable(items) && 0 < k <= |items| && Where(items, k).cp > 0 && a + 1 == Where(items, k).p
    requires i < |items| && Refers(items[i])
    ensures Place(items, i) != a
  {
    hide Owns, Place, Where, Assemblable, Begun;
    PlaceIsOwned(items, i);
    BegunOwns(items, k, a);
    if Place(items, i) == a {
      OwnersDiffer(items, i, Begun(items, k), a);
    }
  }

  lemma CharacterResolves(items: seq<Item>, k: nat, m: seq<int>, m': seq<int>, i: nat, a: nat)
    requires Assemblable(items) && i < k < |items| && |m| == VSIZE && items[k].Chr? && Where(items, k).cp >= BYTESIZE
    requires a + 1 == Where(items, k).p && a < VSIZE && Resolved(items, i, k, m) && |m'| == |m|
    requires forall b | 0 <= b < VSIZE && b != a :: m'[b] == m[b]
    ensures Resolved(items, i, k + 1, m')
  {
    hide Where, Assemblable, Place, Target, Owns;
    if Refers(items[i]) {
      PlaceIsNotBegun(items, k, i, a);
      PlaceIsOwned(items, i);
      OwnedFits(items, i, Place(items, i));
    }
    assert Resolved(items, i, k, m');
    ResolvedStep(items, i, k, m');
  }

  lemma CharacterLabel(items: seq<Item>, k: nat, m: seq<int>, m': seq<int>, lab: int, c: seq<nat>, n: nat, a: nat)
    requires Assemblable(items) && k < |items| && |m| == VSIZE && items[k].Chr? && Where(items, k).cp >= BYTESIZE
    requires a + 1 == Where(items, k).p && a < VSIZE && LabelOk(items, k, m, lab, c, n) && |m'| == |m|
    requires forall b | 0 <= b < VSIZE && b != a :: m'[b] == m[b]
    ensures LabelOk(items, k + 1, m', lab, c, n)
  {
    hide Where, Assemblable, Place, Pending, First;
    PointsPositive(items, k);
    if Linked(items, k, m, c) {
      forall z | 0 <= z < |c|
        ensures LeadsOn(items, k, m', c, z)
      {
        assert c[z] in c;
        assert LeadsOn(items, k, m, c, z);
        PlaceIsNotBegun(items, k, c[z], a);
      }
    }
    LabelStep(items, k, m, m', lab, c, n);
  }

  // ----- labels

  /** Every word of chain c, and nothing else, has been given the value p. */
  ghost predicate Filled(items: seq<Item>, k: nat, m: seq<int>, m': seq<int>, c: seq<nat>, p: int) {
    && References(items, k, c) && |m| == |m'|
    && (forall i | i in c :: Place(items, i) < |m'| && m'[Place(items, i)] == p)
    && (forall a | 0 <= a < |m| && m'[a] != m[a] :: exists i :: i in c && Place(items, i) == a)
  }

  lemma FilledElsewhere(items: seq<Item>, k: nat, m: seq<int>, m': seq<int>, c: seq<nat>, p: int, i: nat, a: nat)
    requires Assemblable(items) && |m| == VSIZE && Filled(items, k, m, m', c, p) && i < |items| && i !in c && Owns(items, i, a) && a < VSIZE
    ensures m'[a] == m[a]
  {
    if m'[a] != m[a] {
      var j :| j in c && Place(items, j) == a;
      PlaceIsOwned(items, j);
      OwnersDiffer(items, i, j, a);
    }
  }

  lemma PlacesDiffer(items: seq<Item>, i: nat, j: nat)
    requires Assemblable(items) && i < |items| && j < |items| && Refers(items[i]) && Refers(items[j]) && i != j
    ensures Place(items, i) != Place(items, j)
  {
    PlaceIsOwned(items, i);
    PlaceIsOwned(items, j);
    if Place(items, i) == Place(items, j) {
      OwnersDiffer(items, i, j, Place(items, i));
    }
  }

  lemma LabelSetKept(items: seq<Item>, k: nat, m: seq<int>, m': seq<int>, labv: seq<int>, chains: seq<seq<nat>>,
                     labv': seq<int>, chains': seq<seq<nat>>)
    requires Kept(items, k, m, labv, chains) && k < |items| && items[k].Label? && items[k].n < LABELS
    requires Filled(items, k, m, m', chains[items[k].n], Where(items, k).p)
    requires labv' == labv[items[k].n := 0 - Where(items, k).p] && chains' == chains[items[k].n := []]
    ensures Kept(items, k + 1, m', labv', chains')
  {
    hide LabelOk, Filled, Assemblable, Holds, Resolved;
    var n0, c0 := items[k].n, chains[items[k].n];
    FilledSizes(items, k, m, m', c0, Where(items, k).p);
    WaitingOf(items, k, m, labv[n0], c0, n0);
    var next := k + 1;
    forall i | 0 <= i < next
      ensures Holds(items, i, next, m') && Resolved(items, i, next, m')
    {
      if i < k {
        FilledHolds(items, k, m, m', c0, i);
        FilledResolves(items, k, m, m', c0, i);
      } else {
        NothingNew(items, k, m');
      }
    }
    forall n | 0 <= n < LABELS
      ensures LabelOk(items, k + 1, m', labv'[n], chains'[n], n)
    {
      if n == n0 {
        LabelNow(items, k, m, m', labv[n], c0, n);
      } else {
        FilledLabel(items, k, m, m', c0, labv[n], chains[n], n);
      }
    }
  }

  lemma FilledSizes(items: seq<Item>, k: nat, m: seq<int>, m': seq<int>, c: seq<nat>, p: int)
    requires Filled(items, k, m, m', c, p)
    ensures |m'| == |m|
  {
  }

  lemma WaitingOf(items: seq<Item>, k: nat, m: seq<int>, lab: int, c: seq<nat>, n: nat)
    requires LabelOk(items, k, m, lab, c, n)
    ensures Waiting(items, k, c, n)
  {
  }

  lemma NothingNew(items: seq<Item>, k: nat, m: seq<int>)
    requires Assemblable(items) && k < |items| && |m| == VSIZE && (items[k].Label? || items[k].Clear?)
    ensures Holds(items, k, k + 1, m) && Resolved(items, k, k + 1, m)
  {
  }

  lemma FilledHolds(items: seq<Item>, k: nat, m: seq<int>, m': seq<int>, c: seq<nat>, i: nat)
    requires Assemblable(items) && i < k < |items| && |m| == |m'| == VSIZE && items[k].Label? && Holds(items, i, k, m)
    requires Filled(items, k, m, m', c, Where(items, k).p)
    ensures Holds(items, i, k + 1, m')
  {
    hide Filled, Owns;
    WhereGrows(items, i + 1, |items|);
    var p := Where(items, i).p;
    forall a | p <= a < Where(items, i + 1).p && !(Refers(items[i]) && a == Place(items, i))
      ensures m'[a] == m[a]
    {
      assert Owns(items, i, a) by { OwnsPart(items, i, a); }
      NotFilled(items, k, m, m', c, Where(items, k).p, i, a);
    }
    assert Holds(items, i, k, m');
    HoldsStep(items, i, k, m');
  }

  lemma OwnsPart(items: seq<Item>, i: nat, a: nat)
    requires i < |items| && Where(items, i).p <= a < Where(items, i + 1).p
    ensures Owns(items, i, a)
  {
  }

  lemma NotFilled(items: seq<Item>, k: nat, m: seq<int>, m': seq<int>, c: seq<nat>, p: int, i: nat, a: nat)
    requires Assemblable(items) && |m| == VSIZE && Filled(items, k, m, m', c, p) && i < |items| && Owns(items, i, a) && a < VSIZE
    requires !(Refers(items[i]) && a == Place(items, i))
    ensures m'[a] == m[a]
  {
    if m'[a] != m[a] {
      var j :| j in c && Place(items, j) == a;
      PlaceIsOwned(items, j);
      OwnersDiffer(items, i, j, a);
    }
  }

  lemma FilledResolves(items: seq<Item>, k: nat, m: seq<int>, m': seq<int>, c: seq<nat>, i: nat)
    requires Assemblable(items) && i < k < |items| && |m| == |m'| == VSIZE && items[k].Label? && Resolved(items, i, k, m)
    requires Filled(items, k, m, m', c, Where(items, k).p) && Waiting(items, k, c, items[k].n)
    ensures Resolved(items, i, k + 1, m')
  {
    if Refers(items[i]) {
      hide Target, Owns, Place, Where, Assemblable;
      TargetStep(items, i, k);
      PlaceIsOwned(items, i);
      OwnedFits(items, i, Place(items, i));
      if i !in c {
        FilledElsewhere(items, k, m, m', c, Where(items, k).p, i, Place(items, i));
      }
    }
  }

  lemma LabelNow(items: seq<Item>, k: nat, m: seq<int>, m': seq<int>, lab: int, c: seq<nat>, n: nat)
    requires k < |items| && items[k] == Label(n) && LabelOk(items, k, m, lab, c, n)
    ensures LabelOk(items, k + 1, m', 0 - Where(items, k).p, [], n)
  {
    var none: seq<nat> := [];
    forall i | 0 <= i < k + 1
      ensures !(RefersTo(items[i], n) && Pending(items, i, k + 1))
    {
      if i < k {
        PendingStep(items, i, k);
      }
    }
    assert Waiting(items, k + 1, none, n);
  }

  lemma FilledLabel(items: seq<Item>, k: nat, m: seq<int>, m': seq<int>, c0: seq<nat>, lab: int, c: seq<nat>, n: nat)
    requires Assemblable(items) && k < |items| && |m| == |m'| == VSIZE && items[k].Label? && items[k].n != n
    requires Filled(items, k, m, m', c0, Where(items, k).p) && Waiting(items, k, c0, items[k].n)
    requires LabelOk(items, k, m, lab, c, n)
    ensures LabelOk(items, k + 1, m', lab, c, n)
  {
    hide Where, Assemblable, Place, Pending, First, Filled, Owns;
    if Linked(items, k, m, c) {
      forall z | 0 <= z < |c|
        ensures LeadsOn(items, k, m', c, z)
      {
        assert c[z] in c;
        assert LeadsOn(items, k, m, c, z);
        PlaceIsOwned(items, c[z]);
        FilledElsewhere(items, k, m, m', c0, Where(items, k).p, c[z], Place(items, c[z]));
      }
    }
    LabelStep(items, k, m, m', lab, c, n);
  }

  /** Z: no label is set, and no reference waits. */
  lemma ClearKept(items: seq<Item>, k: nat, m: seq<int>, labv: seq<int>, chains: seq<seq<nat>>, labv': seq<int>, chains': seq<seq<nat>>)
    requires Kept(items, k, m, labv, chains) && k < |items| && items[k] == Clear
    requires |labv'| == LABELS == |chains'| && forall n | 0 <= n < LABELS :: labv'[n] == 0 && chains'[n] == []
    ensures Kept(items, k + 1, m, labv', chains')
  {
    hide Assemblable, Holds, Resolved;
    var next := k + 1;
    forall i | 0 <= i < next
      ensures Holds(items, i, next, m) && Resolved(items, i, next, m)
    {
      if i < k {
        HoldsStep(items, i, k, m);
        ClearResolves(items, k, m, i);
      } else {
        NothingNew(items, k, m);
      }
    }
    forall n | 0 <= n < LABELS
      ensures LabelOk(items, k + 1, m, labv'[n], chains'[n], n)
    {
      forall i | 0 <= i < k + 1
        ensures !(RefersTo(items[i], n) && Pending(items, i, k + 1))
      {
        if i < k {
          PendingStep(items, i, k);
        }
      }
    }
  }

  lemma ClearResolves(items: seq<Item>, k: nat, m: seq<int>, i: nat)
    requires Assemblable(items) && i < k < |items| && |m| == VSIZE && Resolved(items, i, k, m) && items[k] == Clear
    ensures Resolved(items, i, k + 1, m)
  {
    if Refers(items[i]) {
      hide Target;
      TargetStep(items, i, k);
    }
  }
}
