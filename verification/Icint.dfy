/**
 INTCODE as the assembler of icint.c reads it: where each item is put, and which address a
 reference stands for.  A label is the last setting of its number before the reference or, if
 there is none, the first one behind it; the directive Z ends the scope of all labels.
 */
module Icint {
  import opened Options

  const MGLOB := 1
  const MPROG := 402
  const VSIZE := 32000
  /** main() puts three words before the program. */
  const START := MPROG + 3
  const LIG1 := 5121
  const K2 := 49154
  const X22 := 57366
  const LABELS := 501
  const FSHIFT := 8192
  const IBIT := 4096
  const PBIT := 2048
  const GBIT := 1024
  const DBIT := 512
  const ABITS := 511
  const WORDSIZE := 32
  const BYTESIZE := 8

  /** The letter of an instruction and the letters I, P and G behind it. */
  datatype Head = Head(f: nat, indirect: bool, local: bool, global: bool)

  datatype Item =
    | Label(n: nat)                 // n
    | Chr(c: int)                   // C c
    | Data(w: int)                  // D w
    | DataLabel(n: nat)             // D L n
    | Global(g: nat, n: nat)        // G g L n
    | Code(head: Head, a: int)      // an instruction with a number
    | CodeLabel(head: Head, n: nat) // an instruction with L n
    | Clear                         // Z

  /** The word of an instruction without its address. */
  function Bits(h: Head): int {
    h.f * FSHIFT + (if h.indirect then IBIT else 0) + (if h.local then PBIT else 0) + (if h.global then GBIT else 0)
  }

  /** (a & ABITS) == a */
  predicate Short(a: int) {
    0 <= a <= ABITS
  }

  /** A word of 32 bits, two's complement. */
  function Wrap(x: int): int {
    (x + 0x8000_0000) % 0x1_0000_0000 - 0x8000_0000
  }

  /** c << n, for the shifts there are. */
  function Shifted(c: int, n: nat): int {
    c * (if n == 24 then 0x100_0000 else if n == 16 then 0x1_0000 else if n == 8 then 0x100 else 1)
  }

  // ----- where things are put

  /** The next free word, and the bits left in the last one for characters. */
  datatype Point = Point(p: nat, cp: nat)

  function Step(at: Point, item: Item): Point {
    match item
    case Label(_) => Point(at.p, 0)
    case Clear => Point(at.p, 0)
    case Global(_, _) => at
    case Chr(_) => if at.cp < BYTESIZE then Point(at.p + 1, WORDSIZE - BYTESIZE) else Point(at.p, at.cp - BYTESIZE)
    case Data(_) => Point(at.p + 1, 0)
    case DataLabel(_) => Point(at.p + 1, 0)
    case CodeLabel(_, _) => Point(at.p + 2, 0)
    case Code(_, a) => Point(at.p + if Short(a) then 1 else 2, 0)
  }

  function Where(items: seq<Item>, k: nat): Point
    requires k <= |items|
  {
    if k == 0 then Point(START, 0) else Step(Where(items, k - 1), items[k - 1])
  }

  predicate Refers(item: Item) {
    item.DataLabel? || item.Global? || item.CodeLabel?
  }

  predicate RefersTo(item: Item, n: nat) {
    Refers(item) && item.n == n
  }

  /** The word that is to hold the address of the label. */
  function Place(items: seq<Item>, i: nat): nat
    requires i < |items| && Refers(items[i])
  {
    match items[i]
    case Global(g, _) => g + MGLOB
    case DataLabel(_) => Where(items, i).p
    case CodeLabel(_, _) => Where(items, i).p + 1
  }

  // ----- which address a reference stands for

  /** The last setting of label n before item k. */
  function LastSet(items: seq<Item>, k: nat, n: nat): Option<nat>
    requires k <= |items|
  {
    if k == 0 || items[k - 1] == Clear then None
    else if items[k - 1] == Label(n) then Some(Where(items, k - 1).p)
    else LastSet(items, k - 1, n)
  }

  /** The first setting of label n from item i on, before item k. */
  function NextSet(items: seq<Item>, i: nat, k: nat, n: nat): Option<nat>
    requires i <= k <= |items|
    decreases k - i
  {
    if i == k || items[i] == Clear then None
    else if items[i] == Label(n) then Some(Where(items, i).p)
    else NextSet(items, i + 1, k, n)
  }

  /** The address reference i stands for, as far as the items before k tell. */
  function Target(items: seq<Item>, i: nat, k: nat): Option<nat>
    requires i < k <= |items| && Refers(items[i])
  {
    var n := items[i].n;
    if LastSet(items, i, n).Some? then LastSet(items, i, n) else NextSet(items, i + 1, k, n)
  }

  /** Reference i still waits for its label before item k. */
  predicate Pending(items: seq<Item>, i: nat, k: nat)
    requires i < k <= |items|
  {
    Refers(items[i]) && Target(items, i, k).None? && Open(items, i + 1, k)
  }

  predicate Open(items: seq<Item>, i: nat, k: nat)
    requires i <= k <= |items|
  {
    forall j | i <= j < k :: items[j] != Clear
  }

  lemma {:induction false} NextSetStep(items: seq<Item>, i: nat, k: nat, n: nat)
    requires i <= k < |items|
    ensures NextSet(items, i, k + 1, n) ==
            if NextSet(items, i, k, n).Some? then NextSet(items, i, k, n)
            else if Open(items, i, k) && items[k] == Label(n) then Some(Where(items, k).p) else None
    decreases k - i
  {
    if i < k && items[i] != Clear && items[i] != Label(n) {
      NextSetStep(items, i + 1, k, n);
      assert Open(items, i, k) == Open(items, i + 1, k);
    }
  }

  // ----- programs that may be assembled

  /** No global is initialised twice; labels and globals are in range; the program fits. */
  ghost predicate Assemblable(items: seq<Item>) {
    && Where(items, |items|).p <= VSIZE
    && (forall i | 0 <= i < |items| && items[i].Label? :: items[i].n < LABELS)
    && (forall i | 0 <= i < |items| && Refers(items[i]) :: items[i].n < LABELS)
    && (forall i | 0 <= i < |items| && items[i].Global? :: items[i].g + MGLOB < MPROG)
    && (forall i, j | 0 <= i < j < |items| && items[i].Global? && items[j].Global? :: items[i].g != items[j].g)
  }

  lemma {:induction false} WhereGrows(items: seq<Item>, j: nat, k: nat)
    requires j <= k <= |items|
    ensures START <= Where(items, j).p <= Where(items, k).p
    decreases k
  {
    if j < k {
      WhereGrows(items, j, k - 1);
    } else if k > 0 {
      WhereGrows(items, k - 1, k - 1);
    }
  }

  /** Address a is among the words that item i puts something new into. */
  predicate Owns(items: seq<Item>, i: nat, a: nat)
    requires i < |items|
  {
    Where(items, i).p <= a < Where(items, i + 1).p || (items[i].Global? && a == items[i].g + MGLOB)
  }

  lemma OwnersDiffer(items: seq<Item>, i: nat, j: nat, a: nat)
    requires Assemblable(items) && i < |items| && j < |items| && Owns(items, i, a) && Owns(items, j, a)
    ensures i == j
  {
    WhereGrows(items, i, |items|);
    WhereGrows(items, j, |items|);
    if i < j {
      WhereGrows(items, i + 1, j);
    } else if j < i {
      WhereGrows(items, j + 1, i);
    }
  }

  lemma PlaceIsOwned(items: seq<Item>, i: nat)
    requires i < |items| && Refers(items[i])
    ensures Owns(items, i, Place(items, i)) && Place(items, i) > 0
  {
    WhereGrows(items, i, i);
  }

  lemma OwnedFits(items: seq<Item>, i: nat, a: nat)
    requires Assemblable(items) && i < |items| && Owns(items, i, a)
    ensures a < VSIZE
  {
    WhereGrows(items, i + 1, |items|);
  }

  // ----- what the words hold that are not references

  /** The item that has begun the word for characters at item k. */
  function Begun(items: seq<Item>, k: nat): (r: nat)
    requires 0 < k <= |items| && Where(items, k).cp > 0
    ensures r < k && items[r].Chr? && Where(items, r).cp < BYTESIZE && Where(items, r).p + 1 == Where(items, k).p
  {
    if items[k - 1].Chr? && Where(items, k - 1).cp < BYTESIZE then k - 1 else Begun(items, k - 1)
  }

  /** The word that character i begins, after the items before k. */
  function Packed(items: seq<Item>, i: nat, k: nat): int
    requires i < k <= |items| && items[i].Chr? && Where(items, i).cp < BYTESIZE
    decreases k
  {
    if k == i + 1 then Wrap(0 + Shifted(items[i].c, WORDSIZE - BYTESIZE))
    else
      var at := Where(items, k - 1);
      if items[k - 1].Chr? && at.cp >= BYTESIZE && Begun(items, k - 1) == i then
        Wrap(Packed(items, i, k - 1) + Shifted(items[k - 1].c, at.cp - BYTESIZE))
      else Packed(items, i, k - 1)
  }

  /** Memory m holds all of item i but its reference, after the items before k. */
  ghost predicate Holds(items: seq<Item>, i: nat, k: nat, m: seq<int>)
    requires i < k <= |items| && Assemblable(items) && |m| == VSIZE
  {
    WhereGrows(items, i + 1, |items|);
    var p := Where(items, i).p;
    match items[i]
    case Data(w) => m[p] == w
    case Code(h, a) => if Short(a) then m[p] == Bits(h) + a else m[p] == Bits(h) + DBIT && m[p + 1] == a
    case CodeLabel(h, _) => m[p] == Bits(h) + DBIT
    case Chr(_) => Where(items, i).cp < BYTESIZE ==> m[p] == Packed(items, i, k)
    case _ => true
  }

  /** The same for its reference, if its label is known. */
  ghost predicate Resolved(items: seq<Item>, i: nat, k: nat, m: seq<int>)
    requires i < k <= |items| && Assemblable(items) && |m| == VSIZE
  {
    Refers(items[i]) && Target(items, i, k).Some? ==>
      (PlaceIsOwned(items, i); OwnedFits(items, i, Place(items, i)); m[Place(items, i)] == Target(items, i, k).value)
  }
}
