/** The slotted pages of dbm.c: makdatum(), additem(), delitem() and chkblk(). */
module DbmPage {
  import opened Bits
  import opened Options

  type Datum = seq<byte>

  const PBLKSIZ := 512

  // ----- the layout of a page

  /** The 16-bit word at index k of the page. */
  function Short(s: seq<byte>, k: nat): (v: nat)
    requires 2 * k + 1 < |s|
    ensures v < 0x1_0000
  {
    var lo: int, hi: int := s[2 * k], s[2 * k + 1];
    lo + 256 * hi
  }

  /** Word 0 counts the items; item k lies between offsets k + 1 and k. */
  predicate HasTable(s: seq<byte>) {
    |s| == PBLKSIZ && 2 * Short(s, 0) + 1 < PBLKSIZ
  }

  function Table(s: seq<byte>): (o: seq<nat>)
    requires HasTable(s)
    ensures |o| == Short(s, 0) + 1 && forall k | 0 <= k < |o| :: o[k] == if k == 0 then PBLKSIZ else Short(s, k)
  {
    seq(Short(s, 0) + 1, k requires 0 <= k <= Short(s, 0) => if k == 0 then PBLKSIZ else Short(s, k))
  }

  /** What chkblk() accepts. */
  ghost predicate Descends(o: seq<nat>) {
    && o != [] && o[0] == PBLKSIZ && 2 * |o| <= o[|o| - 1]
    && forall j, k | 0 <= j <= k < |o| :: o[k] <= o[j]
  }

  ghost predicate ValidPage(s: seq<byte>) {
    HasTable(s) && Descends(Table(s))
  }

  function Slices(s: seq<byte>, o: seq<nat>): (r: seq<Datum>)
    requires |s| == PBLKSIZ && Descends(o)
    ensures |r| == |o| - 1 && forall k | 0 <= k < |r| :: o[k + 1] <= o[k] <= PBLKSIZ && r[k] == s[o[k + 1]..o[k]]
  {
    assert forall k | 0 <= k < |o| :: o[k] <= o[0];
    seq(|o| - 1, k requires 0 <= k < |o| - 1 => s[o[k + 1]..o[k]])
  }

  function Items(s: seq<byte>): (r: seq<Datum>)
    requires ValidPage(s)
  {
    Slices(s, Table(s))
  }

  /** The bytes the items take. */
  function Used(items: seq<Datum>): nat {
    if items == [] then 0 else Used(items[..|items| - 1]) + |items[|items| - 1]|
  }

  /** additem() finds room for one more. */
  predicate Fits(items: seq<Datum>, x: Datum) {
    Used(items) + |x| + 2 * (|items| + 2) < PBLKSIZ
  }

  lemma {:induction false} OffsetIsUsed(s: seq<byte>, o: seq<nat>, n: nat)
    requires |s| == PBLKSIZ && Descends(o) && n < |o|
    ensures o[n] == PBLKSIZ - Used(Slices(s, o)[..n])
  {
    if n > 0 {
      OffsetIsUsed(s, o, n - 1);
      var r := Slices(s, o)[..n];
      assert r[..n - 1] == Slices(s, o)[..n - 1] && r[n - 1] == s[o[n]..o[n - 1]];
    }
  }

  // ----- words of the buffer

  method SetShort(buf: array<byte>, k: nat, v: nat)
    requires 2 * k + 1 < buf.Length && v < 0x1_0000
    modifies buf
    ensures Short(buf[..], k) == v
    ensures forall j | 0 <= j < buf.Length && j != 2 * k && j != 2 * k + 1 :: buf[j] == old(buf[j])
    ensures forall j | 0 <= j && 2 * j + 1 < buf.Length && j != k :: Short(buf[..], j) == Short(old(buf[..]), j)
  {
    buf[2 * k] := v % 256;
    buf[2 * k + 1] := v / 256;
  }

  method GetShort(buf: array<byte>, k: nat) returns (v: nat)
    requires 2 * k + 1 < buf.Length
    ensures v == Short(buf[..], k)
  {
    var lo: int, hi: int := buf[2 * k], buf[2 * k + 1];
    v := lo + 256 * hi;
  }

  // ----- makdatum()

  method MakDatum(buf: array<byte>, n: int) returns (item: Option<Datum>)
    requires ValidPage(buf[..])
    ensures item == if 0 <= n < |Items(buf[..])| then Some(Items(buf[..])[n]) else None
  {
    var count := GetShort(buf, 0);
    if n < 0 || n >= count {
      return None;
    }
    var t := PBLKSIZ;
    if n > 0 {
      t := GetShort(buf, n);
    }
    var start := GetShort(buf, n + 1);
    ghost var o := Table(buf[..]);
    assert o[n + 1] <= o[n] <= o[0];
    item := Some(buf[start..t]);
  }

  // ----- additem()

  lemma OneMoreSlice(s: seq<byte>, s': seq<byte>, o: seq<nat>, start: nat, end: nat, x: Datum)
    requires |s| == |s'| == PBLKSIZ && Descends(o) && end == o[|o| - 1] <= PBLKSIZ
    requires 2 * (|o| + 1) <= start <= end && s'[start..end] == x
    requires forall j | end <= j < PBLKSIZ :: s'[j] == s[j]
    ensures Descends(o + [start]) && Slices(s', o + [start]) == Slices(s, o) + [x]
  {
    var o' := o + [start];
    assert Descends(o');
    forall k | 0 <= k < |o| - 1
      ensures Slices(s', o')[k] == Slices(s, o)[k]
    {
      assert end <= o[k + 1] && o'[k + 1] == o[k + 1] && o'[k] == o[k];
    }
  }

  /** Copying the bytes of x to the offset at. */
  method PutBytes(buf: array<byte>, at: nat, x: Datum)
    requires at + |x| <= buf.Length
    modifies buf
    ensures buf[at..at + |x|] == x
    ensures forall j | 0 <= j < at || at + |x| <= j < buf.Length :: buf[j] == old(buf[j])
    ensures forall j | 0 <= j && 2 * j + 1 < at :: Short(buf[..], j) == Short(old(buf[..]), j)
  {
    for i := 0 to |x|
      invariant forall j | 0 <= j < i :: buf[at + j] == x[j]
      invariant forall j | 0 <= j < at || at + |x| <= j < buf.Length :: buf[j] == old(buf[j])
    {
      buf[at + i] := x[i];
    }
  }

  method PutItem(buf: array<byte>, count: nat, start: nat, x: Datum)
    requires buf.Length == PBLKSIZ && 2 * count + 4 <= start && start + |x| <= PBLKSIZ && Short(buf[..], 0) == count
    modifies buf
    ensures HasTable(buf[..]) && buf[start..start + |x|] == x
    ensures forall j | start + |x| <= j < PBLKSIZ :: buf[j] == old(buf[j])
    ensures Table(buf[..]) == old(Table(buf[..])) + [start]
  {
    SetShort(buf, count + 1, start);
    PutBytes(buf, start, x);
    ghost var was := buf[start..start + |x|];
    SetShort(buf, 0, count + 1);
    assert buf[start..start + |x|] == was;
  }

  method AddItem(buf: array<byte>, x: Datum) returns (r: int)
    requires ValidPage(buf[..])
    modifies buf
    ensures ValidPage(buf[..])
    ensures if Fits(old(Items(buf[..])), x) then r == |old(Items(buf[..]))| && Items(buf[..]) == old(Items(buf[..])) + [x]
            else r == -1 && buf[..] == old(buf[..])
  {
    ghost var s, o := buf[..], Table(buf[..]);
    var count := GetShort(buf, 0);
    var i1: int := PBLKSIZ;
    if count > 0 {
      i1 := GetShort(buf, count);
    }
    Room(s);
    var start := i1 - |x|;
    var i2 := 2 * (count + 2);
    if start <= i2 {
      return -1;
    }
    PutItem(buf, count, start, x);
    OneMoreSlice(s, buf[..], o, start, i1, x);
    return count;
  }

  lemma Room(s: seq<byte>)
    requires ValidPage(s)
    ensures Table(s)[Short(s, 0)] == PBLKSIZ - Used(Items(s))
  {
    OffsetIsUsed(s, Table(s), Short(s, 0));
    assert Items(s)[..Short(s, 0)] == Items(s);
  }

  // ----- delitem()

  /** The bytes from low up to the item that ended at end have moved up by gap. */
  ghost predicate MovedUp(s: seq<byte>, t: seq<byte>, low: nat, end: nat, gap: nat) {
    && |s| == |t| && low <= end <= |s|
    && (forall j | low + gap <= j < end :: t[j] == s[j - gap])
    && (forall j | 0 <= j < low || end <= j < |s| :: t[j] == s[j])
  }

  /** The first loop: the bytes of the later items move up over the item deleted. */
  method MoveUp(buf: array<byte>, low: nat, start: nat, end: nat, gap: nat)
    requires low <= start <= end <= buf.Length && gap == end - start
    modifies buf
    ensures MovedUp(old(buf[..]), buf[..], low, end, gap)
  {
    var i1, i2 := start, end;
    if i2 <= i1 {
      return;
    }
    while i1 > low
      invariant low <= i1 <= start && i2 - i1 == gap
      invariant forall j | i2 <= j < end :: buf[j] == old(buf[j - gap])
      invariant forall j | 0 <= j < i1 || end <= j < buf.Length :: buf[j] == old(buf[j])
    {
      i1 := i1 - 1;
      i2 := i2 - 1;
      buf[i2] := buf[i1];
      buf[i1] := 0;
    }
  }

  /** All the words of a page. */
  ghost function Words(s: seq<byte>): (w: seq<nat>)
    requires |s| == PBLKSIZ
    ensures |w| == 256 && forall k | 0 <= k < 256 :: w[k] == Short(s, k)
  {
    seq(256, k requires 0 <= k < 256 => Short(s, k))
  }

  method SetWord(buf: array<byte>, k: nat, v: nat)
    requires buf.Length == PBLKSIZ && k < 256 && v < 0x1_0000
    modifies buf
    ensures Words(buf[..]) == old(Words(buf[..]))[k := v]
    ensures forall j | 2 * k + 2 <= j < PBLKSIZ :: buf[j] == old(buf[j])
  {
    SetShort(buf, k, v);
  }

  /** The offsets after n have moved down one place and gone up by gap. */
  ghost predicate OffsetsMoved(t: seq<byte>, s: seq<byte>, count: nat, n: nat, gap: nat) {
    && |t| == |s| == PBLKSIZ && 0 < count < 256 && Words(s)[0] == count - 1
    && (forall k | 0 < k < count :: Words(s)[k] == if k <= n then Words(t)[k] else Words(t)[k + 1] + gap)
    && (forall j | 2 * count + 2 <= j < PBLKSIZ :: s[j] == t[j])
  }

  /** The second loop and the new count: the later offsets move down one place. */
  method MoveOffsets(buf: array<byte>, count: nat, n: nat, gap: nat)
    requires buf.Length == PBLKSIZ && n < count < 256 && Words(buf[..])[0] == count
    requires forall k | n < k <= count :: Words(buf[..])[k] + gap < 0x1_0000
    modifies buf
    ensures OffsetsMoved(old(buf[..]), buf[..], count, n, gap)
  {
    hide Short;
    ghost var w := Words(buf[..]);
    var i1 := n + 1;
    while i1 < count
      invariant n < i1 <= count
      invariant forall k | 0 <= k <= n || i1 <= k <= count :: Words(buf[..])[k] == w[k]
      invariant forall k | n < k < i1 :: Words(buf[..])[k] == w[k + 1] + gap
      invariant forall j | 2 * count + 2 <= j < PBLKSIZ :: buf[j] == old(buf[j])
    {
      var next := GetShort(buf, i1 + 1);
      SetWord(buf, i1, next + gap);
      i1 := i1 + 1;
    }
    SetWord(buf, 0, count - 1);
    SetWord(buf, count, 0);
  }

  function Without(o: seq<nat>, n: nat, gap: nat): (r: seq<nat>)
    requires n + 1 < |o|
    ensures |r| == |o| - 1 && forall k | 0 <= k < |r| :: r[k] == if k <= n then o[k] else o[k + 1] + gap
  {
    seq(|o| - 1, k requires 0 <= k < |o| - 1 => if k <= n then o[k] else o[k + 1] + gap)
  }

  lemma OneOffsetLess(o: seq<nat>, n: nat, gap: nat)
    requires Descends(o) && n + 1 < |o| && gap == o[n] - o[n + 1]
    ensures Descends(Without(o, n, gap))
  {
    var o' := Without(o, n, gap);
    forall j, k | 0 <= j <= k < |o'|
      ensures o'[k] <= o'[j]
    {
      assert o[n + 1] <= o[n];
      if k > n {
        assert o[k + 1] <= o[n + 1] && o[k + 1] <= o[if j <= n then j else j + 1] && (j <= n ==> o[n] <= o[j]);
      }
    }
  }

  lemma MovedSlice(s: seq<byte>, s': seq<byte>, o: seq<nat>, o': seq<nat>, k: nat, k': nat, gap: nat)
    requires |s| == |s'| == PBLKSIZ && Descends(o) && Descends(o') && k < |o| - 1 && k' < |o'| - 1
    requires o'[k'] == o[k] + gap && o'[k' + 1] == o[k + 1] + gap
    requires forall j | o'[k' + 1] <= j < o'[k'] && j < PBLKSIZ :: s'[j] == s[j - gap]
    ensures Slices(s', o')[k'] == Slices(s, o)[k]
  {
  }

  lemma OneSliceLess(s: seq<byte>, s': seq<byte>, o: seq<nat>, n: nat, gap: nat, k: nat)
    requires |s| == |s'| == PBLKSIZ && Descends(o) && n + 1 < |o| && gap == o[n] - o[n + 1]
    requires forall j | o[n] <= j < PBLKSIZ :: s'[j] == s[j]
    requires forall j | o[|o| - 1] + gap <= j < o[n] :: s'[j] == s[j - gap]
    requires Descends(Without(o, n, gap)) && k < |o| - 2
    ensures Slices(s', Without(o, n, gap))[k] == Slices(s, o)[if k < n then k else k + 1]
  {
    if k < n {
      assert o[n] <= o[k + 1] <= o[k];
      MovedSlice(s, s', o, Without(o, n, gap), k, k, 0);
    } else {
      assert o[|o| - 1] <= o[k + 2] <= o[k + 1] <= o[n + 1];
      MovedSlice(s, s', o, Without(o, n, gap), k + 1, k, gap);
    }
  }

  lemma SlicesLess(s: seq<byte>, s': seq<byte>, o: seq<nat>, n: nat, gap: nat)
    requires |s| == |s'| == PBLKSIZ && Descends(o) && n + 1 < |o| && gap == o[n] - o[n + 1]
    requires forall j | o[n] <= j < PBLKSIZ :: s'[j] == s[j]
    requires forall j | o[|o| - 1] + gap <= j < o[n] :: s'[j] == s[j - gap]
    requires Descends(Without(o, n, gap))
    ensures Slices(s', Without(o, n, gap)) == Slices(s, o)[..n] + Slices(s, o)[n + 1..]
  {
    forall k | 0 <= k < |o| - 2
      ensures Slices(s', Without(o, n, gap))[k] == Slices(s, o)[if k < n then k else k + 1]
    {
      OneSliceLess(s, s', o, n, gap, k);
    }
  }

  lemma TableWithout(s: seq<byte>, t: seq<byte>, s': seq<byte>, n: nat, low: nat, gap: nat)
    requires HasTable(s) && |t| == PBLKSIZ && n < Short(s, 0) && 2 * Short(s, 0) + 2 <= low
    requires (forall j | 0 <= j < low && j < PBLKSIZ :: t[j] == s[j]) && OffsetsMoved(t, s', Short(s, 0), n, gap)
    ensures HasTable(s') && Table(s') == Without(Table(s), n, gap)
  {
    forall k | 0 <= k <= Short(s, 0)
      ensures Words(t)[k] == Short(s, k)
    {
    }
  }

  /** From s the first loop of delitem() makes t, and the second s'. */
  lemma Deleted(s: seq<byte>, t: seq<byte>, s': seq<byte>, n: nat, low: nat, gap: nat, end: nat)
    requires ValidPage(s) && n < Short(s, 0)
    requires low == Table(s)[Short(s, 0)] && gap == Table(s)[n] - Table(s)[n + 1] && end == Table(s)[n]
    requires MovedUp(s, t, low, end, gap) && OffsetsMoved(t, s', Short(s, 0), n, gap)
    ensures ValidPage(s') && Items(s') == Items(s)[..n] + Items(s)[n + 1..]
  {
    TableWithout(s, t, s', n, low, gap);
    OneOffsetLess(Table(s), n, gap);
    OffsetBounds(Table(s), n);
    SlicesLess(s, s', Table(s), n, gap);
  }

  lemma OffsetBounds(o: seq<nat>, n: nat)
    requires Descends(o) && n + 1 < |o|
    ensures 2 * |o| <= o[|o| - 1] <= o[n + 1] <= o[n] <= PBLKSIZ
    ensures forall k | n < k < |o| :: o[k] <= o[n + 1]
  {
    assert o[|o| - 1] <= o[n + 1] <= o[n] <= o[0];
  }

  lemma OffsetsCanMove(s: seq<byte>, t: seq<byte>, n: nat, low: nat, gap: nat)
    requires ValidPage(s) && |t| == PBLKSIZ && n < Short(s, 0) && low == Table(s)[Short(s, 0)]
    requires gap == Table(s)[n] - Table(s)[n + 1] && MovedUp(s, t, low, Table(s)[n], gap)
    ensures Short(s, 0) < 256 && Words(t)[0] == Short(s, 0)
    ensures forall k | n < k <= Short(s, 0) :: Words(t)[k] + gap < 0x1_0000
  {
    var o := Table(s);
    OffsetBounds(o, n);
    forall k | n < k <= Short(s, 0)
      ensures Words(t)[k] == o[k]
    {
    }
  }

  method DelItem(buf: array<byte>, n: nat)
    requires ValidPage(buf[..]) && n < |Items(buf[..])|
    modifies buf
    ensures ValidPage(buf[..])
    ensures Items(buf[..]) == old(Items(buf[..]))[..n] + old(Items(buf[..]))[n + 1..]
  {
    ghost var s := buf[..];
    OffsetBounds(Table(s), n);
    var i1 := GetShort(buf, n + 1);
    var i2 := PBLKSIZ;
    if n > 0 {
      i2 := GetShort(buf, n);
    }
    var count := GetShort(buf, 0);
    var i3 := GetShort(buf, count);
    var gap := i2 - i1;
    MoveUp(buf, i3, i1, i2, gap);
    ghost var t := buf[..];
    OffsetsCanMove(s, t, n, i3, gap);
    MoveOffsets(buf, count, n, gap);
    Deleted(s, t, buf[..], n, i3, gap, i2);
  }

  // ----- chkblk()

  method ChkBlk(buf: array<byte>) returns (ok: bool)
    requires HasTable(buf[..])
    ensures ok <==> ValidPage(buf[..])
  {
    ghost var o := Table(buf[..]);
    var t := PBLKSIZ;
    var count := GetShort(buf, 0);
    for i := 0 to count
      invariant t == o[i] && forall j, k | 0 <= j <= k <= i :: o[k] <= o[j]
    {
      var next := GetShort(buf, i + 1);
      if next > t {
        assert o[i + 1] > o[i];
        return false;
      }
      t := next;
    }
    return t >= 2 * (count + 1);
  }
}
