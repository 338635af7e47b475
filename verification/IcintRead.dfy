/** How the words of an assembled program are read: the fetch of interpret() in icint.c, and getbyte() in
    blib.c.  The numbers are those of the source, written out. */
module IcintRead {
  import opened Options
  import opened Icint

  // ----- instructions

  /** What the fetch finds: the function, the three letters, the operand before it is modified, and
      the place of the next instruction. */
  datatype Fetched = Fetched(f: int, indirect: bool, local: bool, global: bool, d: int, next: nat)

  /** fetch, with C at c */
  function Fetch(m: seq<int>, c: nat): Fetched
    requires c < |m|
  {
    var w := m[c];
    var far := w / 512 % 2 == 1;
    Fetched(w / 8192, w / 4096 % 2 == 1, w / 2048 % 2 == 1, w / 1024 % 2 == 1,
            if !far then w % 512 else if c + 1 < |m| then m[c + 1] else 0, if far then c + 2 else c + 1)
  }

  lemma BitsAre(h: Head, a: int, far: bool)
    requires 0 <= a < 512 && (far ==> a == 0)
    ensures var w := Bits(h) + (if far then DBIT else 0) + a;
            && w / 8192 == h.f && (w / 4096 % 2 == 1 <==> h.indirect) && (w / 2048 % 2 == 1 <==> h.local)
            && (w / 1024 % 2 == 1 <==> h.global) && (w / 512 % 2 == 1 <==> far) && w % 512 == a
  {
    var i, p, g, d := One(h.indirect), One(h.local), One(h.global), One(far);
    Quotients(Bits(h) + (if far then DBIT else 0) + a, 16 * h.f + 8 * i + 4 * p + 2 * g + d, a);
    Letters(h.f, i, p, g, d);
  }

  function One(b: bool): nat { if b then 1 else 0 }

  lemma Quotients(w: nat, q: nat, a: nat)
    requires w == 512 * q + a && a < 512
    ensures w % 512 == a && w / 512 == q && w / 1024 == q / 2
    ensures w / 2048 == q / 2 / 2 && w / 4096 == q / 2 / 2 / 2 && w / 8192 == q / 2 / 2 / 2 / 2
  {
  }

  lemma Letters(f: nat, i: nat, p: nat, g: nat, d: nat)
    requires i < 2 && p < 2 && g < 2 && d < 2
    ensures var q := 16 * f + 8 * i + 4 * p + 2 * g + d;
            q % 2 == d && q / 2 % 2 == g && q / 2 / 2 % 2 == p && q / 2 / 2 / 2 % 2 == i && q / 2 / 2 / 2 / 2 == f
  {
    Half(16 * f + 8 * i + 4 * p + 2 * g + d, 8 * f + 4 * i + 2 * p + g, d);
    Half(8 * f + 4 * i + 2 * p + g, 4 * f + 2 * i + p, g);
    Half(4 * f + 2 * i + p, 2 * f + i, p);
    Half(2 * f + i, f, i);
  }

  lemma Half(x: nat, y: nat, b: nat)
    requires x == 2 * y + b && b < 2
    ensures x / 2 == y && x % 2 == b
  {
  }

  /** The instruction of item i, as the fetch finds it, followed by that of the next item; and the word of
      data, or of a global variable. */
  ghost predicate Fetches(items: seq<Item>, i: nat, m: seq<int>)
    requires i < |items| && Assemblable(items) && |m| == VSIZE
  {
    WhereGrows(items, i, |items|);
    var p, next := Where(items, i).p, Where(items, i + 1).p;
    match items[i]
    case Code(h, a) =>
      p < VSIZE ==> Fetch(m, p) == Fetched(h.f, h.indirect, h.local, h.global, a, next)
    case CodeLabel(h, _) =>
      p < VSIZE && Target(items, i, |items|).Some? ==>
        Fetch(m, p) == Fetched(h.f, h.indirect, h.local, h.global, Target(items, i, |items|).value, next)
    case Data(w) => p < VSIZE ==> m[p] == w
    case Global(g, _) => g + 1 < VSIZE && Target(items, i, |items|).Some? ==> m[g + 1] == Target(items, i, |items|).value
    case _ => true
  }

  lemma InstructionFetched(items: seq<Item>, i: nat, m: seq<int>)
    requires i < |items| && Assemblable(items) && |m| == VSIZE
    requires Holds(items, i, |items|, m) && Resolved(items, i, |items|, m)
    ensures Fetches(items, i, m)
  {
    WhereGrows(items, i + 1, |items|);
    match items[i]
    case Code(h, a) =>
      BitsAre(h, if Short(a) then a else 0, !Short(a));
    case CodeLabel(h, _) =>
      BitsAre(h, 0, true);
    case _ =>
  }

  /** The three words that main() stores are LIG1, K2 and X22: load what global 1 points to, call it
      with a new frame at 2, and stop. */
  lemma StartIs(m: seq<int>)
    requires |m| == VSIZE && m[402] == LIG1 && m[403] == K2 && m[404] == X22
    ensures Fetch(m, 402) == Fetched(0, true, false, true, 1, 403)
    ensures Fetch(m, 403) == Fetched(6, false, false, false, 2, 404)
    ensures Fetch(m, 404) == Fetched(7, false, false, false, 22, 405)
  {
  }

  // ----- characters

  /** The byte of a word with j bytes above it, as getbyte() takes it out. */
  function ByteOf(w: int, j: nat): int
    requires j < 4
  {
    Unsigned(w) / (if j == 0 then 16777216 else if j == 1 then 65536 else if j == 2 then 256 else 1) % 256
  }

  function Unsigned(w: int): int {
    if w < 0 then w + 4294967296 else w
  }

  /** getbyte(s, i) */
  function GetByte(m: seq<int>, s: nat, i: nat): int
    requires s + i / 4 < |m|
  {
    ByteOf(m[s + i / 4], i % 4)
  }

  /** The characters that stand right before item k; initialising a global does not part them. */
  function CharsBefore(items: seq<Item>, k: nat): nat
    requires k <= |items|
  {
    if k == 0 then 0
    else match items[k - 1]
      case Chr(_) => CharsBefore(items, k - 1) + 1
      case Global(_, _) => CharsBefore(items, k - 1)
      case _ => 0
  }

  /** The place where the string begins that goes on at item k. */
  function StringStart(items: seq<Item>, k: nat): nat
    requires k <= |items|
  {
    if k > 0 && (items[k - 1].Chr? || items[k - 1].Global?) then StringStart(items, k - 1) else Where(items, k).p
  }

  lemma {:induction false} CharPlace(items: seq<Item>, k: nat)
    requires k <= |items|
    ensures Where(items, k).cp == Room(CharsBefore(items, k))
    ensures Where(items, k).p == StringStart(items, k) + (CharsBefore(items, k) + 3) / 4
  {
    hide Room;
    NextRoom(0);
    if k > 0 {
      CharPlace(items, k - 1);
      NextRoom(CharsBefore(items, k - 1));
    }
  }

  /** The bits left in a word when n characters have been packed. */
  function Room(n: nat): nat {
    if n % 4 == 0 then 0 else 32 - 8 * (n % 4)
  }

  lemma NextRoom(n: nat)
    ensures Room(0) == 0 && (n + 4) / 4 == (n + 3) / 4 + if Room(n) < 8 then 1 else 0
    ensures Room(n + 1) == if Room(n) < 8 then 24 else Room(n) - 8
    ensures if Room(n) < 8 then n % 4 == 0 else Room(n) == 32 - 8 * (n % 4)
  {
    assert (n + 4) / 4 == n / 4 + 1;
    assert (n + 3) / 4 == n / 4 + if n % 4 == 0 then 0 else 1;
    assert (n + 1) % 4 == if n % 4 == 3 then 0 else n % 4 + 1;
  }

  // ----- the bytes of a word for characters

  predicate FourBytes(b: seq<int>) {
    |b| == 4 && forall j | 0 <= j < 4 :: 0 <= b[j] < 256
  }

  /** The word of these bytes, the first one on top. */
  ghost predicate Word(w: int, b: seq<int>) {
    && FourBytes(b) && -2147483648 <= w < 2147483648
    && Unsigned(w) == b[0] * 16777216 + b[1] * 65536 + b[2] * 256 + b[3]
  }

  lemma BytesRead(w: int, b: seq<int>, j: nat)
    requires Word(w, b) && j < 4
    ensures ByteOf(w, j) == b[j]
  {
    var u := Unsigned(w);
    Lowest(u, (b[0] * 256 + b[1]) * 256 + b[2], b[3]);
    Lowest((b[0] * 256 + b[1]) * 256 + b[2], b[0] * 256 + b[1], b[2]);
    Lowest(b[0] * 256 + b[1], b[0], b[1]);
    Quotient(u);
  }

  lemma Lowest(x: nat, y: nat, b: nat)
    requires x == 256 * y + b && b < 256
    ensures x / 256 == y && x % 256 == b
  {
  }

  lemma Quotient(u: nat)
    ensures u / 65536 == u / 256 / 256 && u / 16777216 == u / 256 / 256 / 256
  {
  }

  /** A character is added where there was nothing. */
  lemma BytePacked(w: int, b: seq<int>, j: nat, c: int)
    requires Word(w, b) && j < 4 && b[j] == 0 && 0 <= c < 256
    ensures Word(Wrap(w + Shifted(c, 24 - 8 * j)), b[j := c])
  {
    hide Wrap, Unsigned;
    var x := c * if j == 0 then 16777216 else if j == 1 then 65536 else if j == 2 then 256 else 1;
    assert Shifted(c, 24 - 8 * j) == x;
    WrapUnsigned(w, x);
    BytesAdded(Unsigned(w), b, j, c, x);
    UnsignedWrap(Unsigned(w) + x);
  }

  lemma BytesAdded(u: int, b: seq<int>, j: nat, c: int, x: int)
    requires FourBytes(b) && j < 4 && b[j] == 0 && 0 <= c < 256
    requires x == c * if j == 0 then 16777216 else if j == 1 then 65536 else if j == 2 then 256 else 1
    requires u == b[0] * 16777216 + b[1] * 65536 + b[2] * 256 + b[3]
    ensures var d := b[j := c];
            FourBytes(d) && u + x == d[0] * 16777216 + d[1] * 65536 + d[2] * 256 + d[3] < 4294967296
  {
  }

  lemma UnsignedWrap(x: int)
    requires 0 <= x < 4294967296
    ensures Unsigned(Wrap(x)) == x && -2147483648 <= Wrap(x) < 2147483648
  {
  }

  lemma WrapUnsigned(w: int, x: int)
    requires -2147483648 <= w < 2147483648
    ensures Wrap(w + x) == Wrap(Unsigned(w) + x)
  {
    assert (w + 4294967296 + x + 0x8000_0000) % 0x1_0000_0000 == (w + x + 0x8000_0000) % 0x1_0000_0000;
  }

  /** Character t goes into the word that item b begins. */
  predicate InWord(items: seq<Item>, b: nat, t: nat)
    requires b <= t < |items| && items[b].Chr? && Where(items, b).cp < BYTESIZE
  {
    items[t].Chr? && (t == b || (Where(items, t).cp >= BYTESIZE && Begun(items, t) == b))
  }

  /** The characters of that word before item k, each in its place. */
  ghost predicate PutIn(items: seq<Item>, b: nat, k: nat, s: seq<int>)
    requires b < k <= |items| && items[b].Chr? && Where(items, b).cp < BYTESIZE
  {
    && FourBytes(s)
    && (forall t | b <= t < k && InWord(items, b, t) :: s[CharsBefore(items, t) % 4] == items[t].c)
    && (Where(items, k).cp > 0 && Begun(items, k) == b ==> forall j | CharsBefore(items, k) % 4 <= j < 4 :: s[j] == 0)
  }

  lemma PutFirst(items: seq<Item>, b: nat)
    requires b < |items| && items[b].Chr? && Where(items, b).cp < BYTESIZE && 0 <= items[b].c < 256
    ensures CharsBefore(items, b) % 4 == 0 && PutIn(items, b, b + 1, [items[b].c, 0, 0, 0])
  {
    hide Where, Room;
    CharPlace(items, b);
    NextRoom(CharsBefore(items, b));
    assert CharsBefore(items, b + 1) == CharsBefore(items, b) + 1;
  }

  lemma PutNext(items: seq<Item>, b: nat, k: nat, s: seq<int>)
    requires b < k < |items| && items[b].Chr? && Where(items, b).cp < BYTESIZE && PutIn(items, b, k, s)
    requires InWord(items, b, k) && 0 <= items[k].c < 256
    ensures var n := CharsBefore(items, k) % 4;
            && Where(items, k).cp == 32 - 8 * n && s[n] == 0 && PutIn(items, b, k + 1, s[n := items[k].c])
  {
    hide Where, Room;
    CharPlace(items, k);
    CharPlace(items, k + 1);
    RoomLeft(CharsBefore(items, k));
    var n := CharsBefore(items, k) % 4;
    var s' := s[n := items[k].c];
    forall t | b <= t < k && InWord(items, b, t)
      ensures CharsBefore(items, t) % 4 != n
    {
      BeforeInWord(items, b, t, k);
    }
    assert CharsBefore(items, k + 1) == CharsBefore(items, k) + 1;
  }

  lemma RoomLeft(n: nat)
    ensures if Room(n) > 0 then n % 4 > 0 && Room(n) == 32 - 8 * (n % 4) >= 8 else n % 4 == 0
    ensures Room(n + 1) > 0 ==> (n + 1) % 4 == n % 4 + 1
  {
  }

  /** The characters of a word are put in one behind the other. */
  lemma {:induction false} BeforeInWord(items: seq<Item>, b: nat, t: nat, k: nat)
    requires b <= t < k <= |items| && items[b].Chr? && Where(items, b).cp < BYTESIZE
    requires InWord(items, b, t) && Where(items, k).cp > 0 && Begun(items, k) == b
    ensures CharsBefore(items, t) % 4 < CharsBefore(items, k) % 4
    decreases k
  {
    hide Where, Room;
    CharPlace(items, k);
    CharPlace(items, k - 1);
    RoomLeft(CharsBefore(items, k - 1));
    WhereLast(items, k);
    if t < k - 1 {
      BeforeInWord(items, b, t, k - 1);
    }
  }

  lemma WhereLast(items: seq<Item>, k: nat)
    requires 0 < k <= |items| && Where(items, k).cp > 0
    ensures items[k - 1].Chr? || (items[k - 1].Global? && Where(items, k) == Where(items, k - 1))
  {
  }

  lemma PutElsewhere(items: seq<Item>, b: nat, k: nat, s: seq<int>)
    requires b < k < |items| && items[b].Chr? && Where(items, b).cp < BYTESIZE && PutIn(items, b, k, s) && !InWord(items, b, k)
    ensures PutIn(items, b, k + 1, s)
  {
    hide Where;
    if Where(items, k + 1).cp > 0 && Begun(items, k + 1) == b {
      WhereLast(items, k + 1);
    }
  }

  lemma {:induction false} WordOfChars(items: seq<Item>, b: nat, k: nat) returns (s: seq<int>)
    requires b < k <= |items| && items[b].Chr? && Where(items, b).cp < BYTESIZE
    requires forall t | b <= t < |items| && InWord(items, b, t) :: 0 <= items[t].c < 256
    ensures PutIn(items, b, k, s) && Word(Packed(items, b, k), s)
    decreases k
  {
    hide Where, Wrap, Shifted, Word, PutIn, Begun;
    if k == b + 1 {
      EmptyWord();
      assert InWord(items, b, b);
      BytePacked(0, [0, 0, 0, 0], 0, items[b].c);
      s := [0, 0, 0, 0][0 := items[b].c];
      assert s == [items[b].c, 0, 0, 0];
      PutFirst(items, b);
    } else {
      s := WordOfChars(items, b, k - 1);
      if InWord(items, b, k - 1) {
        PutNext(items, b, k - 1, s);
        var n := CharsBefore(items, k - 1) % 4;
        PutBytes(items, b, k - 1, s);
        BytePacked(Packed(items, b, k - 1), s, n, items[k - 1].c);
        assert Packed(items, b, k) == Wrap(Packed(items, b, k - 1) + Shifted(items[k - 1].c, 24 - 8 * n));
        s := s[n := items[k - 1].c];
      } else {
        PutElsewhere(items, b, k - 1, s);
      }
    }
  }

  lemma PutBytes(items: seq<Item>, b: nat, k: nat, s: seq<int>)
    requires b < k <= |items| && items[b].Chr? && Where(items, b).cp < BYTESIZE && PutIn(items, b, k, s)
    ensures |s| == 4
  {
  }

  lemma EmptyWord()
    ensures Word(0, [0, 0, 0, 0])
  {
  }

  /** The word that character i is in. */
  function WordBegun(items: seq<Item>, i: nat): (b: nat)
    requires i < |items| && items[i].Chr?
    ensures b <= i && items[b].Chr? && Where(items, b).cp < BYTESIZE && InWord(items, b, i)
  {
    if Where(items, i).cp < BYTESIZE then i else Begun(items, i)
  }

  /** Character i of the program is read back from the string it is in. */
  ghost predicate CharRead(items: seq<Item>, i: nat, m: seq<int>)
    requires i < |items| && Assemblable(items) && |m| == VSIZE && items[i].Chr?
  {
    StringInMemory(items, i);
    (var b := WordBegun(items, i); forall t | b <= t < |items| && InWord(items, b, t) :: 0 <= items[t].c < 256) ==>
      GetByte(m, StringStart(items, i), CharsBefore(items, i)) == items[i].c
  }

  lemma StringInMemory(items: seq<Item>, i: nat)
    requires i < |items| && Assemblable(items) && items[i].Chr?
    ensures StringStart(items, i) + CharsBefore(items, i) / 4 == Where(items, WordBegun(items, i)).p < VSIZE
  {
    hide Room;
    var b, n := WordBegun(items, i), CharsBefore(items, i);
    CharPlace(items, i);
    RoomLeft(n);
    assert (n + 3) / 4 == n / 4 + if n % 4 == 0 then 0 else 1;
    WhereGrows(items, b + 1, |items|);
  }

  lemma CharacterRead(items: seq<Item>, i: nat, m: seq<int>)
    requires i < |items| && Assemblable(items) && |m| == VSIZE && items[i].Chr?
    requires forall b | 0 <= b < |items| :: Holds(items, b, |items|, m)
    ensures CharRead(items, i, m)
  {
    hide Where, Word, Begun, ByteOf;
    var b := WordBegun(items, i);
    StringInMemory(items, i);
    if forall t | b <= t < |items| && InWord(items, b, t) :: 0 <= items[t].c < 256 {
      var s := WordOfChars(items, b, |items|);
      assert Holds(items, b, |items|, m);
      BytesRead(Packed(items, b, |items|), s, CharsBefore(items, i) % 4);
    }
  }
}
