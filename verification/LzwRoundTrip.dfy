/** compress followed by uncompress gives the file back. */
module LzwRoundTrip {
  import opened Bits
  import opened LzwBits
  import opened LzwSpec
  import opened LzwEncoder
  import opened LzwGreedy
  import opened LzwUnique
  import opened LzwDecoder

  datatype Opened = Opened(pr: Params) | NotCompressed | TooManyBits(maxbits: nat)

  /** What main() makes of the three header bytes. */
  function ReadHeader(z: seq<byte>): Opened {
    if |z| < 3 || z[0] != 0x1f || z[1] != 0x9d then NotCompressed
    else if z[2] % 0x20 > 16 then TooManyBits(z[2] % 0x20)
    else Opened(Params(z[2] % 0x20, z[2] >= 0x80))
  }

  method CompressFile(pr: Params, input: seq<byte>) returns (z: seq<byte>, ghost codes: seq<nat>)
    requires pr.Valid()
    ensures |z| >= 3 && ReadHeader(z) == Opened(pr) && z[2] == pr.maxbits + if pr.block then 128 else 0
    ensures Packs(pr, codes, z[3..]) && Run(pr, codes).out == input && Sends(pr, codes, input)
    ensures PairsDiffer(input) && |input| < CHECK_GAP ==> codes == input
  {
    hide Available, SlotsSound, Knows, ValidCodes, AllInPlace, Greedy, ClearsWhenDue, PairsDiffer, Run, LayoutAfter, TableHolds;
    var c := new Compressor(pr);
    c.Compress(input);
    z, codes := c.out.stdout, c.out.codes;
    assert z[3..] == c.out.body;
  }

  method UncompressFile(z: seq<byte>, ghost codes: seq<nat>) returns (r: Opened, output: seq<byte>)
    requires ReadHeader(z).Opened? ==> ReadHeader(z).pr.Valid() && Packs(ReadHeader(z).pr, codes, z[3..])
    ensures r == ReadHeader(z)
    ensures r.Opened? ==> output == Run(r.pr, codes).out
  {
    r, output := ReadHeader(z), [];
    if r.Opened? {
      var d := new Decompressor(r.pr, z[3..], codes);
      d.Decompress();
      output := d.stdout;
    }
  }

  /** For every input, code width limit and mode, whatever the clear decisions. */
  method RoundTrip(pr: Params, input: seq<byte>) returns (output: seq<byte>)
    requires pr.Valid()
    ensures output == input
  {
    var z, codes := CompressFile(pr, input);
    var r;
    r, output := UncompressFile(z, codes);
  }

  /** At equal prefixes the next codes of two readings of one stream are equal, and neither
      reading can be at its end when the other is not. */
  lemma SameNext(pr: Params, c: seq<nat>, d: seq<nat>, z: seq<byte>, i: nat)
    requires pr.Valid() && Packs(pr, c, z) && Packs(pr, d, z)
    requires i <= |c| && i <= |d| && c[..i] == d[..i]
    ensures i < |c| <==> i < |d|
    ensures i < |c| ==> c[i] == d[i]
  {
    PlaceInside(pr, c, z, i);
    PlaceInside(pr, d, z, i);
    if i < |c| && i < |d| {
      var l := LayoutAfter(pr, c[..i]);
      CodeFits(pr, c, i);
      CodeFits(pr, d, i);
      FieldsAgree(z, l.Offset(), l.nbits, c[i], d[i]);
    }
  }

  /** A stream packs at most one code sequence: padding is never read as a code. */
  lemma PackingIsUnique(pr: Params, c: seq<nat>, d: seq<nat>, z: seq<byte>)
    requires pr.Valid() && Packs(pr, c, z) && Packs(pr, d, z)
    ensures c == d
  {
    var i := 0;
    while i < |c|
      invariant i <= |c| && i <= |d| && c[..i] == d[..i]
    {
      SameNext(pr, c, d, z, i);
      assert c[..i + 1] == c[..i] + [c[i]] && d[..i + 1] == d[..i] + [d[i]];
      i := i + 1;
    }
    SameNext(pr, c, d, z, i);
    assert c == c[..i] && d == d[..i];
  }

  /** With a limit of nine bits there is a file whose last code is written in ten: that of all the
      characters in order, and one or two more. */
  method NineBitsBecomeTen(pr: Params) returns (input: seq<byte>, z: seq<byte>, ghost codes: seq<nat>)
    requires pr.Valid() && pr.maxbits == 9
    ensures |z| >= 3 && Packs(pr, codes, z[3..]) && Run(pr, codes).out == input
    ensures codes != [] && LayoutAfter(pr, codes[..|codes| - 1]).nbits == 10
  {
    hide PairsDiffer, Run, LayoutAfter, Packs;
    var n := 514 - pr.First();
    input := seq(n, i => if i < 256 then i else if i == 256 then 0 else 2);
    AllInOrder(n, input);
    z, codes := CompressFile(pr, input);
    LiteralsReachTen(pr, codes[..n - 1]);
  }

  lemma AllInOrder(n: nat, s: seq<byte>)
    requires n <= 258 && |s| == n && forall i | 0 <= i < n :: s[i] == if i < 256 then i else if i == 256 then 0 else 2
    ensures PairsDiffer(s)
  {
    forall i, j | 0 <= i < j < n - 1
      ensures PairAt(s, i) != PairAt(s, j)
    {
      assert PairAt(s, i)[0] == s[i] && PairAt(s, j)[0] == s[j] && PairAt(s, i)[1] == s[i + 1] && PairAt(s, j)[1] == s[j + 1];
    }
  }

  // ----- three letters

  lemma BaseOf(pr: Params)
    requires pr == Params(16, true)
    ensures |Base(pr)| == 257 < 512 <= pr.MaxMaxCode() && Base(pr)[97] == [97] && [97, 97] !in Base(pr)
    ensures Run(pr, []) == Decoded(Base(pr), [], false, []) && ValidCodes(pr, [])
  {
    MaxMaxCodeBounds(pr);
    assert forall k | 0 <= k < 256 :: Base(pr)[k] == [k];
  }

  lemma ThreeLettersRun(pr: Params)
    requires pr == Params(16, true)
    ensures var d := Run(pr, [97]);
            ValidCodes(pr, [97]) && d.strings == Base(pr) && d.prev == [97] && !d.cleared && d.out == [97]
    ensures var e := Run(pr, [97, 257]);
            ValidCodes(pr, [97, 257]) && |e.strings| == 258 && e.prev == [97, 97] && !e.cleared && e.out == [97, 97, 97]
  {
    hide Base, Literals, Run, Step, StringOf, ValidCodes;
    BaseOf(pr);
    StringSent(pr, [], 97);
    Snoc(pr, [], 97);
    assert [] + [97] == [97];
    var d := Run(pr, [97]);
    assert d.out == [97] by { assert d.out == [] + d.prev; }
    StringSent(pr, [97], 257);
    Snoc(pr, [97], 257);
    assert [97] + [257] == [97, 257];
    var e := Run(pr, [97, 257]);
    assert e.prev == e.strings[257] == [97] + [e.prev[0]];
    assert e.prev == [97, 97];
  }

  /** "aaa" is sent as 97 and 257. */
  lemma ThreeLettersSent(pr: Params)
    requires pr == Params(16, true)
    ensures Sends(pr, [97, 257], [97, 97, 97])
  {
    hide Run, Base, ValidCodes, Ratio, LayoutAfter;
    ThreeLettersRun(pr);
    BaseOf(pr);
    var codes, input := [97, 257], [97, 97, 97];
    assert codes[..1] == [97] && codes[..2] == codes && codes[..0] == [];
    forall n | 1 <= n <= |codes|
      ensures LongestSent(pr, codes[..n], input)
    {
      assert [97] + [97] == [97, 97];
    }
    assert !Looks(pr, [97], WatchAfter(pr, [])) && !ClearDue(pr, [97]) by {
      assert [97][..0] == [];
    }
  }

  lemma ThreeLettersPlaces(pr: Params)
    requires pr == Params(16, true)
    ensures var l := LayoutAfter(pr, [97, 257][..0]); l.start == 0 && l.index == 0 && l.nbits == 9
    ensures var l := LayoutAfter(pr, [97, 257][..1]); l.start == 0 && l.index == 1 && l.nbits == 9
    ensures var l := LayoutAfter(pr, [97, 257]); l.start == 0 && l.index == 2 && l.nbits == 9
  {
    hide Run;
    Pow2Values();
    ThreeLettersRun(pr);
    BaseOf(pr);
    assert [97, 257][..0] == [] && [97, 257][..1] == [97] && [97][..0] == [];
  }

  lemma ThreeLettersBytes(z: seq<byte>)
    requires |z| == 3 && FieldAt(z, 0, 9, 97) && FieldAt(z, 9, 9, 257)
    ensures z[0] == 97 && z[1] == 2 && z[2] % 4 == 2
  {
    forall p | 0 <= p < 18
      ensures Bit(z[p / 8], p % 8) == if p < 9 then Bit(97, p) else Bit(257, p - 9)
    {
      assert p < 9 ==> BitAt(z, 0 + p) == Bit(97, p);
      assert p >= 9 ==> BitAt(z, 9 + (p - 9)) == Bit(257, p - 9);
    }
    SomeBits();
    LowByte(z[0], 97);
    assert Bit(z[1], 0) == Bit(97, 8);
    forall j | 1 <= j < 8
      ensures Bit(z[1], j) == Bit(257, j - 1)
    {
      assert (8 + j) / 8 == 1 && (8 + j) % 8 == j;
    }
    LowByte(z[1], 2);
    assert Bit(z[2], 0) == Bit(257, 7) && Bit(z[2], 1) == Bit(257, 8);
  }

  lemma SomeBits()
    ensures !Bit(97, 8) && Bit(257, 0) && !Bit(257, 1) && !Bit(257, 2) && !Bit(257, 3) && !Bit(257, 4)
    ensures !Bit(257, 5) && !Bit(257, 6) && !Bit(257, 7) && Bit(257, 8)
    ensures forall j | 0 <= j < 8 :: Bit(2, j) <==> j == 1
  {
    forall j | 0 <= j < 8
      ensures Bit(2, j) <==> j == 1
    {
      if j >= 2 {
        ZeroHasNoBits(j - 2);
      }
    }
  }

  lemma LowByte(b: byte, c: byte)
    requires forall j | 0 <= j < 8 :: Bit(b, j) == Bit(c, j)
    ensures b == c
  {
    OneByte(b);
    OneByte(c);
    BitsDetermine(b, c, 8);
  }

  /** The file that "aaa" is compressed to; what fills the last byte is not said. */
  method ThreeLetters() returns (z: seq<byte>)
    ensures |z| == 6 && z[0] == 0x1f && z[1] == 0x9d && z[2] == 0x90 && z[3] == 97 && z[4] == 2 && z[5] % 4 == 2
  {
    hide Run, LayoutAfter, ValidCodes, Sends, Packs, PairsDiffer, Greedy;
    var pr := Params(16, true);
    ghost var codes;
    z, codes := CompressFile(pr, [97, 97, 97]);
    ThreeLettersSent(pr);
    CodesAreDetermined(pr, codes, [97, 257], [97, 97, 97]);
    ThreeLettersPacked(pr, z[3..]);
  }

  lemma ThreeLettersPacked(pr: Params, z: seq<byte>)
    requires pr == Params(16, true) && Packs(pr, [97, 257], z)
    ensures |z| == 3 && z[0] == 97 && z[1] == 2 && z[2] % 4 == 2
  {
    hide Run, ValidCodes, FieldAt, LayoutAfter, Times;
    ThreeLettersPlaces(pr);
    var codes := [97, 257];
    PlaceOffset(LayoutAfter(pr, codes[..0]));
    PlaceOffset(LayoutAfter(pr, codes[..1]));
    PlaceOffset(LayoutAfter(pr, codes));
    assert InPlace(pr, codes, z, 0) && InPlace(pr, codes, z, 1);
    ThreeLettersBytes(z);
  }

  lemma PlaceOffset(l: Layout)
    requires l.start == 0 && l.nbits == 9
    ensures l.Filled() == l.Offset() == 9 * l.index
  {
    TimesIsProduct(l.index, l.nbits);
  }
}
