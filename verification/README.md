# Verified models of the algorithms in a tree of old Unix sources

This project models the algorithms of a historical source tree (Version 7 Unix, the compress
program of its contributed software, and the BCPL kit) and proves what they are for.  It has
no dependency but Dafny 4.11; `dafny verify dfyconfig.toml` checks all of it.

| files | program |
|---|---|
| `Lzw*.dfy` | compress: encoder, decoder, bit packing, hash table |
| `Mp*.dfy` | libmp: multi-precision arithmetic in base 2^15 |
| `Diff*.dfy` | diff: longest common subsequence by candidates, and the changes printed |
| `Dbm*.dfy` | libdbm: hash trie of slotted pages |
| `Fsck*.dfy`, `FreeList.dfy` | fsck: block accounting, free list check and salvage |
| `Restor*.dfy`, `FreeList.dfy` | restor: block map, truncation, free list, cache |
| `Sort*.dfy` | sort: three-way quicksort |
| `Tsort*.dfy` | tsort: topological sort and loop finding |
| `Grep*.dfy` | grep: pattern compiler and matcher |
| `Icint*.dfy` | the INTCODE assembler: backpatched references |
| `Arith.dfy`, `Bits.dfy`, `Options.dfy`, `Sequences.dfy` | shared by these |

Code that works by changing arrays, buffers and counters is modelled by classes and methods
with loops over arrays; each is tied to a specification on values (strings of a code table,
values of digit sequences, common subsequences, finite maps, multisets of claims, free lists,
languages, two-pass assembly), and the lemmas prove what the program promises about these.
Predicates and functions that a proof does not need are hidden in it to keep it quick.

## The main results

* **compress**: the round trip for all inputs and settings (`LzwRoundTrip.RoundTrip`), from a
  lockstep of encoder and decoder with the decoder one entry behind, a layout of the codes in
  the byte stream that both sides follow, and a hash table whose hits are sound although key 0
  can be lost from it; what is sent is determined by the input (`LzwUnique.CodesAreDetermined`).
* **libmp**: exact sum, product, long division, square root, greatest common divisor and
  modular inverse, read on the 16-bit machine the code was written for; the cases in which the
  signs come out wrong are characterised exactly.
* **diff**: the matching is as large as a longest common subsequence of the line hashes, and
  both kinds of output rebuild the second file, minimal unless two different lines have the same
  hash.
* **dbm**: fetch, store and delete act on a finite map through page splits, a pair is stored
  exactly when it fits a page with those that no split can part it from, and iteration passes
  every key exactly once.
* **fsck**: bit map and duplicate table count the claims of the inodes left, and the exact
  conditions are given for no block to be claimed twice at the end and for no limit to be reached;
  the free list made by the salvage passes the checker, which accepts exactly the clean lists.
* **restor**: the block map and truncation are inverse, and a restored file holds what was on the
  tape, holes included.
* **sort**, **tsort**, **grep**, **icint**: see the rows below.

## Where the code does not do what one would expect

* compress: with maxbits 9 codes grow to ten bits (`LzwRoundTrip.NineBitsBecomeTen`), because the
  width is raised before it is compared; the decoder does the same, so nothing is lost.
* compress: a slot holding key 0 ends a search and is reused, so that key is not always found
  again (`LzwHash.KeysAfterStore`, `LzwHash.ZeroKeyCanBeLost`).
* compress: when key 0 is lost, the string of two zeros is entered twice, and strings built upon the
  first entry are not found any more; no other string is missed (`LzwGreedy.MissMeansNew`).
* libmp: `msub` of two negative numbers has the wrong sign (`MpAdd.SubIsRight`); `mcmp` of two
  negative numbers of the same length is reversed (`MpAdd.Compare`); `mdiv` gives the remainder the
  sign of dividend and divisor together (`MpDiv.DivisionIdentity`); a product with zero keeps
  leading zero digits (`MpMult.Mult`); `gcd` can be negative (`MpGcd.Gcd`, `MpGcd.NegativeGcd`).
* dbm: a pair of 506 or 507 bytes passes the size test but fits no page: splitting goes on until
  the hash has no bits left (`DbmRoom.NeverFits`, `Dbm.UnfitPair`; the exact condition is in
  `Dbm.Database.Store`).
* dbm: a pair refused as too big has already lost its old content from the page in memory: it is
  not found any more, and the next write of the page makes the loss permanent (`Dbm.LostPair`).
* fsck: a root directory that claims bad or multiply claimed blocks is kept, so that blocks may be
  claimed twice at the end (`FsckPhase.RootMayKeepDuplicate`); when this happens is said by
  `FsckPhase.OneClaimEach`.
* restor: blocks of a file beyond the greatest size are written to block 0 of the device
  (`Restor.RestoreFile`).
* grep: a second asterisk after a starred item changes nothing, and an asterisk at the start of a
  pattern is itself, however many there are.

## Model

| member | source | states |
|---|---|---|
| `LzwRoundTrip.RoundTrip` | releases/usr/contrib/compress/compress.c:714-1058 | for every byte string, every maxbits from 9 to 16 and both block modes, uncompressing the compressed file gives the string back |
| `LzwRoundTrip.CompressFile` | releases/usr/contrib/compress/compress.c:714-828 | the file has a header that reads back, and holds codes whose decoding is the input; each code stands for the longest string in the table, which with the next character of the input would not be there (but for strings that begin with two zeros), and CLEAR is sent exactly when the ratio, looked at when the table is full and 10000 characters have been read since, has not grown |
| `LzwUnique.CodesAreDetermined` | releases/usr/contrib/compress/compress.c:759-822 | these two properties determine the codes of every input without two zeros side by side |
| `LzwRoundTrip.ThreeLetters` | releases/usr/contrib/compress/compress.c:714-971 | the bytes of the file for aaa: header, 97, and 257 for the other two characters |
| `LzwRoundTrip.UncompressFile` | releases/usr/contrib/compress/compress.c:980-1058 | the output is what the codes packed in the file stand for, whichever program packed them; a wrong header is refused |
| `LzwRoundTrip.PackingIsUnique` | releases/usr/contrib/compress/compress.c:854-971 | a byte stream packs at most one code sequence: padding and width changes are never ambiguous |
| `LzwBits.InsertCode` | releases/usr/contrib/compress/compress.c:889-907 | all bits below the offset stay, the next n bits become the code |
| `LzwBits.ExtractCode` | releases/usr/contrib/compress/compress.c:1106-1139 | the code read is below 2^n and has just the n bits that stand at the offset |
| `LzwSpec.RunKeepsTable` | releases/usr/contrib/compress/compress.c:1003-1054 | over every run of codes that may follow one another the string table keeps its form: lengths bounded, the place of the clear code without string, the last string known |
| `LzwSpec.RunKeepsWidth` | releases/usr/contrib/compress/compress.c:924-954 | over every run the width in use is the one the number of table entries asks for |
| `LzwSpec.NextCodeFits` | releases/usr/contrib/compress/compress.c:924-954 | every code that may come next fits in the current width |
| `LzwSpec.WidthLimit` | releases/usr/contrib/compress/compress.c:937-947 | the width never exceeds maxbits, or ten when maxbits is nine |
| `LzwRoundTrip.NineBitsBecomeTen` | releases/usr/contrib/compress/compress.c:937-947 | with maxbits nine there is an input whose last code is written in ten bits |
| `LzwHash.TableSizeIsPrime` | releases/usr/contrib/compress/compress.c:1393-1443 | 69001 is prime |
| `LzwHash.PrimeProduct` | releases/usr/contrib/compress/compress.c:770-775 | no product of two numbers below a prime is a multiple of it |
| `LzwHash.ProbesDiffer` | releases/usr/contrib/compress/compress.c:770-782 | the first 69001 places of a probe sequence are pairwise different |
| `LzwHash.LookupEnds` | releases/usr/contrib/compress/compress.c:773-782 | while a slot is free no search goes on for 69001 probes |
| `LzwHash.StopMeansAbsent` | releases/usr/contrib/compress/compress.c:765-782 | a search that stops at an unused slot proves the key is nowhere in the table |
| `LzwHash.StoreKeepsTable` | releases/usr/contrib/compress/compress.c:790-794 | storing at the slot where the search stopped keeps every stored key findable |
| `LzwHash.KeysAfterStore` | releases/usr/contrib/compress/compress.c:781-793 | after a store the keys are the old ones and the new one, except that key 0 is lost exactly when its slot is the one reused |
| `LzwHash.ZeroKeyCanBeLost` | releases/usr/contrib/compress/compress.c:781-793 | a concrete table in which storing a key loses key 0 |
| `LzwHash.HashTable.Find` | releases/usr/contrib/compress/compress.c:762-782 | a hit exactly when the key is in the table; otherwise a slot where it can be stored |
| `LzwHash.HashTable.Store` | releases/usr/contrib/compress/compress.c:792-793 | key and code are put in that slot, the table stays well formed |
| `LzwHash.HashTable.Clear` | releases/usr/contrib/compress/compress.c:1393-1443 | every slot becomes unused |
| `LzwEncoder.SendEntry` | releases/usr/contrib/compress/compress.c:784-793 | the decoder, one string behind, accepts the code the encoder sends and reaches the table of the encoder |
| `LzwGreedy.MissMeansNew` | releases/usr/contrib/compress/compress.c:765-782 | a key that is not in the hash table means a string that is not in the string table, but for two zeros and what is built upon them when they are there twice |
| `LzwGreedy.KnowsMore` | releases/usr/contrib/compress/compress.c:790-794 | entering a string with its key keeps this so |
| `LzwEncoder.Writer.Output` | releases/usr/contrib/compress/compress.c:854-971 | the code is appended to the codes that the bytes written stand for, through width changes and clears |
| `LzwEncoder.Writer.OutputEof` | releases/usr/contrib/compress/compress.c:955-963 | what has been written packs just the codes output |
| `LzwEncoder.Compressor.ClBlock` | releases/usr/contrib/compress/compress.c:1351-1391 | the table is cleared exactly when the ratio has not grown, and in either case the codes stand for what has been read |
| `LzwEncoder.Compressor.NoMatch` | releases/usr/contrib/compress/compress.c:783-797 | a string not in the table is sent, the longer one and its key are entered if there is room, and the encoder goes on from one character |
| `LzwEncoder.Compressor.NextChar` | releases/usr/contrib/compress/compress.c:759-797 | one character more is taken up: codes output and current string together stand for all characters read, and the codes are the longest so far |
| `LzwEncoder.Compressor.Compress` | releases/usr/contrib/compress/compress.c:714-828 | at the end the codes packed decode to the whole input, each the longest, cleared when due |
| `LzwDecoder.RefillTest` | releases/usr/contrib/compress/compress.c:1082-1105 | the three tests at the top of getcode() refill the buffer exactly when the encoder began a new group |
| `LzwDecoder.Reader.GetCode` | releases/usr/contrib/compress/compress.c:1070-1140 | the i-th call gives the i-th code, the call after the last gives -1 |
| `LzwDecoder.Decompressor.Unwind` | releases/usr/contrib/compress/compress.c:1013-1033 | the stack holds the string of the code, reversed, also for a code not in the table yet |
| `LzwDecoder.Decompressor.Expand` | releases/usr/contrib/compress/compress.c:1013-1040 | that string is written out and its first character kept |
| `LzwDecoder.TurnAgrees` | releases/usr/contrib/compress/compress.c:1042-1053 | the prefix and suffix arrays go on describing the string table when an entry is made |
| `LzwDecoder.Decompressor.Turn` | releases/usr/contrib/compress/compress.c:1013-1053 | one turn writes the string of the code and enters the next string |
| `LzwDecoder.Decompressor.Decompress` | releases/usr/contrib/compress/compress.c:980-1058 | the output is what the codes of the stream stand for |
| `MpBase.MintUnique` | releases/usr/include/mp.h:1-19 | two well formed numbers of the same value are equal, digits and length |
| `MpAdd.MAdd` | releases/usr/src/libmp/madd.c:4-37 | the digits of the sum of two magnitudes, without leading zero |
| `MpAdd.MSub` | releases/usr/src/libmp/madd.c:71-110 | the difference of two magnitudes with its sign, by complement and increment when it is negative |
| `MpAdd.Finish` | releases/usr/src/libmp/madd.c:98-110 | the borrow out of the top tells whether the digits have to be complemented, and the result is the difference |
| `MpAdd.Add` | releases/usr/src/libmp/madd.c:39-69 | the sum, for all signs |
| `MpAdd.Sub` | releases/usr/src/libmp/madd.c:111-148 | the difference as the code computes it: wrong in sign for two negative operands |
| `MpAdd.SubIsRight` | releases/usr/src/libmp/madd.c:111-148 | that is the true difference if and only if the first is not negative, the second is positive, or they are equal |
| `MpAdd.Compare` | releases/usr/src/libmp/util.c:81-90 | compares the values, except that two negative operands of the same length compare the other way round |
| `MpMult.ColumnsAreProduct` | releases/usr/src/libmp/mult.c:36-79 | the weighted sum of the columns is the product of the values |
| `MpMult.AddColumn` | releases/usr/src/libmp/mult.c:36-89 | adding up one column in two words is exact, and the carry word is at most half the number of digits |
| `MpMult.MMult` | releases/usr/src/libmp/mult.c:36-79 | the digits of the product of two magnitudes |
| `MpMult.Mult` | releases/usr/src/libmp/mult.c:4-34 | the product, for all signs; well formed unless one operand is zero and the other is not short |
| `MpDiv.ShortDiv` | releases/usr/src/libmp/mout.c:101-119 | division of a magnitude by one digit: a = n q + r and r < n |
| `MpDiv.SDiv` | releases/usr/src/libmp/mout.c:80-99 | the truncated quotient by one digit and the remainder with the sign the code gives it |
| `MpDiv.DivisionIdentity` | releases/usr/src/libmp/mdiv.c:4-21 | a = b q + r with these holds if and only if the divisor is positive or divides the dividend; with absolute values it always does, and quotient and remainder are not negative when the signs agree and not positive when they differ |
| `MpDiv.Trq` | releases/usr/src/libmp/mdiv.c:45-55 | the estimate from three digits over two is exact for these digits, or 32767 |
| `MpDiv.EstimateIsClose` | releases/usr/src/libmp/mdiv.c:45-55 | after normalisation the estimate is the true quotient digit or one more |
| `MpDiv.Dsb` | releases/usr/src/libmp/mdiv.c:23-43 | the multiple is subtracted in place, and the divisor added back just when the estimate was too big |
| `MpDiv.QuotientDigit` | releases/usr/src/libmp/mdiv.c:89-93 | after one step the remainder is below the divisor and the digit is the true one |
| `MpDiv.LongDiv` | releases/usr/src/libmp/mdiv.c:57-108 | a = q b + r and r < b, both without leading zeros |
| `MpDiv.MDiv` | releases/usr/src/libmp/mdiv.c:57-108 | the same for every length of dividend and divisor |
| `MpDiv.Div` | releases/usr/src/libmp/mdiv.c:4-21 | the truncated quotient and the remainder as the code signs it |
| `MpSqrt.NextNotBelow` | releases/usr/src/libmp/msqrt.c:22-26 | a Newton step never falls below the root |
| `MpSqrt.StopMeansRoot` | releases/usr/src/libmp/msqrt.c:27-34 | an estimate that does not decrease is not above the root |
| `MpSqrt.Sqrt` | releases/usr/src/libmp/msqrt.c:4-39 | b b <= a < (b+1)(b+1), and the rest a - b b |
| `MpGcd.Gcd` | releases/usr/src/libmp/gcd.c:4-19 | a common divisor that every common divisor divides, for all signs; not negative for operands that are not; negative exactly as the signs of the operands and the number of divisions modulo three say |
| `MpGcd.NegativeGcd` | releases/usr/src/libmp/gcd.c:4-19 | for 4 and -2 the result is -2 |
| `MpGcd.CofactorStep` | releases/usr/src/libmp/gcd.c:30-39 | one round of the loop keeps both congruences, with alternating sign, and the equation that bounds the cofactors |
| `MpGcd.Invert` | releases/usr/src/libmp/gcd.c:21-48 | for 0 < a < b: 0 < c < b and a c is the greatest common divisor modulo b |
| `MpGcd.CoprimeMeansOne` | releases/usr/src/libmp/gcd.c:21-48 | that divisor is 1 exactly when the operands are coprime, so that c is then the inverse |
| `DiffLcs.NoLonger` | releases/usr/src/cmd/diff.c:360-399 | no common subsequence is longer than Lcs |
| `DiffLcs.SomeIsAsLong` | releases/usr/src/cmd/diff.c:360-399 | one is just as long |
| `DiffLcs.CommonBeginning` | releases/usr/src/cmd/diff.c:246-261 | an equal beginning adds its length to Lcs |
| `DiffLcs.CommonEnd` | releases/usr/src/cmd/diff.c:246-261 | an equal end adds its length to Lcs |
| `DiffMatch.PruningKeepsLcs` | releases/usr/src/cmd/diff.c:246-261 | Lcs of the files is Lcs of what prune() leaves, and the two ends |
| `DiffMatch.Prune` | releases/usr/src/cmd/diff.c:246-261 | prefix and suffix are equal and longest, the middles are copied and renumbered |
| `DiffSort.Sift` | releases/usr/src/cmd/diff.c:159-175 | one insertion keeps the lines and, with step one, extends the sorted part |
| `DiffSort.Sort` | releases/usr/src/cmd/diff.c:147-177 | the lines in order of value and serial, none lost or doubled, whatever gaps the earlier passes use |
| `DiffSort.SortingKeepsLines` | releases/usr/src/cmd/diff.c:147-177 | sorted lines still hold each line of the file once with its hash |
| `DiffEquiv.Classify` | releases/usr/src/cmd/diff.c:268-278 | after the merge loop a line of the first file has the place of the first equal line of the second, or 0 |
| `DiffEquiv.Members` | releases/usr/src/cmd/diff.c:279-288 | the member list has the serials class by class, the first one negated |
| `DiffEquiv.Equiv` | releases/usr/src/cmd/diff.c:263-289 | both of these |
| `DiffEquiv.Unsort` | releases/usr/src/cmd/diff.c:179-191 | the values are put back in the order of the file |
| `DiffEquiv.ListsAreClasses` | releases/usr/src/cmd/diff.c:263-289 | from the entry of a line the list runs through exactly the equal lines of the second file, in ascending order |
| `DiffStone.PartnerStep` | releases/usr/src/cmd/diff.c:378-396 | putting one more partner of a line in its level gives the least ends of all longer common subsequences so far |
| `DiffStone.NewLevelEndsRow` | releases/usr/src/cmd/diff.c:390-393 | when a partner opened a new level the later partners of the line change nothing |
| `DiffStone.Candidates.NewCand` | releases/usr/src/cmd/diff.c:401-410 | the candidate is appended, the others stay |
| `DiffStone.Candidates.Search` | releases/usr/src/cmd/diff.c:412-431 | binary search: the level the place belongs to |
| `DiffStone.Candidates.TryPartner` | releases/usr/src/cmd/diff.c:378-396 | one turn of the inner loop keeps the row state, or ends the row |
| `DiffStone.Candidates.Row` | releases/usr/src/cmd/diff.c:371-397 | after line i every level holds the least place where a common subsequence of its length ends |
| `DiffStone.Candidates.Stone` | releases/usr/src/cmd/diff.c:360-399 | the level reached is Lcs, and its candidate leads back over that many matches |
| `DiffMatch.NoMoreMatched` | releases/usr/src/cmd/diff.c:433-443 | no matching of equal lines in order pairs more than Lcs lines |
| `DiffMatch.Unravel` | releases/usr/src/cmd/diff.c:433-443 | J is increasing, pairs only equal hashes, and pairs prefix, chain and suffix |
| `Diff.LcsOfHashes` | releases/usr/src/cmd/diff.c:237-240 | hashing does not shorten Lcs, and leaves it alone when no two different lines have the same hash |
| `Diff.Match` | releases/usr/src/cmd/diff.c:329-348 | J pairs as many lines as a longest common subsequence of the hashes has |
| `DiffOutput.Check` | releases/usr/src/cmd/diff.c:450-512 | pairs of lines that differ are taken out of J, and only these |
| `DiffOutput.ForwardTurn` | releases/usr/src/cmd/diff.c:532-539 | one turn of the forward loop: changes so far and equal lines make up both files so far |
| `DiffOutput.OutputForward` | releases/usr/src/cmd/diff.c:521-550 | the changes, read in order, rebuild the second file; their sizes are the lines not matched, and between two changes a line of either file is kept |
| `DiffOutput.BackwardTurn` | releases/usr/src/cmd/diff.c:540-548 | the same for the loop from the end |
| `DiffOutput.OutputBackward` | releases/usr/src/cmd/diff.c:540-550 | the changes of -e, applied one after the other to the lines as they then are, rebuild the second file, again with kept lines between them |
| `Diff.Diff` | releases/usr/src/cmd/diff.c:291-358 | both outputs rebuild the second file; as many lines are changed as a longest common subsequence leaves, unless hashes are confused, and never fewer; nothing is printed exactly when the files are equal |
| `Diff.OneLine` | releases/usr/src/cmd/diff.c:521-565 | one line for another is the change of line 1 to line 1 |
| `DbmPage.MakDatum` | releases/usr/src/libdbm/dbm.c:282-304 | item n of the slotted page, or none |
| `DbmPage.AddItem` | releases/usr/src/libdbm/dbm.c:422-444 | the item is appended if it fits, otherwise the page is unchanged |
| `DbmPage.MoveUp` | releases/usr/src/libdbm/dbm.c:403-409 | the bytes from low to end move up by the gap, backwards, so that none is overwritten before it is moved |
| `DbmPage.DelItem` | releases/usr/src/libdbm/dbm.c:389-420 | item n is gone, all others are unchanged |
| `DbmPage.ChkBlk` | releases/usr/src/libdbm/dbm.c:445-461 | accepts exactly the pages whose offsets descend within the page |
| `DbmPairs.CmpIsOrder` | releases/usr/src/libdbm/dbm.c:305-324 | cmpdatum() is 0 for equal items only, and antisymmetric |
| `DbmPairs.CmpChains` | releases/usr/src/libdbm/dbm.c:305-324 | and transitive |
| `DbmLeaf.FindKey` | releases/usr/src/libdbm/dbm.c:52-62 | the place of the key on the page, or that it is not there |
| `DbmLeaf.RemovePair` | releases/usr/src/libdbm/dbm.c:76-80 | key and content are gone, the other pairs as they were |
| `DbmLeaf.AddPair` | releases/usr/src/libdbm/dbm.c:106-112 | the pair is appended when both parts fit, and otherwise no pair has changed |
| `DbmLeaf.SplitPage` | releases/usr/src/libdbm/dbm.c:122-140 | each pair is on the page its next hash bit says, in the old order, none lost or doubled |
| `DbmDir.Directory.GetBit` | releases/usr/src/libdbm/dbm.c:230-252 | the bit of the directory file |
| `DbmDir.Directory.SetBit` | releases/usr/src/libdbm/dbm.c:253-270 | exactly that bit is set |
| `DbmTrie.SameLeaf` | releases/usr/src/libdbm/dbm.c:211-221 | hashes that agree in the bits used reach the same leaf |
| `DbmTrie.AddressIs` | releases/usr/src/libdbm/dbm.c:211-221 | in numbers: the page is the hash modulo two to the depth, the bit of a leaf that number less one behind it |
| `DbmTrie.PagesDiffer` | releases/usr/src/libdbm/dbm.c:211-221 | hashes that reach the same page number reach the same leaf: no page serves two |
| `DbmTrie.Split` | releases/usr/src/libdbm/dbm.c:141-146 | a split sends the hashes of the leaf to two pages by one bit more and moves no other hash |
| `DbmTrie.NewPageIsFree` | releases/usr/src/libdbm/dbm.c:143-145 | the page number a split takes was no leaf before |
| `DbmState.PageChanged` | releases/usr/src/libdbm/dbm.c:113-114 | writing the page of one leaf changes the map in the keys of that leaf only |
| `DbmState.PagesSplit` | releases/usr/src/libdbm/dbm.c:117-147 | splitting a page leaves the map as it is |
| `Dbm.Database.DbmAccess` | releases/usr/src/libdbm/dbm.c:210-229 | the page in memory is that of the leaf of the hash |
| `Dbm.Database.Fetch` | releases/usr/src/libdbm/dbm.c:44-63 | the content of the key, exactly when the key is in the map, also when the page in memory is not as on file |
| `Dbm.Database.Delete` | releases/usr/src/libdbm/dbm.c:65-85 | the key is gone from the map, everything else stays; -1 when it was not there |
| `Dbm.Database.Store` | releases/usr/src/libdbm/dbm.c:87-147 | the pair is stored if and only if it fits one page together with the pairs whose hashes agree with its own in all bits; then the key has the new content and every other key its old one, through any number of splits. Refused as too big exactly by its size; whenever it is not stored the old pair is gone from what the calls find |
| `DbmRoom.RoomOnLeaf` | releases/usr/src/libdbm/dbm.c:106-121 | a pair that fits the leaf page fits the page that no split can empty further, and on a leaf that uses all bits of the hash these are the same |
| `DbmRoom.AloneFits` | releases/usr/src/libdbm/dbm.c:106-121 | when no other key agrees in all bits, exactly the pairs below 506 bytes fit |
| `DbmRoom.NeverFits` | releases/usr/src/libdbm/dbm.c:117-121 | pairs of 506 and 507 bytes are not refused as too big and fit no page |
| `Dbm.LostPair` | releases/usr/src/libdbm/dbm.c:100-120 | a key stored, then refused with a huge content, is not found any more, and the next store to the leaf makes the loss permanent |
| `Dbm.UnfitPair` | releases/usr/src/libdbm/dbm.c:117-147 | a pair of 506 bytes in an empty database splits pages until no bit of the hash is left |
| `Dbm.Database.HashInc` | releases/usr/src/libdbm/dbm.c:349-366 | the next hash in bit-reversed order below the depth, or 0 at the end |
| `DbmWalk.FromNoneTwice` | releases/usr/src/libdbm/dbm.c:186-209 | the leaves from any hash on are passed once each |
| `DbmWalk.TrailComplete` | releases/usr/src/libdbm/dbm.c:186-209 | and every leaf of the subtree is among them |
| `DbmIterate.NextRun` | releases/usr/src/libdbm/dbm.c:349-366 | hashinc() leads from a leaf to the next one in the order, and to 0 from the last |
| `Dbm.Database.FirstHash` | releases/usr/src/libdbm/dbm.c:186-209 | the greatest key of the first leaf from a hash on that is not empty |
| `Dbm.Database.FirstKey` | releases/usr/src/libdbm/dbm.c:148-153 | the first key of all |
| `Dbm.Database.NextKey` | releases/usr/src/libdbm/dbm.c:154-184 | the key after the given one: next smaller on its leaf, or the first of the leaves behind |
| `Dbm.Traverse` | releases/usr/src/libdbm/dbm.c:148-209 | firstkey and nextkey repeated give every stored key exactly once |
| `FsckMap.BitMap.Set` | releases/usr/src/cmd/fsck.c:1225-1265 | the block is added to the set, no other changes |
| `FsckMap.BitMap.Clear` | releases/usr/src/cmd/fsck.c:1225-1265 | the block is taken from the set |
| `FsckClaims.AfterPass1` | releases/usr/src/cmd/fsck.c:618-664 | counting all claims: a block is in the first part of the table exactly when it is claimed twice, an inode is marked for a bad or already claimed block |
| `FsckClaims.AfterPass1b` | releases/usr/src/cmd/fsck.c:667-683 | the second scan takes out of the first part the blocks it meets and marks their claimants |
| `FsckClaims.AfterPass4` | releases/usr/src/cmd/fsck.c:734-751 | clearing takes away just the claims of the inode |
| `FsckDup.OneMoreDup` | releases/usr/src/cmd/fsck.c:647-656 | one more entry in the table is one more claim |
| `FsckDup.Fewer` | releases/usr/src/cmd/fsck.c:742-746 | one entry less is one claim less |
| `FsckDup.LastClaim` | releases/usr/src/cmd/fsck.c:747-748 | when none is left in the table the bit goes |
| `FsckDup.DupTable.Add` | releases/usr/src/cmd/fsck.c:641-656 | the block is put in the first part unless it is there, otherwise at the end |
| `FsckDup.DupTable.PassOver` | releases/usr/src/cmd/fsck.c:674-681 | the block is moved out of the first part if it is there |
| `FsckClaims.FurtherClaims` | releases/usr/src/cmd/fsck.c:641-656 | the entries of the table are as many as the claims that are not the first on their block |
| `FsckPass.Checker.Pass1` | releases/usr/src/cmd/fsck.c:618-664 | bit, table and count of blocks follow the claims; it stops exactly when this block brings the bad or claimed blocks of the inode, or the table, to their limit |
| `FsckPass.Checker.Pass1b` | releases/usr/src/cmd/fsck.c:667-683 | the same for the second scan, which stops when nothing is left to look for |
| `FsckPass.Checker.Pass4` | releases/usr/src/cmd/fsck.c:734-751 | one claim less, in table or bit map |
| `FsckPass.Checker.Iblock` | releases/usr/src/cmd/fsck.c:581-615 | an indirect block visits its entries from the last level, itself first, up to a stop |
| `FsckPass.Checker.CkInode` | releases/usr/src/cmd/fsck.c:555-578 | all direct blocks and indirect trees of an inode are visited in order |
| `FsckPlaces.InodePlaced` | releases/usr/src/cmd/fsck.c:555-615 | the blocks visited are those at the ten direct addresses and on all paths through one, two and three levels of valid indirect blocks of 128 entries, these included, each place once |
| `FsckPlaces.ClaimsOfPlaces` | releases/usr/src/cmd/fsck.c:555-615 | a valid block is claimed as often as there are places that refer to it |
| `FsckPlaces.BadsOfPlaces` | releases/usr/src/cmd/fsck.c:622-630 | and the bad blocks counted are as many as the places that refer to an invalid one |
| `FsckPlaces.ClaimedTwice` | releases/usr/src/cmd/fsck.c:632-656 | a block is multiply claimed if and only if two places, of one inode or of two, refer to it |
| `FsckPhase.Phase1` | releases/usr/src/cmd/fsck.c:321-361 | no limit is reached exactly when every inode has fewer than ten bad and fewer than ten claimed blocks and the table has room for all further claims; then bit map and table count the claims of all inodes |
| `FsckPhase.Phase1b` | releases/usr/src/cmd/fsck.c:364-372 | every inode that claims a bad or multiply claimed block is marked, and no other |
| `FsckPhase.CondemnedByPlaces` | releases/usr/src/cmd/fsck.c:618-683 | an inode is condemned if and only if it has a place that refers to an invalid block or to one that another place refers to as well |
| `FsckPhase.Clri` | releases/usr/src/cmd/fsck.c:893-911 | clearing any inode leaves the tables counting the claims of those not cleared |
| `FsckPhase.LiveWithout` | releases/usr/src/cmd/fsck.c:893-911 | the claims of those not cleared shrink by just the claims of the inode |
| `FsckPhase.Phase2` | releases/usr/src/cmd/fsck.c:392-416 | a root that is there is kept, condemned or not; the only other outcome is that it is not allocated |
| `FsckPhase.Phase4` | releases/usr/src/cmd/fsck.c:447-468 | after it the tables count the claims of the inodes left: the condemned ones but for the root, and those without good references, are cleared |
| `FsckPhase.OneClaimEach` | releases/usr/src/cmd/fsck.c:392-468 | a block claimed twice is left to just the inodes kept in any case, number 1 and the root; so a block ends up claimed twice if and only if these claim it twice |
| `FsckPhase.LeftByPlaces` | releases/usr/src/cmd/fsck.c:447-468 | a block is in use at the end if and only if it is valid and an inode that is left has a place that refers to it |
| `FsckPhase.RootMayKeepDuplicate` | releases/usr/src/cmd/fsck.c:410-415 | a volume whose root has a block twice: it is condemned, and at the end the block is still claimed twice |
| `FsckPhase.CheckBlocks` | releases/usr/src/cmd/fsck.c:307-468 | at the end the bit map is the set of valid blocks that places of the inodes left refer to and n_blks its size; the table is empty if and only if inode 1 and the root claim no block twice, and if and only if each block has one owner; all this exactly when no limit is reached and there is a root |
| `FreeList.Pushed` | releases/usr/src/cmd/fsck.c:1483-1484 | a block entered in the list block heads the list |
| `FreeList.Spilled` | releases/usr/src/cmd/fsck.c:1477-1484 | a full list block written to the block freed goes on being the list |
| `FreeList.OneList` | releases/usr/src/cmd/fsck.c:1407-1427 | a disk and a list block hold at most one list |
| `FreeList.SmallList` | releases/usr/src/cmd/fsck.c:1407-1427 | an example of such a list: the entries from the last to number 1, then the block of entry 0 and what it holds |
| `FsckFree.FreeCheck.Pass5` | releases/usr/src/cmd/fsck.c:754-781 | the block is counted once, a bad or second one spoils the list |
| `FsckFree.FreeCheck.FreeChk` | releases/usr/src/cmd/fsck.c:1407-1427 | accepts exactly the lists of good blocks, none in use or listed twice, and counts them; it always ends |
| `FsckSalvage.Spacing` | releases/usr/src/cmd/fsck.c:1460-1468 | for every step and cylinder size the spacing is a permutation of the cylinder, each address the first free one, going round, from a step behind the one before; the search ends |
| `FsckSalvage.MakeFree` | releases/usr/src/cmd/fsck.c:1430-1491 | the list holds each block that is not in use exactly once, and no other, in the order of the cylinders and interleaved in each, by the spacing asked for if it makes sense and 9 in 400 otherwise |
| `FsckSalvage.SalvageAndCheck` | releases/usr/src/cmd/fsck.c:481-512 | the list made passes the check, and blocks used and free add up to the volume |
| `RestorDisk.Cache.Write` | releases/usr/src/cmd/restor.c:715-738 | through the cache the device changes in that block only |
| `RestorDisk.Cache.Read` | releases/usr/src/cmd/restor.c:741-770 | what is read is what was last written |
| `RestorFree.Store.Balloc` | releases/usr/src/cmd/restor.c:878-905 | the head of the free list is taken and cleared; none only when the list is empty |
| `RestorFree.Store.Bfree` | releases/usr/src/cmd/restor.c:859-873 | the block becomes the head of the list, through the spill of a full one: with balloc() a stack |
| `RestorFile.PlacesDiffer` | releases/usr/src/cmd/restor.c:912-973 | different blocks of a file have different entries |
| `RestorFile.PathDigit` | releases/usr/src/cmd/restor.c:960-963 | the shift and mask of bmap() are the digits of the place |
| `RestorFile.LocateWithin` | releases/usr/src/cmd/restor.c:936-948 | a block has a place exactly below the greatest size |
| `RestorRead.FoundOnDevice` | releases/usr/src/cmd/restor.c:912-973 | the address of each logical block is the one found by following the inode and the indirect blocks on the device: ten direct, 128 through one block, 16384 through two, 2097152 through three |
| `Restor.FindLevel` | releases/usr/src/cmd/restor.c:936-948 | the level of indirection and the offset in it |
| `RestorGrow.RootPut` | releases/usr/src/cmd/restor.c:953-955 | a new block in the inode keeps all blocks of file and free list distinct and none lost |
| `RestorGrow.EntryPut` | releases/usr/src/cmd/restor.c:960-971 | the same for a new entry of an indirect block |
| `RestorGrow.FileLeavesDiffer` | releases/usr/src/cmd/restor.c:912-973 | no two blocks of a file share a block of the device |
| `RestorTree.PutWalk` | releases/usr/src/cmd/restor.c:960-971 | putting a subtree at a path changes just the walks that go through it |
| `Restor.Bmap` | releases/usr/src/cmd/restor.c:912-973 | the block asked for gets a place, every other one keeps its own, and no data is changed; a direct block asked for again is lost to file and free list; 0 exactly beyond the greatest size; it fails only without free blocks |
| `Restor.RstrFile` | releases/usr/src/cmd/restor.c:1064-1073 | the next block is written and the earlier ones are as they were; beyond the greatest size it is block 0 of the device that is written |
| `Restor.RestoreFile` | releases/usr/src/cmd/restor.c:1064-1080 | after the tape each block is found on the device with its bytes, and no block for each hole; block 0 is as before unless the tape is longer than the greatest file; it fails only without free blocks |
| `RestorTrunc.Tloop` | releases/usr/src/cmd/restor.c:834-857 | a tree of indirect blocks is freed from its end, each block once, the indirect ones after their entries |
| `RestorTrunc.Itrunc` | releases/usr/src/cmd/restor.c:796-832 | exactly the blocks of the file go back to the free list |
| `SortPart.Partition` | releases/usr/src/cmd/sort.c:841-901 | lines like the pivot in the middle, smaller ones before, greater ones behind, all of them still there |
| `SortPart.FromBehind` | releases/usr/src/cmd/sort.c:860-881 | the loop from behind keeps the partition and always makes progress |
| `SortPart.MoveUp` | releases/usr/src/cmd/sort.c:868-873 | rotating a smaller line past the pivot lines keeps the partition |
| `SortPart.MoveDown` | releases/usr/src/cmd/sort.c:898-900 | the same for a greater one |
| `SortQuick.QSort` | releases/usr/src/cmd/sort.c:821-902 | a permutation in order, for any comparison that is a total preorder; under -u the lines emptied are those with a like line before them; 2^d lines take at most d calls within one another |
| `SortQuick.HalfFits` | releases/usr/src/cmd/sort.c:887-893 | the part sorted by a call is at most half |
| `SortQuick.OneIsKept` | releases/usr/src/cmd/sort.c:885-886 | under -u every line has exactly one kept line like it |
| `SortQuick.KeptAreApart` | releases/usr/src/cmd/sort.c:885-886 | and the lines kept are in strict order |
| `Tsort.Graph.Index` | releases/usr/src/cmd/tsort.c:115-133 | the node of that name, appended if there is none |
| `Tsort.Graph.Read` | releases/usr/src/cmd/tsort.c:53-70 | the graph of the words: each item once in order of appearance, an edge for each pair of different items; false exactly for odd data |
| `Tsort.WalkedRound` | releases/usr/src/cmd/tsort.c:163-197 | a walk over first living predecessors that comes back to its path has gone round a cycle |
| `Tsort.Graph.FindLoop` | releases/usr/src/cmd/tsort.c:163-197 | when no living node is free of living predecessors the nodes noted are a cycle of living nodes, the result is its first, all marks are as before, and neither error is reached |
| `TsortMain.Sweep` | releases/usr/src/cmd/tsort.c:72-80 | finds a living node without living predecessor, or that there is none |
| `TsortMain.Order` | releases/usr/src/cmd/tsort.c:71-84 | every node is printed once, after its predecessors unless it was taken from a cycle; when it is printed all nodes before it in the list, and if it was taken from a cycle all nodes left, have a predecessor left |
| `TsortMain.TopologicalSort` | releases/usr/src/cmd/tsort.c:38-84 | every item once, the first one possible each time, and every given pair respected unless its second item was chosen to break a cycle it is on, which is done only when no item is free; None exactly for odd data |
| `TsortMain.AcyclicIsRespected` | releases/usr/src/cmd/tsort.c:71-84 | without a cycle findloop() is never called and all pairs are respected |
| `TsortMain.OnePair` | releases/usr/src/cmd/tsort.c:38-84 | from b b a b come a and b |
| `GrepPattern.MapHas` | releases/usr/src/cmd/grep.c:206-215 | the sixteen bytes of a class have the bits of its characters |
| `GrepPattern.MapIsUnique` | releases/usr/src/cmd/grep.c:206-220 | no other bytes have |
| `GrepCompile.Bracket` | releases/usr/src/cmd/grep.c:196-224 | the map is that of the class as written, with its ranges, negated if asked, and never with NUL |
| `GrepCompile.Compiler.Compile` | releases/usr/src/cmd/grep.c:147-262 | refuses exactly malformed and too long patterns, and otherwise leaves the code of the items the pattern is made of |
| `GrepPattern.ParsedEndIsLast` | releases/usr/src/cmd/grep.c:190-194 | a dollar sign means the end of a line at the end of the pattern only |
| `GrepMatch.WordIsMatch` | releases/usr/src/cmd/grep.c:326-439 | where a word of the language stands the items match |
| `GrepMatch.MatchIsWord` | releases/usr/src/cmd/grep.c:326-439 | where the items match a word of the language stands |
| `GrepMatch.Advance` | releases/usr/src/cmd/grep.c:326-439 | true exactly when the items match from there, over all ways to divide the line among the starred ones; it ends |
| `GrepMatch.Back` | releases/usr/src/cmd/grep.c:414-434 | trying from the longest stretch back, only where the next character asked for stands, misses no match |
| `GrepMatch.Execute` | releases/usr/src/cmd/grep.c:292-323 | found exactly when some piece of the line, at its ends where the pattern asks for it, is in the language, with the quick check for the first character |
| `GrepMatch.Grep` | releases/usr/src/cmd/grep.c:147-323 | compile and search together |
| `GrepWritten.WrittenIsRead` | releases/usr/src/cmd/grep.c:147-262 | a pattern written with characters, dots, classes of single characters and ranges with or without a caret, stars and the marks for begin and end is read as it was meant |
| `GrepWritten.GrepFor` | releases/usr/src/cmd/grep.c:147-323 | grep finds exactly the lines that contain what was meant; it refuses such a pattern only for its length |
| `GrepWritten.FaultyIsRefused` | releases/usr/src/cmd/grep.c:196-250 | a backslash with a closing parenthesis or a digit, and a class that is not closed, are refused wherever they stand |
| `GrepQuoted.QuotedFinds` | releases/usr/src/cmd/grep.c:226-257 | a string with its special characters quoted is found in exactly the lines it is a part of |
| `Icint.OwnersDiffer` | bcplkit-0.9.7/src/icint.c:141-154 | no two items store into the same word |
| `IcintAsm.Assembler.Stc` | bcplkit-0.9.7/src/icint.c:148-154 | a character goes into the word begun, or begins the next |
| `IcintAsm.Assembler.LabRef` | bcplkit-0.9.7/src/icint.c:189-195 | the address of a label that is set, and otherwise the head of its chain, is added to the word |
| `IcintAsm.Assembler.SetLab` | bcplkit-0.9.7/src/icint.c:176-187 | exactly the words of the chain get the address |
| `IcintChain.UnknownKept` | bcplkit-0.9.7/src/icint.c:189-195 | a reference to a label not set lengthens its chain, which stays free of cycles and apart from the others |
| `IcintChain.KnownKept` | bcplkit-0.9.7/src/icint.c:189-195 | a reference to a label that is set is resolved |
| `IcintChain.LabelSetKept` | bcplkit-0.9.7/src/icint.c:176-187 | setting a label resolves the references that waited, and disturbs no other word or chain |
| `IcintChain.CharacterKept` | bcplkit-0.9.7/src/icint.c:148-154 | packing characters disturbs no reference |
| `IcintChain.ClearKept` | bcplkit-0.9.7/src/icint.c:117-119 | Z ends all chains |
| `IcintAsm.Assembler.Assemble` | bcplkit-0.9.7/src/icint.c:62-195 | behind the three words that main() stores, at the end every word that refers to a label holds the address the two-pass meaning gives it, every other word what its item says; the fetch of the interpreter finds each instruction with its letters and address, and getbyte() each character |
| `IcintRead.InstructionFetched` | bcplkit-0.9.7/src/icint.c:124-140 | the word of an instruction is taken apart by the fetch, in the numbers of the source, into function, letters, operand and the place of the next one |
| `IcintRead.CharacterRead` | bcplkit-0.9.7/src/icint.c:148-154 | character k of a string is byte k from the top, four to a word, when the characters of its word are bytes |
| `IcintRead.StartIs` | bcplkit-0.9.7/src/icint.c:28-30 | the three words of main() are LIG1, K2 and X22 |
| `IcintAsm.SetOnce` | bcplkit-0.9.7/src/icint.c:62-154 | a label set once, before or behind, is the address of all references to it |

## Left out

* All input and output, options, statistics and messages; files are sequences, a disk is a map from block number to block.
* compress: reduced hash sizes, the machine-dependent variants, and the overlay of its tables; the globals free_ent and clear_flg are passed as parameters; clearing follows the compression ratio as in the code, and the results do not depend on it.
- LzwRoundTrip.UncompressFile: a stream that packs no sequence of codes that may follow one another, as a damaged file may, or a header with a limit below nine bits, is not considered: the code would follow table entries it has not made.
- LzwBits.ExtractCode: does not read the byte behind the code that getcode() fetches without using it.
* libmp: number input and output, allocation, and other machines than the 16-bit one with high word first.
- MpMult.MMult: operands have less than 2^15 digits, as the length of a number is a 16-bit word; a zero length is the value 0 where the code reads before the digits.
- MpDiv.ShortDiv: a dividend of no digits is the value 0, where the code reads before the digits.
* diff: the option -b, reading and hashing of lines (any hash that is never 0), the overlay of its arrays, byte offsets, and the text of an editor script; the middle that prune() leaves is copied where the code points into the file.
- DiffSort.Sort: for an empty array the gap is not initialised in the code; it is arbitrary in the model.
* dbm: the tables of the hash function (any function will do); data returned are values, not pointers into the page buffer; a database starts from empty files.
- Dbm.Database.Store: a split with no hash bit left (31 in the model) is the outcome OutOfBits, where the code would loop.
- Dbm.Database.FirstKey: stated, as is NextKey, for a database whose page in memory is as on file; after a store that failed this holds again once another page has been read or this one written.
- DbmPage.ChkBlk: a page whose count word does not fit the page is not considered; the code would read offsets from behind it.
* fsck: replies other than yes, path names, link counts and lost+found, the buffer pool, read errors, the two-bit packing of inode states; the device does not change between passes; which inodes phase 4 clears because of their references is a parameter.
- FsckPhase.Phase1: once a limit is reached only the claims counted until then are known to agree with the tables, and the later phases are not followed.
* restor: tape format, headers, directories and inodes; running out of space is the outcome None or false, where the program exits.
- Restor.Bmap: blocks are typed as data, addresses or free list, not raw bytes.
* sort: merging, keys and comparison options; a line is named by its pointer, and the comparison is one of the pointers' contents before any line is emptied, which is sound because no emptied line lies in a part still to be sorted.
* tsort: words longer than its buffers.
* grep: sub-expressions and back-references, the options, and reading of lines.
- GrepPattern.Parse: a pattern with a sub-expression, a backslash at its end, or a class that ends after a dash, where compile() reads behind the pattern, is outside the model.
- GrepCompile.Compiler.Compile: the code grows as a sequence; the one byte compile() may store behind its buffer is always followed by the error.
* icint: the text of the items (rch and rdn), and the interpreter.
- IcintAsm.Assembler.Assemble: numbers are taken to fit in a word; only the sums of packed characters wrap at 32 bits.
