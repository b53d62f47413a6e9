# Verified model of the ledger node

A Dafny 4.11 model of a small peer-to-peer ledger node: its Bech32 and segwit address codec, its word
packing, its transaction selection and block heights, its Merkle roots, Bloom filters and set
reconciliation, its transaction witnesses, its task queues and connection manager, and the flooding of
text messages. `dafny verify dfyconfig.toml` checks everything.

## How the model is laid out

| file | contents |
|---|---|
| `Polymod.dfy` | the Bech32 checksum register on 32-bit words: linearity, bijectivity, bursts, field structure |
| `Bech32.dfy`, `Bech32Loops.dfy` | encoder and decoder as functions with their theorems, and the loops of the source proved against them |
| `Acceptance.dfy`, `TestVectors.dfy` | exactly what the two accept, in plain terms; the published string with all 32 data characters |
| `Orbit.dfy`, `SymbolErrors.dfy` | where a symbol gets to in 88 steps, up to scaling in GF(32); three wrong symbols at any distance |
| `Radix.dfy`, `ConvertBits.dfy` | unbounded numerals, and `convert_bits` with its 32-bit accumulator |
| `Segwit.dfy`, `BytesToBech32.dfy` | segwit addresses, and the node's own little-endian regrouping |
| `ByteOrder.dfy` | the order of byte vectors, sorting, ordered sets |
| `Ledger.dfy`, `Heights.dfy`, `BlockChain.dfy` | the greedy selection, the heights of blocks, and the class that computes both |
| `Merkle.dfy`, `Bloom.dfy`, `Reconcile.dfy` | `hash_vec`, the Bloom filter and its wire form, `SetReconsiler` and the REQ_SET reply |
| `Witness.dfy` | creating and processing transactions, the transaction constructor |
| `TaskQueue.dfy`, `Manager.dfy` | the delayed priority queue and its runs, the connection manager and its runs |
| `Gossip.dfy` | flooding: one server, the network, all runs |
| `Bits.dfy`, `WordPacking.dfy` | bits in bytes, word lists, the keystream |
| `Common.dfy` | `Option`, distinctness |

Conventions. Integers are unbounded and every truncation of the source is written out: the 32-bit
accumulator of `convert_bits`, `size_t` in the decoder, `uint8_t` stores, `int` amounts, `to_uint` on 64
bits. `char` is signed. Hash functions, signatures, serialisers, the clock, shuffles and readable
messages are parameters. A theorem about hashes ends in "or two of the inputs hashed on the way
collide", where the inputs are those of the two computations at hand; no hash is assumed injective.
Output buffers of the C functions are out-parameters that grow.

## Where the code and its promises differ

- `bech32_encode` has no length limit, `bech32_decode` has one of 90 (src/segwit_addr.cc:58 and 87), so
  `DecodeUndoesEncode` needs the limit; it states exactly when the round trip holds. `LimitExample` is a string
  of 91 characters that is encoded and not decoded.
- `bech32_decode` on a string without a separator computes a wrapped length and then rejects the string
  at its NUL at the latest (src/segwit_addr.cc:94-103); `BechDecode` follows the wrapped value.
- On a string without a separator `bech32_decode` writes to the buffer for the human readable part until it
  meets a character outside 33 to 126, the NUL at the latest. Its header asks for `strlen(input) - 6` cells
  (inc/segwit_addr.h:85) and `segwit_addr_decode` has 84 (src/segwit_addr.cc:174). `HrpOverrun` and
  `HrpOverrun84` say exactly on which strings that is not enough, `OverrunExample` is one.
- `segwit_addr_encode` stores a negative version in one byte. `EncodesIff` says which versions get an address,
  `NegativeVersion` what the address of a negative one decodes to, if anything; by `AddrRoundTrip` it is never
  what went in. `NegativeVersionExample` is such an address.
- `Bloom::bytes` clears the last eight bits when the size is a multiple of eight
  (inc/bloom_filter.h:79); `WireRoundTrip` gives the exact condition, `LostByteExample` an input. All callers
  use 4999.
- The data constructor of `Bloom` does not compare the size with the data (inc/bloom_filter.h:18-32), and in the
  REQ_SET case both come from the peer (bin/p2p.cc:789-796). `FromData` and `ReplySet` say when it reads past the
  end: exactly if the size is more than eight times the number of bytes.
- `Bytes(std::bitset<N>&)` makes too few bytes to read back unless N is 0 or 7 modulo 8
  (inc/type.h:29); `PackUnpack` gives the exact condition, `ShortBytesExample` an input. The program uses 264.
- `Bytes::bitset<N>` does not compare N with its bytes (inc/type.h:58-79), and worddec applies it to a message from
  the command line (bin/worddec.cc:48). `BitsetOfBytes` reads past the end exactly if there are fewer than
  ceil(N / 8) bytes, 33 for worddec.
- The guard of the `pttp::Transaction` constructor compares with the number of credits, not of
  witnesses (bin/p2p.cc:189); `Construct` proves that it never fires and says when the list of
  witnesses is read past its end; `RunsOutExample` is such a transaction.
- `mark_blocks` leaves its outer loop at the first block already known to be lost (bin/p2p.cc:368-369).
  `EarlyStopIff` says when that happens and `AllMarkedIff` when every block gets its height all the same;
  `EarlyStopLeavesZero` is a map on which a rooted block keeps height 0.
- `mark_blocks` does not end if a walk before that point runs into a cycle (`EndlessWalk`, `WalkGoesOn`); it
  does end in all other cases (`MarkBlocks`), also with a cycle behind the early stop (`CycleAfterStop`).
- wordenc writes past the end of its bit set at a 25th listed word (bin/wordenc.cc:45-48), worddec reads past
  the word list at an index it does not have (bin/worddec.cc:57); `EncodeWords` and `DecodeWords` say when,
  `WordTooMany` and `IndexTooLarge` are inputs.
- EXPAND_CONNECTION does not advance past a chosen address (bin/p2p.cc:660-679): the first new one is chosen for
  every connection wanted. `TargetsDistinctIff` says when the chosen addresses are different all the same,
  `ConnectsTwice` is a list where they are not. With no new address it connects to the last one listed, even
  its own; `TargetsFreshIff` says when all chosen addresses are new, `ConnectsToItself` is such a list.

## Model

| member | source | states |
|---|---|---|
| Polymod.StepLinear | src/segwit_addr.cc:27-35 | the checksum step distributes over exclusive or, on all 32-bit words |
| Polymod.StepInjective | src/segwit_addr.cc:27-35 | the step is injective, so bijective, on 30-bit states |
| Polymod.StepFieldLinear | src/segwit_addr.cc:27-35 | the step commutes with multiplying every 5-bit symbol in GF(32): the five constants are one set of coefficients |
| Polymod.StepGenerator | src/segwit_addr.cc:27-35 | those coefficients are the generator polynomial of BIP 173, section "Bech32" |
| Polymod.RunInjective | src/segwit_addr.cc:115-126 | two different states stay different under the same symbols, at any length |
| Polymod.RunSix | src/segwit_addr.cc:70-76 | six symbols fed to any state are six bare steps with the packed symbols added |
| Polymod.ChecksumUnique | src/segwit_addr.cc:70-76 | exactly one group of six symbols drives the register to 1: the one the encoder appends |
| Polymod.BurstDetected | src/segwit_addr.cc:111-135 | equal-length symbol sequences that reach the same state and differ only within six consecutive positions are equal |
| Bech32.CharsetFacts | src/segwit_addr.cc:37-48 | the reverse table inverts the character table, whose characters are neither the separator nor upper case |
| Bech32.CharsetRevFacts | src/segwit_addr.cc:39-48 | every character with a reverse entry is a table character in one of its two cases |
| Acceptance.EncodableIff | src/segwit_addr.cc:50-79 | encoding fails exactly for a character from 0 to 31 or a symbol outside 0 to 31; otherwise the text is the human readable part, the separator, the symbols in order and six more |
| Bech32.ChecksumCloses | src/segwit_addr.cc:111-135 | data and six more symbols pass the decoder's test exactly if the six are the encoder's checksum |
| Bech32.DecodeOfEncode | src/segwit_addr.cc:50-136 | encoding then decoding returns the human readable part and data, for legal input of at most 90 characters |
| Bech32.DecodeUndoesEncode | src/segwit_addr.cc:50-136 | the round trip holds if and only if the input is legal: nonempty human readable part of characters 33 to 126 without upper case, 5-bit data, length limit |
| Bech32.DecodedShape | src/segwit_addr.cc:81-136 | whatever the decoder returns is legal and accounts for the whole length of the string |
| Bech32.DecodeIsCanonical | src/segwit_addr.cc:81-136 | every accepted string re-encodes to its own lower case form |
| Bech32.AcceptedStringsAgree | src/segwit_addr.cc:81-136 | accepted strings with the same content differ in letter case only |
| Acceptance.AcceptedIff | src/segwit_addr.cc:81-136 | exactly which strings decode to a given content: at most 90 characters, not of mixed case, a nonempty legal human readable part, and in lower case the encoding of that content |
| Bech32.AcceptedBurst | src/segwit_addr.cc:81-136 | accepted strings that differ within six consecutive positions after a common separator are the same, so single errors and adjacent swaps are caught |
| Bech32.HrpCellIs | src/segwit_addr.cc:94-112 | each cell written for the human readable part, accepted or not, is the lower case of its character, or the NUL in place of the separator |
| Bech32.TestVector | src/segwit_addr.cc:81-136 | the first valid string of the section "Test vectors" of BIP 173 decodes as published |
| TestVectors.AllCharacters | src/segwit_addr.cc:37-136 | the valid string of BIP 173 that holds all 32 data characters decodes to the symbols 0 to 31 in order, and they encode to it: this fixes both character tables |
| Bech32.LimitExample | src/segwit_addr.cc:58 | 84 letters and no data are encoded in 91 characters, which are not decoded |
| Bech32.HrpOverrun | inc/segwit_addr.h:85 | the decoder writes more than the `strlen(input) - 6` cells it asks for if and only if the string has 8 to 90 characters, no separator, and only characters from 33 to 126 before its last five |
| Bech32.HrpOverrun84 | src/segwit_addr.cc:174-176 | 84 cells are not enough if and only if a string of 85 to 90 characters has no separator and begins with 85 characters from 33 to 126 |
| Bech32.OverrunExample | src/segwit_addr.cc:94-111 | 85 letters: rejected, after 85 cells were written |
| Orbit.KeyOfSteps | src/segwit_addr.cc:27-35 | where a nonzero symbol gets to in n steps is, up to scaling, the same for every symbol |
| Orbit.PlaceTellsSteps | src/segwit_addr.cc:27-35 | in 88 steps it is never in the same place twice: the number of steps can be read off |
| SymbolErrors.MovedSymbolsApart | src/segwit_addr.cc:27-35 | symbols moved by two different numbers of steps up to 88 never add up to a symbol |
| SymbolErrors.ThreeErrorsDetected | src/segwit_addr.cc:111-135 | equal-length symbol sequences that reach the same state and differ in at most three positions no more than 88 apart are equal |
| SymbolErrors.AcceptedThreeErrors | src/segwit_addr.cc:81-136 | accepted strings that differ in at most three characters after a common separator, however far apart, are the same |
| SymbolErrors.OneHrpError | src/segwit_addr.cc:99-118 | two human readable parts of one length up to 87 that differ in one character and lead to the same state with the same data are equal |
| SymbolErrors.AcceptedOneError | src/segwit_addr.cc:81-136 | accepted strings with a common separator that differ in at most one character, wherever it is, are the same |
| Bech32Loops.BechEncode | src/segwit_addr.cc:50-79 | the encoder's five loops write the specified string and its NUL, and fail exactly where specified |
| Bech32Loops.ReadHrp | src/segwit_addr.cc:99-112 | the loop over the human readable part, with all it wrote, including the run into the NUL |
| Bech32Loops.ReadData | src/segwit_addr.cc:119-131 | the loop over the data part: symbols, case flags, register, and six symbols held back |
| Bech32Loops.BechDecode | src/segwit_addr.cc:81-136 | the decoder with its wrapped length accepts and returns exactly as specified; the cells written for the human readable part are those specified, accepted or not, and the data cells never exceed `strlen(input) - 8` |
| ConvertBits.Convert | src/segwit_addr.cc:138-158 | the 32-bit loops compute the digits of the unbounded integer, padded or rejected as specified, and bound the group count |
| ConvertBits.InvRead | src/segwit_addr.cc:142-144 | reading a group keeps the truncated accumulator equal to the unbounded value modulo 2^32 |
| ConvertBits.InvWrite | src/segwit_addr.cc:145-148 | a group written from the truncated accumulator is the digit of the unbounded value |
| ConvertBits.InvEnd | src/segwit_addr.cc:150-157 | the final branch pads, accepts or rejects as the unbounded value demands |
| ConvertBits.PadThenUnpad | src/segwit_addr.cc:138-158 | bytes to ceil(8n/5) padded groups and back is the identity |
| ConvertBits.UnpadThenPad | src/segwit_addr.cc:154-156 | groups accepted without padding are the padded image of the bytes returned |
| ConvertBits.UnpadAcceptsPaddedOnly | src/segwit_addr.cc:154-156 | groups are accepted without padding if and only if they are padded bytes |
| ConvertBits.PadKeepsBits | src/segwit_addr.cc:138-153 | with padding, for any two widths: read most significant bit first, the groups written are the bits read followed by less than one group of zeros |
| ConvertBits.NoPadAcceptsIff | src/segwit_addr.cc:154-156 | without padding, for any two widths: accepted exactly if the bits left over are fewer than one input group and all zero |
| ConvertBits.NoPadKeepsBits | src/segwit_addr.cc:138-158 | without padding the groups written are the bits read without those left over |
| Segwit.AddrRoundTrip | src/segwit_addr.cc:160-186 | encode then decode returns version and program if and only if the arguments are legal |
| Segwit.AddrRoundTripIff | src/segwit_addr.cc:160-186 | the round trip for arbitrary arguments holds exactly for versions 0 to 16, programs of 2 to 40 bytes, 20 or 32 for version 0, a nonempty lower case human readable part, and at most 90 characters in all |
| Segwit.LegalDecodes | src/segwit_addr.cc:160-186 | legal arguments encode, and decode to themselves |
| Segwit.DecodedIsLegal | src/segwit_addr.cc:172-186 | an accepted address holds a legal version and program under the expected human readable part |
| Segwit.AddrCanonical | src/segwit_addr.cc:172-186 | every accepted address re-encodes to its lower case form |
| Segwit.AddrUnique | src/segwit_addr.cc:172-186 | accepted addresses with the same content differ in letter case only |
| Segwit.StrNEqualIsEqual | src/segwit_addr.cc:178 | comparing 84 characters is comparing the whole strings |
| Segwit.PaddedKeepsBits | src/segwit_addr.cc:167 | the symbols of a program are its bits from the top of each byte, with zeros at the end |
| Segwit.EncodesIff | src/segwit_addr.cc:160-170 | which arguments get an address: program lengths 2 to 40, 20 or 32 for version 0, no version above 16, a negative one exactly if its low byte is below 32, no character from 0 to 31 |
| Segwit.NegativeVersion | src/segwit_addr.cc:166 | the address of a negative version decodes to its low byte if that is legal, otherwise not at all |
| Segwit.NegativeVersionExample | src/segwit_addr.cc:163-166 | version -256 with two program bytes gets an address that does not decode |
| Segwit.SegwitEncode | src/segwit_addr.cc:160-170 | the function writes the specified address, at most 73 characters more than the human readable part, and never more than 65 groups |
| Segwit.SegwitDecode | src/segwit_addr.cc:172-186 | the function decodes as specified; accepted or not it writes at most 40 program bytes and 82 data cells, and overruns its 84 cells for the human readable part exactly on the strings of `HrpOverrun84` |
| BytesToBech32.Regroup5 | inc/convert.h:104-122 | the loop emits the ceil(8n/5) low base-32 digits of the little-endian value of the bytes |
| BytesToBech32.PendingBound | inc/convert.h:109-121 | the accumulator of that loop stays below 2^13 |
| BytesToBech32.FiveBitsEncodable | inc/convert.h:116-117 | every digit is accepted by the encoder |
| BytesToBech32.FiveBitsKeepBits | inc/convert.h:104-122 | the symbols are the bits of the bytes from the bottom of each byte, with zeros at the end |
| BytesToBech32.ToBech32 | inc/convert.h:101-130 | for a valid prefix the buffer is filled exactly with the Bech32 string of the prefix and those symbols, and its NUL |
| BytesToBech32.FiveBitsInjective | inc/convert.h:104-122 | different byte strings of any lengths get different digits |
| BytesToBech32.TextInjective | inc/convert.h:101-130 | for one valid prefix different byte strings get different texts |
| ByteOrder.LessIff | bin/p2p.cc:97 | one byte vector comes before another exactly if it is a proper prefix or smaller at the first difference |
| ByteOrder.SortCanonical | bin/p2p.cc:97 | sorting depends on the contents only and leaves an ascending list alone |
| ByteOrder.EnumerateLast | bin/p2p.cc:285 | a new greatest element comes last in the iteration over an ordered set |
| Ledger.AcceptableKeepsNonnegative | bin/p2p.cc:330-348 | applying an accepted transaction overdraws no account |
| Ledger.UniquenessIsNeeded | bin/p2p.cc:333-336 | without unique keys two debits can each be covered and overdraw together |
| Ledger.AcceptableIff | bin/p2p.cc:330-348 | from nonnegative balances a transaction is accepted if and only if no account occurs twice and no balance is negative afterwards; credits to new accounts are no obstacle |
| Ledger.NoOverdraft | bin/p2p.cc:323-349 | from nonnegative balances every balance stays nonnegative, for any part of the mempool |
| Ledger.NoOverdraftInAnyPrefix | bin/p2p.cc:323-349 | the same after each selected transaction in turn |
| Ledger.LedgerIsSum | bin/p2p.cc:342-347 | each account ends with its initial balance plus exactly its selected credits |
| Ledger.BalanceBound | bin/p2p.cc:181-182 | with 32-bit amounts m selected transactions raise no balance by more than m * (2^31 - 1) |
| Ledger.SelectionReplays | bin/p2p.cc:330-349 | the rule run over its own selection selects all of it and reaches the same balances |
| Ledger.SelectedIffAcceptable | bin/p2p.cc:330-349 | a transaction is selected exactly if it is acceptable at the prefix where it was considered |
| Ledger.SelectedIffCovered | bin/p2p.cc:323-349 | the same for the selection: in hash order a transaction is selected if and only if its accounts are different and each has enough after the earlier selected ones |
| Ledger.PaysNewAccount | bin/p2p.cc:343-346 | a payment to an account without a balance is selected and creates it |
| Ledger.GreedyPrefix | bin/p2p.cc:330-349 | the selection from a prefix is a prefix of the selection |
| Ledger.AddingLastExtends | bin/p2p.cc:314-349 | a transaction whose hash sorts last keeps the earlier selection and is added exactly if acceptable after it |
| Heights.HeightIsPathLength | bin/p2p.cc:364-403 | a block has height n > 0 exactly if a path of n blocks leads from it down to a child of the zero block |
| Heights.HeightBound | bin/p2p.cc:376-379 | a height never exceeds the number of blocks |
| Heights.GroundedIffRanked | bin/p2p.cc:373-401 | the paths of all blocks end if and only if the parent links admit a decreasing rank |
| Heights.RankedWalksEnd | bin/p2p.cc:364-403 | with such a rank every walk ends, so `mark_blocks` does |
| Heights.WalkEndsIff | bin/p2p.cc:373-401 | a walk comes to one of its exits if and only if the path of its block ends |
| Heights.WalkGoesOn | bin/p2p.cc:373-401 | a walk into a cycle goes round any number of times without meeting an exit |
| Heights.EndlessWalk | bin/p2p.cc:367-373 | if a block before the stop has no end to its path, the outer loop gets to the first such block |
| Heights.WalkDone | bin/p2p.cc:373-401 | one walk that ends at the zero block, outside the map or at a marked block gives its blocks their heights and changes no other mark |
| Heights.MarksAreRight | bin/p2p.cc:364-403 | a block ends with its true height exactly if a walk passed through it, otherwise with 0, and then it comes after an early stop |
| Heights.AllMarkedIff | bin/p2p.cc:364-403 | every block gets its true height if and only if the walks before the stop passed through every block after it |
| Heights.EarlyStopIff | bin/p2p.cc:367-369 | the outer loop stops early if and only if a block that leads out of the map has an ancestor later in the order |
| Heights.AllRootedIff | bin/p2p.cc:364-403 | every block gets a positive height if and only if every path reaches the zero block |
| Heights.EarlyStopLeavesZero | bin/p2p.cc:367-369 | a map on which the early stop leaves a rooted block at 0 |
| Heights.CycleAfterStop | bin/p2p.cc:367-369 | a map with a cycle that is never walked |
| BlockChain.BlockChain.Add | bin/p2p.cc:314-321 | a new transaction enters the store and the mempool, a known one changes nothing |
| BlockChain.BlockChain.CheckCredits | bin/p2p.cc:333-338 | the validity loop decides key uniqueness and cover of every debit |
| BlockChain.BlockChain.ApplyCredits | bin/p2p.cc:342-347 | the update loop applies all credits |
| BlockChain.BlockChain.GetLatest | bin/p2p.cc:323-353 | the selected set is the greedy selection in hash order and the result its Merkle root; nothing selected ends in the assertion |
| BlockChain.BlockChain.MarkUpwards | bin/p2p.cc:376-380 | the reversed marking loops count up from the end of the walked list |
| BlockChain.BlockChain.MarkFrom | bin/p2p.cc:370-401 | the inner loop terminates for every block whose path ends and adds exactly the marks of one walk |
| BlockChain.BlockChain.MarkBlocks | bin/p2p.cc:364-403 | if the walks before the stop end, the nested loops terminate, stop exactly where specified and leave the marks of the walks made; heights of other hashes stay |
| Merkle.HashVec | inc/curve.h:208-232 | the level loops terminate with the root |
| Merkle.RootIsTree | inc/curve.h:199-232 | the root is the top of a tree defined apart from the levels: an inner node is the hash of its left son followed by its right one, or by the left one again where there is none |
| Merkle.SmallRoots | inc/curve.h:199-232 | the roots of one, two and three leaves, written out |
| Merkle.RootBinds | inc/curve.h:199-232 | duplicate-free lists of equally long hashes with equal depth and root are equal, or two inputs hashed on the way collide |
| Merkle.DepthIsNeeded | inc/curve.h:220-229 | the first level above three or more leaves has the same root as the leaves |
| Merkle.DistinctIsNeeded | inc/curve.h:213-218 | repeating the last of an odd number of leaves keeps the root |
| Bloom.ToUintInRange | inc/curve.h:126-132 | the index lands below the filter size and the 64-bit product does not wrap |
| Bloom.CounterIsExact | inc/bloom_filter.h:15-63 | in any run of a fresh filter the counter is the number of indices whose bit is set |
| Bloom.PresentIffSet | inc/bloom_filter.h:34-63 | a key is reported exactly if something set since the last reset shares its index; everything set since is reported |
| Bloom.PresentMeans | inc/bloom_filter.h:34-63 | the same on the list of operations: a key is reported exactly if the hash under the key of the filter, scaled to its size, agrees with that of something set with no reset after it |
| Bloom.WireRoundTrip | inc/bloom_filter.h:18-81 | packing then reading restores every bit if and only if the size is not a multiple of 8 or the last eight bits are clear |
| Bloom.LostByteExample | inc/bloom_filter.h:79 | a filter of size 8 with all bits set arrives with none |
| Bloom.PackedBit | inc/bloom_filter.h:65-81 | which single bits survive packing |
| Bloom.PackedByteBit | inc/bloom_filter.h:65-81 | each bit of each byte packed, padding and lost byte included |
| Bloom.UnpackedBit | inc/bloom_filter.h:18-32 | each bit read is that bit of its byte, from the top |
| Bloom.Bloom.FromData | inc/bloom_filter.h:18-32 | the data constructor reads bit i from byte i / 8, top bit first, and leaves the counter at 0; with too little data it reads what is there before it reads past the end |
| Bloom.Bloom.Set | inc/bloom_filter.h:51-55 | set follows the specified state change |
| Bloom.Bloom.HasSet | inc/bloom_filter.h:57-63 | has_set follows it too and returns the previous answer |
| Bloom.Bloom.Reset | inc/bloom_filter.h:34-37 | reset clears all bits and the counter |
| Bloom.Bloom.Contains | inc/bloom_filter.h:44-49 | has answers as specified, with false for an empty filter |
| Bloom.Bloom.ToBytes | inc/bloom_filter.h:65-81 | the shifting loop packs as specified, last byte included |
| Reconcile.NoMemberLost | bin/p2p.cc:567-574 | a filter reports every element of its set, before and after it was sent |
| Reconcile.ReplySet | bin/p2p.cc:786-820 | the reply selects exactly what the received filter does not report; the filter is read past its data exactly if the size that came with it exceeds its bits |
| Reconcile.ReplyOmitsKnown | bin/p2p.cc:811-815 | a reply never selects a hash that the requester put in its filter |
| Reconcile.MissingInOrder | bin/p2p.cc:811-815 | a reply selects the positions of the hashes that the filter does not report, each once and in order |
| Reconcile.KeepMembers | bin/p2p.cc:73-85 | filtering keeps exactly the candidates that every filter reports |
| Reconcile.KeepInOrder | bin/p2p.cc:73-85 | filtering keeps the positions of the candidates that all filters report, each once and in order |
| Reconcile.FilterKeepsCommon | bin/p2p.cc:66-86 | filtering drops no candidate that is in the source set of every received filter |
| Reconcile.SetReconsiler.FilterSet | bin/p2p.cc:66-86 | the nested loops compute that filtering in order |
| Reconcile.SetReconsiler.CheckSet | bin/p2p.cc:88-101 | the check compares the target with the root of the sorted set, and is false for an empty one |
| Reconcile.CheckIgnoresOrder | bin/p2p.cc:88-101 | every permutation of the set gets the same answer, and an empty set fails |
| Reconcile.CheckAcceptsSelection | bin/p2p.cc:330-352 | any permutation of a nonempty selection passes against the root that get_latest returned |
| Reconcile.CheckBinds | bin/p2p.cc:88-101 | a duplicate-free set of equal tree depth that passes is the same set, or two inputs hashed on the way collide |
| Witness.CreateTransaction | src/process.cc:10-56 | one witness per debit, each by its account's key at the debit's rank; refused if the lists differ in length |
| Witness.ProcessTransaction | src/process.cc:63-106 | accepted exactly if every debit has a verifying witness at its rank; on success all accounts, amounts and used witnesses come back |
| Witness.WitnessedIff | src/process.cc:63-106 | that condition written out: the debit with r debits before it is verified by signature r, over the data and for its account |
| Witness.TruncatedAmount | bin/p2p.cc:181 | an amount is cut to the 32-bit `int` congruent to it |
| Witness.CreatedIsAccepted | src/process.cc:10-106 | every created transaction is accepted and returns the same accounts and amounts |
| Witness.Construct | bin/p2p.cc:160-202 | built exactly if every debit is witnessed; the guard never fires; reads past the witness list exactly if it ends before the first unwitnessed debit |
| Witness.RunsOutExample | bin/p2p.cc:188-192 | a debit without any witness |
| Witness.FallIsSigned | bin/p2p.cc:334-347 | an account whose balance falls during selection is debited by a selected transaction, in the credit data it was built from, and one of its witnesses verifies for the account over that data |
| TaskQueue.OrderFacts | inc/gtd.h:33-43 | the two operators are converse and order tasks by time, then type, with no other ties |
| TaskQueue.BeforeIff | inc/gtd.h:11-37 | tasks go by time, then by the nine types in the order in which the source lists them |
| TaskQueue.DueIff | inc/gtd.h:55 | a task is due from the millisecond at which the second after its own begins |
| TaskQueue.HeadDecides | inc/gtd.h:53-58 | something queued is due exactly if the head is |
| TaskQueue.GTD.Add | inc/gtd.h:69-73 | an added task is queued for time 0 |
| TaskQueue.GTD.AddDelayed | inc/gtd.h:75-82 | a delayed task is queued for the second its delay ends in |
| TaskQueue.GTD.Poll | inc/gtd.h:49-63 | one polling turn delivers exactly if anything is due, and then a first task in order |
| TaskQueue.TasksConserved | inc/gtd.h:45-82 | in every run tasks queued and added are tasks delivered and queued, as multisets |
| TaskQueue.DeliveredInOrder | inc/gtd.h:49-63 | without additions in between tasks are delivered in order |
| TaskQueue.DelayHonoured | inc/gtd.h:55-82 | no task is delivered before its delay is over, to the millisecond |
| TaskQueue.DueInTime | inc/gtd.h:55-82 | a delayed task is due at most one second after its delay |
| TaskQueue.NoneOvertakes | inc/gtd.h:49-63 | from the first poll that finds a task due until its delivery no poll is idle and nothing delivered comes after it |
| TaskQueue.FirstKindFirst | inc/gtd.h:11-63 | in every run, when a task is delivered, every queued task of an earlier listed type has a later time: nothing overtakes a SENDPRIORITY of its time |
| Manager.ChooseTargets | bin/p2p.cc:660-680 | the address loops choose as specified, never more than wanted |
| Manager.WantedIff | bin/p2p.cc:643-648 | an expansion aims at as many connections as there are known addresses, at most 8, and takes none away |
| Manager.TargetsFreshIff | bin/p2p.cc:660-680 | all chosen addresses are new if and only if the list holds a new one or nothing is chosen |
| Manager.ExpansionFills | bin/p2p.cc:642-680 | with a new address at hand and no empty one, the expansion makes as many connections as wanted, none of them to itself or to a connected address |
| Manager.TargetsDistinctIff | bin/p2p.cc:660-680 | the chosen addresses are different if and only if at most one is wanted, none listed is new, or the first new one is empty |
| Manager.ConnectsTwice | bin/p2p.cc:660-680 | with two addresses known and no connection, the first one is connected to twice |
| Manager.ConnectsToItself | bin/p2p.cc:654-680 | a node that knows only its own address connects to itself |
| Manager.Manager.Expand | bin/p2p.cc:642-680 | the EXPAND_CONNECTION case adds the chosen addresses, with nothing queued on them yet |
| Manager.Manager.Handle | bin/p2p.cc:605-687 | the switch handles a task as the transition relation says: what it plans again, what it queues on every connection, which connections it adds |
| Manager.PlansSpelledOut | bin/p2p.cc:598-625 | what the cases plan, written out: the two first tasks with their delays, the requests, and one task on every connection |
| Manager.Manager.Iterate | bin/p2p.cc:603-688 | poll and switch together are one transition |
| Manager.TransitionKeepsInvariant | bin/p2p.cc:597-688 | every transition keeps one REQ_IPS task, one EXPAND_CONNECTION task, the connection limit, and that connections are only asked for addresses, sets and filters |
| Manager.ManagerSafe | bin/p2p.cc:597-688 | at every boundary of every run exactly one of each is queued, there are at most 8 connections, and nothing else was queued on them |
| Manager.ConnectionsGrow | bin/p2p.cc:616-679 | connections, and the tasks queued on them, are only ever added, in order |
| Gossip.Server.SendAll | bin/p2p.cc:463-466 | one SEND task on every connection |
| Gossip.Server.ServeText | bin/p2p.cc:754-765 | the first sight of a hash is recorded and forwarded on every connection, later ones change nothing |
| Gossip.TypingIsSaying | bin/p2p.cc:460-466 | planning a SEND on every connection of the node where a line is typed is the typing step of the network model, for every node's queues |
| Gossip.ServingIsDelivery | bin/p2p.cc:489-494 | serving at the destination is the delivery step of the network model, for every node's queues |
| Gossip.DeliveryCostsOne | bin/p2p.cc:754-765 | every delivery lowers messages in flight plus messages owed by exactly one |
| Gossip.DeliveriesTerminate | bin/p2p.cc:754-765 | every run of deliveries ends, after a number of steps that does not depend on their order |
| Gossip.ForwardsOnce | bin/p2p.cc:757-762 | a node forwards a given hash at most once in a run |
| Gossip.NeighboursAreComing | bin/p2p.cc:452-468 | at every moment what a node has seen or typed has reached each neighbour or is on its way there |
| Gossip.FloodReaches | bin/p2p.cc:754-765 | once everything is delivered what was typed has reached every node that a path leads to |
| Gossip.NothingFromNowhere | bin/p2p.cc:452-468 | nothing is seen or sent that was not typed upstream |
| Gossip.FloodIsExact | bin/p2p.cc:452-494 | once everything is delivered a node has seen exactly the hashes typed where it is reached from |
| WordPacking.BytesOfBitset | inc/type.h:28-44 | the loop packs eight bits a byte, first bit on top, and keeps a last seven |
| WordPacking.PackedBitIs | inc/type.h:28-44 | each bit packed, at its place in its byte |
| WordPacking.BitsetOfBytes | inc/type.h:58-79 | the masks read bit i from byte i / 8, right aligned in the last byte; too few bytes are read past their end, after all that they hold |
| WordPacking.UnpackedBitIs | inc/type.h:58-79 | each bit read, from its place in its byte |
| WordPacking.PackUnpack | inc/type.h:28-79 | packing leaves enough bytes to read back if and only if N is 0 or 7 modulo 8, and then every bit returns |
| WordPacking.ShortBytesExample | inc/type.h:29 | one bit makes no byte |
| WordPacking.UnpackPack | inc/type.h:28-79 | whole bytes survive unpacking and packing |
| WordPacking.XOr | inc/type.h:103-107 | the in-place loop is exclusive or with the key, byte by byte |
| WordPacking.XorByteBit | inc/type.h:106 | a bit of the result is the sum modulo 2 of the two bits |
| WordPacking.XorAllBit | inc/type.h:103-107 | the same for every byte of the message |
| WordPacking.XorAllCancels | inc/type.h:103-107 | applying the same key twice is the identity |
| WordPacking.EncodeWords | bin/wordenc.cc:35-49 | the loops set the low-bit-first index of each word, exit exactly for an unlisted word, and leave the bit set exactly for a listed word too many |
| WordPacking.EncodedBitIs | bin/wordenc.cc:35-49 | bit 11 i + j of the bit set is bit j of the index of word i, and clear behind the last word |
| WordPacking.DecodeWords | bin/worddec.cc:50-58 | the loops read each group back as an index into the list, and leave the list at the first index it does not have |
| WordPacking.FromLowBit | bin/worddec.cc:50-58 | the index read from a group has the bits of the group, lowest first |
| WordPacking.WordTooMany | bin/wordenc.cc:45-48 | a 25th listed word |
| WordPacking.IndexTooLarge | bin/worddec.cc:57 | a group that is no index into a list of one word |
| WordPacking.IndexRoundTrip | bin/wordenc.cc:45-48 | eleven bits keep an index modulo 2048 |
| WordPacking.WordsRoundTrip | bin/wordenc.cc:35-49 | what comes back for any word and any unused group; the words themselves for a list of at most 2048 |
| WordPacking.BitsRoundTrip | bin/worddec.cc:50-58 | for a duplicate-free list, encoding what was decoded gives the bits back |
| WordPacking.EncryptedRoundTrip | bin/wordenc.cc:68-69 | words, packing and keystream are undone exactly, for 11 * capacity equal to 0 or 7 modulo 8 |

## Left out

- Output buffers: the C functions write into buffers of the caller; the model returns what was written. For
  calls that fail it bounds the lengths; the contents are stated for the human readable part only.
- Four wrong characters, which BIP 173 promises to be caught as well, unless they are within six positions.
- Hashes, signatures, boxes, password hashing and hexadecimal (libsodium): parameters, with only the
  assumptions that a theorem states.
- Cap'n Proto, ZeroMQ and RocksDB: messages are values; an unreadable message is not modelled past `None`.
- `Witness.ProcessTransaction`: what a rejected transaction leaves in the caller's vectors is not stated.
- `Gossip`: connections are fixed and delivery is reliable; hashes of messages, not texts, are compared, as
  in the source.
- `Bloom.Bloom.FromData`: sizes of 2^31 and more, which the source cuts to an `int`, are kept as they are.
- SYNC_HASHSET: the functions behind its decisions have no result in the source, so their outcome is a
  parameter of `Manager.Handle`.
- The rejection in the REQ_SET case for an unknown target, and the transactions sent for the selected hashes.
- The HELLO task that a connection queues itself, how connections work off REQ_IPS and REQ_HASHSET tasks, and
  learning addresses from peers beyond the event that one is learned.
- The unfinished `BlockChainReconsiler`, `add_block_if_ok` and `get_*_hashes`; `BlockHeader` serialisation.
- `Cuckoo` and `CachedDB`, whose stores are never sized or overwritten by their own reads.
- Interface and route discovery, command-line programs around library calls, mining.
- Data races on unlocked globals: each handler and queue operation is one atomic step.
