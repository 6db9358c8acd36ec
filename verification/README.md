# Verified models of libcat's hardest algorithms

Dafny models, with proofs, of eight components of the repository: the Wirehair fountain codec, the range coder, the
multi-precision arithmetic, the Michael & Scott queue, the record cache, the anti-replay window and the region allocator,
with the column iterator and deck shuffle the codec stands on. `dafny verify dfyconfig.toml` checks all of it.

Code that changes state is modelled as classes and loops with the same branches, constants and error results, and each
method is proved against a function or predicate that does not mention how it works.

**Wirehair** (src/fec/Wirehair.cpp). A message of n blocks is encoded as n + M recovery blocks, the one solution of a
sparse system over GF(2) with six rows over a 256-element field. The model follows the code through all stages:

- `ColumnIterator`, `CheckMatrix`, `Shuffle`, `DeckCycles`: which columns a row uses, and the shuffled decks of the dense
  rows.
- `PeelState`, `PeelFeed`, `PeelWeights`, `Peeling`, `PeelOutcome`: opportunistic and greedy peeling over linked lists,
  with the mutual recursion of `Peel` and `PeelAvalanche` and the 16-bit counters that lag behind during it.
- `Blocks`, `Compression`, `Diagonal`, `Compressor`, `Dense`, `DensePass`, `Assembly`: the compressed matrix.
- `GaloisField`, `Elimination`, `Solving`, `HeavyWindow`, `Triangle`: elimination in place, binary rows before heavy rows.
- `CheckSystem`, `ColumnValues`, `DenseValues`, `Windows`, `WindowTable`, `Substitution`, `Subdiagonal`, `AboveDiagonal`,
  `RowSums`: the values, by table-driven forward and back substitution.
- `Recovery`, `Failure`, `Staging`, `Solver`, `Codec`, `Retry`, `WrongSuccess`: the whole solver, the encoder, the
  decoder, the round trip, and the solve after a failed one.
- `DenseColumns`, `DrawnRows`: what the dense, fed and heavy rows hold, by the words they are drawn from.
- `Words`, `Packed`: the 64-bit word operations. `Packs` ties a packed row to the bit row the other modules use, and every
  word operation carries it over.

**Range coder** (src/codec/RangeCoder.cpp): `RangeSpec` is one normalisation as arithmetic on intervals, `RangeMessage`
whole messages, `RangeCoder` the encoder and decoder classes, `TextCoder` the table-driven text coder on top of them.

**Multi-precision arithmetic** (_attic_/BigInt.cpp): `Limbs`, `LimbSum`, `LimbShift`, `LimbProduct` (limb loops),
`Karatsuba`, `Squares`, `Estimate`, `Division`, `Quotients`, `LongDivision` (Algorithm D), `Modular`, `Montgomery`,
`Reduction`, `Exponent`.

**The others**: `MSQueue` (_attic_/MSQueue.hpp), `CacheTree` and `RecordCache` (src/db/BombayTable.cpp), `ReplayWindow`
(_attic_/TunnelSession.cpp), `RegionAllocator` (_attic_/RegionAllocator.cpp).

The two concurrent components are state machines with one step per shared access, any number of threads, and every
interleaving.

## Model

| member | source | states |
|---|---|---|
| ColumnIterator.NextColumnIsFirstInRange | src/fec/Wirehair.cpp:875-888 | the loop-less step is the first element below b of x+a, x+2a, ... modulo p |
| ColumnIterator.ColumnsDistinct | src/fec/Wirehair.cpp:875-888 | with p prime, any weight up to b selects distinct columns |
| ColumnIterator.ColumnsCycle | src/fec/Wirehair.cpp:875-888 | with p prime, b steps visit exactly the columns below b and return to the first |
| Shuffle.ShuffleDeck16 | src/fec/Wirehair.cpp:604-686 | deals in place the deck the word stream determines, and consumes exactly its words, for byte and half-word draws |
| Shuffle.DeckPermutes | src/fec/Wirehair.cpp:604-686 | that deck is a permutation of 0..count-1 for every word stream |
| DeckCycles.DealExchanges | src/fec/Wirehair.cpp:604-686 | each card comes to the end of the deck and changes places with the card its choice names |
| DeckCycles.DealInjective | src/fec/Wirehair.cpp:604-686 | choices that name different places deal different decks |
| DeckCycles.DealCycle | src/fec/Wirehair.cpp:604-686 | every deck is one cycle: from card 0, going on to the card in a card's place visits every card |
| DeckCycles.WordPlacesBytes | src/fec/Wirehair.cpp:609-655 | the choices for a small deck are the words' bytes, four to a word and lowest first, and for the last one to three cards those that end below the highest |
| DeckCycles.WordPlacesHalves | src/fec/Wirehair.cpp:656-686 | for a large deck, the words' halves, lower first |
| Peeling.Peeler.FixPeelFailure | src/fec/Wirehair.cpp:1170-1192 | after a reference list was found full, every reference list is exactly what it was before the row was added |
| Peeling.Peeler.OpportunisticPeeling | src/fec/Wirehair.cpp:1090-1159 | keeps the peeling invariant, by which every unmarked column's weight-2 count is the number of rows with it and one other column left; fails exactly when a column of the row has a full reference list, and then changes nothing but the unused row slot |
| PeelState.VisitRow | src/fec/Wirehair.cpp:1206-1295 | one decrement of a row's 16-bit counter keeps the invariant with avalanches still running, and shows 1 or 2 only for rows neither peeled nor deferred, with the right columns left |
| Peeling.Peeler.PeelAvalanche | src/fec/Wirehair.cpp:1206-1295 | terminates, keeps the invariant and the weight-2 counts, and only extends what was solved and deferred, whatever avalanches are still running |
| Peeling.Peeler.Peel | src/fec/Wirehair.cpp:1305-1333 | the row and column end up solved; each row is peeled or deferred at most once; each peeled row's other columns are deferred or solved before it |
| Peeling.Peeler.GreedyPeeling | src/fec/Wirehair.cpp:1353-1409 | every column it defers is, in its turn, the unmarked one in most weight-2 rows, then in most rows, then the last; at the end every column is marked, every row peeled or deferred, and after n rows there are as many deferred rows as deferred columns; run again, it defers nothing and forgets the list and count |
| PeelOutcome.OutcomeFromState | src/fec/Wirehair.cpp:1353-1409 | what peeling leaves is a lower triangular system: the i-th peeled row has its own column and otherwise only deferred or earlier ones |
| Compressing.Compressor.PeelDiagonal | src/fec/Wirehair.cpp:1633-1755 | deferred rows hold their coefficients after all solved columns are substituted, peeled rows theirs, and each solved column's block its partial sum, whether or not rows were copied before |
| Compression.ReducedEquation | src/fec/Wirehair.cpp:1633-1755 | while the peeled rows hold, an equation holds exactly when its reduction to the elimination columns does |
| DensePass.MultiplyDenseRows | src/fec/Wirehair.cpp:1893-2062 | the binary rows are the reductions of the dense rows that the word stream implies, with the bits of deferred columns that are no longer listed where the code puts them |
| DenseColumns.FirstDealt | src/fec/Wirehair.cpp:1911-1956 | in every window, the last one cut at column n, the dense row dealt first has exactly the columns of the first (d + 1) / 2 cards of the second deck |
| DenseColumns.FirstDealtWeight | src/fec/Wirehair.cpp:1911-1956 | in a whole window those are (d + 1) / 2 columns |
| DenseColumns.LaterDealt | src/fec/Wirehair.cpp:1958-2062 | every later row differs from the one dealt before it in exactly two columns, a card from either half of the third deck and then of the fourth |
| DenseColumns.NoDenseBits | src/fec/Wirehair.cpp:1893-2062 | and no dense row has a bit past the peel columns |
| DenseValues.MultiplyDenseValues | src/fec/Wirehair.cpp:2777-2959 | each dense row's destination gains the peeled part's value of the same implied row, and no other block changes |
| Packed.AddInvertibleGF2Matrix | src/fec/Wirehair.cpp:490-594 | at every bit offset, in 64-bit words: the same n by n matrix is added and no other bit touched; packed rows go on packing the bit rows of the elimination matrix |
| Packed.AddPivotWords | src/fec/Wirehair.cpp:2332-2353 | the masked first word and whole later words add the pivot row past the pivot bit and keep every bit up to it |
| Packed.ExtractWindow | src/fec/Wirehair.cpp:3135-3185 | the window's bits as a number, also when it straddles two words |
| HeavyWindow.AddBinaryRow | src/fec/Wirehair.cpp:2389-2545 | unrolled odd columns and four-bit table lookups add the code value exactly at the binary row's set columns past the pivot |
| Triangle.Eliminator.Triangle | src/fec/Wirehair.cpp:2410-2632 | in place, the rows in pivot order hold L below the diagonal and U on and above it, with P*A = L*U; it fails only on a singular matrix |
| Elimination.EliminateKeeps | src/fec/Wirehair.cpp:2292-2370 | eliminating one column from one row and leaving the multiplier behind keeps that row of P*A = L*U |
| Solving.NoPivotSingular | src/fec/Wirehair.cpp:2410-2632 | when no row is left with a pivot in a column, a combination of columns that is not zero vanishes |
| Solving.UniqueSolution | src/fec/Wirehair.cpp:4554-4563 | with a full factorisation, forward then back substitution gives the solution, and no other exists |
| CheckSystem.SystemSplits | src/fec/Wirehair.cpp:4476-4527 | values satisfy every check equation exactly when the peeled rows hold and their elimination columns satisfy the compressed system |
| ColumnValues.InitializeColumnValues | src/fec/Wirehair.cpp:2658-2763 | each pivot row's destination block starts at its row's input plus the peeled columns' partial sums |
| WindowTable.BuildTable | src/fec/Wirehair.cpp:3018-3128 | the table holds every sum of up to seven blocks, the combined ones kept in blocks that are free at this point |
| Subdiagonal.AddSubdiagonalValues | src/fec/Wirehair.cpp:2977-3299 | windowed forward substitution, of any width and for heavy rows too, equals plain forward substitution |
| AboveDiagonal.BackSubstituteAboveDiagonal | src/fec/Wirehair.cpp:3380-3824 | windowed back substitution with shrinking windows equals plain back substitution |
| RowSums.Substitute | src/fec/Wirehair.cpp:3844-3938 | every peeled row holds, and no block but the peeled columns' changes |
| RowSums.RegenerateRow | src/fec/Wirehair.cpp:5435-5516 | the sum of the recovery blocks the row's coefficients select |
| Solver.SolveMatrix | src/fec/Wirehair.cpp:4476-4527 | asks for more blocks exactly when the compressed matrix is singular, and otherwise the whole matrix is factored; after a failure, with at most 33 deferred columns, exactly when what is left of that matrix is singular |
| Solver.SameAgain | src/fec/Wirehair.cpp:4476-4527 | with no column deferred, what is left is singular exactly when the first solve's matrix is |
| Solver.GenerateRecoveryBlocks | src/fec/Wirehair.cpp:4554-4563 | the recovery blocks are the one solution of every fed row, dense row and heavy row; after a second solve only the peeled rows are promised to hold |
| Failure.NotUnique | src/fec/Wirehair.cpp:4476-4527 | over a singular compressed matrix, every solution of the whole system has another beside it |
| Codec.Encoder.EncodeFeed | src/fec/Wirehair.cpp:5403-5424 | success leaves the unique recovery blocks of the message, whatever the memory held before |
| Codec.Encoder.Encode | src/fec/Wirehair.cpp:5435-5516 | every block sent, copied or generated, is the sum its row selects from the recovery blocks |
| DrawnRows.RowOfId | src/fec/Wirehair.cpp:966-990 | an id's row has min(weight, n / 2) distinct peel columns and three mix columns; the high half of each selector word is the first column and the low half the stride less one, modulo what there is |
| DrawnRows.EveryRowIsDrawn | src/fec/Wirehair.cpp:966-990 | every first column and every stride, for peel and mix columns at once, is drawn by some 32-bit words |
| DrawnRows.RowWeight | src/fec/Wirehair.cpp:5435-5516 | a row sums exactly that many peel columns and three mix columns |
| DrawnRows.HeavyRowIs | src/fec/Wirehair.cpp:2127-2153 | four columns of a heavy row hold the bytes of one word, lowest first, and the last six the identity |
| Codec.Decoder.DecodeFeed | src/fec/Wirehair.cpp:5558-5607 | stores a block unless its row finds a full reference list or n are stored, and says so |
| Codec.Decoder.IsAllOriginalData | src/fec/Wirehair.cpp:4849-4877 | true exactly when every message block was received, duplicates or not |
| Codec.Decoder.DecodeSolve | src/fec/Wirehair.cpp:5609-5637 | with n stored blocks, success exactly when every message block was received or the stored rows have one solution; a repeated solve still has rows that determine nothing, and asks for more exactly when the dense and heavy rows left to it are singular, which they are when no column was deferred |
| Codec.SameRecovery | src/fec/Wirehair.cpp:5558-5637 | n correct blocks of any ids that determine a solution determine the encoder's recovery blocks |
| Codec.Decoder.ReconstructOutput | src/fec/Wirehair.cpp:4889-5004 | round trip: if every stored block is the encoder's for its id, the output is the message |
| Retry.PeelAgain | src/fec/Wirehair.cpp:1353-1409 | a second solve's peeling empties the deferred list and count, while the columns stay marked and the deferred rows listed |
| Retry.RetrySound | src/fec/Wirehair.cpp:1353-1409 | what the second peeling hands on is a system for the fed rows exactly when the first deferred no column; the columns lost are those it deferred |
| Retry.TwinsDefer | src/fec/Wirehair.cpp:1206-1295 | two stored rows with the same columns always defer a column |
| Retry.HeavyRowsDefer | src/fec/Wirehair.cpp:1206-1295 | rows of weight two or more alone always defer a column |
| Retry.OtherRecovery | src/fec/Wirehair.cpp:5609-5637 | after a failed solve of correct blocks a second set of recovery blocks fits them, so no later success can be relied on |
| Retry.LosingRun | src/fec/Wirehair.cpp:5558-5637 | a run: block 0 of two arrives twice, the solve fails, block 1 is dropped, a deferred column is no longer listed, and the next solve fails exactly when what is left is singular |
| WrongSuccess.TrapRegular | src/fec/Wirehair.cpp:1893-2062 | for every field, row and dense stream there are words for the other two streams with which what is left of that run's matrix is regular |
| WrongSuccess.WrongRun | src/fec/Wirehair.cpp:5609-5637 | with those words the same run's second solve reports success although its stored blocks determine nothing |
| RangeSpec.ShiftSound | src/codec/RangeCoder.cpp:368-386 | after a normalisation shift, the truncating one included, the interval holds exactly the values that the old one held behind the byte emitted |
| RangeSpec.ShiftProgress | src/codec/RangeCoder.cpp:368-386 | normalisation terminates |
| RangeMessage.PartsTile | src/codec/RangeCoder.cpp:466-514 | the parts of a bit's and a field's values lie side by side in order, in the ratio of their frequencies, with less than a unit each left over |
| RangeMessage.FirstPartsTile | src/codec/RangeCoder.cpp:466-514 | so do those of the first symbol, in the whole 64-bit range |
| RangeMessage.SlicesTile | src/codec/RangeCoder.cpp:413-462 | and two slices of a table, in the ratio of their widths |
| RangeMessage.DecoderStaysInside | src/codec/RangeCoder.cpp:631-646 | after every symbol, the decoder's eight bytes lie in the encoder's interval, before and after normalising, up to the zero padding of the tail |
| RangeCoder.RangeEncoder.Finish | src/codec/RangeCoder.cpp:517-547 | the output is the encoding of the symbols coded, and failure is reported exactly when it does not fit |
| RangeMessage.TailLargest | src/codec/RangeCoder.cpp:517-547 | the last bytes are the largest of their number whose zero-padded value lies in the interval |
| RangeMessage.TailShortestIff | src/codec/RangeCoder.cpp:517-547 | no fewer bytes would do exactly when the interval begins at zero, is 2^56 long or ends at a multiple of 2^56 |
| RangeMessage.LongTail | src/codec/RangeCoder.cpp:517-547 | the value 3 of 1000 is encoded in two bytes, and one would do |
| RangeCoder.RangeDecoder.BiasedBit | src/codec/RangeCoder.cpp:738-775 | returns the bit the encoder coded |
| RangeCoder.RangeDecoder.Range | src/codec/RangeCoder.cpp:778-798 | returns the value the encoder coded |
| TextCoder.EncodeText | src/codec/RangeCoder.cpp:413-462 | codes the model bit, the characters and the terminator, uniformly exactly when the table's encoding took as many bytes of the room there was as the estimate (len * log2total) >> 15, and from the table otherwise; a try that is given up leaves nothing behind |
| TextCoder.DecodeSymbol | src/codec/RangeCoder.cpp:649-690 | the bracketed binary search finds the symbol whose slice holds the frequency |
| TextCoder.DecodeText | src/codec/RangeCoder.cpp:693-734 | round trip: exactly the characters encoded, in either model, cut only where the buffer ends |
| Karatsuba.Multiply | _attic_/BigInt.cpp:529-572 | the product is x*y for every limb count, through the signed middle carry |
| Squares.Square | _attic_/BigInt.cpp:576-601 | the product is x*x for two limbs or more, through doubled cross products |
| LimbSum.AddTo | _attic_/BigInt.cpp:210-229 | writes the sum up to the first place past the second operand where the operands so far carry nothing, and leaves the whole sum exactly when the buffer's limbs from there on already equalled the first operand's |
| LimbSum.RightWhateverHeld | _attic_/BigInt.cpp:210-229 | they do for every buffer exactly when that place is the end |
| LimbSum.StaleLimb | _attic_/BigInt.cpp:210-229 | 5 + 2^32 plus 6 into a buffer that holds 0 and 7 leaves 11 and 7 |
| Estimate.AtMostTwoTooBig | _attic_/BigInt.cpp:841-847 | the unclamped two-by-one estimate, up to 2^32 + 1, is never too small and at most two too big |
| Estimate.DigitRightIff | _attic_/BigInt.cpp:841-869 | one step with add-back is right for every window exactly when the divisor is not all ones in its top 64 bits with something below |
| Division.QuotientLimb | _attic_/BigInt.cpp:841-869 | in the buffers, for any window: the limb and the remainder of that step |
| LongDivision.Divide | _attic_/BigInt.cpp:783-878 | false exactly for a zero divisor; for every numerator and divisor the digits of the stepwise run; and for the divisors of the next row u = q*v + r with r < v, q read on the used limbs of u |
| LongDivision.DivideRightIff | _attic_/BigInt.cpp:783-878 | the result is the quotient and remainder for every numerator exactly when not all of the 64 bits from the divisor's highest set bit down are set with something below them |
| Montgomery.MulInverse32 | _attic_/BigInt.cpp:640-674 | the inverse modulo 2^32 of every odd number, and 0 for every other number but 0 |
| Reduction.MonReducePrecomp | _attic_/BigInt.cpp:1431-1435 | minus the inverse modulo 2^32 of an odd modulus's low limb |
| Reduction.MonReduce | _attic_/BigInt.cpp:1486-1507 | for every odd modulus and any double-length s: below 2^(32n) and congruent to s*R^-1, with at most one subtraction |
| Reduction.MonFinish | _attic_/BigInt.cpp:1510-1526 | the canonical residue n*R^-1 modulo the modulus |
| Exponent.SimpleMonExpMod | _attic_/BigInt.cpp:1529-1573 | square and multiply: congruent to base^e in the Montgomery domain for every exponent but zero, for which nothing is written |
| Exponent.MonExpMod | _attic_/BigInt.cpp:1607-1760 | the same for sliding windows that cross limbs, with the odd-power table and the count of trailing zeros |
| Exponent.ExponentiationIsExact | _attic_/BigInt.cpp:1607-1760 | finished, that result is b^e modulo the modulus |
| MSQueue.FirstInFirstOut | _attic_/MSQueue.hpp:154-234 | at every moment of every interleaving: enqueue history = dequeue history then what is in the queue; Tail is at the last or next-to-last node and never behind Head |
| MSQueue.EnqueueLinksOnce | _attic_/MSQueue.hpp:154-187 | over a run, an Enqueue that has returned has linked its node by its own step, once, and Tail has reached it |
| MSQueue.DequeueTakesOneOrNone | _attic_/MSQueue.hpp:205-234 | over a run, a Dequeue returns only with a null next it has read, the queue having been empty during the call, or with the oldest node as the one it takes |
| MSQueue.DequeuesOldest | _attic_/MSQueue.hpp:205-234 | a successful swing of Head takes the oldest item not yet taken |
| MSQueue.EmptyReturn | _attic_/MSQueue.hpp:205-234 | when a Dequeue call returns 0, the queue was empty at some moment of that same call |
| MSQueue.RetryMeansProgress | _attic_/MSQueue.hpp:154-234 | a call starts over only because another one moved Head or Tail on, or linked a node past the Tail it read; then it leaves Tail past that one |
| CacheTree.HintSurvives | src/db/BombayTable.cpp:157-355 | an insertion hint found before another node of the same tree is unlinked is still on the path of the new offset afterwards |
| RecordCache.Cache.UnlinkNode | src/db/BombayTable.cpp:157-251 | every bucket stays a search tree with consistent parent links, without the node |
| RecordCache.Cache.SetOffset | src/db/BombayTable.cpp:306-355 | returns the slot of the offset; the ring is unchanged if it was cached, and otherwise gains it and, when full, loses its oldest entry |
| RecordCache.Cache.InsertOffset | src/db/BombayTable.cpp:357-383 | the same for an offset that is not cached |
| RecordCache.Cache.PeekOffset | src/db/BombayTable.cpp:385-391 | finds exactly the cached offsets |
| RecordCache.Cache.RemoveOffset | src/db/BombayTable.cpp:393-404 | true exactly if it was cached; its ring entry becomes invalid in place and all others stay |
| ReplayWindow.ReconstructionExact | _attic_/TunnelSession.cpp:135-142 | every counter within 2^23 of the last one, up to 2^23 ahead, is recovered from its low 24 bits |
| ReplayWindow.Receiver.AcceptIV | _attic_/TunnelSession.cpp:78-126 | every accepted counter in the window has its bit set, always; no other bit is set after the move exactly when the machine's shift by 64 adds no new bit |
| ReplayWindow.Receiver.Decrypt | _attic_/TunnelSession.cpp:145-180 | no counter is accepted twice, on any machine; a packet is accepted exactly if authentic, in the window and new while the window is exact, and the window stays exact exactly under AcceptIV's condition |
| ReplayWindow.NoReplayInWords | _attic_/TunnelSession.cpp:57-126 | counters that are equal as 64-bit values are the same counter, as long as the last one is at most 2^64 - 1024 |
| ReplayWindow.HarmlessIff | _attic_/TunnelSession.cpp:93-110 | a machine never adds a bit, whatever the window and the move, exactly when it shifts every word by 64 to zero |
| ReplayWindow.OversizeShiftGains | _attic_/TunnelSession.cpp:93-110 | on a machine that shifts modulo 64, accepting c and c + 64 also blocks c - 64 |
| RegionAllocator.NoSharedMemory | _attic_/RegionAllocator.cpp:128-204 | at every moment of every interleaving, two blocks held are at disjoint addresses |
| RegionAllocator.AcquireTakesFree | _attic_/RegionAllocator.cpp:128-176 | a successful claim takes a block nobody holds, at least as large as asked, and sets that bit alone |
| RegionAllocator.WinsFirstFit | _attic_/RegionAllocator.cpp:128-176 | over a run, a call wins a block only after reading, in that same call, every word of every earlier region with large enough blocks as full |
| RegionAllocator.EndsWithBlockOrAllFull | _attic_/RegionAllocator.cpp:128-176 | over a run, a call ends with a block it has won, whose word the next scan starts at, or after reading every word of every region with large enough blocks as full |
| RegionAllocator.ReleaseClearsThatBit | _attic_/RegionAllocator.cpp:178-204 | the address leads back to the block, and exactly the bit Acquire set is cleared |
| RegionAllocator.MovesOnWhenFull | _attic_/RegionAllocator.cpp:128-176 | a scan leaves a region only after seeing every one of its words full |

## Findings

What the models show the code does not do, each with an input and the exact condition.

- **A solve after a failed one.** `DecodeFeed` stores no block after the n-th, so the row count stays at n and
  `DecodeSolve` never reaches `ResumeSolveMatrix`, which is dead code. Each further block is dropped and `SolveMatrix` runs
  again on the same rows. Its peeling finds every column marked, so the list and count of deferred columns come out empty,
  while their marks and the list of deferred rows stay (`Retry.PeelAgain`). What the second solve hands on is a system for
  the fed rows exactly when the first peeling deferred no column, `_defer_count == 0` after the first attempt
  (`Retry.RetrySound`); rows of weight two or more always defer one (`Retry.HeavyRowsDefer`). Otherwise the deferred rows'
  equations are lost, and the dense rows' bits in the deferred columns fall on the elimination columns of the same number.
  The second solve succeeds exactly when the matrix of those dense rows and the heavy rows is not singular, and every such
  success is wrong, as the stored rows still determine nothing (`DecodeSolve`); with no column deferred it always asks for
  more (`Solver.SameAgain`). Input: a message of two blocks, block 0 received twice (`Retry.LosingRun`); there are seeded
  words for every field and dense stream with which it then reports success (`WrongSuccess.WrongRun`). And correct blocks
  whose first solve failed have another solution beside the encoder's (`Retry.OtherRecovery`).
- **Long division.** The product of the estimate and the divisor is kept in one limb more than the divisor has. For an
  estimate of 2^32 + 1 it can lose its top bit, and the step is wrong. Input: (2^128 - 2^64) / (2^96 - 1), where `Divide`
  leaves 1 for the quotient 2^32 - 1. It is right for every numerator exactly when not all of the 64 bits from the
  divisor's highest set bit down are set with anything set below them (`LongDivision.DivideRightIff`). Of the quotient
  buffer it promises only the used limbs of the numerator.
- **Three-operand addition** (_attic_/BigInt.cpp:210-229) returns where its carry dies and does not copy the limbs above.
  Where that is follows from the operands (`LimbSum.Stop`); the sum is right whatever the buffer held exactly when it is
  the end of the first operand (`LimbSum.RightWhateverHeld`), and otherwise exactly when the buffer already held that
  operand's limbs (`LimbSum.AddTo`). Input: 5 + 2^32 plus 6 into a buffer that holds 0 and 7 (`LimbSum.StaleLimb`). The
  callers modelled here add equally long operands, where none are left over.
- **Finish.** src/codec/RangeCoder.cpp:519 promises a minimal number of bytes. A second byte is written whenever the
  interval is shorter than 2^56, although such an interval holds a multiple of 2^56, for which one byte is enough, unless
  it ends at one. The tail is as short as can be exactly when low is 0, the interval is at least 2^56 long, or it ends at a
  multiple of 2^56 (`RangeMessage.TailShortestIff`). Input: the value 3 of 1000, coded alone (`RangeMessage.LongTail`).
- **Shift by 64.** `AcceptIV` shifts a 64-bit word right by 64 when the counter moves by a multiple of 64, which C++
  leaves undefined. The model takes the machine's answer as a parameter. Whatever it is, no replay is accepted. The window
  stays exact exactly when no new bit comes out (`AcceptIV`), which holds for all windows exactly when the answer is
  always zero (`ReplayWindow.HarmlessIff`). Input where it is not, on a machine that shifts modulo 64: c, then c + 64; then
  c - 64 is refused although it never came (`ReplayWindow.OversizeShiftGains`).

Two more are read off the source, and no member shows them.

- **One limb.** `SimpleSquare` multiplies its first cross row over `limbs - 1` limbs, and the limb loops count down before
  they compare with zero. With one limb that is a count of zero, and the loop runs on over memory.
- **Comment and code.** include/cat/codec/RangeCoder.hpp describes lookup tables of 16 entries by the high four bits of a
  frequency; the code, and the model, use 256 entries by the high eight bits.

## Left out

- Codec.Decoder.DecodeSolve: a second solve after a first peeling with more than 33 deferred columns, where CopyDeferredRows (src/fec/Wirehair.cpp:1765) runs past the 33 rows that the matrix has below its dense ones; up to there it is modelled
- Solver.GenerateRecoveryBlocks: what a wrong second success leaves in the columns that are no longer listed, which is whatever the memory held
- Squares.Square: does not cover one limb, for the reason under Findings
- Exponent.MonExpMod: does not cover one-limb moduli, whose squares it would need; the same holds for Exponent.SimpleMonExpMod
- TextCoder.DecodeText: assumes a table as VerifyTableIntegrity and the table generator leave it, and a message whose characters all have a symbol in it
- MSQueue.FirstInFirstOut: pointer and version are read and swapped in one step, versions do not wrap, and a node is not recycled while it is in use
- Words of a packed row past its last column: heavy-row writes in that padding are dropped and its bits read as zero
- The packed words are tied to the bit rows by `Packs`, method by method; the solver's own state holds bit rows
- The field tables are assumed to be a field with 256 elements, and the table of next primes to give primes; the weight, seed and dense-count tables, ChooseMatrix and its failures, and the random generator are parameters
- `InitializeColumnValues`: its last loop, over pivots left unused, never runs on the paths modelled
- A final block shorter than the others is held zero-padded (`Trim`) rather than as a shorter copy
- IsAllOriginalData uses the recovery blocks' memory for its marks; the model keeps them apart and lets a solve start from any memory contents
- ResumeSolveMatrix, which is never reached
- Allocation and its failures, printing, counters, and locks
- Byte order: words are read as little-endian
- `|` of two halves that share no bit is written as their sum in the limb shifts
- The hash key `hash & (size - 1)` is taken modulo the table size, which is the same for a power of two
- The record cache's disk reads, callbacks and locks
- Resize and the fall back to malloc in the region allocator
- Everything in TunnelSession but the counter and the window; whether a packet is authentic is an arbitrary answer
- Barrett and special moduli, modular inverses, square roots and primality tests
- The other directories of the repository
