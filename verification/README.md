# Verified model of the sol-trade-sdk core

This Dafny project models the parts of the Solana trading SDK that compute prices, hand out memory
without locks and submit one trade through several providers at once, and proves what they promise.
`dafny verify dfyconfig.toml` checks all of it.

## How it is laid out

| file | models |
|---|---|
| `MachineInts.dfy` | integer widths, the `as u64` cast, division and remainder facts |
| `Rounding.dfy` | ceiling division, fees, slippage limits, the constant-product swap in both directions |
| `BondingCurve.dfy` | the PumpFun bonding curve account, its quotes, and runs of trades on it |
| `PumpFunCalc.dfy` | the stand-alone PumpFun formulas and the other copies of the buy price |
| `PumpSwap.dfy` | the four PumpSwap pool quotes and sequences of swaps |
| `Bits.dfy`, `BlockBitmap.dfy` | machine words bit by bit, and a bitmap of blocks as a set |
| `BlockPool.dfy` | the shared memory pool and the manager of three pools, driven by one thread |
| `PoolSteps.dfy` | the same pool under any interleaving of any number of threads |
| `PoolMisses.dfy` | runs from a fresh pool in which an allocation misses a free block |
| `Circular.dfy`, `SpscRing.dfy` | the power-of-two ring with one producer and one consumer |
| `RingLength.dfy` | the length of that ring, read while the threads work |
| `SimdCopy.dfy`, `U64Codec.dfy` | the chunked copy, zero, compare and add loops; the batch codec |
| `ByteRing.dfy` | the wrap-around byte buffer with one writer and one reader, with an exact or the real copy |
| `ByteRingHarm.dfy` | when a write with the real copy keeps the byte stream whole, and when it does not |
| `MappedBuffer.dfy` | the byte buffer driven by one thread |
| `ResultCollection.dfy`, `ParallelSubmission.dfy` | the result collector, alone and as a protocol |
| `GasFee.dfy`, `TaskSelection.dfy` | the fee table, and which transactions a trade submits |

Amounts are natural numbers with an explicit bound. A `+`, `-` or `*` that leaves its width is an
`Overflow` (or `None`) outcome: a build with overflow checks panics there, a build without them goes on
with a wrapped value that the model does not follow. A cast `as u64` keeps the low 64 bits and is never
assumed to be lossless. Words with bit operations are natural numbers with recursive `And` and `Or`, not
bit-vectors. Concurrency is a state machine: each atomic load, compare-and-swap, store, push or pop, each
slot write and each copied byte is one step, local copies may be stale, and every theorem about a run is
about every interleaving. Fields named `ghost...` in a machine state only record which stream position a
loaded counter stood for.

## What the proofs bring out

- The bonding curve is solvent over every run from its initial reserves and never pays for a sequence of
  trades. Splitting a purchase or a sale into k parts never gains, and loses at most k - 1 units.
- `buy_base_input_internal` and `sell_quote_input_internal` cast 128-bit results to 64 bits without a
  check; `BuyCastFits`, `SellCastFits` and `RawCastFits` say on the inputs when the value survives, and
  each fails on an accepted input (`CutPurchaseIsAccepted`, `CutSaleCanFail`, `CutRawQuoteIsAccepted`).
  That the quoted amount is the least one, that paying it delivers the base, and that the product of the
  reserves is kept hold exactly when the casts fit. That a sale pays back what was asked for, up to the
  slack, is weaker: it holds if both casts fit and fails if the raw quote is cut. If the base amount is
  cut, the gross output falls short of the raw quote and the net stays below what was asked for; whether
  that is still within the slack is decided on the reserves (`PaysShort`), and both happen
  (`CutSaleCanStillPay`, `CutSaleCanFail`). The other two quotes never lose anything.
- Selling more can net less: exactly when the gross output grows by no more than the slack and passes a
  multiple of 2000 from the right place (`LargerGrossNetsLess`).
- At or below the dust limit the PumpFun quote is a constant that looks at no reserve, so it can ask for
  more than the real reserve (`BuyAmountAgainstCurve`, `DustQuoteCanExceedReserve`).
- `calculate_with_slippage_sell` returns 1 for an amount of 0, which no sale of 0 can meet.
- A solo allocation fails exactly when no block is free. Among other threads, a scan that comes back
  empty-handed leaves free precisely the blocks put back behind it and not claimed again. From a fresh
  pool it can come back so with some block free at every moment exactly when the pool has more than 64
  blocks and more than one thread uses it (`ScanCanMissAFreeBlock`).
- The dispatching copy may move up to 31 bytes more than asked, and the byte ring takes it at its word.
  The stream stays whole in every run whose accepted writes are clean, and from any quiet state a write
  that is not clean can be filled so that it does harm (`WriteIsSafeIffClean`). A fresh buffer gets there by clean
  writes and reads alone (`ShortWriteCanDestroyUnreadBytes`). A read, too, can overwrite what lies behind
  the caller's slice; it does not exactly when its copies reach no further than the slice
  (`ReadStaysInSlice`).
- The ring's length is right when the producer or the consumer asks. A third thread can be told that an
  empty ring is full, in every ring that can hold anything (`ThirdThreadCanMisread`).
- The dispatching comparison looks at eight bytes for lengths 5 to 7.
- Waiting for a success can answer "failed" with a successful result among those it drained, exactly when
  the tasks include both a landed failure and a success (`VerdictCanMislead`). A waiter
  that goes back to sleep with a success flagged cannot (`FlaggedSuccessIsReported`). The comment at
  `src/trading/core/async_executor.rs:110-111` says that the other channels cannot succeed once one
  transaction landed and failed; the collector's code does not depend on that, and the model follows
  the code.

## Model

| member | source | states |
|---|---|---|
| MachineInts.CastKeepsLowBits | src/utils/calc/pumpswap.rs:86 | a value cut by `as u64` differs from itself by a multiple of 2^64, and one that fits is kept |
| Rounding.CeilAdjoint | src/utils/calc/common.rs:27-29 | the ceiling quotient is the least k with a <= k * b |
| Rounding.CeilSubadditive | src/utils/calc/common.rs:13-29 | rounding a sum up costs at most as much as rounding its parts up |
| Rounding.FeeIsShareRoundedUp | src/utils/calc/common.rs:13-29 | the fee is the one amount that covers the rate's share by less than a unit |
| Rounding.SellFloorIsReachable | src/utils/calc/common.rs:61-67 | the seller's floor lies at or below the amount exactly when the amount is not 0 |
| Rounding.SlippageLimits | src/utils/calc/common.rs:44-67 | each limit lies off the amount by its slippage share rounded down; the one-unit floor replaces it exactly when stated |
| Rounding.SlippageExists | src/utils/calc/common.rs:44-67 | exactly when each limit stays in 64 bits |
| Rounding.SlippageBrackets | src/utils/calc/common.rs:44-67 | up to 100% slippage and without 64-bit overflow both limits exist, bracket the amount and lie equally far from it |
| Rounding.OutIsLargest | src/utils/calc/pumpswap.rs:141-148 | the output formula pays the most that does not lower the product of the reserves |
| Rounding.OutIsPartial | src/utils/calc/pumpswap.rs:141-148 | the output is strictly below a non-empty reserve |
| Rounding.InIsLeast | src/utils/calc/pumpswap.rs:79-86 | the input formula asks for the least that does not lower the product |
| Rounding.SwapAdjunction | src/utils/calc/pumpswap.rs:79-148 | a payment buys an amount exactly when it covers the cost of that amount |
| BondingCurve.TokensAfterBuyIsLeast | src/common/bonding_curve.rs:153-160 | the reserve left by `n / i + 1` is the least that makes the product strictly larger, and it exceeds the reserve only if that is empty |
| BondingCurve.BuyQuoteIsLargestSafePayout | src/common/bonding_curve.rs:144-168 | a buy quote exists exactly when virtual tokens remain; it is the largest payout within the real reserve that strictly raises the product |
| BondingCurve.SellQuoteIsLargestSafePayout | src/common/bonding_curve.rs:179-197 | the fee-free sell quote is the largest payout that does not lower the product |
| BondingCurve.SellFeeOutcome | src/common/bonding_curve.rs:192-196 | what the fee takes is its share of the gross quote rounded down; up to 100% it is always charged, and a higher one underflows exactly when it exceeds the gross amount |
| BondingCurve.QuoteEdges | src/common/bonding_curve.rs:145-186 | a completed curve, and only that, quotes nothing at all; an amount of 0 is quoted 0 |
| BondingCurve.TradesGoThrough | src/common/bonding_curve.rs:87-90 | exactly when a trade on the curve goes through; virtual and real reserves move by the same amounts |
| BondingCurve.StepKeepsProduct | src/common/bonding_curve.rs:153-196 | no trade lowers the product of the virtual reserves and a non-empty buy raises it |
| BondingCurve.RunKeepsProduct | src/common/bonding_curve.rs:144-197 | the same over every sequence of trades |
| BondingCurve.NoArbitrage | src/common/bonding_curve.rs:144-197 | whoever ends with no fewer tokens has paid in at least the SOL taken out, strictly more after a buy |
| BondingCurve.RoundTripLoses | src/common/bonding_curve.rs:144-197 | selling everything that `amount` bought returns at most `amount - 1` |
| BondingCurve.SoundCurvePays | src/common/bonding_curve.rs:179-197 | in a sound curve any part of the outstanding supply sells for SOL really held |
| BondingCurve.StepKeepsSound | src/common/bonding_curve.rs:87-90 | a covered trade keeps the reserves' distances and the product bound, and stops only at a buy past 64 bits |
| BondingCurve.EveryRunIsSolvent | src/common/bonding_curve.rs:144-197 | solvency over every run of covered trades from a sound curve; a run stops exactly at a buy that does not fit 64 bits, and never if all buys together fit |
| BondingCurve.DevTradeIsFirstBuy | src/common/bonding_curve.rs:70-97 | the account written for a developer's first trade is the one that buy makes from the initial reserves, and it is sound |
| BondingCurve.DevTradeMovesReserves | src/common/bonding_curve.rs:70-97 | for any first trade the token reserves lose and the SOL reserves gain its amounts; the account is sound exactly when the tokens are no more than a constant-product swap pays |
| BondingCurve.BuysLand | src/common/bonding_curve.rs:144-168 | where a run of buys ends, and how far rounding carries it above the old product |
| BondingCurve.SplittingNeverHelps | src/common/bonding_curve.rs:144-168 | buying in parts yields at most the quote of the sum, and at most one unit less per extra part, with the real-reserve cap |
| BondingCurve.SalesLand | src/common/bonding_curve.rs:179-197 | where a run of sales ends, and how far rounding carries it above the old product |
| BondingCurve.SplittingASaleNeverHelps | src/common/bonding_curve.rs:179-197 | selling in parts pays at most the quote of the sum, and at most one lamport less per extra part |
| PumpFunCalc.BuyPricesAgree | src/instruction/utils/pumpfun.rs:260-277 | the three copies of the buy price agree on the same reserves, underflow included |
| PumpFunCalc.StrippedInputIsLargest | src/utils/calc/pumpfun.rs:43-47 | the stripped input is the largest amount that fits in the payment with its rounded-up fee |
| PumpFunCalc.SwapAgainstCurve | src/utils/calc/pumpfun.rs:49-52 | the swap gives what the curve leaves out, plus one exactly when the curve's division has no remainder |
| PumpFunCalc.BuyQuoteAtItsRate | src/utils/calc/pumpfun.rs:21-65 | a purchase swaps the largest input that leaves 0.95% of it, or 1.25% with a creator, in the payment; it is quoted the largest payout for that, or one of two constants on the two sides of 0.01 SOL; and exactly when it is quoted at all |
| PumpFunCalc.SellQuoteAtItsRate | src/utils/calc/pumpfun.rs:79-110 | a sale is quoted the largest payout less 0.95%, or 1.25% with a creator, rounded up, the 128-bit fallbacks included |
| PumpFunCalc.BuyAmountAgainstCurve | src/utils/calc/pumpfun.rs:21-65 | above the dust limit the quote is the curve's or one more, and when which; below it the constant, and when that fits the real reserve |
| PumpFunCalc.DustQuoteCanExceedReserve | src/utils/calc/pumpfun.rs:56-62 | a payment whose quote exceeds the real reserve |
| PumpFunCalc.SellAmountAgainstCurve | src/utils/calc/pumpfun.rs:79-110 | the sale quote is the curve's or one lamport less, and when which; the drained curve is told apart |
| PumpFunCalc.OverflowingSale | src/utils/calc/pumpfun.rs:97-100 | what the fallbacks quote when the product or the denominator leaves 128 bits |
| PumpFunCalc.FeeRoundedUpAgainstDown | src/utils/calc/pumpfun.rs:107-109 | the two fee roundings differ by one exactly when the fee is not whole, and never exceed the amount |
| PumpSwap.FeeBounds | src/utils/calc/pumpswap.rs:187-197 | separately rounded fees exceed the exact rate by less than one unit each |
| PumpSwap.FeesExceed | src/utils/calc/pumpswap.rs:197-200 | the fees exceed the gross amount exactly on 1, or 1 to 2 with a creator |
| PumpSwap.NetAlmostMonotone | src/utils/calc/pumpswap.rs:187-201 | a larger gross never nets more than 1, or 2, units less |
| PumpSwap.LargerGrossNetsLess | src/utils/calc/pumpswap.rs:187-201 | exactly when a larger gross nets less: it grows by at most the slack and passes a multiple of 2000 as stated |
| PumpSwap.NetDrops | src/utils/calc/pumpswap.rs:187-201 | the bound is attained exactly on the step right behind a multiple of 2000, for example from 2000 to 2001 |
| PumpSwap.SellBaseFeeError | src/utils/calc/pumpswap.rs:171-211 | the sale is refused for its fees exactly on those gross outputs; otherwise gross and net are the uncut formula's |
| PumpSwap.LimitsAreOnTheUserAmount | src/utils/calc/pumpswap.rs:100-272 | each limit lies off the amount the user sees by its slippage share rounded down, or is the one-unit floor exactly when stated; the effective quote survives its cast |
| PumpSwap.UserAmountCarriesFees | src/utils/calc/pumpswap.rs:89-201 | what the user pays or is paid differs from the swapped amount by three fees of 25, 5 and, with a creator, 5 basis points, each rounded up on its own |
| PumpSwap.QuotesAreAccepted | src/utils/calc/pumpswap.rs:64-275 | exactly when each of the four quotes is accepted |
| PumpSwap.PayoutsAreLargest | src/utils/calc/pumpswap.rs:121-201 | the two output quotes pay the most that does not lower the product |
| PumpSwap.CutAmountsKeepLowBits | src/utils/calc/pumpswap.rs:64-275 | an amount that does not fit is quoted as its low 64 bits |
| PumpSwap.ReserveRefusals | src/utils/calc/pumpswap.rs:71-265 | exactly when the two inverse quotes are refused for the reserves; a sale is refused last for the amounts the reserve less one unit cannot net |
| PumpSwap.BuyCast | src/utils/calc/pumpswap.rs:86 | the condition on the inputs under which the cast of a purchase keeps its value |
| PumpSwap.BuyBaseIsLeastPayment | src/utils/calc/pumpswap.rs:64-148 | the internal quote is the least effective payment that buys `base`, exactly when the cast fits |
| PumpSwap.EffectiveIsLargest | src/utils/calc/pumpswap.rs:131-138 | the effective quote is the largest amount whose exact fee still fits in the payment |
| PumpSwap.PayingTheQuoteDelivers | src/utils/calc/pumpswap.rs:64-158 | paying the quoted price buys at least `base`, exactly when the cast fits |
| PumpSwap.QuotingThePurchase | src/utils/calc/pumpswap.rs:64-158 | quoting what a payment bought gives at most 1, or 2, units more than was paid, and nothing is cut |
| PumpSwap.SellCast | src/utils/calc/pumpswap.rs:267-269 | the condition under which the cast of the base amount keeps its value |
| PumpSwap.RawCast | src/utils/calc/pumpswap.rs:216-227 | the condition under which the cast of the raw quote keeps its value |
| PumpSwap.SellQuoteIsLeastBase | src/utils/calc/pumpswap.rs:240-275 | the quoted base is the least whose gross output reaches the raw quote, exactly when its cast fits |
| PumpSwap.SellingTheQuotePays | src/utils/calc/pumpswap.rs:171-275 | for wanted amounts from 2 on: pays up to 1, or 2, units short if both casts fit, and fails if the raw quote is cut; if the base is cut the gross falls short of the raw quote, the net of the wanted amount, and it pays exactly if the cut base sells on the reserves for one of the few gross amounts just below whose net is enough |
| PumpSwap.CutSaleCanStillPay | src/utils/calc/pumpswap.rs:267-269 | an accepted sale with a cut base amount that pays within the slack |
| PumpSwap.CutSaleCanFail | src/utils/calc/pumpswap.rs:267-269 | an accepted sale whose base amount is cut to 0 |
| PumpSwap.CutRawQuoteIsAccepted | src/utils/calc/pumpswap.rs:225-226 | an accepted sale whose raw quote is cut |
| PumpSwap.CutPurchaseIsAccepted | src/utils/calc/pumpswap.rs:86 | an accepted purchase that is quoted at 0 |
| PumpSwap.SmallestSales | src/utils/calc/pumpswap.rs:171-275 | for wanted amounts 0 and 1, cut or not, exactly which reserves make the quoted sale pay |
| PumpSwap.QuotedSwapsGoThrough | src/utils/calc/pumpswap.rs:64-275 | a quoted swap is covered by the reserve it takes from, whichever quote it is |
| PumpSwap.SwapKeepsProduct | src/utils/calc/pumpswap.rs:64-275 | each of the four quotes keeps base times quote exactly when its casts fit, and never empties a reserve |
| PumpSwap.SwapsNeverPay | src/utils/calc/pumpswap.rs:64-275 | over any sequence of swaps the product never falls and no side can be drained for free |
| Bits.LowestSetBit | src/perf/zero_copy_io.rs:104 | the trailing-zero count names the lowest set bit |
| Bits.ClearBitClears | src/perf/zero_copy_io.rs:105-110 | `current & !mask` clears that bit and no other |
| Bits.SetBitSets | src/perf/zero_copy_io.rs:164-168 | `fetch_or(mask)` sets that bit and no other |
| Bits.MaskIsRemainder | src/perf/hardware_optimizations.rs:360-364 | masking with 2^k - 1 is the remainder modulo 2^k |
| Bits.MaskedIsMask | src/perf/hardware_optimizations.rs:200-201 | a masked lane mask is full exactly when all its lanes are set |
| Bits.AlignUp64IsLeast | src/perf/zero_copy_io.rs:51 | the aligned block size is the least multiple of 64 that holds the size |
| Bits.CountOnesCounts | src/perf/zero_copy_io.rs:175 | the population count is the number of set bits |
| BlockBitmap.ClaimedShrinks | src/perf/zero_copy_io.rs:108-116 | claiming a bit takes exactly its block out of the free set |
| BlockBitmap.ReleasedGrows | src/perf/zero_copy_io.rs:162-168 | releasing a bit adds exactly its block |
| BlockBitmap.ClaimReleaseInverse | src/perf/zero_copy_io.rs:91-170 | releasing a claimed block, and claiming a released one, restores the bitmap word for word |
| BlockBitmap.InitialIsAllFree | src/perf/zero_copy_io.rs:60-74 | the initial words mark exactly the blocks of the pool as free, also when the last word is partial |
| BlockBitmap.PopCountIsFreeCount | src/perf/zero_copy_io.rs:173-177 | the summed population counts are the number of free blocks |
| BlockBitmap.FreeAndTaken | src/perf/zero_copy_io.rs:173-177 | free and taken blocks add up to the total |
| BlockPool.SharedMemoryPool.New | src/perf/zero_copy_io.rs:49-87 | the aligned block size, the block count and a bitmap with every block free |
| BlockPool.SharedMemoryPool.constructor | src/perf/zero_copy_io.rs:60-86 | the bitmap the loop writes frees exactly the pool's blocks |
| BlockPool.SharedMemoryPool.AllocateBlock | src/perf/zero_copy_io.rs:91-152 | whatever the hint, None exactly when nothing is free; otherwise the lowest free block of the first word that has one, going around from the hint, is taken and nothing else changes |
| BlockPool.SharedMemoryPool.DeallocateBlock | src/perf/zero_copy_io.rs:156-170 | the block's bit is set; a block of another pool or past the bitmap is ignored |
| BlockPool.SharedMemoryPool.AvailableBlocks | src/perf/zero_copy_io.rs:173-177 | the number of free blocks; with the live ones it makes the total |
| BlockPool.LowestBitOfWord | src/perf/zero_copy_io.rs:102-116 | the lowest set bit of a word is its lowest free block |
| BlockPool.NothingLeft | src/perf/zero_copy_io.rs:96-151 | a scan that found every word exhausted has seen the whole pool |
| BlockPool.BlocksAreDisjoint | src/perf/zero_copy_io.rs:123-128 | blocks occupy disjoint byte ranges inside the mapped region |
| BlockPool.PoolForIsTightest | src/perf/zero_copy_io.rs:601-607 | a request goes to the pool with the smallest blocks that hold it, or to the last one |
| BlockPool.ZeroCopyMemoryManager.New | src/perf/zero_copy_io.rs:564-595 | pools of 16384 blocks of 64 KiB, 4096 of 1 MiB and 512 of 16 MiB, with nothing live |
| BlockPool.ZeroCopyMemoryManager.Allocate | src/perf/zero_copy_io.rs:599-615 | which pool serves a size, and where the block lies; it is large enough exactly up to 16 MiB; the counters keep matching the live blocks; the other pools are untouched |
| BlockPool.ZeroCopyMemoryManager.Deallocate | src/perf/zero_copy_io.rs:619-625 | the block is free again; the counters keep matching exactly when it was live |
| PoolSteps.StepKeepsInv | src/perf/zero_copy_io.rs:91-170 | every step of every thread leaves each block free, live or inside one thread, and in one place only |
| PoolSteps.RunKeepsInv | src/perf/zero_copy_io.rs:91-170 | the same over every interleaving |
| PoolSteps.PoolIsSafe | src/perf/zero_copy_io.rs:114-121 | a claimed block is always inside the pool, so the repair branch is never taken; no block is in two hands; no bit past the last block is set |
| PoolSteps.LiveBytesAreDisjoint | src/perf/zero_copy_io.rs:123-141 | live blocks occupy disjoint ranges within the region under every interleaving |
| PoolSteps.QuietPoolIsPartitioned | src/perf/zero_copy_io.rs:91-177 | with all threads idle free bits and live blocks partition the pool and the counts add up |
| PoolSteps.StepRefinesFreeSet | src/perf/zero_copy_io.rs:91-170 | seen as a set, a step changes nothing, takes one free block out or puts one back |
| PoolSteps.EmptyHandedLeavesBehind | src/perf/zero_copy_io.rs:96-151 | after a scan without a block the free set is precisely the blocks put back behind it and not claimed again |
| PoolSteps.EmptyHandedMeansEmpty | src/perf/zero_copy_io.rs:96-151 | so if none is put back in a word already passed, coming back without a block means the pool is empty |
| PoolMisses.SoloAllocate | src/perf/zero_copy_io.rs:91-152 | an undisturbed allocation from a pool with a free block takes one, step by step |
| PoolMisses.Drain | src/perf/zero_copy_io.rs:91-152 | one thread alone can empty the pool |
| PoolMisses.ReachPoised | src/perf/zero_copy_io.rs:91-170 | one thread reaches, from a fresh pool of more than 64 blocks, the state the miss starts in |
| PoolMisses.MissFromPoised | src/perf/zero_copy_io.rs:96-151 | from there, with a second thread at work, a whole allocation comes back empty-handed with some block free in every state |
| PoolMisses.OneWordNeverMisses | src/perf/zero_copy_io.rs:96-151 | in a pool of at most 64 blocks that never happens |
| PoolMisses.LoneThreadNeverMisses | src/perf/zero_copy_io.rs:96-151 | nor with a single thread |
| PoolMisses.ScanCanMissAFreeBlock | src/perf/zero_copy_io.rs:96-151 | from a fresh pool it can happen exactly when there are more than 64 blocks and more than one thread |
| SpscRing.SlotIsRemainder | src/perf/hardware_optimizations.rs:364 | the masked counter is the count modulo the capacity, also after the counter wraps |
| SpscRing.LooksFullMeans | src/perf/hardware_optimizations.rs:360 | the full test fires exactly with capacity - 1 items between the counts |
| SpscRing.StepKeepsInv | src/perf/hardware_optimizations.rs:357-387 | every step of either thread keeps counters, slots and both streams consistent |
| SpscRing.RunKeepsInv | src/perf/hardware_optimizations.rs:357-387 | the same over every interleaving |
| SpscRing.RingIsFifo | src/perf/hardware_optimizations.rs:357-387 | pops return a prefix of the pushes, whole and in order; at most capacity - 1 wait; no slot is read while written |
| SpscRing.RefusalsAreTrue | src/perf/hardware_optimizations.rs:358-379 | a push is refused exactly if the ring was full when the tail was loaded, a pop exactly if it was empty when the head was loaded |
| SpscRing.AccessesStayInBounds | src/perf/hardware_optimizations.rs:363-384 | no access ever leaves the buffer |
| SpscRing.LenCounts | src/perf/hardware_optimizations.rs:391-395 | between operations the length is the number of waiting items |
| RingLength.LenIsCongruent | src/perf/hardware_optimizations.rs:391-395 | whatever the two counters, the length is congruent to the difference of their counts |
| RingLength.ReportedLength | src/perf/hardware_optimizations.rs:357-395 | in every interleaving the producer reads the length at its load of the tail, the consumer that at its load of the head, and a third thread the former exactly when the pushes in between are a multiple of the capacity |
| RingLength.UndisturbedLength | src/perf/hardware_optimizations.rs:391-395 | whoever asks between its own operations is told the number of waiting items, if nothing happens between the two loads |
| RingLength.EmptyRingReadsFull | src/perf/hardware_optimizations.rs:391-395 | a run in which a third thread is told that an empty ring is full |
| RingLength.ThirdThreadCanMisread | src/perf/hardware_optimizations.rs:391-395 | a third thread can be told a length that held at neither load exactly when the capacity exceeds 1 |
| SpscRing.CacheOptimizedRingBuffer.New | src/perf/hardware_optimizations.rs:338-353 | a ring exists exactly for powers of two, and starts empty |
| SpscRing.CacheOptimizedRingBuffer.TryPush | src/perf/hardware_optimizations.rs:357-370 | appends the item, or refuses exactly when capacity - 1 items wait |
| SpscRing.CacheOptimizedRingBuffer.TryPop | src/perf/hardware_optimizations.rs:374-387 | takes the oldest item, or none exactly when none waits |
| SpscRing.CacheOptimizedRingBuffer.Length | src/perf/hardware_optimizations.rs:391-395 | the number of waiting items |
| SimdCopy.CopyAvx2 | src/perf/simd.rs:19-34 | exactly the requested bytes are copied, for every length |
| SimdCopy.ZeroAvx2 | src/perf/simd.rs:83-98 | exactly the requested bytes are zeroed |
| SimdCopy.FullMaskMeansEqual | src/perf/simd.rs:53-58 | the comparison mask is all ones exactly when every lane is equal |
| SimdCopy.CompareAvx2 | src/perf/simd.rs:46-71 | true exactly when the requested bytes are equal |
| SimdCopy.AddU64Batch | src/perf/simd.rs:115-136 | every element is the sum of its operands, less 2^64 exactly when that does not fit |
| SimdCopy.OverrunBounds | src/perf/hardware_optimizations.rs:25-156 | the copy covers the request and runs at most 31 bytes past it; the lengths at which it stops exactly |
| SimdCopy.MovesLeastWidth | src/perf/hardware_optimizations.rs:25-156 | the copy moves the least number of bytes that covers the request among 0 to 4, 8, 16 and the multiples of 32 |
| SimdCopy.OverrunStaysInBlock | src/perf/zero_copy_io.rs:219-232 | writing what fits into a block never leaves the block |
| SimdCopy.MemcpySmall | src/perf/hardware_optimizations.rs:38-55 | lengths 1 to 8 move their bytes, lengths 5 to 8 a whole word |
| SimdCopy.MemcpyLargeAvx512 | src/perf/hardware_optimizations.rs:121-141 | 64-byte chunks and a rest move whole 32-byte chunks that cover the length |
| SimdCopy.MemcpyLargeFallback | src/perf/hardware_optimizations.rs:143-156 | 32-byte chunks and a rest do the same |
| SimdCopy.MemcpySimdOptimized | src/perf/hardware_optimizations.rs:25-34 | the requested prefix is copied for every length, and exactly the stated bytes are touched |
| SimdCopy.MemcmpLanes | src/perf/hardware_optimizations.rs:188-228 | one masked vector comparison answers for its first `len` lanes |
| SimdCopy.MemcmpLarge | src/perf/hardware_optimizations.rs:232-248 | the chunked comparison answers for all requested bytes |
| SimdCopy.MemcmpSimdOptimized | src/perf/hardware_optimizations.rs:160-184 | true exactly when the requested bytes are equal, or the first eight for lengths 5 to 7 |
| SimdCopy.MemcmpIsExact | src/perf/hardware_optimizations.rs:172-184 | those are the requested bytes, as far as any two buffers can tell, exactly when the length is not 5, 6 or 7 |
| U64Codec.SerializeU64Batch | src/perf/simd.rs:189-197 | the loop produces the serialised form |
| U64Codec.DeserializeU64Batch | src/perf/simd.rs:201-221 | the loop produces the integer of every whole group |
| U64Codec.BytesAreLittleEndian | src/perf/simd.rs:189-197 | byte k of element i is its digit of weight 256^k |
| U64Codec.DeserializeSerialized | src/perf/simd.rs:189-221 | reading back what was written gives the list |
| U64Codec.SerializeDeserialized | src/perf/simd.rs:189-221 | writing back what was read gives the longest prefix whose length is a multiple of 8 |
| ByteRing.DataAndSpace | src/perf/zero_copy_io.rs:391-406 | data and space add up to the size less one, for any two positions |
| ByteRing.CleanPlan | src/perf/zero_copy_io.rs:301-326 | a clean write touches consecutive slots that are not waiting to be read, across any split |
| ByteRing.ReadPlan | src/perf/zero_copy_io.rs:358-380 | across any split each byte of a read comes from the slot of its stream position, and no later copy overwrites it |
| ByteRing.StepKeepsInv | src/perf/zero_copy_io.rs:283-385 | every step of writer or reader, with either copy, keeps positions, memory and both streams consistent, provided an accepted write is clean |
| ByteRing.CleanStreamHolds | src/perf/zero_copy_io.rs:283-406 | with the real copy, bytes read are a prefix of bytes written and nothing behind the buffer changes, in every interleaving whose accepted writes are clean as observed |
| ByteRing.StreamIsPreserved | src/perf/zero_copy_io.rs:283-406 | with a copy of exactly the requested bytes that holds in every interleaving, and the positions measure the difference |
| ByteRing.RefusalsAreTrue | src/perf/zero_copy_io.rs:286-356 | a write fails exactly when it exceeds the observed space; a read takes the lesser of the request and the observed data |
| ByteRing.CopiesStayInBounds | src/perf/zero_copy_io.rs:301-380 | no copy leaves memory or gets stuck |
| ByteRingHarm.CleanWriteIsExact | src/perf/zero_copy_io.rs:301-324 | being clean means touching neither unread bytes nor what lies past the buffer |
| ByteRingHarm.WholeWrite | src/perf/zero_copy_io.rs:283-332 | an undisturbed write that fits runs to the end, and what it leaves in memory |
| ByteRingHarm.WholeRead | src/perf/zero_copy_io.rs:336-387 | an undisturbed read of waiting bytes runs to the end |
| ByteRingHarm.UncleanWriteHarms | src/perf/zero_copy_io.rs:294-332 | from any quiet state an accepted write that is not clean can be filled so that it writes behind the buffer or the next read returns a byte never written there |
| ByteRingHarm.WriteIsSafeIffClean | src/perf/zero_copy_io.rs:283-332 | from any quiet state a write of a given length keeps the stream whole, whatever its bytes and however the reader interleaves, exactly when it is clean |
| ByteRingHarm.ShortWriteCanDestroyUnreadBytes | src/perf/zero_copy_io.rs:283-387 | a run from a fresh buffer, clean up to an accepted write of five bytes, after which a read returns a byte never written |
| MappedBuffer.CopyIn | src/perf/zero_copy_io.rs:301-326 | the one or two copies of a write leave in memory what the copying steps of the concurrent writer leave |
| MappedBuffer.CopyOut | src/perf/zero_copy_io.rs:358-380 | what the one or two copies of a read leave in the caller's memory, byte for byte |
| MappedBuffer.ReadDelivers | src/perf/zero_copy_io.rs:358-380 | the requested bytes stand in the destination in order |
| MappedBuffer.ReadStaysInSlice | src/perf/zero_copy_io.rs:336-380 | a read leaves memory outside the caller's slice alone, whatever it holds, exactly when its copies reach no further than the slice |
| MappedBuffer.ShortReadOverwrites | src/perf/zero_copy_io.rs:352-363 | five bytes read into a slice of five overwrite three bytes behind it |
| MappedBuffer.CleanReadIsExact | src/perf/zero_copy_io.rs:358-380 | exactly when the loads of a read stay inside the buffer |
| MappedBuffer.MemoryMappedBuffer.constructor | src/perf/zero_copy_io.rs:264-279 | an empty buffer |
| MappedBuffer.MemoryMappedBuffer.WriteData | src/perf/zero_copy_io.rs:283-332 | accepted exactly when it fits; memory is then that of the copying steps; a clean write appends its bytes and touches nothing behind the buffer |
| MappedBuffer.MemoryMappedBuffer.ReadData | src/perf/zero_copy_io.rs:336-387 | moves the oldest bytes, as many as were asked for or wait; the caller's memory is then exactly that of the copies, and nothing outside the slice changes if they stay within it |
| MappedBuffer.MemoryMappedBuffer.AvailableDataNow | src/perf/zero_copy_io.rs:391-400 | the number of waiting bytes |
| MappedBuffer.MemoryMappedBuffer.AvailableSpaceNow | src/perf/zero_copy_io.rs:404-406 | the number of bytes that can still be written |
| ResultCollection.GatherAllMeans | src/trading/core/async_executor.rs:154-174 | a drain lists every signature in order, knows whether any succeeded and ends with the last error that counts |
| ResultCollection.VerdictOnAnyState | src/trading/core/async_executor.rs:90-152 | for any flags and any queue: exactly when a poll answers, with success or not, with which signatures and which error |
| ResultCollection.UndisturbedVerdictIsHonest | src/trading/core/async_executor.rs:90-145 | without interference success wins, whatever else is flagged, and which error goes with a failure |
| ResultCollection.ResultCollector.constructor | src/trading/core/async_executor.rs:63-71 | an empty collector |
| ResultCollection.ResultCollector.Submit | src/trading/core/async_executor.rs:73-88 | the whole new state: the result queued if there is room, the flag it raises, the count |
| ResultCollection.ResultCollector.DrainQueue | src/trading/core/async_executor.rs:112-121 | popping until the queue is empty gathers all of it |
| ResultCollection.ResultCollector.GetFirst | src/trading/core/async_executor.rs:154-174 | None exactly for an empty queue, else its signatures, whether any succeeded and the last error |
| ResultCollection.ResultCollector.WaitForSuccess | src/trading/core/async_executor.rs:90-152 | with nobody else at work, however often it polls, the verdict on the state it found, and what is left in the queue |
| ParallelSubmission.NoPushIsDropped | src/trading/core/async_executor.rs:65-78 | the queue has room for every task that has not pushed yet |
| ParallelSubmission.StepKeepsInv | src/trading/core/async_executor.rs:73-188 | every step keeps the flags, the count and the queue exact: popped and waiting tasks are those that pushed, each once |
| ParallelSubmission.DrainedEnough | src/trading/core/async_executor.rs:96-144 | a drain always holds what its flag promised, so every drain returns |
| ParallelSubmission.SubmitIsThreeSteps | src/trading/core/async_executor.rs:73-88 | an uninterrupted submit has the effect of the sequential one |
| ParallelSubmission.WaiterIsNeverStuck | src/trading/core/async_executor.rs:90-188 | the waiter can always move until it has returned |
| ParallelSubmission.WaiterCanReturn | src/trading/core/async_executor.rs:90-188 | from every state the waiter can return by its own steps alone, at the latest by its deadline |
| ParallelSubmission.OutcomesAreTruthful | src/trading/core/async_executor.rs:90-188 | every outcome lists each drained task once and claims success only if one of them succeeded; none is given only after a timeout |
| ParallelSubmission.AllSubmittedIsComplete | src/trading/core/async_executor.rs:127-188 | having seen the full count, the waiter returns every task exactly once, success exactly if some task succeeded, and the last error |
| ParallelSubmission.WaitForSuccessOutcomes | src/trading/core/async_executor.rs:90-152 | what each branch answers: success without an error, failure with a landed task's error, or nothing |
| ParallelSubmission.FlaggedSuccessIsSeen | src/trading/core/async_executor.rs:96-108 | a poll that starts after a success was flagged takes the success branch |
| ParallelSubmission.SeenSuccessIsReported | src/trading/core/async_executor.rs:96-108 | once the success flag was seen the waiter can only return a success without an error |
| ParallelSubmission.FlaggedSuccessIsReported | src/trading/core/async_executor.rs:95-151 | a waiter that goes back to sleep with a success flagged returns a success, in every interleaving |
| ParallelSubmission.PollReportsSuccess | src/trading/core/async_executor.rs:95-108 | the same for the first poll, or any other |
| ParallelSubmission.FlaggedLandedIsReported | src/trading/core/async_executor.rs:95-151 | one that goes back to sleep with a landed failure flagged returns an answer, never the deadline's none |
| ParallelSubmission.CountedTasksAreReported | src/trading/core/async_executor.rs:95-187 | one that sleeps, in either way of waiting, with every task counted returns every task, and success exactly if some task succeeded |
| ParallelSubmission.WaiterAloneRefinesCollector | src/trading/core/async_executor.rs:90-188 | every run of the waiter alone returns what the sequential collector returns on the state it starts from |
| ParallelSubmission.CollectorIsFaithful | src/trading/core/async_executor.rs:63-188 | over every interleaving no result is lost and every answer is accounted for |
| ParallelSubmission.LandedFailureHidesSuccess | src/trading/core/async_executor.rs:96-125 | a run, for any landed failure and any success, that drains both and answers with a failure |
| ParallelSubmission.VerdictCanMislead | src/trading/core/async_executor.rs:90-152 | waiting for success can answer against the drained results exactly when the tasks hold both a landed failure and a success |
| GasFee.CallsKeepExclusive | src/common/gas_fee_strategy.rs:39-352 | no sequence of completed calls breaks exclusivity for a pair, so it holds at most two entries |
| GasFee.FeesStayExclusive | src/common/gas_fee_strategy.rs:33-352 | whatever completed calls lead from the empty table, it is exclusive everywhere |
| GasFee.EffectIsOnTable | src/common/gas_fee_strategy.rs:39-352 | the effect of every call, stated for pairs, is exactly what it does to each entry of the table: what it stores there, with which limit, price and tip, what it removes, and that the rest stays |
| GasFee.GasFeeStrategy.constructor | src/common/gas_fee_strategy.rs:33-35 | an empty table |
| GasFee.GasFeeStrategy.Set | src/common/gas_fee_strategy.rs:214-237 | the pair gets the entry and loses the ones it excludes; all other pairs keep theirs |
| GasFee.GasFeeStrategy.Del | src/common/gas_fee_strategy.rs:253-264 | exactly that entry is gone |
| GasFee.GasFeeStrategy.DelAll | src/common/gas_fee_strategy.rs:241-249 | exactly that pair's entries are gone |
| GasFee.GasFeeStrategy.SetGlobalFeeStrategy | src/common/gas_fee_strategy.rs:39-85 | every provider has one normal entry for buys and sells, the default one with tip 0; other trades are untouched |
| GasFee.GasFeeStrategy.SetHighLowFeeStrategies | src/common/gas_fee_strategy.rs:89-118 | the listed providers have exactly the low-tip and high-tip entries, the default one included |
| GasFee.GasFeeStrategy.SetHighLowFeeStrategy | src/common/gas_fee_strategy.rs:122-152 | the same for one provider, except that the default one is left alone |
| GasFee.GasFeeStrategy.SetNormalFeeStrategies | src/common/gas_fee_strategy.rs:156-184 | the listed providers have exactly one normal entry for buys and for sells |
| GasFee.GasFeeStrategy.SetNormalFeeStrategy | src/common/gas_fee_strategy.rs:186-212 | the same for one provider |
| GasFee.GasFeeStrategy.Clear | src/common/gas_fee_strategy.rs:294-296 | no entry is left |
| GasFee.GasFeeStrategy.UpdateAll | src/common/gas_fee_strategy.rs:300-352 | one field of every entry of the trade changes and nothing else |
| GasFee.GasFeeStrategy.GetStrategies | src/common/gas_fee_strategy.rs:268-290 | every stored entry of the trade is listed exactly once, in rank order within a provider, whatever order the hash set yields |
| TaskSelection.SelectionIsOrderFree | src/trading/core/async_executor.rs:234-264 | a client's tasks do not depend on the order of the listing |
| TaskSelection.TasksAreExactlyTheEligible | src/trading/core/async_executor.rs:228-265 | every pair of a usable client and a stored entry that passes the filters is one task, and nothing else is |
| TaskSelection.WhatIsSubmitted | src/trading/core/async_executor.rs:228-265 | a task is exactly a stored entry of a client's provider for that trade, of the default client alone without tips, and with a tip of at least the client's minimum when that is checked, except for the default client |
| TaskSelection.SelectAtMostTwo | src/trading/core/async_executor.rs:247-263 | an exclusive table gives a client at most two tasks |
| TaskSelection.AtMostTwoTasksPerClient | src/trading/core/async_executor.rs:228-265 | hence at most two transactions per client in all |
| TaskSelection.PrepareLetsThrough | src/trading/core/async_executor.rs:211-273 | exactly when a trade goes ahead, and exactly when each refusal is given; a buy without a durable nonce goes ahead with exactly one task |
| TaskSelection.GlobalFeesNeedNonce | src/trading/core/async_executor.rs:211-273 | with globally set fees a tipped buy through two or more clients whose minimum tips are met is always refused without a nonce |

## Left out

- RPC, HTTP, QUIC and provider clients, transaction building, signing and account derivation: outside libraries, and only field copies on this side.
- `from_trade`, market caps, `get_buy_out_price` and the floating-point price helpers of the bonding curve: field copies, or an unclear intended contract.
- Public keys: a creator is a flag that says whether a coin has one.
- Tips are real numbers; NaN and rounding of `f64` are not modelled.
- Weak memory: atomic accesses are sequentially consistent steps, so the choice of orderings in the source is not justified here.
- Timeouts and the clock: a deadline passing is a step the waiter may take at any poll, or a number of polls in the sequential collector; how long a poll sleeps is not modelled.
- Concurrent callers of the fee table: each setter is several separate map replacements, so exclusivity is claimed for completed calls one after another.
- What goes wrong in one task before its result is submitted, and an early error return between spawned tasks (`src/trading/core/async_executor.rs:287`): every task of the protocol may submit.
- The drain order of several waiters: the collector has one.
- `is_landed_error`: whether a failure landed is a field of the task result.
- Builds for other processors than x86-64, where the copy and compare loops fall back to library calls that touch exactly the requested bytes.
- `memzero_simd_optimized`, `max_u64_batch`, `min_u64_batch`, the hash and iterator helpers: they would only add easy members beside `ZeroAvx2` and the batch loops.
- The DMA manager: it is a queue around one more copy.
- BlockPool.SharedMemoryPool.New: whether the region can be mapped is a parameter; a block size of 0, which makes the source divide by zero, and one within 63 of the address-space limit are excluded.
- BlockPool.SharedMemoryPool.DeallocateBlock: the value handed in may be any block; a block value can be neither copied nor forged in the source, which is why the concurrent model frees live blocks only.
- BlockPool.ZeroCopyMemoryManager.Allocate: the 64-bit statistics counters are unbounded here.
- SpscRing.StepKeepsInv: `head + 1` wraps at 2^64, as in a build without overflow checks; a build with them would panic after 2^64 pushes.
- ByteRing.StepKeepsInv: a chunk is moved byte by byte, which allows every interleaving of whole chunks and more; memory is known for 31 bytes behind the buffer, as far as a copy reaches.
- MappedBuffer.MemoryMappedBuffer.WriteData: an accepted request whose copies reach past the end of the source array, which stands for all readable memory there, is excluded.
- MappedBuffer.MemoryMappedBuffer.ReadData: the destination array stands for all writable memory there, of which the slice is a part; copies that reach past the end of that are excluded.
- MappedBuffer.MemoryMappedBuffer.constructor: a buffer of size 0, whose first write would divide by zero, is excluded.
- PumpSwap.SwapKeepsProduct: reserves move by the amounts before fees; where the liquidity fee goes is not modelled.
- BondingCurve.EveryRunIsSolvent: trades move the reserves as a buy does in `from_dev_trade` and as its mirror image for a sale; the on-chain program is not part of this model.
