# Lottery winners calculator — a Dafny model

This project models the consensus-critical lottery ranking of the Divi node,
`LotteryWinnersCalculator`. Every block's coinbase or coinstake transaction may
earn a lottery ticket. The calculator keeps a ranked state of at most eleven
tickets per payment cycle, scored against the hash of the cycle's anchor
block. The model has one module per piece of the calculator:

- `Eligibility` decides whether a transaction earns a ticket. The ticket
  minimum is resolved from a spork or its default of 10000 coins. The amount
  paid to the stake's payee must strictly exceed that minimum times `COIN`.
- `SeedResolver` finds the anchor height
  `max(start, cycle * ((h - 1) / cycle))`, with C++ truncating division, and
  the block hash at that height.
- `Ranker` models `UpdateCoinstakes`:
  - the score/rank map, with `emplace` semantics;
  - a stable sort by descending score;
  - the "should update" flag;
  - the cap, which pops one ticket.
- `StableSort` is the functional stable insertion sort the ranker uses. It
  also defines stability independently of the algorithm and proves that
  sortedness and stability determine the output uniquely.
- `LotteryStateMachine` models `CalculateUpdatedLotteryWinners`: a
  five-branch transition over `(transaction, previous state, height)`, plus
  `Replay` over consecutive blocks.
- `Scenarios` works through the skip example (a candidate scored below eleven
  held tickets) and the displacement example (a candidate scored 45). It does
  so both through the ranker and through the transition.

The calculator's collaborators are fields of the `Environment.Calculator`
datatype. These are the active chain, the spork state, the adjusted clock,
the superblock schedule and the score hash. Every operation is therefore a
pure function of its explicit inputs.

## Model

| member | source | states |
|---|---|---|
| Eligibility.MinimumCoinstakeForTicket | divi/src/LotteryWinnersCalculator.cpp:27-44 | A minimum other than the 10000 default can only come from an active spork with a valid entry at (height, block time). Such an entry always overrides the default. |
| Eligibility.MinimumIgnoresClockForConnectedHeights | divi/src/LotteryWinnersCalculator.cpp:34-35 | For a height the chain already holds, the minimum does not depend on the node's adjusted clock. The block's own timestamp selects the spork entry. |
| Eligibility.AccumulatePayee | divi/src/LotteryWinnersCalculator.cpp:61-64 | The left-to-right accumulation over all outputs equals the recursive definition of "the sum of the outputs paying the payee script". |
| Eligibility.PayoutCoversPayeeOutput | divi/src/LotteryWinnersCalculator.cpp:60-65 | With non-negative outputs, a coinstake's payout is at least output 1's value. It is also at least the value of every other output paying the same script. |
| Eligibility.PayoutAmount | divi/src/LotteryWinnersCalculator.cpp:56-65 | A coinbase is credited output 0's value and a coinstake the total paid to output 1's script. A coinstake that pays that script through output 1 alone is credited exactly output 1's value. |
| Eligibility.IsCoinstakeValidForLottery | divi/src/LotteryWinnersCalculator.cpp:54-68 | Without an active spork entry, a transaction earns a ticket exactly when its payout strictly exceeds 10000 coins. With one, exactly when its payout strictly exceeds that entry's minimum in coins. |
| Eligibility.EligibilityIsStrict | divi/src/LotteryWinnersCalculator.cpp:54-68 | An amount exactly at `minimum * COIN` is rejected and one unit more is accepted. Eligibility is monotone in the amount. |
| SeedResolver.TruncDiv | divi/src/LotteryWinnersCalculator.cpp:73 | The C++ quotient of a positive divisor brackets the dividend from below for non-negative dividends and from above for negative ones. |
| SeedResolver.LastLotteryHeight | divi/src/LotteryWinnersCalculator.cpp:72-73 | The anchor is at least the lottery start, and it is either the start or a multiple of the cycle. For a positive height no cycle boundary below the height lies beyond it, so it is `max(start, last boundary strictly below h)`. If the start is below the height, the anchor lies in `[start, h-1]`. |
| SeedResolver.GetLastLotteryBlockHashBeforeHeight | divi/src/LotteryWinnersCalculator.cpp:70-75 | For a positive height in cycle `k`, the heights `(k*c, (k+1)*c]` with `k = (h-1)/c`, the seed is the hash of the chain's block at `max(start, k*c)`, and that block exists. |
| SeedResolver.AnchorStableWithinCycle | divi/src/LotteryWinnersCalculator.cpp:72-73 | Every height of one cycle `(k*c, (k+1)*c]` has the anchor `max(start, k*c)`. |
| SeedResolver.SeedStableWithinCycle | divi/src/LotteryWinnersCalculator.cpp:70-75 | Under the same cycle length, two heights of one cycle get the same seed hash. |
| Ranker.RankMap | divi/src/LotteryWinnersCalculator.cpp:84-90 | The map's keys are exactly the tickets' transaction ids. Each entry holds that id's score against the seed and a rank below the map's size. |
| Ranker.RankIsInsertionOrder | divi/src/LotteryWinnersCalculator.cpp:84-90 | With distinct ids, the map has one entry per ticket and each ticket's rank is its position in the input. |
| Ranker.UpdateCoinstakes | divi/src/LotteryWinnersCalculator.cpp:77-106 | The output is sorted by non-increasing score and is a sub-multiset of the input. It is one ticket shorter exactly when the input exceeds eleven tickets, and otherwise a permutation of the input. |
| Ranker.RankedOrder | divi/src/LotteryWinnersCalculator.cpp:94-101 | The tickets are stably sorted only when more than one distinct id was ranked. With at most one id they are left exactly as they were, since they are already in order. Either way the result is a stable descending sort and a permutation of the input. |
| Ranker.RankerIsTruncatedStableSort | divi/src/LotteryWinnersCalculator.cpp:92-104 | The output is the truncation of the stable descending sort of the input. Any sorted, stable ordering of the input gives the same answer. |
| Ranker.ShouldUpdate | divi/src/LotteryWinnersCalculator.cpp:93-102 | A map of at most one id always reports a change. A skip means the lowest ticket after the sort was the twelfth id entered. So, with every rank below the map's size, a skip needs more than eleven ids. |
| Ranker.ShortListAlwaysUpdates | divi/src/LotteryWinnersCalculator.cpp:93-102 | With distinct ids and at most eleven tickets, the flag always reports a change. |
| Ranker.UpdateOfFullList | divi/src/LotteryWinnersCalculator.cpp:93-104 | For twelve tickets with distinct ids, the output is the first eleven of the stable sort. The flag is false exactly when the appended ticket sorted last. |
| Ranker.SkipIffCandidateNotAbove | divi/src/LotteryWinnersCalculator.cpp:93-104 | For twelve tickets with distinct ids, the flag is false exactly when no earlier ticket scores below the appended one (ties included). The appended ticket is then the one dropped, and the output is the earlier eleven re-sorted. |
| Ranker.RankerMergesIntoSortedList | divi/src/LotteryWinnersCalculator.cpp:92-105 | Previous tickets already in ranking order, plus one new ticket, rank as an insertion: the new ticket lands right after every ticket scoring at least as much, and the cap then applies. A change is reported unless the list was full and the ticket landed last. |
| Ranker.SkipKeepsSortedPrevious | divi/src/LotteryWinnersCalculator.cpp:102-105 | When a previous list in ranking order is not updated, the ranker's tickets equal the previous tickets. |
| Ranker.Truncated | divi/src/LotteryWinnersCalculator.cpp:104 | Over the cap, exactly the last ticket is dropped. Otherwise nothing is dropped. |
| StableSort.SortDesc | divi/src/LotteryWinnersCalculator.cpp:96-101 | The sort returns a permutation of its input in non-increasing key order. |
| StableSort.SortDescIsStable | divi/src/LotteryWinnersCalculator.cpp:96-101 | For every key, the tickets carrying that key appear in the output in their input order. |
| StableSort.StableSortUnique | divi/src/LotteryWinnersCalculator.cpp:96-101 | Two sorted, stable orderings of the same input are equal, so the tie-break is fully determined. |
| StableSort.LastStaysLastIff | divi/src/LotteryWinnersCalculator.cpp:96-102 | A last entry that occurs only there stays last after the sort exactly when no earlier entry has a lower key. The earlier entries are then sorted in front of it. |
| LotteryStateMachine.CalculateUpdatedLotteryWinners | divi/src/LotteryWinnersCalculator.cpp:108-131 | The result follows the branches in priority order. A change carries the current height and tickets drawn from the previous ones plus the new one, sorted by seed score. A previous state of at most eleven tickets yields at most eleven. |
| LotteryStateMachine.MergeOutcome | divi/src/LotteryWinnersCalculator.cpp:118-130 | For a previous state in ranking order with distinct ids, the result is the previous state when the list was full and the ticket landed last. Otherwise it is the insertion-merged, truncated list stamped with the height. |
| LotteryStateMachine.SkipIsInvisible | divi/src/LotteryWinnersCalculator.cpp:123-130 | Under the same hypotheses, returning the previous state on a skip loses nothing: the state's tickets are exactly the ranker's output. |
| LotteryStateMachine.Replay | divi/src/LotteryWinnersCalculator.cpp:108-131 | Over any run of consecutive blocks, the cap of eleven tickets is preserved. |
| Scenarios.LowCandidateIsSkipped | divi/src/LotteryWinnersCalculator.cpp:92-105 | Eleven tickets are held, scored 100 down to 5. A candidate scored 3 is not reported as a change, and the ranked list is the held list. |
| Scenarios.MiddleCandidateDisplacesLowest | divi/src/LotteryWinnersCalculator.cpp:92-105 | With the same held tickets, a candidate scored 45 takes seventh place and evicts the ticket scored 5. A change is reported. |
| Scenarios.StateKeepsHeightOnSkip | divi/src/LotteryWinnersCalculator.cpp:123-130 | Through the transition, the skipped candidate leaves the previous state unchanged, including its height stamp. |
| Scenarios.StateStampsHeightOnDisplacement | divi/src/LotteryWinnersCalculator.cpp:123-126 | Through the transition, the displacing candidate gives the new list stamped with the current height. |

### Notes on the model

- **Skip condition.** The flag is false when the appended ticket scores at
  most every held ticket, ties included. The stable sort puts a tied
  newcomer after the held ticket. So "cannot break into the top eleven"
  means "does not score strictly above the lowest held ticket", which
  `SkipIffCandidateNotAbove` states.
- **Rank map.** The map is modelled as written: `emplace` keeps an existing
  key, and a rank is the map's size at insertion. `UpdateCoinstakes`
  therefore needs no assumption about the ids. Distinct ids appear only as
  hypotheses of the lemmas about the flag, where they say that a ticket's
  rank is its position.
- **Default state.** The default-constructed state is taken to be height 0
  with no entries (`EmptyLotteryData`).
- **Preconditions.** `CanCalculate` requires two things, and only on the
  branches that need them:
  - the outputs the code indexes (`vout[0]`, or `vout[1]`) exist;
  - the anchor block exists and the cycle length is at least 1.

## Left out

- **Score hash.** `CalculateLotteryScore` (`CHashWriter`, double SHA-256) is
  the parameter `lotteryScore`. Only its determinism matters.
- **Spork lookup.** `CSporkManager` is abstracted: the multi-value spork
  parsing and `GetActiveMultiValueSpork` window selection become
  `ticketSporkActive` and `activeTicketValue(height, time)`.
  `GetAdjustedTime` becomes `adjustedTime`.
- **Chain.** `CChain` indexing and `GetBlockHash` become
  `chain(height) -> Option<BlockHeader>`. A missing anchor block is excluded
  by `SeedResolvable`.
- **Schedule.** `I_SuperblockHeightValidator` is the parameters
  `paymentCycle` and `isLotteryBlockHeight`. A cycle length of 0, which
  divides by zero in the source, is excluded.
- **Integer widths.** Amounts are unbounded integers, so `CAmount` overflow
  in the accumulation and in `minimum * COIN` is not modelled. An `int`
  minimum times `COIN` always fits in 64 bits. The accumulation overflows
  only for outputs beyond the money supply.
- **Shallow copy.** `getShallowCopy` aliasing is not modelled: the previous
  state is returned as the same value.
- **Transaction structure.** Transactions keep only their hash, the coinbase
  flag and their outputs as (script, value) pairs.
- Eligibility.EligibilityIsStrict: its three facts follow from the
  definition alone. It records the strict comparison rather than proving
  anything deep.
- **Constructor.** `LotteryWinnersCalculator`'s constructor only stores its
  collaborators, which become the `Calculator` datatype.
- LotteryStateMachine.CalculateUpdatedLotteryWinners: the cap of eleven is
  proved only when the previous state already holds at most eleven tickets.
  A longer previous state can be carried forward unchanged. Every state
  reached from the default state satisfies the hypothesis (`Replay`).
