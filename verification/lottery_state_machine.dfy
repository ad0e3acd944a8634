/**
  The per-block transition of the ranked lottery state: reset at payout
  heights, carry forward before activation or for an ineligible transaction,
  and otherwise rank the new ticket in with the previous ones against the
  cycle seed.
 */
module LotteryStateMachine {
  import opened Primitives
  import opened Environment
  import opened StableSort
  import opened Eligibility
  import opened SeedResolver
  import opened Ranker

  /** The ticket a transaction would add: its hash and its payee script. */
  function NewTicket(tx: Transaction): Coinstake
    requires HasPayeeOutput(tx)
  {
    Coinstake(tx.hash, PayeeScript(tx))
  }

  /** The height is past the lottery start and is not a payout height, so the
      transaction is looked at. */
  predicate ConsidersTransaction(env: Calculator, nHeight: int) {
    nHeight > 0 && !env.isLotteryBlockHeight(nHeight) && nHeight > env.startOfLotteryBlocks
  }

  /** The transaction earns a ticket and the ranker runs. */
  predicate RanksTicket(env: Calculator, tx: Transaction, nHeight: int) {
    && ConsidersTransaction(env, nHeight)
    && HasPayeeOutput(tx)
    && IsCoinstakeValidForLottery(env, tx, nHeight)
  }

  /** What the calculation needs of its inputs: the outputs it indexes exist
      once the transaction is looked at, and the seed can be looked up once
      the ranker runs. Nothing is needed at the other heights. */
  predicate CanCalculate(env: Calculator, tx: Transaction, nHeight: int) {
    && (ConsidersTransaction(env, nHeight) ==> HasPayeeOutput(tx))
    && (RanksTicket(env, tx, nHeight) ==> SeedResolvable(env, nHeight))
  }

  /** The seed's sort key at a height. */
  function SeedKey(env: Calculator, nHeight: int): Coinstake -> int
    requires SeedResolvable(env, nHeight)
  {
    ScoreKey(env.lotteryScore, GetLastLotteryBlockHashBeforeHeight(env, nHeight))
  }

  /** The lottery state after the block at `nHeight` whose coinbase or
      coinstake is `tx`, given the state after the previous block. */
  function CalculateUpdatedLotteryWinners(env: Calculator, tx: Transaction, previous: LotteryCoinstakeData, nHeight: int)
    : (r: LotteryCoinstakeData)
    requires CanCalculate(env, tx, nHeight)
    // the branches, in priority order
    ensures nHeight <= 0 ==> r == EmptyLotteryData
    ensures nHeight > 0 && env.isLotteryBlockHeight(nHeight) ==> r == LotteryCoinstakeData(nHeight, [])
    ensures nHeight > 0 && !env.isLotteryBlockHeight(nHeight) && nHeight <= env.startOfLotteryBlocks ==> r == previous
    ensures ConsidersTransaction(env, nHeight) && !IsCoinstakeValidForLottery(env, tx, nHeight) ==> r == previous
    // a changed state carries the current height, ranked tickets drawn from
    // the previous ones and the new one, in descending seed-score order
    ensures RanksTicket(env, tx, nHeight) && r != previous ==>
      && r.height == nHeight
      && multiset(r.coinstakes) <= multiset(previous.coinstakes + [NewTicket(tx)])
      && SortedDesc(r.coinstakes, SeedKey(env, nHeight))
    // the size cap is kept
    ensures |previous.coinstakes| <= MaxLotteryWinners ==> |r.coinstakes| <= MaxLotteryWinners
  {
    if nHeight <= 0 then EmptyLotteryData
    else if env.isLotteryBlockHeight(nHeight) then LotteryCoinstakeData(nHeight, [])
    else if nHeight <= env.startOfLotteryBlocks then previous
    else if !IsCoinstakeValidForLottery(env, tx, nHeight) then previous
    else
      var seed := GetLastLotteryBlockHashBeforeHeight(env, nHeight);
      var candidates := previous.coinstakes + [NewTicket(tx)];
      var ranked := UpdateCoinstakes(env.lotteryScore, seed, candidates);
      if ranked.shouldUpdate then LotteryCoinstakeData(nHeight, ranked.coinstakes)
      else previous
  }

  /** Previous tickets in ranking order under the current seed, with distinct
      ids, at most `MaxLotteryWinners` of them, and a new ticket whose id is
      not among them. */
  predicate MergeableInto(env: Calculator, tx: Transaction, previous: LotteryCoinstakeData, nHeight: int)
    requires RanksTicket(env, tx, nHeight) && SeedResolvable(env, nHeight)
  {
    && |previous.coinstakes| <= MaxLotteryWinners
    && SortedDesc(previous.coinstakes, SeedKey(env, nHeight))
    && DistinctTxIds(previous.coinstakes + [NewTicket(tx)])
  }

  /** When the previous tickets are already in ranking order, returning the
      previous state on a skip loses nothing: the tickets are exactly those
      the ranker computed. The new ticket lands right after every ticket
      scoring at least as much; the state is left as it was exactly when the
      list was full and the ticket landed last (it scored no higher than any
      ticket already held), and otherwise the new list, truncated to the cap,
      is stamped with the current height. */
  lemma MergeOutcome(env: Calculator, tx: Transaction, previous: LotteryCoinstakeData, nHeight: int)
    requires CanCalculate(env, tx, nHeight)
    requires RanksTicket(env, tx, nHeight)
    requires MergeableInto(env, tx, previous, nHeight)
    ensures var ticket := NewTicket(tx);
      var p := InsertionPoint(ticket, previous.coinstakes, SeedKey(env, nHeight));
      var r := CalculateUpdatedLotteryWinners(env, tx, previous, nHeight);
      if |previous.coinstakes| == MaxLotteryWinners && p == MaxLotteryWinners then r == previous
      else r == LotteryCoinstakeData(nHeight, Truncated(previous.coinstakes[..p] + [ticket] + previous.coinstakes[p..]))
  {
    RankingStep(env, tx, previous, nHeight);
    RankerMergesIntoSortedList(env.lotteryScore, GetLastLotteryBlockHashBeforeHeight(env, nHeight), previous.coinstakes, NewTicket(tx));
  }

  lemma SkipIsInvisible(env: Calculator, tx: Transaction, previous: LotteryCoinstakeData, nHeight: int)
    requires CanCalculate(env, tx, nHeight)
    requires RanksTicket(env, tx, nHeight)
    requires MergeableInto(env, tx, previous, nHeight)
    ensures CalculateUpdatedLotteryWinners(env, tx, previous, nHeight).coinstakes
         == UpdateCoinstakes(env.lotteryScore, GetLastLotteryBlockHashBeforeHeight(env, nHeight),
                             previous.coinstakes + [NewTicket(tx)]).coinstakes
  {
    RankingStep(env, tx, previous, nHeight);
    SkipKeepsSortedPrevious(env.lotteryScore, GetLastLotteryBlockHashBeforeHeight(env, nHeight), previous.coinstakes, NewTicket(tx));
  }

  /** On the ranking path the state is the ranker's output stamped with the
      height when it reports a change, and the previous state otherwise. */
  lemma RankingStep(env: Calculator, tx: Transaction, previous: LotteryCoinstakeData, nHeight: int)
    requires CanCalculate(env, tx, nHeight)
    requires RanksTicket(env, tx, nHeight)
    ensures var ranked := UpdateCoinstakes(env.lotteryScore, GetLastLotteryBlockHashBeforeHeight(env, nHeight),
                                           previous.coinstakes + [NewTicket(tx)]);
      CalculateUpdatedLotteryWinners(env, tx, previous, nHeight)
        == if ranked.shouldUpdate then LotteryCoinstakeData(nHeight, ranked.coinstakes) else previous
  {
  }

  /** Runs the transition over consecutive blocks starting at `firstHeight`. */
  function Replay(env: Calculator, txs: seq<Transaction>, firstHeight: int, state: LotteryCoinstakeData)
    : (r: LotteryCoinstakeData)
    requires forall i :: 0 <= i < |txs| ==> CanCalculate(env, txs[i], firstHeight + i)
    ensures |state.coinstakes| <= MaxLotteryWinners ==> |r.coinstakes| <= MaxLotteryWinners
    decreases |txs|
  {
    if txs == [] then state
    else
      assert forall i :: 0 <= i < |txs| - 1 ==> txs[1..][i] == txs[i + 1] && firstHeight + 1 + i == firstHeight + (i + 1);
      Replay(env, txs[1..], firstHeight + 1, CalculateUpdatedLotteryWinners(env, txs[0], state, firstHeight))
  }
}
