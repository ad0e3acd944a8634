/**
  The two worked examples of the ranker. The held list has eleven tickets
  scored 100, 90, 80, 70, 60, 50, 40, 30, 20, 10, 5, in that order, and a new
  ticket scores either 3, below every held ticket, or 45, between 50 and 40.
  To keep the examples readable each ticket's id is its own score: the score
  function returns the id whatever the seed.
 */
module Scenarios {
  import opened Primitives
  import opened StableSort
  import opened Ranker
  import opened Environment
  import opened SeedResolver
  import opened LotteryStateMachine

  function IdScore(t: Uint256, seed: Uint256): Uint256 {
    t
  }

  function Ticket(id: Uint256): Coinstake {
    Coinstake(id, [])
  }

  const HeldList: seq<Coinstake> :=
    [Ticket(100), Ticket(90), Ticket(80), Ticket(70), Ticket(60), Ticket(50),
     Ticket(40), Ticket(30), Ticket(20), Ticket(10), Ticket(5)]

  lemma IdKey(c: Coinstake, seed: Uint256)
    ensures ScoreKey(IdScore, seed)(c) == c.txid as int
  {
    assert IdScore(c.txid, seed) == c.txid;
  }

  /** Ids that fall from each ticket to the next fall across the whole list. */
  lemma {:induction false} DescendingIds(cs: seq<Coinstake>)
    requires forall i :: 0 <= i < |cs| - 1 ==> cs[i].txid > cs[i + 1].txid
    ensures forall i, j :: 0 <= i < j < |cs| ==> cs[i].txid > cs[j].txid
    decreases |cs|
  {
    if |cs| > 1 {
      var tail := cs[1..];
      assert forall i :: 0 <= i < |tail| ==> tail[i] == cs[i + 1];
      DescendingIds(tail);
      forall i, j | 0 <= i < j < |cs|
        ensures cs[i].txid > cs[j].txid
      {
        if i > 0 {
          assert cs[i] == tail[i - 1] && cs[j] == tail[j - 1];
        } else if j > 1 {
          assert cs[1] == tail[0] && cs[j] == tail[j - 1];
        }
      }
    }
  }

  /** The held list is in ranking order under any seed and, with a candidate
      whose id it does not hold, has distinct ids. */
  lemma HeldListFacts(candidate: Coinstake, seed: Uint256)
    requires forall i :: 0 <= i < |HeldList| ==> HeldList[i].txid != candidate.txid
    ensures SortedDesc(HeldList, ScoreKey(IdScore, seed))
    ensures DistinctTxIds(HeldList + [candidate])
  {
    var key := ScoreKey(IdScore, seed);
    DescendingIds(HeldList);
    forall i, j | 0 <= i < j < |HeldList|
      ensures key(HeldList[i]) >= key(HeldList[j])
    {
      IdKey(HeldList[i], seed);
      IdKey(HeldList[j], seed);
    }
    var cs := HeldList + [candidate];
    forall i, j | 0 <= i < j < |cs|
      ensures cs[i].txid != cs[j].txid
    {
      assert cs[i] == HeldList[i];
      if j < |HeldList| {
        assert cs[j] == HeldList[j];
      }
    }
  }

  /** A candidate whose id lies below the first `p` held ids and above the
      rest is placed at `p`. */
  lemma PlacedAt(candidate: Coinstake, seed: Uint256, p: nat)
    requires p <= |HeldList|
    requires forall i :: 0 <= i < p ==> HeldList[i].txid >= candidate.txid
    requires p < |HeldList| ==> HeldList[p].txid < candidate.txid
    ensures InsertionPoint(candidate, HeldList, ScoreKey(IdScore, seed)) == p
  {
    var key := ScoreKey(IdScore, seed);
    IdKey(candidate, seed);
    forall i | 0 <= i < p
      ensures key(HeldList[i]) >= key(candidate)
    {
      IdKey(HeldList[i], seed);
    }
    if p < |HeldList| {
      IdKey(HeldList[p], seed);
    }
    InsertionPointIs(candidate, HeldList, key, p);
  }

  /** A candidate scoring below every held ticket is dropped, the flag
      reports no change, and the ranked list is the held list itself. */
  lemma LowCandidateIsSkipped()
    ensures !UpdateCoinstakes(IdScore, 0, HeldList + [Ticket(3)]).shouldUpdate
    ensures UpdateCoinstakes(IdScore, 0, HeldList + [Ticket(3)]).coinstakes == HeldList
  {
    HeldListFacts(Ticket(3), 0);
    PlacedAt(Ticket(3), 0, 11);
    RankerMergesIntoSortedList(IdScore, 0, HeldList, Ticket(3));
    SkipKeepsSortedPrevious(IdScore, 0, HeldList, Ticket(3));
  }

  /** A candidate scoring 45 takes the seventh place, after the tickets
      scored 100 to 50 and before those scored 40 to 10, and the ticket scored
      5 is evicted; the flag reports a change. */
  lemma MiddleCandidateDisplacesLowest()
    ensures UpdateCoinstakes(IdScore, 0, HeldList + [Ticket(45)]).shouldUpdate
    ensures UpdateCoinstakes(IdScore, 0, HeldList + [Ticket(45)]).coinstakes
         == HeldList[..6] + [Ticket(45)] + HeldList[6..10]
  {
    HeldListFacts(Ticket(45), 0);
    PlacedAt(Ticket(45), 0, 6);
    RankerMergesIntoSortedList(IdScore, 0, HeldList, Ticket(45));
    TruncatedMerge(HeldList, Ticket(45), 6);
  }

  /** Placing a ticket before the end of a full list drops the list's last
      ticket. */
  lemma TruncatedMerge(s: seq<Coinstake>, x: Coinstake, p: nat)
    requires |s| == MaxLotteryWinners && p < |s|
    ensures Truncated(s[..p] + [x] + s[p..]) == s[..p] + [x] + s[p..|s| - 1]
  {
    var merged := s[..p] + [x] + s[p..];
    assert merged[..|s|] == s[..p] + [x] + s[p..|s| - 1];
  }

  /** The same two examples through the state transition, for any chain,
      schedule and spork state under which the candidate's transaction earns
      a ticket: a candidate with score 3 leaves the previous state exactly as
      it was, its height stamp included; one with score 45 produces the
      displaced list stamped with the current height. */
  lemma StateKeepsHeightOnSkip(env: Calculator, tx: Transaction, previousHeight: int, nHeight: int)
    requires env.lotteryScore == IdScore
    requires CanCalculate(env, tx, nHeight) && RanksTicket(env, tx, nHeight)
    requires tx.hash == 3
    ensures CalculateUpdatedLotteryWinners(env, tx, LotteryCoinstakeData(previousHeight, HeldList), nHeight)
         == LotteryCoinstakeData(previousHeight, HeldList)
  {
    CandidatePlace(3, 11);
    HeldListOutcome(env, tx, previousHeight, nHeight, 11);
  }

  lemma StateStampsHeightOnDisplacement(env: Calculator, tx: Transaction, previousHeight: int, nHeight: int)
    requires env.lotteryScore == IdScore
    requires CanCalculate(env, tx, nHeight) && RanksTicket(env, tx, nHeight)
    requires tx.hash == 45
    ensures CalculateUpdatedLotteryWinners(env, tx, LotteryCoinstakeData(previousHeight, HeldList), nHeight)
         == LotteryCoinstakeData(nHeight, HeldList[..6] + [NewTicket(tx)] + HeldList[6..10])
  {
    CandidatePlace(45, 6);
    HeldListOutcome(env, tx, previousHeight, nHeight, 6);
    TruncatedMerge(HeldList, NewTicket(tx), 6);
  }

  /** An id below the first `p` held ids and above the rest is none of them. */
  lemma CandidatePlace(id: Uint256, p: nat)
    requires p <= |HeldList|
    requires forall i :: 0 <= i < p ==> HeldList[i].txid > id
    requires p < |HeldList| ==> HeldList[p].txid < id
    ensures forall i :: 0 <= i < |HeldList| ==> HeldList[i].txid != id
  {
    DescendingIds(HeldList);
  }

  /** The transition on the held list for a candidate whose id sits at `p`. */
  lemma HeldListOutcome(env: Calculator, tx: Transaction, previousHeight: int, nHeight: int, p: nat)
    requires env.lotteryScore == IdScore
    requires CanCalculate(env, tx, nHeight) && RanksTicket(env, tx, nHeight)
    requires p <= |HeldList|
    requires forall i :: 0 <= i < |HeldList| ==> HeldList[i].txid != tx.hash
    requires forall i :: 0 <= i < p ==> HeldList[i].txid >= tx.hash
    requires p < |HeldList| ==> HeldList[p].txid < tx.hash
    ensures p == |HeldList| ==>
      CalculateUpdatedLotteryWinners(env, tx, LotteryCoinstakeData(previousHeight, HeldList), nHeight)
        == LotteryCoinstakeData(previousHeight, HeldList)
    ensures p < |HeldList| ==>
      CalculateUpdatedLotteryWinners(env, tx, LotteryCoinstakeData(previousHeight, HeldList), nHeight)
        == LotteryCoinstakeData(nHeight, Truncated(HeldList[..p] + [NewTicket(tx)] + HeldList[p..]))
  {
    var seed := GetLastLotteryBlockHashBeforeHeight(env, nHeight);
    HeldListFacts(NewTicket(tx), seed);
    PlacedAt(NewTicket(tx), seed, p);
    MergeOutcome(env, tx, LotteryCoinstakeData(previousHeight, HeldList), nHeight);
  }
}
