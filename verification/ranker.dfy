/**
  The winner ranker: orders the tickets by descending score against the cycle
  seed, breaking ties by the order in which the tickets were first known,
  keeps the best `MaxLotteryWinners`, and tells the caller whether the ranked
  set actually changed.
 */
module Ranker {
  import opened Primitives
  import opened StableSort

  /** A ticket's score against the seed and the order in which its transaction
      id was first met (0-based). */
  datatype RankAwareScore = RankAwareScore(score: Uint256, rank: nat)

  /** The ranker's answer: whether the caller should adopt the new ranking,
      and the ranked, truncated tickets. */
  datatype RankedCoinstakes = RankedCoinstakes(shouldUpdate: bool, coinstakes: seq<Coinstake>)

  /** The sort key: a ticket's score against the seed, as a number. */
  function ScoreKey(lotteryScore: (Uint256, Uint256) -> Uint256, seed: Uint256): Coinstake -> int {
    (c: Coinstake) => lotteryScore(c.txid, seed) as int
  }

  /** The transaction ids occurring in `cs`. */
  function TxIds(cs: seq<Coinstake>): set<Uint256> {
    if cs == [] then {} else TxIds(cs[..|cs| - 1]) + {cs[|cs| - 1].txid}
  }

  lemma {:induction false} InTxIds(cs: seq<Coinstake>, i: nat)
    requires i < |cs|
    ensures cs[i].txid in TxIds(cs)
    decreases |cs|
  {
    if i < |cs| - 1 {
      InTxIds(cs[..|cs| - 1], i);
      assert cs[..|cs| - 1][i] == cs[i];
    }
  }

  lemma {:induction false} NotInTxIds(cs: seq<Coinstake>, t: Uint256)
    requires forall i :: 0 <= i < |cs| ==> cs[i].txid != t
    ensures t !in TxIds(cs)
    decreases |cs|
  {
    if cs != [] {
      var pre := cs[..|cs| - 1];
      assert forall i :: 0 <= i < |pre| ==> pre[i] == cs[i];
      NotInTxIds(pre, t);
    }
  }

  predicate DistinctTxIds(cs: seq<Coinstake>) {
    forall i, j :: 0 <= i < j < |cs| ==> cs[i].txid != cs[j].txid
  }

  /** The score map built before sorting, one entry per distinct transaction
      id. Inserting an id that is already present leaves its entry as it was,
      so a rank is the number of distinct ids met before it. */
  function RankMap(lotteryScore: (Uint256, Uint256) -> Uint256, seed: Uint256, cs: seq<Coinstake>)
    : (m: map<Uint256, RankAwareScore>)
    ensures m.Keys == TxIds(cs)
    ensures forall t :: t in m ==> m[t].score == lotteryScore(t, seed) && m[t].rank < |m|
    decreases |cs|
  {
    if cs == [] then map[]
    else
      var prior := RankMap(lotteryScore, seed, cs[..|cs| - 1]);
      var t := cs[|cs| - 1].txid;
      if t in prior then prior
      else prior[t := RankAwareScore(lotteryScore(t, seed), |prior|)]
  }

  /** With distinct ids, a ticket's rank is its position in the input. */
  lemma {:induction false} RankIsInsertionOrder(lotteryScore: (Uint256, Uint256) -> Uint256, seed: Uint256, cs: seq<Coinstake>)
    requires DistinctTxIds(cs)
    ensures |RankMap(lotteryScore, seed, cs)| == |cs|
    ensures forall i :: 0 <= i < |cs| ==>
      cs[i].txid in RankMap(lotteryScore, seed, cs) && RankMap(lotteryScore, seed, cs)[cs[i].txid].rank == i
    decreases |cs|
  {
    if cs != [] {
      var pre := cs[..|cs| - 1];
      var t := cs[|cs| - 1].txid;
      assert DistinctTxIds(pre);
      RankIsInsertionOrder(lotteryScore, seed, pre);
      assert forall i :: 0 <= i < |pre| ==> pre[i].txid != t;
      NotInTxIds(pre, t);
      forall i | 0 <= i < |cs|
        ensures cs[i].txid in RankMap(lotteryScore, seed, cs)
             && RankMap(lotteryScore, seed, cs)[cs[i].txid].rank == i
      {
        RankOfFreshSnoc(lotteryScore, seed, cs, i);
      }
    }
  }

  /** Appending a ticket with a new id gives it the next rank and leaves the
      earlier ranks alone. */
  lemma RankOfFreshSnoc(lotteryScore: (Uint256, Uint256) -> Uint256, seed: Uint256, cs: seq<Coinstake>, i: nat)
    requires i < |cs|
    requires cs[|cs| - 1].txid !in TxIds(cs[..|cs| - 1])
    requires |RankMap(lotteryScore, seed, cs[..|cs| - 1])| == |cs| - 1
    requires forall j :: 0 <= j < |cs| - 1 ==>
      cs[j].txid != cs[|cs| - 1].txid
      && cs[..|cs| - 1][j].txid in RankMap(lotteryScore, seed, cs[..|cs| - 1])
      && RankMap(lotteryScore, seed, cs[..|cs| - 1])[cs[..|cs| - 1][j].txid].rank == j
    ensures cs[i].txid in RankMap(lotteryScore, seed, cs) && RankMap(lotteryScore, seed, cs)[cs[i].txid].rank == i
  {
    var pre, t := cs[..|cs| - 1], cs[|cs| - 1].txid;
    var m, prior := RankMap(lotteryScore, seed, cs), RankMap(lotteryScore, seed, pre);
    assert t !in prior;
    assert m == prior[t := RankAwareScore(lotteryScore(t, seed), |prior|)];
    if i < |pre| {
      assert pre[i] == cs[i] && cs[i].txid != t;
      assert m[cs[i].txid] == prior[pre[i].txid];
    } else {
      assert i == |cs| - 1 && cs[i].txid == t;
      assert m[t] == RankAwareScore(lotteryScore(t, seed), |prior|);
    }
  }

  /** Tickets that share one transaction id also share one score. */
  lemma FewIdsAreSorted(lotteryScore: (Uint256, Uint256) -> Uint256, seed: Uint256, cs: seq<Coinstake>)
    requires |TxIds(cs)| <= 1
    ensures SortedDesc(cs, ScoreKey(lotteryScore, seed))
  {
    if cs != [] {
      var ids := TxIds(cs);
      var a := cs[0].txid;
      InTxIds(cs, 0);
      assert |ids - {a}| == |ids| - 1;
      assert ids == {a} by {
        assert ids - {a} == {};
      }
      forall j | 0 <= j < |cs|
        ensures cs[j].txid == a
      {
        InTxIds(cs, j);
      }
    }
  }

  /** The tickets in ranking order before truncation: sorted only when more
      than one distinct id is present. */
  function RankedOrder(lotteryScore: (Uint256, Uint256) -> Uint256, seed: Uint256, cs: seq<Coinstake>)
    : (sorted: seq<Coinstake>)
    ensures IsStableSortOf(sorted, cs, ScoreKey(lotteryScore, seed))
    ensures multiset(sorted) == multiset(cs)
    // with at most one distinct id nothing is moved
    ensures |RankMap(lotteryScore, seed, cs)| <= 1 ==> sorted == cs
  {
    var key := ScoreKey(lotteryScore, seed);
    if |RankMap(lotteryScore, seed, cs)| > 1 then
      SortDescIsStable(cs, key);
      SortDesc(cs, key)
    else
      FewIdsAreSorted(lotteryScore, seed, cs);
      cs
  }

  /** The cap: when over `MaxLotteryWinners`, the last ticket is dropped. */
  function Truncated(s: seq<Coinstake>): (r: seq<Coinstake>)
    ensures |r| == if |s| > MaxLotteryWinners then |s| - 1 else |s|
    ensures r == s[..|r|]
    ensures multiset(r) <= multiset(s)
  {
    if |s| > MaxLotteryWinners then
      assert s == s[..|s| - 1] + [s[|s| - 1]];
      s[..|s| - 1]
    else s
  }

  /** The flag: a change, unless more than one distinct id was ranked and the
      lowest ticket is the one ranked `MaxLotteryWinners`. */
  function ShouldUpdate(ranks: map<Uint256, RankAwareScore>, sorted: seq<Coinstake>): (update: bool)
    requires |ranks| > 1 ==> sorted != [] && sorted[|sorted| - 1].txid in ranks
    // a single ranked id is always a change
    ensures |ranks| <= 1 ==> update
    // a skip names the lowest ticket as the twelfth id entered ...
    ensures !update ==> sorted != [] && ranks[sorted[|sorted| - 1].txid].rank == MaxLotteryWinners
    // ... so, with every rank below the map's size, a skip needs a full list
    // plus one
    ensures (forall id :: id in ranks ==> ranks[id].rank < |ranks|) && !update ==> |ranks| > MaxLotteryWinners
  {
    if |ranks| > 1 then ranks[sorted[|sorted| - 1].txid].rank != MaxLotteryWinners else true
  }

  lemma LastRankedIsKnown(lotteryScore: (Uint256, Uint256) -> Uint256, seed: Uint256, cs: seq<Coinstake>)
    requires cs != []
    ensures var sorted := RankedOrder(lotteryScore, seed, cs);
      sorted[|sorted| - 1].txid in RankMap(lotteryScore, seed, cs)
  {
    var sorted := RankedOrder(lotteryScore, seed, cs);
    assert sorted[|sorted| - 1] in multiset(cs);
    var i :| 0 <= i < |cs| && cs[i] == sorted[|sorted| - 1];
    InTxIds(cs, i);
  }

  /** Ranks `cs` (the previous tickets followed by at most one new one)
      against `seed`. */
  function UpdateCoinstakes(lotteryScore: (Uint256, Uint256) -> Uint256, seed: Uint256, cs: seq<Coinstake>)
    : (r: RankedCoinstakes)
    ensures |r.coinstakes| == if |cs| > MaxLotteryWinners then |cs| - 1 else |cs|
    ensures SortedDesc(r.coinstakes, ScoreKey(lotteryScore, seed))
    ensures multiset(r.coinstakes) <= multiset(cs)
    ensures |cs| <= MaxLotteryWinners ==> multiset(r.coinstakes) == multiset(cs)
  {
    var ranks := RankMap(lotteryScore, seed, cs);
    var sorted := RankedOrder(lotteryScore, seed, cs);
    assert cs != [] ==> sorted[|sorted| - 1].txid in ranks by {
      if cs != [] {
        LastRankedIsKnown(lotteryScore, seed, cs);
      }
    }
    var kept := Truncated(sorted);
    assert SortedDesc(kept, ScoreKey(lotteryScore, seed));
    RankedCoinstakes(ShouldUpdate(ranks, sorted), kept)
  }

  /** The ranked tickets are exactly the stable descending sort of the input
      with its last (lowest) ticket dropped when over the cap; every other
      sorted-and-stable ordering of the input gives the same answer. */
  lemma RankerIsTruncatedStableSort(lotteryScore: (Uint256, Uint256) -> Uint256, seed: Uint256,
                                    cs: seq<Coinstake>, t: seq<Coinstake>)
    requires IsStableSortOf(t, cs, ScoreKey(lotteryScore, seed))
    ensures UpdateCoinstakes(lotteryScore, seed, cs).coinstakes == Truncated(t)
  {
    StableSortUnique(t, RankedOrder(lotteryScore, seed, cs), cs, ScoreKey(lotteryScore, seed));
  }

  /** With distinct ids and at most `MaxLotteryWinners` tickets no rank can be
      `MaxLotteryWinners`, so the ranker always reports a change. */
  lemma ShortListAlwaysUpdates(lotteryScore: (Uint256, Uint256) -> Uint256, seed: Uint256, cs: seq<Coinstake>)
    requires DistinctTxIds(cs)
    requires |cs| <= MaxLotteryWinners
    ensures UpdateCoinstakes(lotteryScore, seed, cs).shouldUpdate
  {
    RankIsInsertionOrder(lotteryScore, seed, cs);
    var ranks := RankMap(lotteryScore, seed, cs);
    var sorted := RankedOrder(lotteryScore, seed, cs);
    if |ranks| > 1 {
      var last := sorted[|sorted| - 1];
      assert last in multiset(cs);
      var i :| 0 <= i < |cs| && cs[i] == last;
      assert ranks[last.txid].rank == i;
    }
  }

  /** For a full previous list plus one ticket (distinct ids) the ranker
      keeps the first `MaxLotteryWinners` of the stable sort, and reports a
      change unless the new ticket sorted last. */
  lemma UpdateOfFullList(lotteryScore: (Uint256, Uint256) -> Uint256, seed: Uint256, cs: seq<Coinstake>)
    requires |cs| == MaxLotteryWinners + 1
    requires DistinctTxIds(cs)
    ensures var sorted := SortDesc(cs, ScoreKey(lotteryScore, seed));
      && UpdateCoinstakes(lotteryScore, seed, cs).coinstakes == sorted[..MaxLotteryWinners]
      && (UpdateCoinstakes(lotteryScore, seed, cs).shouldUpdate <==> sorted[MaxLotteryWinners] != cs[MaxLotteryWinners])
  {
    var sorted := SortDesc(cs, ScoreKey(lotteryScore, seed));
    RankIsInsertionOrder(lotteryScore, seed, cs);
    assert RankedOrder(lotteryScore, seed, cs) == sorted;
    assert sorted[MaxLotteryWinners] in multiset(cs);
    LastRankIff(lotteryScore, seed, cs, sorted[MaxLotteryWinners]);
  }

  /** With distinct ids, a ticket of the input has the last rank exactly when
      it is the last ticket. */
  lemma LastRankIff(lotteryScore: (Uint256, Uint256) -> Uint256, seed: Uint256, cs: seq<Coinstake>, c: Coinstake)
    requires DistinctTxIds(cs)
    requires c in multiset(cs)
    ensures c.txid in RankMap(lotteryScore, seed, cs)
    ensures RankMap(lotteryScore, seed, cs)[c.txid].rank == |cs| - 1 <==> c == cs[|cs| - 1]
  {
    RankIsInsertionOrder(lotteryScore, seed, cs);
    var i :| 0 <= i < |cs| && cs[i] == c;
    assert i != |cs| - 1 ==> cs[i].txid != cs[|cs| - 1].txid;
  }

  /** With distinct ids the last ticket does not occur earlier. */
  lemma LastIsFresh(cs: seq<Coinstake>)
    requires cs != [] && DistinctTxIds(cs)
    ensures cs[|cs| - 1] !in cs[..|cs| - 1]
  {
    var pre := cs[..|cs| - 1];
    forall i | 0 <= i < |pre|
      ensures pre[i] != cs[|cs| - 1]
    {
      assert pre[i].txid == cs[i].txid != cs[|cs| - 1].txid;
    }
  }

  /** A full previous list plus one new ticket (distinct ids): the ranker
      reports no change exactly when the new ticket scores no higher than
      every previous one (ties go to the earlier ticket), and then it is the
      ticket dropped, the kept tickets being the previous ones re-sorted. */
  lemma SkipIffCandidateNotAbove(lotteryScore: (Uint256, Uint256) -> Uint256, seed: Uint256, cs: seq<Coinstake>)
    requires |cs| == MaxLotteryWinners + 1
    requires DistinctTxIds(cs)
    ensures !UpdateCoinstakes(lotteryScore, seed, cs).shouldUpdate <==>
      AllKeysAtLeast(cs[..MaxLotteryWinners], ScoreKey(lotteryScore, seed), ScoreKey(lotteryScore, seed)(cs[MaxLotteryWinners]))
    ensures !UpdateCoinstakes(lotteryScore, seed, cs).shouldUpdate ==>
      && UpdateCoinstakes(lotteryScore, seed, cs).coinstakes == SortDesc(cs[..MaxLotteryWinners], ScoreKey(lotteryScore, seed))
      && cs[MaxLotteryWinners] !in UpdateCoinstakes(lotteryScore, seed, cs).coinstakes
  {
    UpdateOfFullList(lotteryScore, seed, cs);
    LastIsFresh(cs);
    LastStaysLastIff(cs, ScoreKey(lotteryScore, seed));
    assert cs[..|cs| - 1] == cs[..MaxLotteryWinners];
  }

  /** Merging one new ticket into a previous list that is already in ranking
      order (distinct ids, at most `MaxLotteryWinners`): the new ticket lands
      right after every ticket scoring at least as much; the change is
      reported unless the list was full and the ticket landed last. */
  lemma RankerMergesIntoSortedList(lotteryScore: (Uint256, Uint256) -> Uint256, seed: Uint256,
                                   previous: seq<Coinstake>, ticket: Coinstake)
    requires |previous| <= MaxLotteryWinners
    requires SortedDesc(previous, ScoreKey(lotteryScore, seed))
    requires DistinctTxIds(previous + [ticket])
    ensures var p := InsertionPoint(ticket, previous, ScoreKey(lotteryScore, seed));
      && UpdateCoinstakes(lotteryScore, seed, previous + [ticket]).coinstakes
         == Truncated(previous[..p] + [ticket] + previous[p..])
      && (UpdateCoinstakes(lotteryScore, seed, previous + [ticket]).shouldUpdate
         <==> !(|previous| == MaxLotteryWinners && p == MaxLotteryWinners))
  {
    var key := ScoreKey(lotteryScore, seed);
    var cs := previous + [ticket];
    var p := InsertionPoint(ticket, previous, key);
    InsertionIsStableSort(ticket, previous, key);
    RankerIsTruncatedStableSort(lotteryScore, seed, cs, previous[..p] + [ticket] + previous[p..]);
    if |previous| == MaxLotteryWinners {
      FullListMergeFlag(lotteryScore, seed, previous, ticket);
    } else {
      ShortListAlwaysUpdates(lotteryScore, seed, cs);
    }
  }

  /** A full list reports a change exactly when the new ticket does not land
      last among the previous ones. */
  lemma FullListMergeFlag(lotteryScore: (Uint256, Uint256) -> Uint256, seed: Uint256,
                          previous: seq<Coinstake>, ticket: Coinstake)
    requires |previous| == MaxLotteryWinners
    requires DistinctTxIds(previous + [ticket])
    ensures UpdateCoinstakes(lotteryScore, seed, previous + [ticket]).shouldUpdate
        <==> InsertionPoint(ticket, previous, ScoreKey(lotteryScore, seed)) != MaxLotteryWinners
  {
    var key := ScoreKey(lotteryScore, seed);
    var cs := previous + [ticket];
    SkipIffCandidateNotAbove(lotteryScore, seed, cs);
    AppendedParts(previous, ticket);
    InsertionPointAtEndIff(ticket, previous, key);
  }

  /** When a previous list in ranking order is not updated, the ranker's
      tickets are exactly the previous ones: dropping the skipped result loses
      nothing. */
  lemma SkipKeepsSortedPrevious(lotteryScore: (Uint256, Uint256) -> Uint256, seed: Uint256,
                                previous: seq<Coinstake>, ticket: Coinstake)
    requires |previous| <= MaxLotteryWinners
    requires SortedDesc(previous, ScoreKey(lotteryScore, seed))
    requires DistinctTxIds(previous + [ticket])
    ensures !UpdateCoinstakes(lotteryScore, seed, previous + [ticket]).shouldUpdate ==>
      UpdateCoinstakes(lotteryScore, seed, previous + [ticket]).coinstakes == previous
  {
    var p := InsertionPoint(ticket, previous, ScoreKey(lotteryScore, seed));
    RankerMergesIntoSortedList(lotteryScore, seed, previous, ticket);
    if |previous| == MaxLotteryWinners && p == MaxLotteryWinners {
      TruncatedDropsLast(previous, ticket);
    }
  }

  /** A ticket placed after a full list is the one the cap drops. */
  lemma TruncatedDropsLast(s: seq<Coinstake>, x: Coinstake)
    requires |s| == MaxLotteryWinners
    ensures Truncated(s[..|s|] + [x] + s[|s|..]) == s
  {
    assert s[..|s|] + [x] + s[|s|..] == s + [x];
    assert (s + [x])[..|s|] == s;
  }

  lemma AppendedParts(s: seq<Coinstake>, x: Coinstake)
    ensures (s + [x])[..|s|] == s && (s + [x])[|s|] == x
  {
  }
}
