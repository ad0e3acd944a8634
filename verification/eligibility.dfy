/**
  Which coinbase/coinstake transactions earn a lottery ticket: the amount the
  transaction pays its payee must strictly exceed the ticket minimum, which is
  a fixed default unless an active spork entry overrides it.
 */
module Eligibility {
  import opened Primitives
  import opened Environment

  /** Ticket minimum, in whole coins, when no spork entry overrides it. */
  const DefaultTicketValue: int := 10000

  /** The time used to select the spork entry at a height: the timestamp of the
      chain's block at that height when there is one, else the adjusted clock. */
  function TicketValueTime(env: Calculator, nHeight: int): int {
    match env.chain(nHeight)
    case Some(header) => header.nTime
    case None => env.adjustedTime
  }

  /** The ticket minimum, in whole coins, at a height. */
  function MinimumCoinstakeForTicket(env: Calculator, nHeight: int): (r: int)
    // an override only ever comes from an active spork's valid entry ...
    ensures r != DefaultTicketValue ==>
      env.ticketSporkActive && env.activeTicketValue(nHeight, TicketValueTime(env, nHeight)) == Some(r)
    // ... and such an entry always wins over the default
    ensures env.ticketSporkActive && env.activeTicketValue(nHeight, TicketValueTime(env, nHeight)).Some? ==>
      r == env.activeTicketValue(nHeight, TicketValueTime(env, nHeight)).value
  {
    if env.ticketSporkActive then
      match env.activeTicketValue(nHeight, TicketValueTime(env, nHeight))
      case Some(value) => value
      case None => DefaultTicketValue
    else
      DefaultTicketValue
  }

  /** For a height the chain already holds, the minimum does not depend on
      the node's clock: every node resolves the same spork entry. */
  lemma MinimumIgnoresClockForConnectedHeights(env: Calculator, nHeight: int, otherTime: int)
    requires env.chain(nHeight).Some?
    ensures MinimumCoinstakeForTicket(env.(adjustedTime := otherTime), nHeight)
         == MinimumCoinstakeForTicket(env, nHeight)
  {
    assert TicketValueTime(env.(adjustedTime := otherTime), nHeight) == TicketValueTime(env, nHeight);
  }

  /** Sum of the values of the outputs locked to `payee`. */
  function AmountPaidTo(outs: seq<TxOut>, payee: Script): int {
    if outs == [] then 0
    else (if outs[0].scriptPubKey == payee then outs[0].nValue else 0) + AmountPaidTo(outs[1..], payee)
  }

  lemma {:induction false} AmountPaidToAppend(a: seq<TxOut>, b: seq<TxOut>, payee: Script)
    ensures AmountPaidTo(a + b, payee) == AmountPaidTo(a, payee) + AmountPaidTo(b, payee)
    decreases |a|
  {
    if a == [] {
      assert a + b == b;
    } else {
      assert (a + b)[1..] == a[1..] + b;
      AmountPaidToAppend(a[1..], b, payee);
    }
  }

  /** The left-to-right accumulation over all outputs, adding each output's
      value when its script is the payee's. */
  method AccumulatePayee(outs: seq<TxOut>, payee: Script) returns (total: int)
    ensures total == AmountPaidTo(outs, payee)
  {
    total := 0;
    var i := 0;
    while i < |outs|
      invariant 0 <= i <= |outs|
      invariant total == AmountPaidTo(outs[..i], payee)
    {
      var out := outs[i];
      AmountPaidToAppend(outs[..i], [out], payee);
      assert outs[..i + 1] == outs[..i] + [out];
      total := if out.scriptPubKey == payee then total + out.nValue else total;
      i := i + 1;
    }
    assert outs[..i] == outs;
  }

  /** With no negative output, the payee is credited at least the value of any
      single output locked to its script. */
  lemma {:induction false} AmountPaidToCoversEachOutput(outs: seq<TxOut>, payee: Script, i: nat)
    requires forall j :: 0 <= j < |outs| ==> outs[j].nValue >= 0
    requires i < |outs| && outs[i].scriptPubKey == payee
    ensures AmountPaidTo(outs, payee) >= outs[i].nValue
    decreases |outs|
  {
    if i == 0 {
      AmountPaidToNonNegative(outs[1..], payee);
    } else {
      AmountPaidToCoversEachOutput(outs[1..], payee, i - 1);
    }
  }

  lemma {:induction false} AmountPaidToNonNegative(outs: seq<TxOut>, payee: Script)
    requires forall j :: 0 <= j < |outs| ==> outs[j].nValue >= 0
    ensures AmountPaidTo(outs, payee) >= 0
    decreases |outs|
  {
    if outs != [] {
      AmountPaidToNonNegative(outs[1..], payee);
    }
  }

  /** The amount that decides eligibility: output 0's value for a coinbase,
      otherwise everything paid to the script of output 1. */
  function PayoutAmount(tx: Transaction): (amount: int)
    requires HasPayeeOutput(tx)
    ensures tx.isCoinBase ==> amount == tx.vout[0].nValue
    ensures !tx.isCoinBase ==> amount == AmountPaidTo(tx.vout, PayeeScript(tx))
    // a coinstake paying its payee through output 1 alone is credited exactly
    // that output's value
    ensures !tx.isCoinBase && (forall j :: 0 <= j < |tx.vout| && j != 1 ==> tx.vout[j].scriptPubKey != PayeeScript(tx))
      ==> amount == tx.vout[1].nValue
  {
    if tx.isCoinBase then tx.vout[0].nValue
    else
      var payee := tx.vout[1].scriptPubKey;
      AmountPaidToSingle(tx.vout, payee, 1);
      AmountPaidTo(tx.vout, payee)
  }

  /** No output locked to `payee` means nothing is paid to it. */
  lemma {:induction false} AmountPaidToNone(outs: seq<TxOut>, payee: Script)
    requires forall j :: 0 <= j < |outs| ==> outs[j].scriptPubKey != payee
    ensures AmountPaidTo(outs, payee) == 0
    decreases |outs|
  {
    if outs != [] {
      AmountPaidToNone(outs[1..], payee);
    }
  }

  /** When output `i` is the only one locked to `payee`, the payee is paid
      exactly its value. */
  lemma {:induction false} AmountPaidToSingle(outs: seq<TxOut>, payee: Script, i: nat)
    requires i < |outs| && outs[i].scriptPubKey == payee
    ensures (forall j :: 0 <= j < |outs| && j != i ==> outs[j].scriptPubKey != payee)
      ==> AmountPaidTo(outs, payee) == outs[i].nValue
    decreases |outs|
  {
    if forall j :: 0 <= j < |outs| && j != i ==> outs[j].scriptPubKey != payee {
      if i == 0 {
        AmountPaidToNone(outs[1..], payee);
      } else {
        AmountPaidToSingle(outs[1..], payee, i - 1);
      }
    }
  }

  /** A coinstake whose outputs are all non-negative is credited at least its
      payee output, and more when further outputs pay the same script. */
  lemma PayoutCoversPayeeOutput(tx: Transaction)
    requires HasPayeeOutput(tx) && !tx.isCoinBase
    requires forall j :: 0 <= j < |tx.vout| ==> tx.vout[j].nValue >= 0
    ensures PayoutAmount(tx) >= tx.vout[1].nValue
    ensures forall j :: 0 <= j < |tx.vout| && tx.vout[j].scriptPubKey == PayeeScript(tx) ==>
      PayoutAmount(tx) >= tx.vout[j].nValue
  {
    forall j | 0 <= j < |tx.vout| && tx.vout[j].scriptPubKey == PayeeScript(tx)
      ensures PayoutAmount(tx) >= tx.vout[j].nValue
    {
      AmountPaidToCoversEachOutput(tx.vout, tx.vout[1].scriptPubKey, j);
    }
  }

  /** The eligibility threshold in smallest units at a height. */
  function TicketThreshold(env: Calculator, nHeight: int): int {
    MinimumCoinstakeForTicket(env, nHeight) * COIN
  }

  /** Whether the transaction earns a ticket at a height. */
  function IsCoinstakeValidForLottery(env: Calculator, tx: Transaction, nHeight: int): (valid: bool)
    requires HasPayeeOutput(tx)
    // without an active spork entry the bar is the default of 10000 coins ...
    ensures !(env.ticketSporkActive && env.activeTicketValue(nHeight, TicketValueTime(env, nHeight)).Some?) ==>
      (valid <==> PayoutAmount(tx) > DefaultTicketValue * COIN)
    // ... and with one it is that entry's minimum
    ensures env.ticketSporkActive && env.activeTicketValue(nHeight, TicketValueTime(env, nHeight)).Some? ==>
      (valid <==> PayoutAmount(tx) > env.activeTicketValue(nHeight, TicketValueTime(env, nHeight)).value * COIN)
  {
    PayoutAmount(tx) > TicketThreshold(env, nHeight)
  }

  /** The comparison is strict: exactly the threshold is rejected, one smallest
      unit more is accepted, and eligibility only grows with the amount. */
  lemma EligibilityIsStrict(env: Calculator, tx: Transaction, other: Transaction, nHeight: int)
    requires HasPayeeOutput(tx) && HasPayeeOutput(other)
    ensures PayoutAmount(tx) == TicketThreshold(env, nHeight) ==> !IsCoinstakeValidForLottery(env, tx, nHeight)
    ensures PayoutAmount(tx) == TicketThreshold(env, nHeight) + 1 ==> IsCoinstakeValidForLottery(env, tx, nHeight)
    ensures IsCoinstakeValidForLottery(env, tx, nHeight) && PayoutAmount(other) >= PayoutAmount(tx) ==>
      IsCoinstakeValidForLottery(env, other, nHeight)
  {
  }
}
