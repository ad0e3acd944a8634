/**
  The values the lottery winners calculator reads and produces: transactions
  reduced to their outputs, the chain's block headers, and the ranked lottery
  state handed from one block to the next.
 */
module Primitives {

  datatype Option<T> = None | Some(value: T)

  /** The node's `uint256`: a 256-bit unsigned integer, ordered numerically. */
  newtype Uint256 = x: int | 0 <= x < 0x1_0000_0000_0000_0000_0000_0000_0000_0000_0000_0000_0000_0000_0000_0000_0000_0000

  newtype Byte = b: int | 0 <= b < 256

  /** A locking script (`scriptPubKey`), compared byte for byte. */
  type Script = seq<Byte>

  /** Smallest on-chain units per whole coin. */
  const COIN: int := 100_000_000

  /** The ranked state never holds more than this many entries. */
  const MaxLotteryWinners: nat := 11

  datatype TxOut = TxOut(scriptPubKey: Script, nValue: int)

  /** A coinbase or coinstake transaction: its hash, whether it is the coinbase,
      and its outputs in order. */
  datatype Transaction = Transaction(hash: Uint256, isCoinBase: bool, vout: seq<TxOut>)

  datatype BlockHeader = BlockHeader(hash: Uint256, nTime: int)

  /** One lottery ticket: the transaction that won it and the script to be paid. */
  datatype Coinstake = Coinstake(txid: Uint256, payee: Script)

  /** The ranked lottery state after some block: the height at which its
      entries last changed, and the entries from best to worst score. */
  datatype LotteryCoinstakeData = LotteryCoinstakeData(height: int, coinstakes: seq<Coinstake>)

  /** The default-constructed state: no height, no entries. */
  const EmptyLotteryData := LotteryCoinstakeData(0, [])

  /** The outputs the calculator indexes exist: output 0 of a coinbase,
      outputs 0 and 1 of any other transaction. */
  predicate HasPayeeOutput(tx: Transaction) {
    if tx.isCoinBase then |tx.vout| >= 1 else |tx.vout| >= 2
  }

  /** The script a new ticket pays: output 0's of a coinbase, output 1's otherwise. */
  function PayeeScript(tx: Transaction): Script
    requires HasPayeeOutput(tx)
  {
    if tx.isCoinBase then tx.vout[0].scriptPubKey else tx.vout[1].scriptPubKey
  }
}
