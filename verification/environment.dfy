/**
  The collaborators the calculator is constructed with, as read-only views.
  Each is a pure function of its arguments, so every operation of the model is
  a pure function of the calculator and its explicit inputs.
 */
module Environment {
  import opened Primitives

  datatype Calculator = Calculator(
    /** Last height before the lottery is active. */
    startOfLotteryBlocks: int,
    /** The active chain: the header at a height, `None` where the chain has
        no block (the source's null block index). */
    chain: int -> Option<BlockHeader>,
    /** The node's network-adjusted clock, read when the chain has no block. */
    adjustedTime: int,
    /** Whether the lottery-ticket-minimum spork is active. */
    ticketSporkActive: bool,
    /** The spork entry active at a (height, block time), when one is valid:
        its ticket minimum in whole coins. */
    activeTicketValue: (int, int) -> Option<int>,
    /** The schedule's lottery payment cycle length at a height. */
    paymentCycle: int -> int,
    /** Whether a height is a lottery (superblock) payout height. */
    isLotteryBlockHeight: int -> bool,
    /** The consensus hash of a transaction id followed by a seed block hash. */
    lotteryScore: (Uint256, Uint256) -> Uint256
  )
}
