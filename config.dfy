/** The configuration constants the chain-state engine reads. */
module Config {
  /** Coins credited to the miner of every accepted block. */
  const BLOCK_REWARD: int := 100
  /** Mining faster than this many seconds raises the difficulty. */
  const BLOCK_MIN_CREATION_SECONDS: int := 0
  /** Threshold of the second test of the difficulty rule. */
  const BLOCK_MAX_CREATION_SECONDS: int := 1
}
