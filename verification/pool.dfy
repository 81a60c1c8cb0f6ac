/** One observation of the pool's two reserves (`PoolStatus` in index.ts).
    The code keeps the whole RPC balance response per vault. A snapshot holds
    only its unit-scaled `uiAmount`: the detector reads the base vault's
    amount, and the quote vault's amount is carried but never read. */
module Pool {

  /** A unit-scaled token amount as reported by a vault balance lookup. */
  type Amount = r: real | r >= 0.0

  datatype Snapshot = Snapshot(base: Amount, quote: Amount)
}
