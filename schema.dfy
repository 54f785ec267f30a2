/**
 * The two tables the world declares (packages/contracts/mud.config.ts):
 * the keyless singleton `Counter` with one `uint32` field, and `History`,
 * keyed by a `uint32` counter value and carrying two `uint256` fields.
 * Solidity's unsigned widths are modelled as bounded subsets of `nat`.
 */
module Schema {

  /** 2^32, one past the largest `uint32`. */
  const UINT32_LIMIT: nat := 0x1_0000_0000

  /** 2^256, one past the largest `uint256`. */
  const UINT256_LIMIT: nat := 0x1_0000_0000_0000_0000_0000_0000_0000_0000_0000_0000_0000_0000_0000_0000_0000_0000

  type uint32 = x: nat | x < UINT32_LIMIT
  type uint256 = x: nat | x < UINT256_LIMIT

  /** The one row of the `Counter` table. */
  datatype CounterRecord = CounterRecord(value: uint32)

  /** A row of the `History` table, without its key `counterValue`. */
  datatype HistoryEntry = HistoryEntry(blockNumber: uint256, time: uint256)

  /**
   * The client's mirror of the `History` table, as it is read by key:
   * a key that has not been synchronized is absent.
   */
  type HistoryTable = map<uint32, HistoryEntry>
}
