/** The engine limits of crates/tmx-schema/src/limits.rs that the model uses. */
module Limits {
  const STATE_SIZE_MAX_BYTES: nat := 512 * 1024 * 1024
  const FLOW_DEPTH_MAX: nat := 8
  const FANOUT_WIDTH_MAX: nat := 100_000
  const CONCURRENCY_MAX: nat := 256
  const EXPR_LEN_MAX_BYTES: nat := 4096
  const EXPR_DEPTH_MAX: nat := 32
  const JSON_DEPTH_MAX: nat := 128
  const EVENT_LOG_MAX_BYTES: nat := 256 * 1024 * 1024
  const MASK_SCAN_LEN_MIN_BYTES: nat := 6
}
