/** The retry limits that the Go service and the M4F share (protocol.h). Times are milliseconds. */
module Limits {
  const ACK_TIMEOUT := 1000
  const MAX_RETRIES := 3
}
