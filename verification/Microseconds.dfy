/** PostgreSQL timestamps are counted in microseconds. */
module Microseconds {
  const SECOND := 1_000_000
}
