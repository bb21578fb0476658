/**
 * The operator tags that open every log record of the recovery manager. The
 * values are those of the record interface of the transaction layer.
 */
module LogRecordKinds {
  const CHECKPOINT: int := 0
  const START: int := 1
  const COMMIT: int := 2
  const ROLLBACK: int := 3
  const SETINT: int := 4
  const SETSTRING: int := 5

  /** Whether `op` is the tag of one of the six record kinds. */
  predicate IsTag(op: int)
  {
    op == CHECKPOINT || op == START || op == COMMIT || op == ROLLBACK || op == SETINT || op == SETSTRING
  }
}
