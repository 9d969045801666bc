/**
 * The integer result codes the VDO base layer passes around, as an
 * enumeration. Only the codes the modelled components produce or test are
 * named; `Other` stands for any code reported by a collaborator outside the
 * model (a failed metadata write, say).
 */
module VdoStatus {

  datatype Status =
    | Success
    | ReadOnly              // VDO_READ_ONLY
    | InvalidAdminState     // VDO_INVALID_ADMIN_STATE
    | ComponentBusy         // VDO_COMPONENT_BUSY
    | BadState              // UDS_BAD_STATE
    | OutOfRange            // VDO_OUT_OF_RANGE
    | NoSpace               // VDO_NO_SPACE
    | TooManySlabs          // VDO_TOO_MANY_SLABS
    | IncrementTooSmall     // VDO_INCREMENT_TOO_SMALL
    | BadConfiguration      // VDO_BAD_CONFIGURATION
    | InvalidArgument       // UDS_INVALID_ARGUMENT
    | CorruptJournal        // VDO_CORRUPT_JOURNAL
    | ParameterMismatch     // VDO_PARAMETER_MISMATCH
    | NotImplemented        // VDO_NOT_IMPLEMENTED
    | RetryAfterRebuild     // VDO_RETRY_AFTER_REBUILD
    | BadHeader             // any refusal of the component header validator
    | BufferUnderrun        // the decode buffer ran out of bytes
    | AssertionFailed       // an ASSERT() that did not hold
    | Other(code: int)      // a code from a collaborator outside the model

  /** setCompletionResult: a completion keeps the first error recorded on it. */
  function KeepFirstError(current: Status, result: Status): (r: Status)
    ensures current != Success ==> r == current
    ensures current == Success ==> r == result
  {
    if current == Success then result else current
  }
}
