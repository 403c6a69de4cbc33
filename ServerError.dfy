/**
 * The library's last-error register (MRH_ServerError.c) and the error kinds
 * its operations report.
 */
module ServerError {

  /** MRH_SERVER_ERROR_NONE, _UNK and the bound MRH_SERVER_ERROR_TYPE_MAX. */
  const ErrorNone: int := -1
  const ErrorUnk: int := 0
  const ErrorInvalidParam: int := 1
  const ErrorMalloc: int := 2
  const ErrorTypeMax: int := ErrorMalloc

  /**
   * The errors the operations of the library set. Only NONE, UNK,
   * INVALID_PARAM and MALLOC have a value in the error enum; the others are
   * named by the code but given no value, so they are kept symbolic.
   */
  datatype ErrorKind =
    | InvalidParam
    | Malloc
    | EncryptionInit
    | EncryptionFailed
    | EncryptionPwHashMem
    | ApiTable
    | Registration
    | Configuration
    | SendDisconnected
    | SendQueueFull
    | SendInvalidMessage
    | StreamCreate
    | StreamStart
    | StreamSend

  /** The value a kind has in the error enum, when it has one. */
  function Code(e: ErrorKind): (r: int)
    requires e.InvalidParam? || e.Malloc?
    ensures ErrorNone < r <= ErrorTypeMax
  {
    if e.InvalidParam? then ErrorInvalidParam else ErrorMalloc
  }

  /** What MRH_ERR_SetServerError stores for a given value. */
  function Clamp(e: int): (r: int)
    ensures ErrorNone <= r <= ErrorTypeMax
    ensures ErrorNone <= e <= ErrorTypeMax ==> r == e
    ensures !(ErrorNone <= e <= ErrorTypeMax) ==> r == ErrorUnk
  {
    if ErrorNone <= e <= ErrorTypeMax then e else ErrorUnk
  }

  /** Clamping a stored value again changes nothing. */
  lemma ClampIdempotent(e: int)
    ensures Clamp(Clamp(e)) == Clamp(e)
  {
  }

  /** The static e_LastError. */
  class ErrorRegister {
    var lastError: int

    /** The stored value always lies in [NONE, TYPE_MAX]. */
    predicate Valid()
      reads this
    {
      ErrorNone <= lastError <= ErrorTypeMax
    }

    /** The static initialiser. */
    constructor ()
      ensures Valid() && lastError == ErrorNone
    {
      lastError := ErrorNone;
    }

    /** MRH_ERR_ServerReset. */
    method Reset()
      modifies this
      ensures Valid() && lastError == ErrorNone
    {
      lastError := ErrorNone;
    }

    /** MRH_ERR_SetServerError. */
    method Set(e: int)
      modifies this
      ensures Valid()
      ensures lastError == Clamp(e)
    {
      if ErrorNone <= e && e <= ErrorTypeMax {
        lastError := e;
      } else {
        lastError := ErrorUnk;
      }
    }

    /** MRH_ERR_GetServerError. */
    method Get() returns (e: int)
      ensures e == lastError
      ensures Valid() ==> ErrorNone <= e <= ErrorTypeMax
    {
      e := lastError;
    }
  }
}
