/** The null guard used to validate the client configuration. */
module ValidationHelper {
  import opened Wrappers
  import opened Errors

  /** The message of the guard's exception. */
  function NullMessage(paramName: string): string {
    paramName + " must not be null!"
  }

  /**
   * `EnsureNonNull(paramName, value)`: passes when the value is present and otherwise throws
   * an InvalidOperationException whose message names the parameter. It only checks.
   */
  function EnsureNonNull<T>(paramName: string, value: Option<T>): (r: Outcome<Exception>)
    ensures r.Pass? <==> value.Some?
    ensures r.Fail? ==> r.error == InvalidOperation(NullMessage(paramName))
  {
    if value.None? then Fail(InvalidOperation(NullMessage(paramName))) else Pass
  }
}
