/** The exceptions the runtime raises, as values. */
module Errors {
  import Faults

  datatype Exception =
    | InvalidOperation(message: string)   // InvalidOperationException
    | ArgumentNull(paramName: string)     // ArgumentNullException
    | NullReference(dereferenced: string) // NullReferenceException: a missing header or element was used
    | Remote(fault: Faults.Fault)         // WwsException: a SOAP fault returned by the service
}
