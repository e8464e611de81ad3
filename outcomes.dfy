/** Pass/fail outcomes of the response checks.

    Every AssertJ assertion (and every exception the JDK throws on the way,
    such as a NumberFormatException or a NullPointerException) ends the
    check at the first failure; a `Failure` says which rule stopped it. */
module Outcomes {

  datatype Option<+T> = None | Some(value: T)

  datatype Failure =
    | NoDocumentGroups            // document-group array is null or empty
    | NumberFormat(text: string)  // Integer.parseInt rejected the text
    | BlankLabel                  // a visited group has a null or empty label
    | NullReferences              // Arrays.asList on a null reference array
    | DanglingReferences          // a reference is not the id of any hit
    | MissingInfoKey(key: string) // a required info key is absent
    | StatusMismatch(expected: int, actual: int)
    | MalformedBody               // the body did not parse into a JSON object
    | MissingKey(key: string)     // a key the verdict requires is absent
    | UnexpectedKey(key: string)  // a key the verdict forbids is present
    | NullValue(key: string)      // toString() called on a JSON null
    | MessageMismatch             // the error message lacks the substring

  /** The outcome of a check that yields nothing on success. */
  datatype Outcome = Pass | Fail(failure: Failure)

  /** The outcome of a check that yields a value on success. */
  datatype Result<+T> = Ok(value: T) | Err(failure: Failure)
}
