/** The verdicts the REST tests pass on an HTTP response: a status code and
    the body, already parsed into a JSON object (None when the parser
    rejects the body), plus the key check on a response serialized to JSON. */
module HttpChecks {
  import opened Outcomes
  import opened JavaLang
  import opened ClusteringResponse

  /** A parsed JSON value as the body map holds it. Arrays and objects
      are kept as the text their toString() prints. */
  datatype Value =
    | Str(text: string)
    | Num(n: int)
    | Bool(b: bool)
    | Null
    | Composite(rendered: string)

  type Body = map<string, Value>

  /** HttpStatus.SC_OK. */
  const StatusOk: int := 200

  /** The key an error body carries its message under. */
  const ErrorKey: string := "error"

  /** `toString()` of a parsed value; a JSON null has none. */
  function ValueText(key: string, v: Value): (r: Result<string>)
    ensures r.Err? <==> v.Null?
    ensures r.Err? ==> r.failure == NullValue(key)
    ensures v.Str? ==> r == Ok(v.text)
  {
    match v
    case Str(text) => Ok(text)
    case Num(n) => Ok(IntToString(n))
    case Bool(b) => Ok(if b then "true" else "false")
    case Null => Err(NullValue(key))
    case Composite(rendered) => Ok(rendered)
  }

  /** checkHttpResponse: the status must be 200, the body must parse, and
      the parsed map must not hold an "error" key; the map is returned. */
  function CheckHttpResponse(status: int, body: Option<Body>): Result<Body> {
    if status != StatusOk then Err(StatusMismatch(StatusOk, status))
    else if body.None? then Err(MalformedBody)
    else if ErrorKey in body.value then Err(UnexpectedKey(ErrorKey))
    else Ok(body.value)
  }

  /** checkHttpResponseContainsClusters: checkHttpResponse, then a "clusters" key. */
  function CheckHttpResponseContainsClusters(status: int, body: Option<Body>): Result<Body> {
    match CheckHttpResponse(status, body)
    case Err(f) => Err(f)
    case Ok(parsed) => if Clusters in parsed then Ok(parsed) else Err(MissingKey(Clusters))
  }

  /** expectErrorResponseWithMessage: the status must be the expected one,
      the body must parse and hold an "error" key whose value's text
      contains the given substring. */
  function ExpectErrorResponseWithMessage(status: int, body: Option<Body>,
                                          expectedStatus: int, messageSubstring: string): Outcome
  {
    if status != expectedStatus then Fail(StatusMismatch(expectedStatus, status))
    else if body.None? then Fail(MalformedBody)
    else if ErrorKey !in body.value then Fail(MissingKey(ErrorKey))
    else
      match ValueText(ErrorKey, body.value[ErrorKey])
      case Err(f) => Fail(f)
      case Ok(message) => if Contains(message, messageSubstring) then Pass else Fail(MessageMismatch)
  }

  /** The key check of checkJsonSerialization on the re-parsed JSON. */
  function CheckJsonSerialization(parsed: Body): Outcome {
    if Clusters in parsed then Pass else Fail(MissingKey(Clusters))
  }

  /** A success verdict needs status 200 and a parsed body without an
      "error" key, and hands that very body back. */
  lemma CheckHttpResponseIff(status: int, body: Option<Body>)
    ensures CheckHttpResponse(status, body).Ok? <==>
              status == StatusOk && body.Some? && ErrorKey !in body.value
    ensures CheckHttpResponse(status, body).Ok? ==> CheckHttpResponse(status, body).value == body.value
    ensures status != StatusOk ==> CheckHttpResponse(status, body) == Err(StatusMismatch(StatusOk, status))
  {
  }

  /** The clusters variant is the plain verdict plus the "clusters" key,
      which is the key checkJsonSerialization looks for. */
  lemma ContainsClustersIff(status: int, body: Option<Body>)
    ensures CheckHttpResponseContainsClusters(status, body).Ok? <==>
              CheckHttpResponse(status, body).Ok? && CheckJsonSerialization(body.value) == Pass
    ensures CheckHttpResponseContainsClusters(status, body).Ok? ==>
              CheckHttpResponseContainsClusters(status, body) == CheckHttpResponse(status, body)
  {
  }

  /** The JSON written for a response passes the serialization key check
      exactly when, served with status 200, it would pass the clusters verdict. */
  lemma SerializedClustersCheck(parsed: Body)
    requires ErrorKey !in parsed
    ensures CheckJsonSerialization(parsed) == Pass <==>
              CheckHttpResponseContainsClusters(StatusOk, Some(parsed)) == Ok(parsed)
  {
  }

  /** An error verdict needs the expected status, an "error" key with a
      non-null value, and that value's text containing the substring at
      some position. */
  lemma ExpectErrorIff(status: int, body: Option<Body>, expectedStatus: int, messageSubstring: string)
    ensures ExpectErrorResponseWithMessage(status, body, expectedStatus, messageSubstring) == Pass <==>
              && status == expectedStatus
              && body.Some?
              && ErrorKey in body.value
              && ValueText(ErrorKey, body.value[ErrorKey]).Ok?
              && exists i :: OccursAt(ValueText(ErrorKey, body.value[ErrorKey]).value, messageSubstring, i)
  {
    if status == expectedStatus && body.Some? && ErrorKey in body.value
       && ValueText(ErrorKey, body.value[ErrorKey]).Ok?
    {
      ContainsIff(ValueText(ErrorKey, body.value[ErrorKey]).value, messageSubstring);
    }
  }

  /** An error body with a string message passes for every substring of it,
      the empty substring included. */
  lemma ExpectErrorAcceptsSubstring(status: int, body: Body, message: string, i: int, j: int)
    requires ErrorKey in body && body[ErrorKey] == Str(message)
    requires 0 <= i <= j <= |message|
    ensures ExpectErrorResponseWithMessage(status, Some(body), status, message[i..j]) == Pass
  {
    assert OccursAt(message, message[i..j], i);
    ContainsIff(message, message[i..j]);
  }

  /** No response passes both as a success and as an expected error:
      a success body never holds the "error" key. */
  lemma SuccessAndErrorExclusive(status: int, body: Option<Body>, expectedStatus: int, messageSubstring: string)
    requires CheckHttpResponse(status, body).Ok?
    ensures ExpectErrorResponseWithMessage(status, body, expectedStatus, messageSubstring).Fail?
  {
  }
}
