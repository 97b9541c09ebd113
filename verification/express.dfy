/** The Express helpers that decide a response: the default error handlers
    (status, JSON body and log level of an error, in development and in
    production), the classification of proxy failures, the `DataError` and
    `AppError` defaults, the required-query-parameter guard and the
    empty-or-not responders. Requests, responses and the logger are reduced
    to the values these decisions produce. */
module Express {
  import opened Wrappers
  import Json

  /** A property value of an error object, as JSON sees it: `undefined`
      properties exist but are dropped when serialised. */
  datatype Prop = PStr(s: string) | PNum(n: int) | PBool(b: bool) | PUndefined

  /** An error: its message (not enumerable, so never among the fields)
      and its own enumerable fields (`name`, `status`, `errorType`,
      `renderedToEndUser`, `code`, `type`, …). */
  datatype Error = Error(message: string, fields: map<string, Prop>)

  datatype LogLevel = Warn | Err

  /** A JSON error response: `{ message, error }`. */
  datatype Response = Response(status: int, message: string, error: map<string, Prop>)

  /** What a handler did with an error: the level it was logged at, and
      the response sent, if any. */
  datatype Outcome = Outcome(log: LogLevel, response: Option<Response>)

  /** JavaScript truthiness of a property. */
  predicate Truthy(p: Prop) {
    match p
    case PStr(s) => s != ""
    case PNum(n) => n != 0
    case PBool(b) => b
    case PUndefined => false
  }

  /** `err.status` when truthy. */
  function Status(err: Error): (r: Option<int>)
    ensures r.Some? <==> "status" in err.fields && err.fields["status"].PNum? && err.fields["status"].n != 0
    ensures r.Some? ==> r.value == err.fields["status"].n && r.value != 0
  {
    if "status" in err.fields && err.fields["status"].PNum? && err.fields["status"].n != 0
    then Some(err.fields["status"].n) else None
  }

  /** `status || 500`. */
  function ResponseStatus(err: Error): (r: int)
    ensures r != 0
    ensures Status(err).Some? ==> r == Status(err).value
    ensures Status(err).None? ==> r == 500
  {
    Status(err).GetOr(500)
  }

  /** `safeLogError`: errors without a status or with a status of 500 or
      more are logged as errors, the rest as warnings. */
  function SafeLogLevel(err: Error): (r: LogLevel)
    ensures r == Warn <==> Status(err).Some? && Status(err).value < 500
  {
    match Status(err)
    case None => Err
    case Some(s) => if s >= 500 then Err else Warn
  }

  /** The fields that survive `JSON.stringify`: the defined ones. */
  function Serialised(fields: map<string, Prop>): (r: map<string, Prop>)
    ensures forall k :: k in r <==> k in fields && !fields[k].PUndefined?
    ensures forall k | k in r :: r[k] == fields[k]
  {
    map k | k in fields && !fields[k].PUndefined? :: fields[k]
  }

  /** `_.omit(err, key)`. */
  function Omit(fields: map<string, Prop>, key: string): (r: map<string, Prop>)
    ensures r.Keys == fields.Keys - {key}
    ensures forall k | k in r :: r[k] == fields[k]
  {
    fields - {key}
  }

  /** `_.pick(err, key)`. */
  function Pick(fields: map<string, Prop>, key: string): (r: map<string, Prop>)
    ensures r.Keys == fields.Keys * {key}
    ensures forall k | k in r :: r[k] == fields[k]
  {
    if key in fields then map[key := fields[key]] else map[]
  }

  /** The development response: the status, the message, and every field
      but `renderedToEndUser`. */
  function DevResponse(err: Error): (r: Response)
    ensures r.status == ResponseStatus(err) && r.message == err.message
    ensures "renderedToEndUser" !in r.error
    ensures forall k :: k in r.error <==> k in err.fields && k != "renderedToEndUser" && !err.fields[k].PUndefined?
  {
    Response(ResponseStatus(err), err.message, Serialised(Omit(err.fields, "renderedToEndUser")))
  }

  /** The production response: the message only when the error is meant
      for the end user, and of the fields only `errorType`. */
  function ProdResponse(err: Error): (r: Response)
    ensures r.status == ResponseStatus(err)
    ensures r.message != "" ==> r.message == err.message && "renderedToEndUser" in err.fields && Truthy(err.fields["renderedToEndUser"])
    ensures "renderedToEndUser" in err.fields && Truthy(err.fields["renderedToEndUser"]) ==> r.message == err.message
    ensures r.error.Keys <= {"errorType"}
    ensures "errorType" in r.error <==> "errorType" in err.fields && !err.fields["errorType"].PUndefined?
  {
    var rendered := "renderedToEndUser" in err.fields && Truthy(err.fields["renderedToEndUser"]);
    Response(ResponseStatus(err), if rendered then err.message else "", Serialised(Pick(err.fields, "errorType")))
  }

  /** `isBodyParserError`: `err.type === 'stream.not.readable'`. */
  predicate IsBodyParserError(err: Error) {
    "type" in err.fields && err.fields["type"] == PStr("stream.not.readable")
  }

  /** The handlers `setupDefaultErrorHandlers` installs, applied to one
      error. In development the first handler answers and never passes the
      error on; in production a body-parser error is only warned about.
      Nothing is sent once the headers have gone. */
  function HandleError(isDevEnv: bool, headersSent: bool, err: Error): (r: Outcome)
    ensures headersSent ==> r.response.None?
    ensures isDevEnv ==> r.log == SafeLogLevel(err) && (!headersSent ==> r.response == Some(DevResponse(err)))
    ensures !isDevEnv && IsBodyParserError(err) ==> r == Outcome(Warn, None)
    ensures !isDevEnv && !IsBodyParserError(err) ==>
              r.log == SafeLogLevel(err) && (!headersSent ==> r.response == Some(ProdResponse(err)))
  {
    if isDevEnv then
      Outcome(SafeLogLevel(err), if headersSent then None else Some(DevResponse(err)))
    else if IsBodyParserError(err) then
      Outcome(Warn, None)
    else
      Outcome(SafeLogLevel(err), if headersSent then None else Some(ProdResponse(err)))
  }

  /** Both modes answer with the same status; they differ only in what
      the body reveals. */
  lemma StatusSameInBothModes(err: Error)
    requires !IsBodyParserError(err)
    ensures var dev := HandleError(true, false, err);
            var prod := HandleError(false, false, err);
            && dev.response.Some? && prod.response.Some?
            && dev.response.value.status == prod.response.value.status
            && dev.log == prod.log
            && prod.response.value.error.Keys <= dev.response.value.error.Keys
  {
  }

  /** An error that is not meant for the end user is answered in
      production with an empty message, whatever it said. */
  lemma ProdHidesMessage(err: Error)
    requires !IsBodyParserError(err)
    requires "renderedToEndUser" !in err.fields || !Truthy(err.fields["renderedToEndUser"])
    ensures HandleError(false, false, err).response == Some(Response(ResponseStatus(err), "", ProdResponse(err).error))
  {
  }

  /** `new AppError(message, status)`: named `AppError`, with the status. */
  function AppError(message: string, status: int): (r: Error)
    ensures r.message == message
    ensures r.fields.Keys == {"name", "status"} && r.fields["status"] == PNum(status)
  {
    Error(message, map["name" := PStr("AppError"), "status" := PNum(status)])
  }

  /** The default status of `DataError`. */
  const DataErrorDefaultStatus: int := 400

  /** `new DataError(message, status = 400, errorType)`: meant for the
      end user; `errorType` is an own field even when undefined. */
  function DataError(message: string, status: int, errorType: Option<string>): (r: Error)
    ensures r.message == message
    ensures r.fields.Keys == {"name", "status", "errorType", "renderedToEndUser"}
    ensures r.fields["status"] == PNum(status) && r.fields["renderedToEndUser"] == PBool(true)
    ensures errorType.None? <==> r.fields["errorType"].PUndefined?
  {
    Error(message, map[
      "name" := PStr("DataError"),
      "status" := PNum(status),
      "errorType" := (match errorType case Some(t) => PStr(t) case None => PUndefined),
      "renderedToEndUser" := PBool(true)])
  }

  /** A plain `Error` has no enumerable fields: 500, logged as an error,
      the message shown only in development. */
  lemma PlainErrorResponses(message: string)
    ensures HandleError(true, false, Error(message, map[])) == Outcome(Err, Some(Response(500, message, map[])))
    ensures HandleError(false, false, Error(message, map[])) == Outcome(Err, Some(Response(500, "", map[])))
  {
    var err := Error(message, map[]);
    assert Serialised(Omit(err.fields, "renderedToEndUser")) == map[];
    assert Serialised(Pick(err.fields, "errorType")) == map[];
  }

  /** An `AppError` with a status below 500: that status, logged as a
      warning; development shows the message, the name and the status,
      production neither. */
  lemma AppErrorResponses(message: string, status: int)
    requires status != 0 && status < 500
    ensures var err := AppError(message, status);
            && HandleError(true, false, err)
                 == Outcome(Warn, Some(Response(status, message, map["name" := PStr("AppError"), "status" := PNum(status)])))
            && HandleError(false, false, err) == Outcome(Warn, Some(Response(status, "", map[])))
  {
    var err := AppError(message, status);
    assert !IsBodyParserError(err);
    assert Serialised(Omit(err.fields, "renderedToEndUser")) == err.fields;
    assert Serialised(Pick(err.fields, "errorType")) == map[];
  }

  /** A `DataError` with the defaults: 400, logged as a warning, the
      message shown in both modes; without an error type production shows
      no field, development the name and the status. */
  lemma DataErrorResponses(message: string)
    ensures var err := DataError(message, DataErrorDefaultStatus, None);
            && HandleError(true, false, err)
                 == Outcome(Warn, Some(Response(400, message, map["name" := PStr("DataError"), "status" := PNum(400)])))
            && HandleError(false, false, err) == Outcome(Warn, Some(Response(400, message, map[])))
  {
    var err := DataError(message, DataErrorDefaultStatus, None);
    assert !IsBodyParserError(err);
    assert Serialised(Omit(err.fields, "renderedToEndUser")) == map["name" := PStr("DataError"), "status" := PNum(400)];
    assert Serialised(Pick(err.fields, "errorType")) == map[];
  }

  /** How `proxyErrorHandling` classifies a failed proxy request. */
  datatype ProxyKind = Notice | Warning | Fault

  /** The status and kind of a proxy failure with error `code`: a reset
      socket is a notice, an aborted or prematurely closed stream a
      warning, both 400; anything else is a 500 error. */
  function ProxyClassification(code: Option<string>): (r: (int, ProxyKind))
    ensures r.0 == 400 <==> code == Some("ECONNRESET") || code == Some("ECONNABORTED") || code == Some("ERR_STREAM_PREMATURE_CLOSE")
    ensures r.0 == 500 <==> r.1 == Fault
    ensures r.1 == Notice <==> code == Some("ECONNRESET")
  {
    if code == Some("ECONNRESET") then (400, Notice)
    else if code == Some("ECONNABORTED") || code == Some("ERR_STREAM_PREMATURE_CLOSE") then (400, Warning)
    else (500, Fault)
  }

  function KindName(k: ProxyKind): string {
    match k
    case Notice => "notice"
    case Warning => "warning"
    case Fault => "error"
  }

  function OptProp(o: Option<string>): Prop {
    match o
    case Some(s) => PStr(s)
    case None => PUndefined
  }

  /** The `ProxyError` passed on: `Proxy <kind> <prefix>: <message>`, with
      the request's url and method, the status, and the original code. */
  function ProxyError(message: string, code: Option<string>, url: Option<string>, httpMethod: Option<string>,
                      errorPrefix: string): (r: Error)
    ensures r.fields.Keys == {"url", "method", "status", "code"}
    ensures r.fields["status"] == PNum(ProxyClassification(code).0)
    ensures r.fields["code"] == OptProp(code)
    ensures !IsBodyParserError(r)
  {
    var (status, kind) := ProxyClassification(code);
    Error("Proxy " + KindName(kind) + " " + errorPrefix + ": " + message,
          map["url" := OptProp(url), "method" := OptProp(httpMethod), "status" := PNum(status), "code" := OptProp(code)])
  }

  /** A proxy failure that the user caused (a cancelled or timed-out
      request) reaches the production handler as a 400 with an empty
      message and is only warned about; any other is a logged 500. */
  lemma ProxyFailureHandled(message: string, code: Option<string>, url: Option<string>, httpMethod: Option<string>,
                            errorPrefix: string)
    ensures var err := ProxyError(message, code, url, httpMethod, errorPrefix);
            var out := HandleError(false, false, err);
            var userSide := code == Some("ECONNRESET") || code == Some("ECONNABORTED") || code == Some("ERR_STREAM_PREMATURE_CLOSE");
            && out.response.Some? && out.response.value.message == "" && out.response.value.error == map[]
            && (userSide ==> out.log == Warn && out.response.value.status == 400)
            && (!userSide ==> out.log == Err && out.response.value.status == 500)
  {
    var err := ProxyError(message, code, url, httpMethod, errorPrefix);
    assert !IsBodyParserError(err);
    assert Status(err) == Some(ProxyClassification(code).0);
    assert Serialised(Pick(err.fields, "errorType")) == map[];
  }

  /** What a guard middleware does: pass the request on or end it. */
  datatype Guard = Next | EndWith(status: int)

  /** `ensureQueryParameters(required)` for a query with keys `query`. */
  function EnsureQueryParameters(required: seq<string>, query: set<string>): (r: Guard)
    ensures r == Next <==> forall i | 0 <= i < |required| :: required[i] in query
    ensures r != Next ==> r == EndWith(404)
  {
    if forall i | 0 <= i < |required| :: required[i] in query then Next else EndWith(404)
  }

  /** Asking for more parameters never lets more requests through. */
  lemma EnsureQueryParametersMonotone(required: seq<string>, more: seq<string>, query: set<string>)
    requires EnsureQueryParameters(required + more, query) == Next
    ensures EnsureQueryParameters(required, query) == Next
  {
    assert forall i | 0 <= i < |required| :: (required + more)[i] == required[i];
  }

  /** `_.isEmpty(data)` on JSON data (`None` is `undefined`): no value,
      null, booleans and numbers are empty, and strings, arrays and
      objects of length zero. */
  predicate IsEmpty(data: Option<Json.Json>) {
    match data
    case None => true
    case Some(j) =>
      match j
      case JNull => true
      case JBool(_) => true
      case JNum(_) => true
      case JStr(s) => s == ""
      case JArr(items) => items == []
      case JObj(fields) => fields == []
  }

  /** What a responder sends: a status and, for 200, the JSON data. */
  datatype Reply = Reply(status: int, body: Option<Json.Json>)

  /** `respondWith204Or400(res)(data)`. */
  function RespondWith204Or400(data: Option<Json.Json>): (r: Reply)
    ensures r.body.None?
    ensures r.status == 204 <==> !IsEmpty(data)
    ensures r.status == 400 <==> IsEmpty(data)
  {
    if !IsEmpty(data) then Reply(204, None) else Reply(400, None)
  }

  /** `respondWithJsonOr404(res)(data)`: the data itself as JSON, or 404. */
  function RespondWithJsonOr404(data: Option<Json.Json>): (r: Reply)
    ensures r.status == 200 <==> !IsEmpty(data)
    ensures r.status == 200 ==> data.Some? && r.body == data
    ensures r.status != 200 ==> r == Reply(404, None)
  {
    if !IsEmpty(data) then Reply(200, data) else Reply(404, None)
  }

  /** The two responders agree on what counts as no data. */
  lemma RespondersAgree(data: Option<Json.Json>)
    ensures RespondWith204Or400(data).status == 400 <==> RespondWithJsonOr404(data).status == 404
  {
  }
}
