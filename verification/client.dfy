/** `sendLedRequest` (esp32/ContentView.swift:121-176) with Foundation's I/O
    taken out: URL construction, the GET request it issues, and the chain
    of early returns in the completion handler that decides what happened.
    Parsing the base URL, resolving the components and decoding JSON are
    foreign calls; they enter as booleans and as a decoder function. */
module Client {
  import opened Wrappers
  import opened Control
  import Query

  /** The record the device answers with (esp32/ContentView.swift:16-20). */
  datatype LedResponse = LedResponse(success: bool, message: string, mode: Option<int>)

  /** What Foundation says about the configured address: whether
      `URL(string:)` accepts it, and whether the components built from it
      (with the query attached) yield a URL. */
  datatype UrlEnv = UrlEnv(baseParses: bool, componentsYieldUrl: bool)

  /** An issued request: its method and its query items. */
  datatype Request = Request(httpMethod: string, query: seq<Query.QueryItem>)

  /** The kind of response object the data task hands back. */
  datatype ResponseKind = NonHttp | Http(statusCode: int)

  /** The three arguments of the data task's completion handler. */
  datatype Completion = Completion(error: Option<string>, response: Option<ResponseKind>, data: Option<seq<bv8>>)

  /** How one request ends. Each failure is a distinct early return. */
  datatype Outcome =
    | InvalidUrl
    | TransportFailure(cause: string)
    | NotHttp
    | BadStatus(code: int)
    | NoData
    | Undecodable
    | Delivered(reply: LedResponse)

  /** The only status treated as success: 200 OK, section 15.3.1 of RFC 9110. */
  const StatusOk: int := 200

  /** Build the GET request for `st`, or nothing when the URL cannot be
      formed. The request carries exactly the encoded desired state. */
  function BuildRequest(env: UrlEnv, st: DesiredState): (r: Option<Request>)
    ensures r.Some? <==> env.baseParses && env.componentsYieldUrl
    ensures r.Some? ==> r.value.httpMethod == "GET" && Query.Decode(r.value.query) == Some(st)
    ensures r.Some? ==> r.value.query == Query.Encode(st)
  {
    Query.DecodeEncode(st);
    if env.baseParses && env.componentsYieldUrl then Some(Request("GET", Query.Encode(st))) else None
  }

  /** The completion handler's checks, in source order. Success needs no
      error, status exactly 200 and a body that decodes, and then carries the
      decoded record whatever its own `success` field says; each failure
      carries what its check saw. */
  function Classify(c: Completion, decode: seq<bv8> -> Option<LedResponse>): (o: Outcome)
    ensures o.Delivered? <==>
      c.error.None? && c.response == Some(Http(StatusOk)) && c.data.Some? && decode(c.data.value).Some?
    ensures o.Delivered? ==> decode(c.data.value) == Some(o.reply)
    ensures o.TransportFailure? <==> c.error.Some?
    ensures o.TransportFailure? ==> c.error == Some(o.cause)
    ensures o.BadStatus? ==> c.response == Some(Http(o.code)) && o.code != StatusOk
    ensures !o.InvalidUrl?
  {
    if c.error.Some? then TransportFailure(c.error.value)
    else if !(c.response.Some? && c.response.value.Http?) then NotHttp
    else if c.response.value.statusCode != StatusOk then BadStatus(c.response.value.statusCode)
    else if c.data.None? then NoData
    else match decode(c.data.value)
      case None => Undecodable
      case Some(reply) => Delivered(reply)
  }

  // ---------------------------------------------------------------------
  // The checks, stated one by one, and the first-failing-check theorem.
  // ---------------------------------------------------------------------

  /** The number of checks the completion handler makes. */
  const CheckCount: nat := 5

  /** Whether check `k` (1 to 5) holds of the completion: 1 no transport
      error, 2 an HTTP response, 3 status 200, 4 data present, 5 the data
      decodes. */
  predicate Passes(c: Completion, decode: seq<bv8> -> Option<LedResponse>, k: nat) {
    match k
    case 1 => c.error.None?
    case 2 => c.response.Some? && c.response.value.Http?
    case 3 => c.response == Some(Http(StatusOk))
    case 4 => c.data.Some?
    case 5 => c.data.Some? && decode(c.data.value).Some?
    case _ => true
  }

  /** The position of an outcome in the chain: 0 for a URL that could not be
      built, 1 to 5 for the check that failed, 6 for success. */
  function Stage(o: Outcome): nat {
    match o
    case InvalidUrl => 0
    case TransportFailure(_) => 1
    case NotHttp => 2
    case BadStatus(_) => 3
    case NoData => 4
    case Undecodable => 5
    case Delivered(_) => 6
  }

  /** The outcome reports the first check that fails, and success exactly
      when all of them pass. */
  lemma ClassifyFirstFailing(c: Completion, decode: seq<bv8> -> Option<LedResponse>, k: nat)
    requires 1 <= k <= CheckCount + 1
    ensures Stage(Classify(c, decode)) == k <==>
      (forall j :: 1 <= j < k ==> Passes(c, decode, j)) && (k <= CheckCount ==> !Passes(c, decode, k))
  {
    var o := Classify(c, decode);
    var allBefore := forall j :: 1 <= j < k ==> Passes(c, decode, j);
    if Stage(o) == k {
      forall j | 1 <= j < k ensures Passes(c, decode, j) {
      }
    }
    if allBefore && (k <= CheckCount ==> !Passes(c, decode, k)) {
      assert forall j :: 1 <= j < k ==> Passes(c, decode, j);
      if k > 1 { assert Passes(c, decode, 1); }
      if k > 2 { assert Passes(c, decode, 2); }
      if k > 3 { assert Passes(c, decode, 3); }
      if k > 4 { assert Passes(c, decode, 4); }
      if k > 5 { assert Passes(c, decode, 5); }
    }
  }

  /** Success requires status exactly 200 and a body that decodes; the
      outcome then carries the decoded record, whatever its own `success`
      field says. */
  lemma DeliveredIff(c: Completion, decode: seq<bv8> -> Option<LedResponse>, reply: LedResponse)
    ensures Classify(c, decode) == Delivered(reply) <==>
      c.error.None? && c.response == Some(Http(StatusOk)) && c.data.Some? && decode(c.data.value) == Some(reply)
  {
  }

  /** Each failure carries what its check saw: the transport error, the
      status code. */
  lemma FailurePayloads(c: Completion, decode: seq<bv8> -> Option<LedResponse>)
    ensures Classify(c, decode).TransportFailure? ==> c.error == Some(Classify(c, decode).cause)
    ensures Classify(c, decode).BadStatus? ==>
      c.response == Some(Http(Classify(c, decode).code)) && Classify(c, decode).code != StatusOk
    ensures !Classify(c, decode).InvalidUrl?
  {
  }

  // ---------------------------------------------------------------------
  // One call of `sendLedRequest`.
  // ---------------------------------------------------------------------

  /** The request issued, if any, and how it ended. */
  datatype Exchange = Exchange(request: Option<Request>, outcome: Outcome)

  /** Send `st`: build the request; if there is none, report an invalid URL
      without touching the network; otherwise classify the completion. */
  function Send(env: UrlEnv, st: DesiredState, c: Completion, decode: seq<bv8> -> Option<LedResponse>): (x: Exchange)
    ensures x.request.None? <==> x.outcome == InvalidUrl
    ensures x.request.None? <==> !(env.baseParses && env.componentsYieldUrl)
    ensures x.request.Some? ==> Query.Decode(x.request.value.query) == Some(st) && x.outcome == Classify(c, decode)
    ensures x.request.Some? ==> Query.QueryString(x.request.value.query) == Query.RequestQuery(st)
  {
    match BuildRequest(env, st)
    case None => Exchange(None, InvalidUrl)
    case Some(req) => Exchange(Some(req), Classify(c, decode))
  }

  /** When no request can be built, the completion plays no part. */
  lemma InvalidUrlIgnoresNetwork(env: UrlEnv, st: DesiredState, c1: Completion, c2: Completion,
                                 decode: seq<bv8> -> Option<LedResponse>)
    requires !(env.baseParses && env.componentsYieldUrl)
    ensures Send(env, st, c1, decode) == Send(env, st, c2, decode) == Exchange(None, InvalidUrl)
  {
  }

  /** The request does not depend on earlier calls: it is a function of the
      desired state alone, and different states give different requests. */
  lemma RequestDeterminedByState(env: UrlEnv, a: DesiredState, b: DesiredState)
    requires env.baseParses && env.componentsYieldUrl
    ensures BuildRequest(env, a) == BuildRequest(env, b) <==> a == b
  {
    Query.EncodeInjective(a, b);
  }
}
