/**
 * `lambda_handler`: render the configuration, strip the stage from the
 * event path, forward the request to the local Vault server by method,
 * and shape its answer into the API Gateway proxy envelope.
 *
 * The upstream answer is an input (its status code and text), and the
 * `json.dumps(request.json())` round trip is an opaque function that
 * yields `None` where `request.json()` raises.
 */
module Handler {
  import opened Wrappers
  import opened Paths
  import opened Config

  datatype Event = Event(httpMethod: string, path: string, headers: map<string, string>, body: Option<string>)

  /**
   * The call made through `requests`. `target` is the reference resolved
   * against `http://localhost:8200` by `urljoin`.
   */
  datatype UpstreamRequest =
    | Get(target: string, headers: map<string, string>)
    | Put(target: string, headers: map<string, string>, data: Option<string>)
    | Post(target: string, headers: map<string, string>, data: Option<string>)

  datatype Upstream = Upstream(statusCode: int, text: string)

  /** The dictionary returned to API Gateway; `body` is `None` where the key is absent. */
  datatype Envelope = Envelope(statusCode: int, body: Option<string>, isBase64Encoded: string)

  /** The exceptions that escape the handler, by the step that raises them. */
  datatype HandlerError =
    | ProvisionFailed(bucket: Option<string>) // the S3 download in `_init_bin`
    | RenderFailed(cause: RenderError)      // TypeError in `replace`
    | PathWithoutSlash(path: string)         // IndexError in `remove_prefix`
    | UnsupportedMethod(httpMethod: string)  // NameError: `fail` is not defined
    | MalformedJson(text: string)            // ValueError from `request.json()`

  datatype Invocation = Invocation(config: string, request: UpstreamRequest, envelope: Envelope)

  /**
   * `_init_bin('vault')` downloads the binary from the bucket named by
   * `BUCKET_NAME`: S3 refuses a missing or empty bucket name, and `fetched`
   * says whether S3 delivers the object from a named one.
   */
  predicate Provisioned(bucket: Option<string>, fetched: bool) {
    bucket.Some? && bucket.value != [] && fetched
  }

  predicate Supported(httpMethod: string) {
    httpMethod == "GET" || httpMethod == "PUT" || httpMethod == "POST"
  }

  /**
   * The stage is stripped first; then GET sends the headers only, PUT and
   * POST send the headers and the event body as it is, and any other method
   * reaches the undefined name `fail`.
   */
  function Forward(event: Event): (r: Result<UpstreamRequest, HandlerError>)
    ensures r.Failure? <==> '/' !in event.path || !Supported(event.httpMethod)
    ensures '/' !in event.path ==> r == Failure(PathWithoutSlash(event.path))
    ensures '/' in event.path && !Supported(event.httpMethod) ==> r == Failure(UnsupportedMethod(event.httpMethod))
    ensures r.Success? ==> Some(r.value.target) == RemovePrefix(event.path) && r.value.headers == event.headers
    ensures r.Success? ==> (r.value.Get? <==> event.httpMethod == "GET")
    ensures r.Success? ==> (r.value.Put? <==> event.httpMethod == "PUT")
    ensures r.Success? ==> (r.value.Post? <==> event.httpMethod == "POST")
    ensures r.Success? && !r.value.Get? ==> r.value.data == event.body
  {
    match RemovePrefix(event.path)
    case None => Failure(PathWithoutSlash(event.path))
    case Some(target) =>
      if event.httpMethod == "GET" then Success(Get(target, event.headers))
      else if event.httpMethod == "PUT" then Success(Put(target, event.headers, event.body))
      else if event.httpMethod == "POST" then Success(Post(target, event.headers, event.body))
      else Failure(UnsupportedMethod(event.httpMethod))
  }

  /**
   * The envelope: always the upstream status code and the string `'false'`
   * for `isBase64Encoded`; a `body` key, holding the re-serialised JSON,
   * exactly when the upstream text is not empty.
   */
  function Respond(upstream: Upstream, reserialise: string -> Option<string>): (r: Result<Envelope, HandlerError>)
    ensures r.Failure? <==> upstream.text != [] && reserialise(upstream.text).None?
    ensures r.Failure? ==> r.error == MalformedJson(upstream.text)
    ensures r.Success? ==> r.value.statusCode == upstream.statusCode && r.value.isBase64Encoded == "false"
    ensures r.Success? ==> (r.value.body.Some? <==> upstream.text != [])
    ensures r.Success? && upstream.text != [] ==> r.value.body == reserialise(upstream.text)
  {
    if upstream.text != [] then
      match reserialise(upstream.text)
      case None => Failure(MalformedJson(upstream.text))
      case Some(json) => Success(Envelope(upstream.statusCode, Some(json), "false"))
    else
      Success(Envelope(upstream.statusCode, None, "false"))
  }

  /**
   * One invocation, step by step, stopping at the first exception. The
   * binary is fetched before the configuration is rendered, so the render
   * step always has a bucket name and can only fail on `KEY_ID`.
   */
  function Handle(template: string, bucket: Option<string>, keyId: Option<string>, fetched: bool,
                  event: Event, upstream: Upstream, reserialise: string -> Option<string>): (r: Result<Invocation, HandlerError>)
    ensures !Provisioned(bucket, fetched) ==> r == Failure(ProvisionFailed(bucket))
    ensures Provisioned(bucket, fetched) && Rendered(template, bucket, keyId).Failure? ==>
      r == Failure(RenderFailed(Rendered(template, bucket, keyId).error))
    ensures r.Failure? && r.error.RenderFailed? ==> r.error.cause == SubstituteUnset(KeyPlaceholder)
    ensures Provisioned(bucket, fetched) && Rendered(template, bucket, keyId).Success? && Forward(event).Failure? ==>
      r == Failure(Forward(event).error)
    ensures (Provisioned(bucket, fetched) && Rendered(template, bucket, keyId).Success? && Forward(event).Success? &&
             Respond(upstream, reserialise).Failure?) ==>
      r == Failure(Respond(upstream, reserialise).error)
    ensures r.Success? <==>
      Provisioned(bucket, fetched) && Rendered(template, bucket, keyId).Success? &&
      Forward(event).Success? && Respond(upstream, reserialise).Success?
    ensures r.Success? ==>
      r.value.config == Rendered(template, bucket, keyId).value &&
      r.value.request == Forward(event).value &&
      r.value.envelope == Respond(upstream, reserialise).value
  {
    if !Provisioned(bucket, fetched) then Failure(ProvisionFailed(bucket))
    else
      match Rendered(template, bucket, keyId)
      case Failure(e) => Failure(RenderFailed(e))
      case Success(config) =>
        match Forward(event)
        case Failure(e) => Failure(e)
        case Success(request) =>
          match Respond(upstream, reserialise)
          case Failure(e) => Failure(e)
          case Success(envelope) => Success(Invocation(config, request, envelope))
  }

  /**
   * `lambda_handler(event, context)`, with the template, the two environment
   * variables, the outcome of the S3 download and the upstream answer as inputs.
   */
  method LambdaHandler(template: string, bucket: Option<string>, keyId: Option<string>, fetched: bool,
                       event: Event, upstream: Upstream, reserialise: string -> Option<string>)
    returns (r: Result<Invocation, HandlerError>)
    ensures r == Handle(template, bucket, keyId, fetched, event, upstream, reserialise)
  {
    if !Provisioned(bucket, fetched) {
      return Failure(ProvisionFailed(bucket));
    }
    var config := Render(template, bucket, keyId);
    if config.Failure? {
      return Failure(RenderFailed(config.error));
    }
    var request := Forward(event);
    if request.Failure? {
      return Failure(request.error);
    }
    var envelope := Respond(upstream, reserialise);
    if envelope.Failure? {
      return Failure(envelope.error);
    }
    return Success(Invocation(config.value, request.value, envelope.value));
  }

  /**
   * On a path that starts with `/`, the forwarded reference is the path
   * after the stage segment: empty or itself starting with `/`. This does
   * not keep the request on the local server: see `ForwardNetworkPath`.
   */
  lemma {:induction false} ForwardRootedPath(event: Event)
    requires event.path != [] && event.path[0] == '/'
    requires Supported(event.httpMethod)
    ensures Forward(event).Success?
    ensures var target := Forward(event).value.target;
      var stage := event.path[1..|event.path| - |target|];
      event.path == "/" + stage + target && '/' !in stage && (target == [] || target[0] == '/')
  {
    RemovePrefixRooted(event.path);
  }

  /**
   * A reference that starts with `//` is a network-path reference (section
   * 4.2 of RFC 3986): resolved against `http://localhost:8200`, it names
   * another host.
   */
  predicate NetworkPath(reference: string) {
    |reference| >= 2 && reference[0] == '/' && reference[1] == '/'
  }

  /**
   * As written, an event path `/stage//host/rest` is forwarded as the
   * network-path reference `//host/rest`, so `urljoin` sends the request,
   * with the caller's headers, to `host` instead of the local server.
   */
  lemma {:induction false} ForwardNetworkPath(event: Event, stage: string, host: string)
    requires '/' !in stage
    requires event.path == "/" + stage + "//" + host
    requires Supported(event.httpMethod)
    ensures Forward(event).Success?
    ensures Forward(event).value.target == "//" + host
    ensures NetworkPath(Forward(event).value.target)
  {
    var rest := "//" + host;
    assert event.path == "/" + stage + rest;
    RemovePrefixOfStage(stage, rest);
  }

  /**
   * The reference the handler evidently means to hand `urljoin`: the
   * forwarded path with repeated leading slashes collapsed into one, so that
   * it stays a path on the local server.
   */
  function LocalReference(target: string): (r: string)
    ensures !NetworkPath(r)
    ensures |r| <= |target| && r == target[|target| - |r|..]
    ensures (target == [] || target[0] == '/') ==> (r == [] || r[0] == '/')
    ensures !NetworkPath(target) ==> r == target
    decreases |target|
  {
    if NetworkPath(target) then LocalReference(target[1..]) else target
  }

  /**
   * With the correction, a rooted event path always yields a reference that
   * is empty or a single-slash path, never a network-path reference.
   */
  lemma {:induction false} LocalReferenceRooted(event: Event)
    requires event.path != [] && event.path[0] == '/'
    requires Supported(event.httpMethod)
    ensures Forward(event).Success?
    ensures var r := LocalReference(Forward(event).value.target);
      !NetworkPath(r) && (r == [] || r[0] == '/')
  {
    ForwardRootedPath(event);
  }
}
