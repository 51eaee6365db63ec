/** The track codec: how the recording callback turns one live exchange into
    a track and the reply it hands back, and how the playback callback turns a
    stored response back into a reply. */
module TrackCodec {
  import opened Wrappers
  import opened Exceptions
  import opened Json
  import opened Http

  /** The request body is a string, or None when the request has no body. */
  function BodyJson(b: Option<string>): Json {
    match b
    case None => JNull
    case Some(s) => JStr(s)
  }

  /** track["request"]: the prepared request's fields copied as they are. */
  function RequestJson(req: PreparedRequest): Json {
    JObj(map[
      "method" := JStr(req.httpMethod),
      "url" := JStr(req.url),
      "path" := JStr(req.pathUrl),
      "headers" := HeadersJson(req.headers),
      "body" := BodyJson(req.body)])
  }

  /** The body as stored in the track and as returned to the caller. */
  datatype Capture = Capture(stored: Json, returned: string)

  /** resp.json() and json.dumps of it; on ValueError the raw text twice. */
  function CaptureBody(text: string, codec: Codec): Capture {
    match codec.parse(text)
    case Some(v) => Capture(v, codec.dumps(v))
    case None => Capture(JStr(text), text)
  }

  /** A recorded track and the reply the recording callback returns. */
  datatype Encoded = Encoded(track: Json, reply: Reply)

  /** The recording callback's data transformation for a send that succeeded. */
  function EncodeExchange(req: PreparedRequest, resp: Response, codec: Codec): Encoded
  {
    var headers := StripEncoding(resp.headers);
    var body := CaptureBody(resp.text, codec);
    var stored := JObj(map[
      "status_code" := JNum(resp.status),
      "headers" := HeadersJson(headers),
      "body" := body.stored]);
    Encoded(
      JObj(map["request" := RequestJson(req), "response" := stored]),
      Reply(JNum(resp.status), HeadersJson(headers), body.returned))
  }

  /** The stored request is the prepared request, field by field. */
  lemma RecordedRequest(req: PreparedRequest, resp: Response, codec: Codec)
    ensures var t := EncodeExchange(req, resp, codec).track;
      t.JObj? && "request" in t.fields &&
      Get(t.fields["request"], "method") == Ok(JStr(req.httpMethod)) &&
      Get(t.fields["request"], "url") == Ok(JStr(req.url)) &&
      Get(t.fields["request"], "path") == Ok(JStr(req.pathUrl)) &&
      Get(t.fields["request"], "headers") == Ok(HeadersJson(req.headers)) &&
      Get(t.fields["request"], "body") == Ok(BodyJson(req.body))
  {
  }

  /** The stored response holds the live status, the headers handed back to
      the caller, and as body the parsed JSON value when the text parses
      (handing back its re-serialisation) or the text itself otherwise. */
  lemma RecordedResponse(req: PreparedRequest, resp: Response, codec: Codec)
    ensures var e := EncodeExchange(req, resp, codec);
      e.track.JObj? && "response" in e.track.fields &&
      var stored := e.track.fields["response"];
      Get(stored, "status_code") == Ok(e.reply.status) &&
      e.reply.status == JNum(resp.status) &&
      Get(stored, "headers") == Ok(e.reply.headers) &&
      match codec.parse(resp.text)
      case Some(v) => Get(stored, "body") == Ok(v) && e.reply.body == codec.dumps(v)
      case None => Get(stored, "body") == Ok(JStr(resp.text)) && e.reply.body == resp.text
  {
  }

  /** A Content-Encoding header mentioning gzip is in neither the stored nor
      the returned headers; without one the headers are stored and returned
      as received. */
  lemma GzipStripped(req: PreparedRequest, resp: Response, codec: Codec)
    ensures var e := EncodeExchange(req, resp, codec);
      e.track.JObj? && "response" in e.track.fields &&
      Get(e.track.fields["response"], "headers") == Ok(e.reply.headers) &&
      e.reply.headers.JObj? &&
      (Gzipped(resp.headers) ==> forall k :: k in e.reply.headers.fields ==> !IsContentEncoding(k)) &&
      (Gzipped(resp.headers) ==> forall k :: k in resp.headers && !IsContentEncoding(k) ==>
         k in e.reply.headers.fields && e.reply.headers.fields[k] == JStr(resp.headers[k])) &&
      (!Gzipped(resp.headers) ==> e.reply.headers == HeadersJson(resp.headers))
  {
  }

  /** The playback callback: stored status and headers unchanged, the stored
      body serialised; a stored response missing a field raises. */
  function Play(stored: Json, codec: Codec): (r: Result<Reply, Error>)
  {
    var status :- Get(stored, "status_code");
    var headers :- Get(stored, "headers");
    var body :- Get(stored, "body");
    Ok(Reply(status, headers, codec.dumps(body)))
  }

  /** The playback callback answers exactly when the stored response is an
      object with "status_code", "headers" and "body"; otherwise it raises
      TypeError for a non-object and KeyError for the first missing field. */
  lemma PlayShape(stored: Json, codec: Codec)
    ensures Play(stored, codec).Ok? <==>
      stored.JObj? && "status_code" in stored.fields && "headers" in stored.fields && "body" in stored.fields
    ensures Play(stored, codec).Ok? ==>
      Play(stored, codec).value == Reply(stored.fields["status_code"], stored.fields["headers"], codec.dumps(stored.fields["body"]))
    ensures !stored.JObj? ==> Play(stored, codec) == Err(TypeError)
    ensures stored.JObj? && "status_code" !in stored.fields ==> Play(stored, codec) == Err(KeyError("status_code"))
    ensures stored.JObj? && "status_code" in stored.fields && "headers" !in stored.fields ==>
      Play(stored, codec) == Err(KeyError("headers"))
    ensures stored.JObj? && "status_code" in stored.fields && "headers" in stored.fields && "body" !in stored.fields ==>
      Play(stored, codec) == Err(KeyError("body"))
  {
  }

  /** Replaying a recorded response gives back the recorded status and headers;
      the body comes back identical exactly when the live body parsed as JSON
      (a text body comes back JSON-quoted), and it always re-parses to the
      stored value. */
  lemma ReplayOfRecorded(req: PreparedRequest, resp: Response, codec: Codec)
    requires Lawful(codec)
    ensures var e := EncodeExchange(req, resp, codec);
      var replay := Play(e.track.fields["response"], codec);
      replay.Ok? &&
      replay.value.status == e.reply.status &&
      replay.value.headers == e.reply.headers &&
      (replay.value.body == e.reply.body <==> codec.parse(resp.text).Some?) &&
      codec.parse(replay.value.body) == Some(CaptureBody(resp.text, codec).stored)
  {
    var e := EncodeExchange(req, resp, codec);
    var body := CaptureBody(resp.text, codec);
    var replay := Play(e.track.fields["response"], codec);
    assert replay == Ok(Reply(e.reply.status, e.reply.headers, codec.dumps(body.stored)));
    // a text body t that failed to parse cannot equal dumps(JStr(t)), which parses
    assert codec.parse(codec.dumps(JStr(resp.text))) == Some(JStr(resp.text));
  }
}
