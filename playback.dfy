/** The playback side: loading a cassette file and registering one stub per
    track (Recorder._insert_cassette and rewind_cassette), and what a recorded
    cassette replays. */
module Playback {
  import opened Wrappers
  import opened Exceptions
  import opened Json
  import opened CassetteNaming
  import opened Http
  import opened TrackCodec
  import opened Interception

  /** read_text then json.loads: the value the cassette field takes. */
  function LoadCassette(files: map<Path, string>, path: Path, codec: Codec): (r: Result<Json, Error>)
    ensures r.Ok? <==> path in files && codec.parse(files[path]).Some?
    ensures r.Ok? ==> r.value == codec.parse(files[path]).value
    ensures path !in files ==> r == Err(FileNotFound)
    ensures path in files && codec.parse(files[path]).None? ==> r == Err(JsonDecodeError)
  {
    if path !in files then Err(FileNotFound)
    else match codec.parse(files[path])
      case Some(v) => Ok(v)
      case None => Err(JsonDecodeError)
  }

  /** What teardown writes is what the next session loads. */
  lemma SavedCassetteLoads(files: map<Path, string>, path: Path, cassette: Json, codec: Codec)
    requires Lawful(codec)
    ensures LoadCassette(files[path := codec.dumps(cassette)], path, codec) == Ok(cassette)
  {
    assert codec.parse(codec.dumps(cassette)) == Some(cassette);
  }

  /** One iteration of rewind_cassette: req = track['request'], then
      add_callback(req['method'], req['url'], match_querystring=True,
      callback=play(track['response'])), raising where a subscript does. */
  function TrackStub(track: Json): Result<Stub, Error>
  {
    var req :- Get(track, "request");
    var m :- Get(req, "method");
    var u :- Get(req, "url");
    var resp :- Get(track, "response");
    Ok(Stub(m, Exact(u), true, Playing(resp)))
  }

  /** A track yields a stub exactly when it is an object whose "request" is an
      object with "method" and "url" and which has a "response"; the stub is
      keyed by that method and exact URL, matches the query string, and plays
      that response. */
  lemma TrackStubShape(track: Json)
    ensures TrackStub(track).Ok? <==>
      track.JObj? && "request" in track.fields && "response" in track.fields &&
      track.fields["request"].JObj? &&
      "method" in track.fields["request"].fields && "url" in track.fields["request"].fields
    ensures TrackStub(track).Ok? ==> TrackStub(track).value == Stub(
      track.fields["request"].fields["method"],
      Exact(track.fields["request"].fields["url"]),
      true,
      Playing(track.fields["response"]))
  {
  }

  /** The stubs a rewind registers, and the exception that stopped it, if any. */
  datatype Registration = Registration(stubs: seq<Stub>, failure: Option<Error>)

  /** The loop of rewind_cassette over a list of tracks: one stub per track,
      in cassette order, up to the first track that raises. */
  function RegisterTracks(tracks: seq<Json>): Registration
  {
    if tracks == [] then Registration([], None)
    else match TrackStub(tracks[0])
      case Err(e) => Registration([], Some(e))
      case Ok(s) =>
        var rest := RegisterTracks(tracks[1..]);
        Registration([s] + rest.stubs, rest.failure)
  }

  /** What RegisterTracks registers: the stubs of a prefix of the tracks, in
      order; all of them exactly when nothing raised, and otherwise the
      exception of the first track after that prefix. */
  lemma {:induction false} RegisteredStubs(tracks: seq<Json>)
    ensures var reg := RegisterTracks(tracks);
      |reg.stubs| <= |tracks| &&
      (forall i :: 0 <= i < |reg.stubs| ==> TrackStub(tracks[i]) == Ok(reg.stubs[i])) &&
      (reg.failure.None? <==> |reg.stubs| == |tracks|) &&
      (reg.failure.Some? ==> TrackStub(tracks[|reg.stubs|]) == Err(reg.failure.value))
  {
    if tracks != [] && TrackStub(tracks[0]).Ok? {
      RegisteredStubs(tracks[1..]);
    }
  }

  /** `for track in cassette` over whatever json.loads returned: a list yields
      its tracks; a dict yields its keys and a string its characters, on which
      track['request'] raises TypeError; any other value is not iterable. */
  function Rewind(cassette: Json): Registration {
    match cassette
    case JArr(tracks) => RegisterTracks(tracks)
    case JObj(m) => if |m| == 0 then Registration([], None) else Registration([], Some(TypeError))
    case JStr(s) => if |s| == 0 then Registration([], None) else Registration([], Some(TypeError))
    case _ => Registration([], Some(TypeError))
  }

  /** A rewind registers playback stubs only, whatever the cassette holds. */
  lemma RewindRegistersPlayback(cassette: Json)
    ensures forall s :: s in Rewind(cassette).stubs ==> s.callback.Playing?
  {
    if cassette.JArr? {
      RegisteredStubs(cassette.items);
      forall s | s in Rewind(cassette).stubs
        ensures s.callback.Playing?
      {
        var i :| 0 <= i < |Rewind(cassette).stubs| && Rewind(cassette).stubs[i] == s;
        TrackStubShape(cassette.items[i]);
      }
    }
  }

  /** Registering a concatenation registers the first part and, unless that
      raised, continues with the second. */
  lemma {:induction false} RegisterConcat(p: seq<Json>, q: seq<Json>)
    ensures RegisterTracks(p).failure.Some? ==> RegisterTracks(p + q) == RegisterTracks(p)
    ensures RegisterTracks(p).failure.None? ==>
      RegisterTracks(p + q) ==
        Registration(RegisterTracks(p).stubs + RegisterTracks(q).stubs, RegisterTracks(q).failure)
  {
    if p != [] {
      assert (p + q)[0] == p[0];
      assert (p + q)[1..] == p[1..] + q;
      RegisterConcat(p[1..], q);
    } else {
      assert p + q == q;
    }
  }

  lemma RegisterSingle(t: Json)
    ensures TrackStub(t).Ok? ==> RegisterTracks([t]) == Registration([TrackStub(t).value], None)
    ensures TrackStub(t).Err? ==> RegisterTracks([t]) == Registration([], Some(TrackStub(t).error))
  {
    assert [t][0] == t && [t][1..] == [];
    assert RegisterTracks([]) == Registration([], None);
    match TrackStub(t) {
      case Ok(s) =>
        assert [s] + [] == [s];
      case Err(e) =>
    }
  }

  /** One more iteration of the rewind loop: the next track's stub is
      appended to what the earlier tracks registered. */
  lemma RegisterNextOk(tracks: seq<Json>, i: nat)
    requires i < |tracks| && RegisterTracks(tracks[..i]).failure.None?
    requires TrackStub(tracks[i]).Ok?
    ensures RegisterTracks(tracks[..i + 1]) ==
      Registration(RegisterTracks(tracks[..i]).stubs + [TrackStub(tracks[i]).value], None)
  {
    var t, done := tracks[i], tracks[..i];
    assert done + [t] == tracks[..i + 1];
    RegisterSingle(t);
    RegisterConcat(done, [t]);
  }

  /** The last iteration of the rewind loop: the next track's exception ends
      the whole rewind with the stubs of the earlier tracks. */
  lemma RegisterNextErr(tracks: seq<Json>, i: nat)
    requires i < |tracks| && RegisterTracks(tracks[..i]).failure.None?
    requires TrackStub(tracks[i]).Err?
    ensures RegisterTracks(tracks) ==
      Registration(RegisterTracks(tracks[..i]).stubs, Some(TrackStub(tracks[i]).error))
  {
    var t, done, rest := tracks[i], tracks[..i], tracks[i..];
    assert done + rest == tracks;
    assert rest[0] == t;
    RegisterConcat(done, rest);
  }

  /** One live exchange the recording callback captured. */
  datatype Exchange = Exchange(request: PreparedRequest, response: Response)

  /** The cassette list after the callback has appended each exchange in turn. */
  function RecordedTracks(xs: seq<Exchange>, codec: Codec): (ts: seq<Json>)
    ensures |ts| == |xs|
  {
    if xs == [] then []
    else
      var last := xs[|xs| - 1];
      RecordedTracks(xs[..|xs| - 1], codec) + [EncodeExchange(last.request, last.response, codec).track]
  }

  /** The i-th track of a recorded cassette is the i-th exchange's. */
  lemma {:induction false} RecordedTrackAt(xs: seq<Exchange>, codec: Codec, i: nat)
    requires i < |xs|
    ensures RecordedTracks(xs, codec)[i] == EncodeExchange(xs[i].request, xs[i].response, codec).track
  {
    if i < |xs| - 1 {
      RecordedTrackAt(xs[..|xs| - 1], codec, i);
    }
  }

  /** The stub registered for a recorded exchange: its method, its exact URL
      with the query string, and its stored response. */
  function ReplayStub(x: Exchange, codec: Codec): Stub {
    Stub(JStr(x.request.httpMethod), Exact(JStr(x.request.url)), true,
         Playing(EncodeExchange(x.request, x.response, codec).track.fields["response"]))
  }

  /** A recorded track's stub answers exactly the requests with the recorded
      method and URL. */
  lemma ReplayStubMatches(x: Exchange, codec: Codec, httpMethod: string, url: string)
    ensures StubMatches(ReplayStub(x, codec), httpMethod, url) <==>
      x.request.httpMethod == httpMethod && x.request.url == url
  {
  }

  /** The stub a recorded track yields. */
  lemma RecordedTrackStub(x: Exchange, codec: Codec)
    ensures TrackStub(EncodeExchange(x.request, x.response, codec).track) == Ok(ReplayStub(x, codec))
  {
    var e := EncodeExchange(x.request, x.response, codec);
    assert Get(e.track, "request") == Ok(RequestJson(x.request));
  }

  /** Rewinding a recorded cassette never raises and registers exactly one
      stub per track, in recording order. */
  lemma RecordedCassetteRewinds(xs: seq<Exchange>, codec: Codec)
    ensures var reg := Rewind(JArr(RecordedTracks(xs, codec)));
      reg.failure == None && |reg.stubs| == |xs| &&
      forall i :: 0 <= i < |xs| ==> reg.stubs[i] == ReplayStub(xs[i], codec)
  {
    var ts := RecordedTracks(xs, codec);
    var reg := RegisterTracks(ts);
    RegisteredStubs(ts);
    forall i | 0 <= i < |xs|
      ensures TrackStub(ts[i]) == Ok(ReplayStub(xs[i], codec))
    {
      RecordedTrackAt(xs, codec, i);
      RecordedTrackStub(xs[i], codec);
    }
  }

  /** When no earlier request had the same method and URL, a recorded request
      is answered on playback by the stub of its own track. */
  lemma RecordedRequestMatchesOwnTrack(xs: seq<Exchange>, codec: Codec, i: nat)
    requires i < |xs|
    requires forall j :: 0 <= j < i ==>
      xs[j].request.httpMethod != xs[i].request.httpMethod || xs[j].request.url != xs[i].request.url
    ensures var stubs := Rewind(JArr(RecordedTracks(xs, codec))).stubs;
      FirstMatch(stubs, xs[i].request.httpMethod, xs[i].request.url) == Some(i) &&
      stubs[i] == ReplayStub(xs[i], codec)
  {
    RecordedCassetteRewinds(xs, codec);
    var stubs := Rewind(JArr(RecordedTracks(xs, codec))).stubs;
    var req := xs[i].request;
    ReplayStubMatches(xs[i], codec, req.httpMethod, req.url);
    forall j | 0 <= j < i
      ensures !StubMatches(stubs[j], req.httpMethod, req.url)
    {
      ReplayStubMatches(xs[j], codec, req.httpMethod, req.url);
    }
    FirstMatchAt(stubs, req.httpMethod, req.url, i);
  }

  /** A request recorded and persisted, when no earlier request had the same
      method and URL, is answered on playback with the recorded status and
      headers, and with the recorded body exactly when the live body was JSON. */
  lemma RecordThenReplay(xs: seq<Exchange>, codec: Codec, files: map<Path, string>, path: Path, i: nat)
    requires Lawful(codec)
    requires i < |xs|
    requires forall j :: 0 <= j < i ==>
      xs[j].request.httpMethod != xs[i].request.httpMethod || xs[j].request.url != xs[i].request.url
    ensures var loaded := LoadCassette(files[path := codec.dumps(JArr(RecordedTracks(xs, codec)))], path, codec);
      loaded.Ok? &&
      var stubs := Rewind(loaded.value).stubs;
      var recorded := EncodeExchange(xs[i].request, xs[i].response, codec).reply;
      FirstMatch(stubs, xs[i].request.httpMethod, xs[i].request.url) == Some(i) &&
      stubs[i].callback.Playing? &&
      var replay := Play(stubs[i].callback.response, codec);
      replay.Ok? &&
      replay.value.status == recorded.status &&
      replay.value.headers == recorded.headers &&
      (replay.value.body == recorded.body <==> codec.parse(xs[i].response.text).Some?)
  {
    SavedCassetteLoads(files, path, JArr(RecordedTracks(xs, codec)), codec);
    RecordedRequestMatchesOwnTrack(xs, codec, i);
    ReplayOfRecorded(xs[i].request, xs[i].response, codec);
  }

  /** Of two recorded requests with the same method and URL, the later one's
      track is never the one that answers. */
  lemma DuplicateKeyShadowed(xs: seq<Exchange>, codec: Codec, j: nat, i: nat)
    requires j < i < |xs|
    requires xs[j].request.httpMethod == xs[i].request.httpMethod && xs[j].request.url == xs[i].request.url
    ensures var stubs := Rewind(JArr(RecordedTracks(xs, codec))).stubs;
      FirstMatch(stubs, xs[i].request.httpMethod, xs[i].request.url) != Some(i)
  {
    RecordedCassetteRewinds(xs, codec);
    ReplayStubMatches(xs[j], codec, xs[i].request.httpMethod, xs[i].request.url);
  }
}
