/** Recorder: the session that records HTTP exchanges to a cassette file and
    plays them back from it. */
module Vts {
  import opened Wrappers
  import opened Exceptions
  import opened Json
  import opened CassetteNaming
  import opened Http
  import opened TrackCodec
  import opened Interception
  import opened Environment
  import opened Playback

  /** The catch-all stub setup_recording registers: method GET, re.compile("http.*"). */
  const RecordingStub: Stub := Stub(JStr("GET"), HttpAny, false, Recording)

  function OutcomeOf(failure: Option<Error>): Outcome<Error> {
    match failure
    case None => Pass
    case Some(e) => Fail(e)
  }

  /** A request sent while interception is off: the network's answer as it is. */
  function Unintercepted(outcome: SendResult): Result<Reply, Error> {
    match outcome
    case Delivered(resp) => Ok(Reply(JNum(resp.status), HeadersJson(resp.headers), resp.text))
    case Failed(reason) => Err(TransportFailure(reason))
  }

  /** The cassette after one run of the recording callback, whether it set
      has_recorded, and what it returned or raised. */
  datatype RecordStep = RecordStep(cassette: Json, recorded: bool, result: Result<Reply, Error>)

  function Record(cassette: Json, req: PreparedRequest, outcome: SendResult, codec: Codec): (s: RecordStep)
    // a send that raised: the exception propagates, nothing is recorded
    ensures outcome.Failed? ==>
      s == RecordStep(cassette, false, Err(TransportFailure(outcome.reason)))
    // a response: exactly one track appended, the earlier tracks untouched,
    // and the reply that goes with it returned
    ensures outcome.Delivered? && cassette.JArr? ==>
      s.recorded && s.cassette.JArr? &&
      |s.cassette.items| == |cassette.items| + 1 &&
      s.cassette.items[..|cassette.items|] == cassette.items &&
      s.cassette.items[|cassette.items|] == EncodeExchange(req, outcome.response, codec).track &&
      s.result == Ok(EncodeExchange(req, outcome.response, codec).reply)
    // a cassette that is not a list has no append
    ensures outcome.Delivered? && !cassette.JArr? ==>
      s == RecordStep(cassette, false, Err(AttributeError))
  {
    match outcome
    case Failed(reason) => RecordStep(cassette, false, Err(TransportFailure(reason)))
    case Delivered(resp) =>
      if cassette.JArr? then
        var e := EncodeExchange(req, resp, codec);
        RecordStep(JArr(cassette.items + [e.track]), true, Ok(e.reply))
      else RecordStep(cassette, false, Err(AttributeError))
  }

  predicate OnlyPlayback(stubs: seq<Stub>) {
    forall s :: s in stubs ==> s.callback.Playing?
  }

  /** The answer to a live request while only playback stubs are registered:
      the matching stub's stored response, played, or a refusal when no stub
      matches. */
  function PlaybackAnswer(stubs: seq<Stub>, req: PreparedRequest, codec: Codec): Result<Reply, Error>
    requires OnlyPlayback(stubs)
  {
    match FirstMatch(stubs, req.httpMethod, req.url)
    case None => Err(ConnectionRefused)
    case Some(k) =>
      assert stubs[k] in stubs;
      Play(stubs[k].callback.response, codec)
  }

  class Recorder {
    /** The tracks recorded or loaded so far (a list until a cassette file
        says otherwise). */
    var cassette: Json
    var hasRecorded: bool
    const basedir: Path
    const cassetteName: string
    const responses: RequestsMock
    const fs: FileSystem
    const network: Transport
    const codec: Codec

    constructor (basedir: Path, cassetteName: string, fs: FileSystem, network: Transport, codec: Codec)
      ensures cassette == JArr([]) && !hasRecorded
      ensures this.basedir == basedir && this.cassetteName == cassetteName
      ensures this.fs == fs && this.network == network && this.codec == codec
      ensures fresh(responses) && !responses.active && responses.stubs == []
    {
      cassette := JArr([]);
      hasRecorded := false;
      this.basedir := basedir;
      this.cassetteName := cassetteName;
      this.fs := fs;
      this.network := network;
      this.codec := codec;
      responses := new RequestsMock();
    }

    /** has_cassette */
    predicate HasCassette()
      reads fs
    {
      fs.Exists(CassFile(basedir, cassetteName))
    }

    /** What _insert_cassette leaves in the cassette field, or raises. */
    ghost function Inserted(): Result<Json, Error>
      reads this, fs
    {
      if hasRecorded then Ok(cassette) else LoadCassette(fs.files, CassFile(basedir, cassetteName), codec)
    }

    /** setup: start intercepting; record when there is no cassette file,
        play back otherwise. */
    method Setup() returns (r: Outcome<Error>)
      modifies this`cassette, responses
      ensures responses.active
      ensures !HasCassette() ==>
        r == Pass && responses.stubs == [RecordingStub] && cassette == old(cassette)
      ensures HasCassette() ==>
        match old(Inserted())
        case Err(e) => r == Fail(e) && cassette == old(cassette) && responses.stubs == old(responses.stubs)
        case Ok(c) =>
          cassette == c && responses.stubs == Rewind(c).stubs && r == OutcomeOf(Rewind(c).failure)
    {
      ghost var inserted := Inserted();
      responses.Start();
      assert Inserted() == inserted;
      if !HasCassette() {
        SetupRecording();
        r := Pass;
      } else {
        r := SetupPlayback();
      }
    }

    /** setup_recording: forget every stub, then register the catch-all one. */
    method SetupRecording()
      modifies responses
      ensures responses.active == old(responses.active)
      ensures responses.stubs == [RecordingStub]
    {
      responses.Reset();
      responses.AddCallback(RecordingStub);
    }

    /** setup_playback: load the cassette, forget every stub, then register
        one stub per track. */
    method SetupPlayback() returns (r: Outcome<Error>)
      modifies this`cassette, responses
      ensures responses.active == old(responses.active)
      ensures match old(Inserted())
        case Err(e) => r == Fail(e) && cassette == old(cassette) && responses.stubs == old(responses.stubs)
        case Ok(c) =>
          cassette == c && responses.stubs == Rewind(c).stubs && r == OutcomeOf(Rewind(c).failure)
    {
      r := InsertCassette();
      if r.Fail? {
        return;
      }
      responses.Reset();
      r := RewindCassette();
    }

    /** teardown: stop intercepting, forget every stub, and write the cassette
        if and only if something was recorded. */
    method Teardown()
      modifies responses, fs
      ensures !responses.active && responses.stubs == []
      ensures fs.files ==
        if hasRecorded then old(fs.files)[CassFile(basedir, cassetteName) := codec.dumps(cassette)]
        else old(fs.files)
    {
      responses.Stop();
      responses.Reset();
      if hasRecorded {
        fs.Write(CassFile(basedir, cassetteName), codec.dumps(cassette));
      }
    }

    /** rewind_cassette: one playback stub per track, in cassette order, until
        a track raises. */
    method RewindCassette() returns (r: Outcome<Error>)
      modifies responses
      ensures responses.active == old(responses.active)
      ensures responses.stubs == old(responses.stubs) + Rewind(cassette).stubs
      ensures r == OutcomeOf(Rewind(cassette).failure)
    {
      match cassette
      case JArr(tracks) =>
        var i := 0;
        while i < |tracks|
          invariant i <= |tracks|
          invariant RegisterTracks(tracks[..i]).failure.None?
          invariant responses.stubs == old(responses.stubs) + RegisterTracks(tracks[..i]).stubs
          invariant responses.active == old(responses.active)
        {
          var stub := TrackStub(tracks[i]);
          if stub.Err? {
            RegisterNextErr(tracks, i);
            return Fail(stub.error);
          }
          RegisterNextOk(tracks, i);
          responses.AddCallback(stub.value);
          i := i + 1;
        }
        assert tracks[..i] == tracks;
        r := Pass;
      case JObj(m) =>
        r := if |m| == 0 then Pass else Fail(TypeError);
      case JStr(s) =>
        r := if |s| == 0 then Pass else Fail(TypeError);
      case _ =>
        r := Fail(TypeError);
    }

    /** _insert_cassette: unless something was recorded, replace the cassette
        with the parsed contents of the cassette file. */
    method InsertCassette() returns (r: Outcome<Error>)
      modifies this`cassette
      ensures match old(Inserted())
        case Ok(c) => r == Pass && cassette == c
        case Err(e) => r == Fail(e) && cassette == old(cassette)
    {
      if !hasRecorded {
        var data := fs.ReadText(CassFile(basedir, cassetteName));
        if data.Err? {
          return Fail(data.error);
        }
        match codec.parse(data.value)
        case None =>
          return Fail(JsonDecodeError);
        case Some(v) =>
          cassette := v;
      }
      r := Pass;
    }

    /** The callback record() returns: interception off for the real send and
        back on afterwards whatever happened, then the track appended and
        has_recorded set, or the send's exception raised. */
    method RecordCallback(req: PreparedRequest, outcome: SendResult) returns (r: Result<Reply, Error>)
      modifies this`cassette, this`hasRecorded, responses, network
      ensures responses.active && responses.stubs == old(responses.stubs)
      ensures network.log == old(network.log) + [Sent(req, false)]
      ensures var s := Record(old(cassette), req, outcome, codec);
        cassette == s.cassette && hasRecorded == (old(hasRecorded) || s.recorded) && r == s.result
    {
      responses.Stop();
      network.Send(req, responses.active);
      match outcome {
        case Failed(reason) =>
          r := Err(TransportFailure(reason));
        case Delivered(resp) =>
          var e := EncodeExchange(req, resp, codec);
          if cassette.JArr? {
            cassette := JArr(cassette.items + [e.track]);
            hasRecorded := true;
            r := Ok(e.reply);
          } else {
            r := Err(AttributeError);
          }
      }
      responses.Start();
    }

    /** A live request reaching the interception layer. How responses picks a
        stub is an assumption (FirstMatch); what runs then is the recorder's. */
    method Deliver(req: PreparedRequest, outcome: SendResult) returns (r: Result<Reply, Error>)
      modifies this`cassette, this`hasRecorded, responses, network
      ensures responses.active == old(responses.active) && responses.stubs == old(responses.stubs)
      ensures !old(responses.active) ==>
        r == Unintercepted(outcome) && network.log == old(network.log) + [Sent(req, false)] &&
        cassette == old(cassette) && hasRecorded == old(hasRecorded)
      ensures old(responses.active) ==>
        match FirstMatch(old(responses.stubs), req.httpMethod, req.url)
        case None =>
          r == Err(ConnectionRefused) && network.log == old(network.log) &&
          cassette == old(cassette) && hasRecorded == old(hasRecorded)
        case Some(i) =>
          match old(responses.stubs)[i].callback
          case Playing(stored) =>
            r == Play(stored, codec) && network.log == old(network.log) &&
            cassette == old(cassette) && hasRecorded == old(hasRecorded)
          case Recording =>
            network.log == old(network.log) + [Sent(req, false)] &&
            var s := Record(old(cassette), req, outcome, codec);
            cassette == s.cassette && hasRecorded == (old(hasRecorded) || s.recorded) && r == s.result
      // while only playback stubs are registered, nothing reaches the network
      // and nothing is recorded
      ensures old(responses.active) && OnlyPlayback(old(responses.stubs)) ==>
        network.log == old(network.log) && cassette == old(cassette) && hasRecorded == old(hasRecorded)
    {
      if !responses.active {
        network.Send(req, false);
        return Unintercepted(outcome);
      }
      match FirstMatch(responses.stubs, req.httpMethod, req.url)
      case None =>
        r := Err(ConnectionRefused);
      case Some(i) =>
        match responses.stubs[i].callback
        case Playing(stored) =>
          r := Play(stored, codec);
        case Recording =>
          assert responses.stubs[i] in responses.stubs;
          r := RecordCallback(req, outcome);
    }
  }

  /** The requests of a test while only playback stubs are registered:
      none reaches the network and nothing is recorded. */
  method PlayRequests(rec: Recorder, reqs: seq<PreparedRequest>, answer: SendResult)
    returns (replies: seq<Result<Reply, Error>>)
    requires rec.responses.active && OnlyPlayback(rec.responses.stubs)
    modifies rec`cassette, rec`hasRecorded, rec.responses, rec.network
    ensures |replies| == |reqs|
    ensures forall i :: 0 <= i < |reqs| ==>
      replies[i] == PlaybackAnswer(old(rec.responses.stubs), reqs[i], rec.codec)
    ensures rec.network.log == old(rec.network.log)
    ensures rec.cassette == old(rec.cassette) && rec.hasRecorded == old(rec.hasRecorded)
    ensures rec.responses.active && rec.responses.stubs == old(rec.responses.stubs)
  {
    replies := [];
    var i := 0;
    while i < |reqs|
      invariant i <= |reqs| && |replies| == i
      invariant forall j :: 0 <= j < i ==>
        replies[j] == PlaybackAnswer(old(rec.responses.stubs), reqs[j], rec.codec)
      invariant rec.responses.active && rec.responses.stubs == old(rec.responses.stubs)
      invariant rec.cassette == old(rec.cassette) && rec.hasRecorded == old(rec.hasRecorded)
      invariant rec.network.log == old(rec.network.log)
    {
      var reply := rec.Deliver(reqs[i], answer);
      replies := replies + [reply];
      i := i + 1;
    }
  }

  /** A test run against an existing cassette: setup, the test's requests,
      teardown. No request reaches the network and the file system is left
      as it was. */
  method PlaybackSession(rec: Recorder, reqs: seq<PreparedRequest>, answer: SendResult)
    returns (setup: Outcome<Error>, replies: seq<Result<Reply, Error>>)
    requires !rec.hasRecorded && rec.responses.stubs == [] && rec.HasCassette()
    modifies rec`cassette, rec`hasRecorded, rec.responses, rec.network, rec.fs
    ensures rec.network.log == old(rec.network.log)
    ensures rec.fs.files == old(rec.fs.files)
    ensures !rec.responses.active && rec.responses.stubs == []
    // a cassette that cannot be loaded fails the setup
    ensures old(rec.Inserted()).Err? ==> setup == Fail(old(rec.Inserted()).error) && replies == []
    // otherwise the loaded cassette's stubs answer every request, once the
    // rewind went through
    ensures old(rec.Inserted()).Ok? ==>
      var stubs := Rewind(old(rec.Inserted()).value).stubs;
      rec.cassette == old(rec.Inserted()).value &&
      setup == OutcomeOf(Rewind(rec.cassette).failure) &&
      OnlyPlayback(stubs) &&
      (setup.Pass? ==>
         |replies| == |reqs| &&
         forall i :: 0 <= i < |reqs| ==> replies[i] == PlaybackAnswer(stubs, reqs[i], rec.codec))
    ensures setup.Fail? ==> replies == []
  {
    ghost var inserted := rec.Inserted();
    setup := rec.Setup();
    replies := [];
    if inserted.Ok? {
      RewindRegistersPlayback(inserted.value);
    }
    if setup.Pass? {
      replies := PlayRequests(rec, reqs, answer);
    }
    rec.Teardown();
  }

  /** What the network sees while the exchanges are recorded: each request
      once, in order, sent with interception off. */
  function SentWhileRecording(xs: seq<Exchange>): seq<Sent> {
    seq(|xs|, i requires 0 <= i < |xs| => Sent(xs[i].request, false))
  }

  /** The replies the recording callback hands back for the exchanges: the
      recorded reply of each, in order. */
  function RecordedReplies(xs: seq<Exchange>, codec: Codec): seq<Result<Reply, Error>> {
    seq(|xs|, i requires 0 <= i < |xs| => Ok(EncodeExchange(xs[i].request, xs[i].response, codec).reply))
  }

  /** One more recorded exchange adds its entry to the log and its reply to
      the replies. */
  lemma {:induction false} RecordedStep(xs: seq<Exchange>, codec: Codec, i: nat)
    requires i < |xs|
    ensures SentWhileRecording(xs[..i + 1]) == SentWhileRecording(xs[..i]) + [Sent(xs[i].request, false)]
    ensures RecordedReplies(xs[..i + 1], codec) ==
      RecordedReplies(xs[..i], codec) + [Ok(EncodeExchange(xs[i].request, xs[i].response, codec).reply)]
  {
  }

  /** One GET request to an http URL, answered by the network, while the
      catch-all recording stub is the only one registered. */
  method RecordOne(rec: Recorder, x: Exchange) returns (reply: Result<Reply, Error>)
    requires rec.responses.active && rec.responses.stubs == [RecordingStub] && rec.cassette.JArr?
    requires x.request.httpMethod == "GET" && "http" <= x.request.url
    modifies rec`cassette, rec`hasRecorded, rec.responses, rec.network
    ensures rec.responses.active && rec.responses.stubs == [RecordingStub]
    ensures rec.network.log == old(rec.network.log) + [Sent(x.request, false)]
    ensures var e := EncodeExchange(x.request, x.response, rec.codec);
      rec.cassette == JArr(old(rec.cassette).items + [e.track]) && rec.hasRecorded && reply == Ok(e.reply)
  {
    assert StubMatches(RecordingStub, x.request.httpMethod, x.request.url);
    FirstMatchAt([RecordingStub], x.request.httpMethod, x.request.url, 0);
    reply := rec.Deliver(x.request, Delivered(x.response));
  }

  /** The requests of a test while the catch-all recording stub is the only
      one registered, every one of them a GET to an http URL that the network
      answers: each is sent once with interception off and appended to the
      cassette, and its recorded reply returned. */
  method RecordRequests(rec: Recorder, xs: seq<Exchange>) returns (replies: seq<Result<Reply, Error>>)
    requires rec.responses.active && rec.responses.stubs == [RecordingStub] && rec.cassette == JArr([])
    requires forall i :: 0 <= i < |xs| ==> xs[i].request.httpMethod == "GET" && "http" <= xs[i].request.url
    modifies rec`cassette, rec`hasRecorded, rec.responses, rec.network
    ensures rec.responses.active && rec.responses.stubs == [RecordingStub]
    ensures rec.cassette == JArr(RecordedTracks(xs, rec.codec))
    ensures rec.hasRecorded == (old(rec.hasRecorded) || xs != [])
    ensures rec.network.log == old(rec.network.log) + SentWhileRecording(xs)
    ensures replies == RecordedReplies(xs, rec.codec)
  {
    replies := [];
    var i := 0;
    while i < |xs|
      invariant i <= |xs|
      invariant rec.responses.active && rec.responses.stubs == [RecordingStub]
      invariant rec.cassette == JArr(RecordedTracks(xs[..i], rec.codec))
      invariant rec.hasRecorded == (old(rec.hasRecorded) || i > 0)
      invariant rec.network.log == old(rec.network.log) + SentWhileRecording(xs[..i])
      invariant replies == RecordedReplies(xs[..i], rec.codec)
    {
      ghost var before := RecordedTracks(xs[..i], rec.codec);
      var reply := RecordOne(rec, xs[i]);
      assert xs[..i + 1][..i] == xs[..i];
      assert RecordedTracks(xs[..i + 1], rec.codec) ==
        before + [EncodeExchange(xs[i].request, xs[i].response, rec.codec).track];
      RecordedStep(xs, rec.codec, i);
      replies := replies + [reply];
      i := i + 1;
    }
    assert xs[..i] == xs;
  }

  /** setup when the test has no cassette file: recording mode, and nothing
      else touched. */
  method SetupWithoutCassette(rec: Recorder)
    requires !rec.HasCassette()
    modifies rec`cassette, rec.responses
    ensures rec.responses.active && rec.responses.stubs == [RecordingStub]
    ensures rec.cassette == old(rec.cassette)
  {
    var setup := rec.Setup();
  }

  /** The recording part of a session, from the state setup_recording
      leaves to the end of teardown. */
  method RecordAndSave(rec: Recorder, xs: seq<Exchange>) returns (replies: seq<Result<Reply, Error>>)
    requires rec.responses.active && rec.responses.stubs == [RecordingStub]
    requires !rec.hasRecorded && rec.cassette == JArr([])
    requires forall i :: 0 <= i < |xs| ==> xs[i].request.httpMethod == "GET" && "http" <= xs[i].request.url
    modifies rec`cassette, rec`hasRecorded, rec.responses, rec.network, rec.fs
    ensures !rec.responses.active && rec.responses.stubs == []
    ensures rec.network.log == old(rec.network.log) + SentWhileRecording(xs)
    ensures replies == RecordedReplies(xs, rec.codec)
    ensures rec.fs.files ==
      if xs == [] then old(rec.fs.files)
      else old(rec.fs.files)[CassFile(rec.basedir, rec.cassetteName) :=
                               rec.codec.dumps(JArr(RecordedTracks(xs, rec.codec)))]
  {
    replies := RecordRequests(rec, xs);
    rec.Teardown();
  }

  /** A test run with no cassette file whose GET requests to http URLs are all
      answered by the network: setup, the requests, teardown. Each request is
      sent once, in order, with interception off, and its recorded reply
      returned; the cassette file is written once, holding every exchange in
      order, exactly when there was at least one request. */
  method RecordingSession(rec: Recorder, xs: seq<Exchange>) returns (replies: seq<Result<Reply, Error>>)
    requires !rec.hasRecorded && rec.cassette == JArr([]) && !rec.HasCassette()
    requires forall i :: 0 <= i < |xs| ==> xs[i].request.httpMethod == "GET" && "http" <= xs[i].request.url
    modifies rec`cassette, rec`hasRecorded, rec.responses, rec.network, rec.fs
    ensures !rec.responses.active && rec.responses.stubs == []
    ensures rec.network.log == old(rec.network.log) + SentWhileRecording(xs)
    ensures replies == RecordedReplies(xs, rec.codec)
    ensures rec.fs.files ==
      if xs == [] then old(rec.fs.files)
      else old(rec.fs.files)[CassFile(rec.basedir, rec.cassetteName) :=
                               rec.codec.dumps(JArr(RecordedTracks(xs, rec.codec)))]
  {
    SetupWithoutCassette(rec);
    replies := RecordAndSave(rec, xs);
  }
}
