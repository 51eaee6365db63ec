# pytest-vts Recorder, modelled in Dafny

pytest-vts is a "video test system" for HTTP: during a test it either
records every HTTP exchange to a cassette file or plays the exchanges back
from that file. There is one cassette per test, stored at
`<basedir>/cassettes/<test name>.cassette`. A cassette is a JSON list of
tracks; each track holds one request and its response. This project models
class `Recorder` of `src/pytest_vts/vts/__init__.py` and proves properties of
the model:

- choosing the mode in `setup`;
- the recording and playback set-up;
- the recording callback that sends the request for real and appends a track;
- the playback callback that answers from a stored track;
- `teardown`, which writes the cassette only if something was recorded;
- how the cassette path is built from the test name.

Modules, one per concern:

- `Wrappers`, `Exceptions`: `Option`, `Result` and `Outcome`. Python
  exceptions (KeyError, TypeError, AttributeError, a failed send, a missing
  file, a JSON decode error) are modelled as error values.
- `Json`: JSON values, and a `Codec` pair of functions standing for
  `json.loads` / `resp.json()` and `json.dumps`. The codec is left abstract.
  `Lawful(codec)` is the single assumption made about it:
  `parse(dumps(v)) == Some(v)`. `Get` models Python's `obj[key]`.
- `CassetteNaming`: `_cass_dir`, `_test_name` and `_cass_file`, over paths
  written as lists of components. Joining a name that contains a separator
  adds several components, as py.path's `join` does.
- `Http`: prepared requests, responses, and case-insensitive header maps.
  It also has the gzip `Content-Encoding` stripping.
- `TrackCodec`: turning one live exchange into a track plus the reply the
  recording callback returns (`EncodeExchange`), and the playback callback
  (`Play`).
- `Interception`: the `responses.RequestsMock` registry, as a class with an
  `active` switch and an ordered `stubs` sequence. Which stub answers a live
  request (`FirstMatch`, `StubMatches`) is an assumption about that library,
  not code of the recorder: the first registered stub that matches.
- `Environment`: the file system (a path-to-text map in a class) and the
  real network. The network's answer is a parameter, and the network keeps a
  log of every request that reached it and whether interception was on at
  that moment.
- `Playback`: loading a cassette and registering one stub per track. It also
  has the end-to-end facts about a recorded cassette played back.
- `Vts`: class `Recorder` with its fields `cassette` and `hasRecorded`, its
  methods, and whole recording and playback sessions.

The model follows the code where the code departs from what the project
describes informally:

- The recording stub is registered for `GET` requests only (line 51). Other
  methods are neither recorded nor sent while recording, and the
  interception layer refuses them (`Deliver`).
- On replay the body is `json.dumps(stored body)` (line 85). A body recorded
  as plain text therefore comes back JSON-quoted. It comes back identical
  only when the recorded body parsed as JSON (`ReplayOfRecorded`).
- A JSON body is handed back during recording as its re-serialisation, not
  as the raw text (line 133).
- A cassette whose shape is wrong is not rejected at load time. The cassette
  field keeps whatever `json.loads` returned, and the failures come where
  Python raises them:
  - iterating a non-list: a dict or string yields keys or characters, so it
    raises TypeError unless it is empty, and any other value is not iterable;
  - subscripting a track during the rewind: KeyError or TypeError, after the
    stubs of the earlier tracks have been registered;
  - subscripting a stored response in `play`.
- The cassette is written directly with `write`; nothing makes the write
  atomic.

## Model

| member | source | states |
|---|---|---|
| CassetteNaming.Sanitize | src/pytest_vts/vts/__init__.py:72 | every separator replaced by `_`, every other character and the length kept |
| CassetteNaming.SanitizeIdempotent | src/pytest_vts/vts/__init__.py:72 | replacing separators a second time changes nothing |
| CassetteNaming.TestName | src/pytest_vts/vts/__init__.py:71-73 | the test name has no separator, is the sanitised name followed by `.cassette`, and is 9 characters longer than the name |
| CassetteNaming.Split | src/pytest_vts/vts/__init__.py:69 | a joined name contributes at least one component, at least two when it holds a separator, and no component holds a separator |
| CassetteNaming.Unsplit | src/pytest_vts/vts/__init__.py:69 | the components put back together with a separator between each two; its contract is UnsplitSplit |
| CassetteNaming.UnsplitCons | src/pytest_vts/vts/__init__.py:69 | a character in front of the first component is a character in front of the rebuilt name |
| CassetteNaming.UnsplitSplit | src/pytest_vts/vts/__init__.py:69 | the components of a joined name rebuild the name exactly, so joining loses nothing |
| CassetteNaming.SplitWithoutSep | src/pytest_vts/vts/__init__.py:76 | a name without separators is joined as a single component |
| CassetteNaming.Join | src/pytest_vts/vts/__init__.py:69 | py.path's join, adding the components of the name; its contract is Split's |
| CassetteNaming.CassDir | src/pytest_vts/vts/__init__.py:68-69 | basedir joined with "cassettes"; its contract is CassFileIsDirectChild |
| CassetteNaming.CassFile | src/pytest_vts/vts/__init__.py:75-76 | the cassettes directory joined with the test name; its contracts are CassFileIsDirectChild and SameCassette |
| CassetteNaming.CassFileIsDirectChild | src/pytest_vts/vts/__init__.py:68-76 | the cassette file is exactly basedir / "cassettes" / test name, whatever the test name contains |
| CassetteNaming.SameCassette | src/pytest_vts/vts/__init__.py:71-76 | two test names share a cassette file if and only if they agree after separator replacement |
| Json.Get | src/pytest_vts/vts/__init__.py:90 | `obj[key]` gives the value exactly when obj is an object holding key; otherwise KeyError on an object and TypeError on anything else |
| Http.StripEncoding | src/pytest_vts/vts/__init__.py:118-130 | a gzip Content-Encoding (names compared case-insensitively) is removed and every other header kept; without one the headers are untouched |
| TrackCodec.CaptureBody | src/pytest_vts/vts/__init__.py:131-135 | resp.json() and its dumps, or the raw text twice on ValueError; its contracts are RecordedResponse and ReplayOfRecorded |
| TrackCodec.EncodeExchange | src/pytest_vts/vts/__init__.py:103-146 | the track and the reply of one successful send; its contracts are RecordedRequest, RecordedResponse, GzipStripped and ReplayOfRecorded |
| TrackCodec.RecordedRequest | src/pytest_vts/vts/__init__.py:103-110 | the stored request's method, url, path, headers and body are the prepared request's |
| TrackCodec.RecordedResponse | src/pytest_vts/vts/__init__.py:131-146 | the stored status and headers are those returned; the stored body is the parsed value and the reply its dumps when the text parses, and otherwise both are the text |
| TrackCodec.GzipStripped | src/pytest_vts/vts/__init__.py:118-145 | with a gzip Content-Encoding neither the stored nor the returned headers hold Content-Encoding and every other header is kept; otherwise the headers are stored and returned as received |
| TrackCodec.Play | src/pytest_vts/vts/__init__.py:81-86 | the playback callback; its contracts are PlayShape and ReplayOfRecorded |
| TrackCodec.PlayShape | src/pytest_vts/vts/__init__.py:81-86 | play answers exactly when the stored response has status_code, headers and body, with the stored status and headers unchanged and the body serialised; otherwise TypeError or KeyError of the first missing field |
| TrackCodec.ReplayOfRecorded | src/pytest_vts/vts/__init__.py:81-86 | replaying a recorded response gives the recorded status and headers; the body equals the recorded reply's if and only if the live body parsed as JSON, and it always parses back to the stored body |
| Interception.WithoutQuery | src/pytest_vts/vts/__init__.py:93 | the URL stripped of its query string: a prefix of the URL holding no `?`, the whole URL when it has no `?`, and otherwise ending right before the first `?` |
| Interception.StubMatches | src/pytest_vts/vts/__init__.py:91-93 | the assumed matching rule of the library: equal method, a URL beginning with http for `http.*`, and an exact URL compared with or without its query string; its contracts are ReplayStubMatches and FirstMatch |
| Interception.FirstMatch | src/pytest_vts/vts/__init__.py:91-93 | the answering stub (an assumption about the library) matches, no earlier stub does, and none matches when there is no answer |
| Interception.FirstMatchAt | src/pytest_vts/vts/__init__.py:91-93 | a matching stub with no matching stub before it is the one that answers |
| Interception.RequestsMock.constructor | src/pytest_vts/vts/__init__.py:36-37 | a new registry is inactive and empty |
| Interception.RequestsMock.Start | src/pytest_vts/vts/__init__.py:40 | start switches interception on and keeps the stubs |
| Interception.RequestsMock.Stop | src/pytest_vts/vts/__init__.py:61 | stop switches interception off and keeps the stubs |
| Interception.RequestsMock.Reset | src/pytest_vts/vts/__init__.py:62 | reset forgets every stub and leaves the switch alone |
| Interception.RequestsMock.AddCallback | src/pytest_vts/vts/__init__.py:50-52 | add_callback appends one stub |
| Environment.FileSystem.ReadText | src/pytest_vts/vts/__init__.py:98 | read_text gives the file's contents exactly when it exists |
| Environment.FileSystem.Write | src/pytest_vts/vts/__init__.py:64-66 | write sets that one file and leaves every other file as it was |
| Environment.Transport.Send | src/pytest_vts/vts/__init__.py:114 | the real send is logged once, with whether interception was on |
| Playback.LoadCassette | src/pytest_vts/vts/__init__.py:96-99 | loading gives the parsed file exactly when the file exists and parses; FileNotFound or JsonDecodeError otherwise |
| Playback.SavedCassetteLoads | src/pytest_vts/vts/__init__.py:63-66 | what teardown writes loads back as the same cassette |
| Playback.TrackStub | src/pytest_vts/vts/__init__.py:90-94 | one iteration of rewind_cassette; its contract is TrackStubShape |
| Playback.TrackStubShape | src/pytest_vts/vts/__init__.py:89-94 | a track yields a stub exactly when it has a request with method and url and a response; the stub carries that method, exact URL, match_querystring=True and play(response) |
| Playback.RegisterTracks | src/pytest_vts/vts/__init__.py:89-94 | the loop of rewind_cassette over a list of tracks; its contracts are RegisteredStubs, RegisterConcat, RegisterNextOk and RegisterNextErr |
| Playback.Rewind | src/pytest_vts/vts/__init__.py:88-94 | rewind_cassette over whatever the cassette holds; its contracts are RewindRegistersPlayback and RecordedCassetteRewinds |
| Playback.RegisteredStubs | src/pytest_vts/vts/__init__.py:89-94 | the rewind registers the stubs of an initial run of tracks, in order; all tracks exactly when nothing raised, and otherwise stops with the error of the next track |
| Playback.RewindRegistersPlayback | src/pytest_vts/vts/__init__.py:88-94 | every stub the rewind registers is a playback stub |
| Playback.RegisterConcat | src/pytest_vts/vts/__init__.py:89 | the loop over two runs of tracks is the loop over the first, continued over the second unless the first raised |
| Playback.RegisterNextOk | src/pytest_vts/vts/__init__.py:89-94 | one more good track appends its stub |
| Playback.RegisterNextErr | src/pytest_vts/vts/__init__.py:89-90 | a bad track ends the loop with its error and the earlier stubs |
| Playback.RecordedTracks | src/pytest_vts/vts/__init__.py:142 | recording n exchanges gives n tracks |
| Playback.RecordedTrackAt | src/pytest_vts/vts/__init__.py:142 | the i-th track of a recorded cassette encodes the i-th exchange |
| Playback.ReplayStubMatches | src/pytest_vts/vts/__init__.py:91-93 | a recorded track's stub answers exactly the requests with the recorded method and full URL |
| Playback.RecordedTrackStub | src/pytest_vts/vts/__init__.py:89-94 | a recorded track yields the stub keyed by its request's method and URL, playing its stored response |
| Playback.RecordedCassetteRewinds | src/pytest_vts/vts/__init__.py:88-94 | rewinding a recorded cassette never raises and registers one stub per track in recording order |
| Playback.RecordedRequestMatchesOwnTrack | src/pytest_vts/vts/__init__.py:88-94 | when no earlier request had the same method and URL, a recorded request is answered by its own track |
| Playback.RecordThenReplay | src/pytest_vts/vts/__init__.py:81-99 | a recorded, saved and reloaded request (first of its method and URL) is answered with the recorded status and headers, and with the recorded body exactly when that body was JSON |
| Playback.DuplicateKeyShadowed | src/pytest_vts/vts/__init__.py:88-94 | under the first-match assumption about the library, of two recorded requests with the same method and URL the later track never answers |
| Vts.Record | src/pytest_vts/vts/__init__.py:101-149 | a failed send raises and changes nothing; a response appends exactly one track, keeps the earlier ones, sets has_recorded and returns the reply; a non-list cassette raises AttributeError |
| Vts.Recorder.HasCassette | src/pytest_vts/vts/__init__.py:78-79 | whether the cassette file exists; Setup's contract turns on it |
| Vts.Recorder.constructor | src/pytest_vts/vts/__init__.py:30-37 | a new recorder has an empty cassette, has not recorded, and owns a fresh, inactive, empty registry |
| Vts.Recorder.Setup | src/pytest_vts/vts/__init__.py:39-44 | interception is on; without a cassette file exactly the GET http.* recording stub is registered; with one, the loaded cassette's stubs are registered, or the load's error is returned |
| Vts.Recorder.SetupRecording | src/pytest_vts/vts/__init__.py:46-52 | the registry holds exactly the GET http.* recording stub |
| Vts.Recorder.SetupPlayback | src/pytest_vts/vts/__init__.py:54-58 | on a load error nothing changes; otherwise the cassette is the loaded one and the registry holds exactly its stubs, in cassette order |
| Vts.Recorder.Teardown | src/pytest_vts/vts/__init__.py:60-66 | interception off, registry empty, and the cassette file written with the serialised cassette if and only if something was recorded |
| Vts.Recorder.RewindCassette | src/pytest_vts/vts/__init__.py:88-94 | the loop appends exactly the stubs of the rewind specification and returns its error, if any |
| Vts.Recorder.InsertCassette | src/pytest_vts/vts/__init__.py:96-99 | unless something was recorded, the cassette becomes the parsed file or the load error is returned with the cassette unchanged |
| Vts.Recorder.RecordCallback | src/pytest_vts/vts/__init__.py:101-149 | the request is sent once with interception off, interception is on again afterwards with the stubs kept, and the new state is that of Record |
| Vts.Recorder.Deliver | src/pytest_vts/vts/__init__.py:26-28 | a request with interception off goes to the network; with it on, an unmatched request is refused, a playback stub answers without touching the network or the cassette, and the recording stub records |
| Vts.PlaybackAnswer | src/pytest_vts/vts/__init__.py:81-86 | the answer while only playback stubs are registered: the first matching stub's response played, or a refusal |
| Vts.PlayRequests | src/pytest_vts/vts/__init__.py:81-86 | while only playback stubs are registered, every request gets the playback answer of the registered stubs, no request reaches the network, and the cassette and has_recorded stay as they were |
| Vts.PlaybackSession | src/pytest_vts/vts/__init__.py:39-66 | a session against an existing cassette sends nothing to the network and leaves the files as they were; a cassette that cannot be loaded fails the setup, and otherwise each request gets the playback answer of the loaded cassette's stubs |
| Vts.SentWhileRecording | src/pytest_vts/vts/__init__.py:112-114 | the network log of a recording: each request once, in order, with interception off |
| Vts.RecordedReplies | src/pytest_vts/vts/__init__.py:144-146 | the replies of a recording: each exchange's recorded reply, in order |
| Vts.RecordedStep | src/pytest_vts/vts/__init__.py:142 | one more exchange adds one log entry and one reply at the end |
| Vts.SetupWithoutCassette | src/pytest_vts/vts/__init__.py:39-42 | setup without a cassette file leaves exactly the recording stub registered, interception on and the cassette as it was |
| Vts.RecordOne | src/pytest_vts/vts/__init__.py:46-52 | a GET to an http URL under the recording stub is sent once and appended as one track |
| Vts.RecordRequests | src/pytest_vts/vts/__init__.py:101-149 | recording GETs to http URLs sends each once, in order, with interception off, builds the cassette of all of them in order, and returns each recorded reply |
| Vts.RecordAndSave | src/pytest_vts/vts/__init__.py:60-66 | recording then teardown: the log and replies of RecordRequests, interception off, and the cassette file written exactly when there was a request |
| Vts.RecordingSession | src/pytest_vts/vts/__init__.py:39-66 | a session without a cassette file sends each request once, in order, with interception off, returns each recorded reply, and writes the cassette of every exchange in order exactly when there was at least one request |

## Left out

- The timeout of the real send (line 114) is not modelled. The network's
  answer is a parameter, either a response or a failure.
- The internals of the `responses` library are not modelled: its regular
  expressions, query-string normalisation, default content type and
  unmatched-request error. Which stub answers is stated as an assumption
  (`Interception.FirstMatch`), with `http.*` read as "begins with http".
- JSON parsing and serialisation are abstract functions. Floating-point
  numbers are not modelled: JSON numbers are integers.
- The Python 2 `encoding=` argument of `json.dumps` (line 65) and UTF-8
  decoding of the file (line 98) are not modelled. On Python 3 that
  argument makes `json.dumps` raise TypeError, so teardown as written would
  never write a cassette there; the model's teardown writes it, as on
  Python 2.
- Header names are compared by ASCII lower-casing, not by full Unicode case
  folding.
- Request bodies are text or absent; a bytes body is not modelled.
- Teardown writes with `ensure=True`. The created directories are not
  modelled: the file system is a map from paths to contents.
- py.path normalisation is not modelled: `..`, empty components and a
  leading separator in a test name. The separator is the POSIX `/`.
- The pytest request object is a parameter only. The defaults taken from it
  (lines 33-35) and logging (lines 10, 47, 55) are not modelled.
- `responses.calls` and the plugin's fixtures are not modelled; they are
  outside class `Recorder`.
- Vts.RecordRequests and Vts.RecordingSession: cover only GET requests to
  http URLs that the network answers. For any other request, one step is
  described by `Vts.Recorder.Deliver`.
