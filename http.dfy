/** The parts of requests' objects the recorder reads: prepared requests,
    responses and their case-insensitive header dictionaries. */
module Http {
  import opened Wrappers
  import opened Json

  /** ASCII lower-casing, the case folding under which header names compare. */
  function LowerChar(c: char): char {
    if 'A' <= c <= 'Z' then (c as int + 32) as char else c
  }

  function Lower(s: string): (r: string)
    ensures |r| == |s|
  {
    seq(|s|, i requires 0 <= i < |s| => LowerChar(s[i]))
  }

  /** requests' CaseInsensitiveDict holds at most one entry per lower-cased name. */
  ghost predicate CaseDistinct(h: map<string, string>) {
    forall a, b :: a in h && b in h && Lower(a) == Lower(b) ==> a == b
  }

  type Headers = h: map<string, string> | CaseDistinct(h) witness map[]

  predicate IsContentEncoding(name: string) {
    Lower(name) == "content-encoding"
  }

  /** Python's `sub in s` on strings. */
  predicate Contains(s: string, sub: string) {
    sub <= s || (s != [] && Contains(s[1..], sub))
  }

  /** `"gzip" in headers.get("Content-Encoding", "")`: with case-distinct
      names there is at most one Content-Encoding entry to look at. */
  predicate Gzipped(h: Headers) {
    exists k | k in h && IsContentEncoding(k) :: Contains(h[k], "gzip")
  }

  /** `del headers["Content-Encoding"]` when the value mentions gzip. */
  function StripEncoding(h: Headers): (r: Headers)
    ensures Gzipped(h) ==> forall k :: k in r ==> !IsContentEncoding(k)
    ensures Gzipped(h) ==> forall k :: k in h && !IsContentEncoding(k) ==> k in r && r[k] == h[k]
    ensures !Gzipped(h) ==> r == h
    ensures r.Keys <= h.Keys
  {
    if Gzipped(h) then map k | k in h && !IsContentEncoding(k) :: h[k] else h
  }

  /** dict(headers.items()) as a JSON object. */
  function HeadersJson(h: map<string, string>): Json {
    JObj(map k | k in h :: JStr(h[k]))
  }

  /** A requests.PreparedRequest: method, full url, path_url, headers, body. */
  datatype PreparedRequest = PreparedRequest(
    httpMethod: string, url: string, pathUrl: string, headers: Headers, body: Option<string>)

  /** A requests.Response, its body already decoded to text. */
  datatype Response = Response(status: int, headers: Headers, text: string)

  /** What the real send produced: a response, or the exception it raised. */
  datatype SendResult = Delivered(response: Response) | Failed(reason: string)

  /** The (status, headers, body) tuple a responses callback returns. */
  datatype Reply = Reply(status: Json, headers: Json, body: string)
}
