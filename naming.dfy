/** Where a cassette lives: Recorder._cass_dir, _test_name and _cass_file. */
module CassetteNaming {

  /** os.path.sep on a POSIX host. */
  const Sep: char := '/'

  /** A file-system path as the list of its components. */
  datatype Path = Path(segments: seq<string>)

  /** The components a string names once it is split at every separator. */
  function Split(s: string): (parts: seq<string>)
    ensures |parts| >= 1
    ensures forall k :: 0 <= k < |parts| ==> Sep !in parts[k]
    ensures Sep in s ==> |parts| >= 2
  {
    if s == [] then [[]]
    else
      var rest := Split(s[1..]);
      if s[0] == Sep then [[]] + rest
      else
        assert Sep in s ==> Sep in s[1..] by {
          if Sep in s {
            var k :| 0 <= k < |s| && s[k] == Sep;
            assert s[1..][k - 1] == Sep;
          }
        }
        [[s[0]] + rest[0]] + rest[1..]
  }

  /** The components put back together with a separator between each two. */
  function Unsplit(parts: seq<string>): string
    requires |parts| >= 1
  {
    if |parts| == 1 then parts[0] else parts[0] + [Sep] + Unsplit(parts[1..])
  }

  /** A character in front of the first component is a character in front
      of the rebuilt name. */
  lemma UnsplitCons(c: char, head: string, others: seq<string>)
    ensures Unsplit([[c] + head] + others) == [c] + Unsplit([head] + others)
  {
    var longer, shorter := [[c] + head] + others, [head] + others;
    assert longer[1..] == others == shorter[1..];
    if others != [] {
      var tail := [Sep] + Unsplit(others);
      assert ([c] + head) + tail == [c] + (head + tail);
    }
  }

  /** Splitting loses nothing: the components rebuild the name. */
  lemma {:induction false} UnsplitSplit(s: string)
    ensures Unsplit(Split(s)) == s
  {
    if s != [] {
      var rest := Split(s[1..]);
      UnsplitSplit(s[1..]);
      if s[0] == Sep {
        assert ([[]] + rest)[1..] == rest;
      } else {
        assert [rest[0]] + rest[1..] == rest;
        UnsplitCons(s[0], rest[0], rest[1..]);
      }
      assert [s[0]] + s[1..] == s;
    }
  }

  /** py.path's join: a name that contains separators adds several components. */
  function Join(p: Path, name: string): Path {
    Path(p.segments + Split(name))
  }

  /** name.replace(os.path.sep, "_"). */
  function Sanitize(s: string): (r: string)
    ensures |r| == |s|
    ensures forall i :: 0 <= i < |s| ==> r[i] == (if s[i] == Sep then '_' else s[i])
  {
    if s == [] then []
    else [if s[0] == Sep then '_' else s[0]] + Sanitize(s[1..])
  }

  /** _test_name: the sanitised name with ".cassette" appended. */
  function TestName(name: string): (r: string)
    ensures Sep !in r
    ensures |r| == |name| + 9
    ensures r[..|name|] == Sanitize(name) && r[|name|..] == ".cassette"
  {
    Sanitize(name) + "." + "cassette"
  }

  /** _cass_dir: basedir/cassettes. */
  function CassDir(basedir: Path): Path {
    Join(basedir, "cassettes")
  }

  /** _cass_file: the cassette file of a test inside the cassettes directory. */
  function CassFile(basedir: Path, name: string): Path {
    Join(CassDir(basedir), TestName(name))
  }

  lemma SanitizeIdempotent(s: string)
    ensures Sanitize(Sanitize(s)) == Sanitize(s)
  {
    var once := Sanitize(s);
    assert forall i :: 0 <= i < |once| ==> Sanitize(once)[i] == once[i];
  }

  lemma {:induction false} SplitWithoutSep(s: string)
    requires Sep !in s
    ensures Split(s) == [s]
  {
    if s != [] {
      assert s[0] != Sep && Sep !in s[1..];
      SplitWithoutSep(s[1..]);
      assert [s[0]] + s[1..] == s;
    }
  }

  /** The cassette file is directly inside basedir/cassettes, whatever
      separators the test name holds. */
  lemma CassFileIsDirectChild(basedir: Path, name: string)
    ensures CassFile(basedir, name).segments == basedir.segments + ["cassettes", TestName(name)]
  {
    SplitWithoutSep("cassettes");
    SplitWithoutSep(TestName(name));
  }

  /** Two test names name the same cassette exactly when they agree after
      every separator is replaced. */
  lemma SameCassette(basedir: Path, a: string, b: string)
    ensures CassFile(basedir, a) == CassFile(basedir, b) <==> Sanitize(a) == Sanitize(b)
  {
    CassFileIsDirectChild(basedir, a);
    CassFileIsDirectChild(basedir, b);
    if CassFile(basedir, a) == CassFile(basedir, b) {
      var pa := CassFile(basedir, a).segments;
      assert TestName(a) == pa[|pa| - 1] == TestName(b);
      assert Sanitize(a) == TestName(a)[..|a|];
      assert |a| == |b|;
    }
  }
}
