/** The recorder's surroundings: the file system holding cassettes and the
    real network that recording sends requests to. */
module Environment {
  import opened Wrappers
  import opened Exceptions
  import opened CassetteNaming
  import opened Http

  /** Files as a map from path to text; writing creates missing directories. */
  class FileSystem {
    var files: map<Path, string>

    constructor (files: map<Path, string>)
      ensures this.files == files
    {
      this.files := files;
    }

    predicate Exists(p: Path)
      reads this
    {
      p in files
    }

    /** read_text: the file's contents, FileNotFound when there is none. */
    function ReadText(p: Path): (r: Result<string, Error>)
      reads this
      ensures r.Ok? <==> p in files
      ensures r.Ok? ==> r.value == files[p]
    {
      if p in files then Ok(files[p]) else Err(FileNotFound)
    }

    /** write(contents, ensure=True): creates or overwrites the file. */
    method Write(p: Path, contents: string)
      modifies this
      ensures files == old(files)[p := contents]
    {
      files := files[p := contents];
    }
  }

  /** One request that reached the real network, and whether interception was
      switched on at that moment. */
  datatype Sent = Sent(request: PreparedRequest, intercepting: bool)

  /** The real network: what it answers is chosen by the caller; the model
      keeps the log of what was sent. */
  class Transport {
    var log: seq<Sent>

    constructor ()
      ensures log == []
    {
      log := [];
    }

    method Send(req: PreparedRequest, intercepting: bool)
      modifies this
      ensures log == old(log) + [Sent(req, intercepting)]
    {
      log := log + [Sent(req, intercepting)];
    }
  }
}
