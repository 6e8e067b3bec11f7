/**
 The router (`routes`), the four handlers (`getEcho`, `getUseragent`,
 `getFiles`, `postFiles`) and the per-connection pipeline of `serve` from the
 parsed request onwards. Each handler returns the bytes it writes to the
 connection; the file handlers also return the file store after their write.
 */
module Server {
  import opened Bytes
  import opened Strings
  import opened Parser
  import opened Response
  import FileStore

  const Get: Bytes := Ascii("GET")
  const Post: Bytes := Ascii("POST")

  const EchoEndpoint: Bytes := Ascii("echo")
  const UserAgentEndpoint: Bytes := Ascii("user-agent")
  const FilesEndpoint: Bytes := Ascii("files")
  const RootEndpoint: Bytes := []

  const EchoPrefix: Bytes := Ascii("/echo/")
  const FilesPrefix: Bytes := Ascii("/files/")

  /** Header names are looked up with exactly this case. */
  const UserAgent: Bytes := Ascii("User-Agent")
  const ContentType: Bytes := Ascii("Content-Type")

  /**
   The ways a connection's goroutine panics instead of writing a response.
   Nothing recovers the panic, so it ends the whole server process, not just
   this connection.
   */
  datatype Crash =
    | NilRequest          // the request line had fewer than three tokens; `badRequest` is then called on a nil request
    | HeaderWithoutColon  // a header line without ':' leaves `parts[1]` out of range (main.go:97)
    | PathWithoutSlash    // a path without '/' leaves `strings.Split(path, "/")[1]` out of range (main.go:115)

  /** What serving one connection does: write some bytes and leave the file store in some state, or panic. */
  datatype Outcome = Wrote(out: Bytes, store: FileStore.Store) | Crashed(reason: Crash)

  /**
   The endpoint name, element 1 of the path split on "/"; None where the path
   has no slash and the index is out of range. It is the text between the first
   slash and the next one, or the end of the path.
   */
  function Endpoint(path: Bytes): (e: Option<Bytes>)
    ensures e.None? <==> SLASH !in path
    ensures e.Some? ==>
              var after := path[FirstIndex(path, SLASH) + 1..];
              e.value == after[..FirstIndex(after, SLASH)]
  {
    var k := FirstIndex(path, SLASH);
    if k == |path| then
      assert path[..k] == path;
      None
    else
      SplitHead(path[k + 1..], SLASH);
      Some(Split(path, SLASH)[1])
  }

  /** A path `before/segment...` with no slash in `before` has `segment` as its endpoint. */
  lemma EndpointOf(before: Bytes, segment: Bytes, rest: Bytes)
    requires SLASH !in before && SLASH !in segment
    requires rest == [] || rest[0] == SLASH
    ensures Endpoint(before + [SLASH] + segment + rest) == Some(segment)
  {
    var path := before + [SLASH] + segment + rest;
    assert path == before + [SLASH] + (segment + rest);
    FirstIndexAfter(before, SLASH, segment + rest);
    AppendParts(before + [SLASH], segment + rest);
    if rest == [] {
      assert segment + rest == segment;
      FirstIndexIs(segment, SLASH, |segment|);
      assert segment[..|segment|] == segment;
    } else {
      assert segment + rest == segment + [SLASH] + rest[1..];
      FirstIndexAfter(segment, SLASH, rest[1..]);
      AppendParts(segment, rest);
    }
  }

  /** `getEcho`: 200 with the path, less a leading "/echo/", as a text/plain body. */
  function GetEcho(r: Request): (out: Bytes)
    ensures EchoPrefix <= r.path ==> ReadOk(out) == Some((TextPlain, r.path[|EchoPrefix|..]))
    ensures !(EchoPrefix <= r.path) ==> ReadOk(out) == Some((TextPlain, r.path))
  {
    ContentTypesHaveNoCR();
    ReadOkOfOk(TextPlain, TrimPrefix(r.path, EchoPrefix));
    Ok(TextPlain, TrimPrefix(r.path, EchoPrefix))
  }

  /** `getUseragent`: 400 without a header named exactly "User-Agent", else 200 with its value as a text/plain body. */
  function GetUserAgent(r: Request): (out: Bytes)
    ensures UserAgent !in r.headers ==> out == BadRequest
    ensures UserAgent in r.headers ==> ReadOk(out) == Some((TextPlain, r.headers[UserAgent]))
  {
    if UserAgent !in r.headers then BadRequest
    else
      ContentTypesHaveNoCR();
      ReadOkOfOk(TextPlain, r.headers[UserAgent]);
      Ok(TextPlain, r.headers[UserAgent])
  }

  /** The file a files request names: the serving directory, a slash, and the path less a leading "/files/". */
  function FilePath(dir: Bytes, path: Bytes): (p: Bytes)
    ensures FilesPrefix <= path ==> p == dir + [SLASH] + path[|FilesPrefix|..]
    ensures !(FilesPrefix <= path) ==> p == dir + [SLASH] + path
  {
    dir + [SLASH] + TrimPrefix(path, FilesPrefix)
  }

  /** `getFiles`: 404 for a missing file, 400 for any other failure, else 200 with the file's bytes as an octet-stream body. */
  function GetFiles(r: Request, fs: FileStore.Store): (out: Bytes)
    ensures FileStore.Read(fs, FilePath(r.fileDir, r.path)) == FileStore.NotExist ==> out == NotFound
    ensures FileStore.Read(fs, FilePath(r.fileDir, r.path)) == FileStore.OtherError ==> out == BadRequest
    ensures FileStore.Read(fs, FilePath(r.fileDir, r.path)).Contents? ==>
              ReadOk(out) == Some((OctetStream, FileStore.Read(fs, FilePath(r.fileDir, r.path)).data))
  {
    match FileStore.Read(fs, FilePath(r.fileDir, r.path))
    case NotExist => NotFound
    case OtherError => BadRequest
    case Contents(data) =>
      ContentTypesHaveNoCR();
      ReadOkOfOk(OctetStream, data);
      Ok(OctetStream, data)
  }

  /** The Content-Type header as the map index expression gives it: the empty text when absent. */
  function ContentTypeOf(r: Request): (t: Bytes)
    ensures ContentType in r.headers ==> t == r.headers[ContentType]
    ensures ContentType !in r.headers ==> t == []
    ensures t == OctetStream <==> ContentType in r.headers && r.headers[ContentType] == OctetStream
  {
    if ContentType in r.headers then r.headers[ContentType] else []
  }

  /**
   `postFiles`: 400 and no change to the store unless Content-Type is exactly
   "application/octet-stream"; otherwise the request body is written to the
   named file, giving 201, or 400 with the store unchanged when writing fails.
   */
  function PostFiles(r: Request, fs: FileStore.Store): (res: (Bytes, FileStore.Store))
    ensures ContentTypeOf(r) != OctetStream ==> res == (BadRequest, fs)
    ensures ContentTypeOf(r) == OctetStream && FilePath(r.fileDir, r.path) in fs.unwritable ==> res == (BadRequest, fs)
    ensures ContentTypeOf(r) == OctetStream && FilePath(r.fileDir, r.path) !in fs.unwritable ==>
              res.0 == Created && res.1.files == fs.files[FilePath(r.fileDir, r.path) := r.body]
    ensures res.1.unreadable == fs.unreadable && res.1.unwritable == fs.unwritable
  {
    if ContentTypeOf(r) != OctetStream then (BadRequest, fs)
    else
      match FileStore.Write(fs, FilePath(r.fileDir, r.path), r.body)
      case None => (BadRequest, fs)
      case Some(fs') => (Created, fs')
  }

  /**
   `routes`: dispatch on the endpoint and then the method. GET on echo,
   user-agent and files and POST on files reach their handlers, GET on the root
   answers 200 with an empty text/plain body, and every other combination
   answers 404. Only POST on files can change the store.
   */
  function Route(r: Request, fs: FileStore.Store): (o: Outcome)
    ensures o.Crashed? <==> SLASH !in r.path
    ensures o.Crashed? ==> o.reason == PathWithoutSlash
    ensures o.Wrote? && o.store != fs ==> r.httpMethod == Post && Endpoint(r.path) == Some(FilesEndpoint)
    ensures Endpoint(r.path).Some? && Endpoint(r.path).value !in {EchoEndpoint, UserAgentEndpoint, FilesEndpoint, RootEndpoint} ==>
              o == Wrote(NotFound, fs)
    ensures Endpoint(r.path).Some? && Endpoint(r.path).value in {EchoEndpoint, UserAgentEndpoint, RootEndpoint} && r.httpMethod != Get ==>
              o == Wrote(NotFound, fs)
    ensures Endpoint(r.path) == Some(FilesEndpoint) && r.httpMethod != Get && r.httpMethod != Post ==>
              o == Wrote(NotFound, fs)
    ensures Endpoint(r.path) == Some(RootEndpoint) && r.httpMethod == Get ==> o == Wrote(Ok(TextPlain, []), fs)
    ensures Endpoint(r.path) == Some(EchoEndpoint) && r.httpMethod == Get ==> o == Wrote(GetEcho(r), fs)
    ensures Endpoint(r.path) == Some(UserAgentEndpoint) && r.httpMethod == Get ==> o == Wrote(GetUserAgent(r), fs)
    ensures Endpoint(r.path) == Some(FilesEndpoint) && r.httpMethod == Get ==> o == Wrote(GetFiles(r, fs), fs)
    ensures Endpoint(r.path) == Some(FilesEndpoint) && r.httpMethod == Post ==>
              o == Wrote(PostFiles(r, fs).0, PostFiles(r, fs).1)
  {
    match Endpoint(r.path)
    case None => Crashed(PathWithoutSlash)
    case Some(endpoint) =>
      if endpoint == EchoEndpoint then
        Wrote(if r.httpMethod == Get then GetEcho(r) else NotFound, fs)
      else if endpoint == UserAgentEndpoint then
        Wrote(if r.httpMethod == Get then GetUserAgent(r) else NotFound, fs)
      else if endpoint == FilesEndpoint then
        if r.httpMethod == Get then Wrote(GetFiles(r, fs), fs)
        else if r.httpMethod == Post then
          var (out, fs') := PostFiles(r, fs);
          Wrote(out, fs')
        else Wrote(NotFound, fs)
      else if endpoint == RootEndpoint then
        Wrote(if r.httpMethod == Get then Ok(TextPlain, []) else NotFound, fs)
      else Wrote(NotFound, fs)
  }

  /**
   `serve` after the read: parse the buffer and route the request. A request
   line with fewer than three tokens, a header line without a colon and a path
   without a slash each end in a panic rather than a response.
   */
  function Serve(buffer: Bytes, dir: Bytes, fs: FileStore.Store): (o: Outcome)
    ensures o == Crashed(NilRequest) <==> Count(Scanner.FirstLine(buffer), SP) < 2
    ensures o == Crashed(HeaderWithoutColon) <==> NewRequest(buffer, dir).NoColon?
    ensures o == Crashed(PathWithoutSlash) <==> NewRequest(buffer, dir).Parsed? && SLASH !in NewRequest(buffer, dir).request.path
    ensures o.Wrote? && o.store != fs ==> NewRequest(buffer, dir).Parsed? && NewRequest(buffer, dir).request.httpMethod == Post
  {
    match NewRequest(buffer, dir)
    case Nil => Crashed(NilRequest)
    case NoColon => Crashed(HeaderWithoutColon)
    case Parsed(r) => Route(r, fs)
  }
}
