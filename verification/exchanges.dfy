/**
 Whole exchanges: a request framed as a client sends it, served against a file
 store, and the bytes the server writes back.
 */
module Exchanges {
  import opened Bytes
  import opened Strings
  import opened Scanner
  import opened Parser
  import opened Response
  import opened Server
  import FileStore

  const ClientVersion: Bytes := Ascii("HTTP/1.1")
  const RootPath: Bytes := [SLASH]
  const UserAgentPath: Bytes := Ascii("/user-agent")

  /** The methods are single tokens, and tell apart. */
  lemma MethodLiterals()
    ensures SP !in Get && LF !in Get && SP !in Post && LF !in Post && Get != Post
  {
    assert Get == [71, 69, 84];
    assert Post == [80, 79, 83, 84];
  }

  /** The version a client sends spans no line break. */
  lemma VersionLiteral()
    ensures LF !in ClientVersion
  {
    assert ClientVersion == [72, 84, 84, 80, 47, 49, 46, 49];
  }

  lemma EchoLiterals()
    ensures EchoPrefix == [SLASH] + EchoEndpoint + [SLASH]
    ensures SP !in EchoPrefix && LF !in EchoPrefix && SLASH !in EchoEndpoint
  {
    assert EchoEndpoint == [101, 99, 104, 111];
    assert EchoPrefix == [47, 101, 99, 104, 111, 47];
  }

  lemma FilesLiterals()
    ensures FilesPrefix == [SLASH] + FilesEndpoint + [SLASH]
    ensures SP !in FilesPrefix && LF !in FilesPrefix && SLASH !in FilesEndpoint
  {
    assert FilesEndpoint == [102, 105, 108, 101, 115];
    assert FilesPrefix == [47, 102, 105, 108, 101, 115, 47];
  }

  lemma UserAgentLiterals()
    ensures UserAgentPath == [SLASH] + UserAgentEndpoint
    ensures SP !in UserAgentPath && LF !in UserAgentPath && SLASH !in UserAgentEndpoint
  {
    assert UserAgentEndpoint == [117, 115, 101, 114, 45, 97, 103, 101, 110, 116];
    assert UserAgentPath == [47, 117, 115, 101, 114, 45, 97, 103, 101, 110, 116];
  }

  /** The Content-Type field an uploading client sends parses back to itself. */
  lemma ContentTypeField()
    ensures WellFormedField((ContentType, OctetStream))
  {
    assert ContentType == [67, 111, 110, 116, 101, 110, 116, 45, 84, 121, 112, 101];
    assert OctetStream == [97, 112, 112, 108, 105, 99, 97, 116, 105, 111, 110, 47, 111, 99, 116, 101, 116, 45, 115, 116, 114, 101, 97, 109];
  }

  /** A request that parses is routed as it parsed. */
  lemma Served(verb: Bytes, target: Bytes, fields: seq<Field>, body: Bytes, dir: Bytes, fs: FileStore.Store)
    requires SP !in verb && LF !in verb && SP !in target && LF !in target
    requires forall i :: 0 <= i < |fields| ==> WellFormedField(fields[i])
    requires LF !in body && (|body| == 0 || body[|body| - 1] != CR)
    ensures Serve(RequestText(verb, target, ClientVersion, fields, body), dir, fs)
         == Route(Request(verb, target, FieldMap(fields), body, dir), fs)
  {
    VersionLiteral();
    ParseRequestText(verb, target, ClientVersion, fields, body, dir);
  }

  /**
   A request framed as CR LF terminated lines, body lines included, is routed
   with the body lines concatenated.
   */
  lemma ServedLines(verb: Bytes, target: Bytes, fields: seq<Field>, bodyLines: seq<Bytes>, dir: Bytes, fs: FileStore.Store)
    requires SP !in verb && LF !in verb && SP !in target && LF !in target
    requires forall i :: 0 <= i < |fields| ==> WellFormedField(fields[i])
    requires forall i :: 0 <= i < |bodyLines| ==> LF !in bodyLines[i]
    ensures Serve(Terminated([verb + [SP] + target + [SP] + ClientVersion] + FieldLines(fields) + [[]] + bodyLines), dir, fs)
         == Route(Request(verb, target, FieldMap(fields), Concat(bodyLines), dir), fs)
  {
    VersionLiteral();
    ParseFramedLines(verb, target, ClientVersion, fields, bodyLines, dir);
  }

  /** `prefix + s` with `prefix` removed is `s`. */
  lemma TrimPrefixOf(prefix: Bytes, s: Bytes)
    ensures TrimPrefix(prefix + s, prefix) == s
  {
    var r := TrimPrefix(prefix + s, prefix);
    assert prefix <= prefix + s;
    assert r == (prefix + r)[|prefix|..] == (prefix + s)[|prefix|..] == s;
  }

  /** Adding text without spaces or line feeds to a prefix without them gives none. */
  lemma TargetAvoids(prefix: Bytes, s: Bytes)
    requires SP !in prefix && LF !in prefix && SP !in s && LF !in s
    ensures SP !in prefix + s && LF !in prefix + s
  {
  }

  /** GET on /echo/s routes to `getEcho`, which answers with `s`. */
  lemma EchoRoute(r: Request, s: Bytes, fs: FileStore.Store)
    requires r.httpMethod == Get && r.path == EchoPrefix + s
    ensures Route(r, fs) == Wrote(Ok(TextPlain, s), fs)
  {
    EchoLiterals();
    assert r.path == [] + [SLASH] + EchoEndpoint + ([SLASH] + s);
    EndpointOf([], EchoEndpoint, [SLASH] + s);
    TrimPrefixOf(EchoPrefix, s);
  }

  /** GET /echo/s answers 200 with `s` as a text/plain body, whatever slashes `s` holds. */
  lemma EchoExchange(s: Bytes, fields: seq<Field>, dir: Bytes, fs: FileStore.Store)
    requires SP !in s && LF !in s
    requires forall i :: 0 <= i < |fields| ==> WellFormedField(fields[i])
    ensures Serve(RequestText(Get, EchoPrefix + s, ClientVersion, fields, []), dir, fs) == Wrote(Ok(TextPlain, s), fs)
  {
    MethodLiterals();
    EchoLiterals();
    TargetAvoids(EchoPrefix, s);
    Served(Get, EchoPrefix + s, fields, [], dir, fs);
    EchoRoute(Request(Get, EchoPrefix + s, FieldMap(fields), [], dir), s, fs);
  }

  /** GET / answers 200 with an empty text/plain body. */
  lemma RootExchange(fields: seq<Field>, dir: Bytes, fs: FileStore.Store)
    requires forall i :: 0 <= i < |fields| ==> WellFormedField(fields[i])
    ensures Serve(RequestText(Get, RootPath, ClientVersion, fields, []), dir, fs) == Wrote(Ok(TextPlain, []), fs)
  {
    MethodLiterals();
    Served(Get, RootPath, fields, [], dir, fs);
    assert RootPath == [] + [SLASH] + RootEndpoint + [];
    EndpointOf([], RootEndpoint, []);
  }

  /** GET on /user-agent routes to `getUseragent`. */
  lemma UserAgentRoute(r: Request, fs: FileStore.Store)
    requires r.httpMethod == Get && r.path == UserAgentPath
    ensures Route(r, fs) == Wrote(if UserAgent in r.headers then Ok(TextPlain, r.headers[UserAgent]) else BadRequest, fs)
  {
    UserAgentLiterals();
    assert r.path == [] + [SLASH] + UserAgentEndpoint + [];
    EndpointOf([], UserAgentEndpoint, []);
  }

  /**
   GET /user-agent answers 200 with the value of the last User-Agent field
   (exact case) as a text/plain body, and 400 when there is none.
   */
  lemma UserAgentExchange(fields: seq<Field>, dir: Bytes, fs: FileStore.Store)
    requires forall i :: 0 <= i < |fields| ==> WellFormedField(fields[i])
    ensures Serve(RequestText(Get, UserAgentPath, ClientVersion, fields, []), dir, fs)
         == Wrote(if UserAgent in FieldMap(fields) then Ok(TextPlain, FieldMap(fields)[UserAgent]) else BadRequest, fs)
  {
    MethodLiterals();
    UserAgentLiterals();
    Served(Get, UserAgentPath, fields, [], dir, fs);
    UserAgentRoute(Request(Get, UserAgentPath, FieldMap(fields), [], dir), fs);
  }

  /** A files request for `name` names the file `dir/name`. */
  lemma FilesTarget(name: Bytes, dir: Bytes)
    requires SP !in name && LF !in name
    ensures SP !in FilesPrefix + name && LF !in FilesPrefix + name
    ensures Endpoint(FilesPrefix + name) == Some(FilesEndpoint)
    ensures FilePath(dir, FilesPrefix + name) == dir + [SLASH] + name
  {
    FilesLiterals();
    TargetAvoids(FilesPrefix, name);
    assert FilesPrefix + name == [] + [SLASH] + FilesEndpoint + ([SLASH] + name);
    EndpointOf([], FilesEndpoint, [SLASH] + name);
    TrimPrefixOf(FilesPrefix, name);
  }

  /** GET on /files/name reads the file `dir/name`. */
  lemma DownloadRoute(r: Request, name: Bytes, fs: FileStore.Store)
    requires SP !in name && LF !in name
    requires r.httpMethod == Get && r.path == FilesPrefix + name
    ensures var path := r.fileDir + [SLASH] + name;
            (Route(r, fs) == Wrote(if path in fs.unreadable then BadRequest
                                   else if path in fs.files then Ok(OctetStream, fs.files[path])
                                   else NotFound, fs))
  {
    FilesTarget(name, r.fileDir);
  }

  /** GET /files/name answers 404 for a missing file, 400 when reading fails, and 200 with the contents as an octet-stream body otherwise. */
  lemma DownloadExchange(name: Bytes, fields: seq<Field>, dir: Bytes, fs: FileStore.Store)
    requires SP !in name && LF !in name
    requires forall i :: 0 <= i < |fields| ==> WellFormedField(fields[i])
    ensures var path := dir + [SLASH] + name;
            (Serve(RequestText(Get, FilesPrefix + name, ClientVersion, fields, []), dir, fs)
             == Wrote(if path in fs.unreadable then BadRequest
                      else if path in fs.files then Ok(OctetStream, fs.files[path])
                      else NotFound, fs))
  {
    MethodLiterals();
    FilesTarget(name, dir);
    Served(Get, FilesPrefix + name, fields, [], dir, fs);
    DownloadRoute(Request(Get, FilesPrefix + name, FieldMap(fields), [], dir), name, fs);
  }

  /** POST on /files/name writes the body to `dir/name` when Content-Type allows it. */
  lemma UploadRoute(r: Request, name: Bytes, fs: FileStore.Store)
    requires SP !in name && LF !in name
    requires r.httpMethod == Post && r.path == FilesPrefix + name
    ensures var path := r.fileDir + [SLASH] + name;
            var typed := ContentType in r.headers && r.headers[ContentType] == OctetStream;
            (Route(r, fs) == if typed && path !in fs.unwritable then Wrote(Created, fs.(files := fs.files[path := r.body]))
                             else Wrote(BadRequest, fs))
  {
    MethodLiterals();
    FilesTarget(name, r.fileDir);
  }

  /**
   POST /files/name with Content-Type exactly application/octet-stream stores
   the body at `dir/name` and answers 201, or answers 400 and changes nothing
   when the file cannot be written; with any other or no Content-Type it
   answers 400 and changes nothing. The body is sent as CR LF terminated lines
   holding any bytes but LF, and what is stored is those lines concatenated.
   */
  lemma UploadExchange(name: Bytes, fields: seq<Field>, bodyLines: seq<Bytes>, dir: Bytes, fs: FileStore.Store)
    requires SP !in name && LF !in name
    requires forall i :: 0 <= i < |fields| ==> WellFormedField(fields[i])
    requires forall i :: 0 <= i < |bodyLines| ==> LF !in bodyLines[i]
    ensures var path := dir + [SLASH] + name;
            var typed := ContentType in FieldMap(fields) && FieldMap(fields)[ContentType] == OctetStream;
            var text := Terminated([Post + [SP] + (FilesPrefix + name) + [SP] + ClientVersion] + FieldLines(fields) + [[]] + bodyLines);
            (Serve(text, dir, fs)
             == if typed && path !in fs.unwritable then Wrote(Created, fs.(files := fs.files[path := Concat(bodyLines)]))
                else Wrote(BadRequest, fs))
  {
    MethodLiterals();
    VersionLiteral();
    FilesTarget(name, dir);
    ParseFramedLines(Post, FilesPrefix + name, ClientVersion, fields, bodyLines, dir);
    UploadRoute(Request(Post, FilesPrefix + name, FieldMap(fields), Concat(bodyLines), dir), name, fs);
  }

  /**
   Upload then download: after a 201 for POST /files/name, GET /files/name
   answers 200 with exactly the uploaded bytes, when the file can be read.
   */
  lemma UploadThenDownload(name: Bytes, data: Bytes, dir: Bytes, fs: FileStore.Store)
    requires SP !in name && LF !in name
    requires LF !in data && (|data| == 0 || data[|data| - 1] != CR)
    requires dir + [SLASH] + name !in fs.unwritable && dir + [SLASH] + name !in fs.unreadable
    ensures var up := Serve(RequestText(Post, FilesPrefix + name, ClientVersion, [(ContentType, OctetStream)], data), dir, fs);
            (up.Wrote? && up.out == Created &&
             Serve(RequestText(Get, FilesPrefix + name, ClientVersion, [], []), dir, up.store) == Wrote(Ok(OctetStream, data), up.store))
  {
    ContentTypeField();
    var fields := [(ContentType, OctetStream)];
    assert FieldMap(fields) == map[][ContentType := OctetStream] by {
      assert fields[..0] == [];
    }
    MethodLiterals();
    FilesTarget(name, dir);
    Served(Post, FilesPrefix + name, fields, data, dir, fs);
    UploadRoute(Request(Post, FilesPrefix + name, FieldMap(fields), data, dir), name, fs);
    var up := Serve(RequestText(Post, FilesPrefix + name, ClientVersion, fields, data), dir, fs);
    DownloadExchange(name, [], dir, up.store);
  }

  /** A request line with fewer than two spaces makes the parser return nil, and serving it panics. */
  lemma ShortRequestLine(line: Bytes, rest: Bytes, dir: Bytes, fs: FileStore.Store)
    requires LF !in line && Count(line, SP) < 2
    ensures Serve(Terminated([line]) + rest, dir, fs) == Crashed(NilRequest)
  {
    LinesOfTerminated([line], rest);
  }

  /** "GET" alone on the request line: no response is written. */
  lemma BareMethodCrashes(dir: Bytes, fs: FileStore.Store)
    ensures Serve(Ascii("GET\r\n\r\n"), dir, fs) == Crashed(NilRequest)
  {
    MethodLiterals();
    assert Ascii("GET\r\n\r\n") == Terminated([Get]) + [CR, LF];
    CountAbsent(Get, SP);
    ShortRequestLine(Get, [CR, LF], dir, fs);
  }

  /** A path without a slash panics in the router. */
  lemma SlashlessPath(verb: Bytes, target: Bytes, fields: seq<Field>, bodyLines: seq<Bytes>, dir: Bytes, fs: FileStore.Store)
    requires SP !in verb && LF !in verb && SP !in target && LF !in target && SLASH !in target
    requires forall i :: 0 <= i < |fields| ==> WellFormedField(fields[i])
    requires forall i :: 0 <= i < |bodyLines| ==> LF !in bodyLines[i]
    ensures Serve(Terminated([verb + [SP] + target + [SP] + ClientVersion] + FieldLines(fields) + [[]] + bodyLines), dir, fs)
         == Crashed(PathWithoutSlash)
  {
    ServedLines(verb, target, fields, bodyLines, dir, fs);
  }

  /** The router answers 404 to any method on an endpoint it does not know. */
  lemma UnknownRoute(r: Request, segment: Bytes, rest: Bytes, fs: FileStore.Store)
    requires SLASH !in segment && (rest == [] || rest[0] == SLASH)
    requires segment !in {EchoEndpoint, UserAgentEndpoint, FilesEndpoint, RootEndpoint}
    requires r.path == [SLASH] + (segment + rest)
    ensures Route(r, fs) == Wrote(NotFound, fs)
  {
    assert r.path == [] + [SLASH] + segment + rest;
    EndpointOf([], segment, rest);
  }

  /** Any method on an endpoint the router does not know answers 404. */
  lemma UnknownEndpoint(verb: Bytes, segment: Bytes, rest: Bytes, fields: seq<Field>, bodyLines: seq<Bytes>, dir: Bytes, fs: FileStore.Store)
    requires SP !in verb && LF !in verb
    requires SLASH !in segment && SP !in segment + rest && LF !in segment + rest
    requires rest == [] || rest[0] == SLASH
    requires segment !in {EchoEndpoint, UserAgentEndpoint, FilesEndpoint, RootEndpoint}
    requires forall i :: 0 <= i < |fields| ==> WellFormedField(fields[i])
    requires forall i :: 0 <= i < |bodyLines| ==> LF !in bodyLines[i]
    ensures Serve(Terminated([verb + [SP] + ([SLASH] + (segment + rest)) + [SP] + ClientVersion] + FieldLines(fields) + [[]] + bodyLines), dir, fs)
         == Wrote(NotFound, fs)
  {
    var target := [SLASH] + (segment + rest);
    UnknownRoute(Request(verb, target, FieldMap(fields), Concat(bodyLines), dir), segment, rest, fs);
    ServedLines(verb, target, fields, bodyLines, dir, fs);
  }

  /** Two body lines concatenate to the two texts, with nothing between them. */
  lemma ConcatTwo(a: Bytes, b: Bytes)
    ensures Concat([a, b]) == a + b
  {
    assert [a, b][1..] == [b];
    assert [b][1..] == [];
    assert Concat([b]) == b + Concat([]);
    assert b + [] == b;
  }

  /** A body sent as two CR LF terminated lines arrives without the line ending between them. */
  lemma BodyLineBreaksLost(a: Bytes, b: Bytes, dir: Bytes)
    requires LF !in a && LF !in b
    ensures var text := Terminated([Get + [SP] + RootPath + [SP] + ClientVersion] + FieldLines([]) + [[]] + [a, b]);
            NewRequest(text, dir) == Parsed(Request(Get, RootPath, map[], a + b, dir))
  {
    MethodLiterals();
    VersionLiteral();
    ParseFramedLines(Get, RootPath, ClientVersion, [], [a, b], dir);
    ConcatTwo(a, b);
    assert FieldMap([]) == map[];
  }
}
