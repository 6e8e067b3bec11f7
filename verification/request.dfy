/**
 The request parser (`newRequest`). The buffer is cut into lines as a
 `bufio.Scanner` does; the first line is split on single spaces into at least
 three tokens, of which the first two are the method and the path; the
 following lines up to the first empty one are header fields, split at their
 first colon and trimmed, a later field overwriting an earlier one of the same
 name; every line after the empty one is appended to the body with its line
 ending removed. Header names keep their case.
 */
module Parser {
  import opened Bytes
  import opened Strings
  import opened Scanner

  datatype Request = Request(httpMethod: Bytes, path: Bytes, headers: map<Bytes, Bytes>, body: Bytes, fileDir: Bytes)

  /**
   What `newRequest` does with a buffer: a request; a nil pointer when the
   request line has fewer than three tokens; or a run-time panic when a header
   line has no colon, because Go's `parts[1]` is out of range.
   */
  datatype ParseResult = Parsed(request: Request) | Nil | NoColon

  /** A header field: its name and its value. */
  type Field = (Bytes, Bytes)

  /** A header line split at its first colon, both parts trimmed; None where Go's `parts[1]` is out of range. */
  function ParseField(line: Bytes): (f: Option<Field>)
    ensures f.None? <==> COLON !in line
    ensures f.Some? ==> f.value.0 == TrimSpace(line[..FirstIndex(line, COLON)])
    ensures f.Some? ==> f.value.1 == TrimSpace(line[FirstIndex(line, COLON) + 1..])
  {
    var parts := SplitN2(line, COLON);
    if |parts| < 2 then None
    else
      FirstIndexIs(line, COLON, |parts[0]|);
      AppendParts(parts[0] + [COLON], parts[1]);
      Some((TrimSpace(parts[0]), TrimSpace(parts[1])))
  }

  /** The header lines, each parsed on its own. */
  function ParseFields(lines: seq<Bytes>): (fs: seq<Option<Field>>)
    ensures |fs| == |lines|
    ensures forall i :: 0 <= i < |lines| ==> fs[i] == ParseField(lines[i])
  {
    seq(|lines|, i requires 0 <= i < |lines| => ParseField(lines[i]))
  }

  /**
   The header loop over parsed lines: each field in turn is stored in the map,
   overwriting an earlier value of the same name; a line without a colon stops
   the loop with a panic, so the loop fails exactly when one line has no field.
   */
  function Collect(acc: map<Bytes, Bytes>, fs: seq<Option<Field>>): (r: Option<map<Bytes, Bytes>>)
    ensures r.None? <==> exists i :: 0 <= i < |fs| && fs[i].None?
    ensures r.Some? ==> acc.Keys <= r.value.Keys
    decreases |fs|
  {
    if |fs| == 0 then Some(acc)
    else if fs[0].None? then None
    else
      var tail := fs[1..];
      var r := Collect(acc[fs[0].value.0 := fs[0].value.1], tail);
      assert forall i :: 1 <= i < |fs| ==> fs[i] == tail[i - 1];
      r
  }

  /** The header map `newRequest` builds from the lines before the empty one; None when one of them has no colon. */
  function ReadHeaders(lines: seq<Bytes>): (r: Option<map<Bytes, Bytes>>)
    ensures r.None? <==> exists i :: 0 <= i < |lines| && COLON !in lines[i]
  {
    var fs := ParseFields(lines);
    var r := Collect(map[], fs);
    if r.None? then
      var i :| 0 <= i < |fs| && fs[i].None?;
      assert COLON !in lines[i];
      r
    else r
  }

  /** The map the header loop builds from fields alone gives each name its last value. */
  lemma CollectLastValues(fs: seq<Option<Field>>)
    requires forall i :: 0 <= i < |fs| ==> fs[i].Some?
    ensures Collect(map[], fs).Some?
    ensures forall name :: Lookup(Collect(map[], fs).value, name) == LastValue(fs, name)
  {
    forall name
      ensures Lookup(Collect(map[], fs).value, name) == LastValue(fs, name)
    {
      LastFieldWins(map[], fs, name);
    }
  }

  /** The header loop over one more field: the map so far, updated by that field. */
  lemma {:induction false} CollectSnoc(acc: map<Bytes, Bytes>, fs: seq<Option<Field>>, f: Field)
    requires Collect(acc, fs).Some?
    ensures Collect(acc, fs + [Some(f)]) == Some(Collect(acc, fs).value[f.0 := f.1])
    decreases |fs|
  {
    if |fs| == 0 {
      assert fs + [Some(f)] == [Some(f)];
    } else {
      var g := fs[0].value;
      assert (fs + [Some(f)])[0] == fs[0];
      assert (fs + [Some(f)])[1..] == fs[1..] + [Some(f)];
      CollectSnoc(acc[g.0 := g.1], fs[1..], f);
    }
  }

  function Lookup(m: map<Bytes, Bytes>, name: Bytes): Option<Bytes>
  {
    if name in m then Some(m[name]) else None
  }

  /** The value of the last field named `name`, found by scanning the fields from the end. */
  function LastValue(fs: seq<Option<Field>>, name: Bytes): Option<Bytes>
    requires forall i :: 0 <= i < |fs| ==> fs[i].Some?
    decreases |fs|
  {
    if |fs| == 0 then None
    else if fs[|fs| - 1].value.0 == name then Some(fs[|fs| - 1].value.1)
    else LastValue(fs[..|fs| - 1], name)
  }

  /**
   Duplicate header names: the map the header loop builds gives each name the
   value of the last field carrying it, and leaves names no field carries as they were.
   */
  lemma {:induction false} LastFieldWins(acc: map<Bytes, Bytes>, fs: seq<Option<Field>>, name: Bytes)
    requires forall i :: 0 <= i < |fs| ==> fs[i].Some?
    ensures Collect(acc, fs).Some?
    ensures Lookup(Collect(acc, fs).value, name) ==
      if LastValue(fs, name).Some? then LastValue(fs, name) else Lookup(acc, name)
    decreases |fs|
  {
    if |fs| == 0 {
    } else {
      var init := fs[..|fs| - 1];
      var f := fs[|fs| - 1].value;
      assert fs == init + [Some(f)];
      LastFieldWins(acc, init, name);
      CollectSnoc(acc, init, f);
      var m := Collect(acc, init).value;
      if f.0 == name {
        assert Lookup(m[f.0 := f.1], name) == Some(f.1);
      } else {
        assert Lookup(m[f.0 := f.1], name) == Lookup(m, name);
      }
    }
  }

  /** The position of the first empty line, where the header loop stops, or the number of lines when there is none. */
  function HeaderEnd(lines: seq<Bytes>): (k: nat)
    ensures k <= |lines|
    ensures forall i :: 0 <= i < k ==> lines[i] != []
    ensures k < |lines| ==> lines[k] == []
    decreases |lines|
  {
    if |lines| == 0 || lines[0] == [] then 0 else 1 + HeaderEnd(lines[1..])
  }

  /** The lines after the first empty one, which the body loop reads. */
  function BodyLines(lines: seq<Bytes>): (body: seq<Bytes>)
    ensures |body| <= |lines|
    ensures forall i :: 0 <= i < |body| ==> body[i] == lines[|lines| - |body| + i]
    ensures HeaderEnd(lines) < |lines| ==> |body| == |lines| - HeaderEnd(lines) - 1
    ensures HeaderEnd(lines) == |lines| ==> body == []
  {
    var k := HeaderEnd(lines);
    if k < |lines| then lines[k + 1..] else []
  }

  /** newRequest over the scanned lines. */
  function ParseLines(ls: seq<Bytes>, dir: Bytes): ParseResult
  {
    var tokens := Split(if |ls| == 0 then [] else ls[0], SP);
    if |tokens| < 3 then Nil
    else
      var rest := ls[1..];
      match ReadHeaders(rest[..HeaderEnd(rest)])
      case None => NoColon
      case Some(headers) => Parsed(Request(tokens[0], tokens[1], headers, Concat(BodyLines(rest)), dir))
  }

  /** The lines of `buffer` the header loop reads: after the request line, up to the first empty line. */
  function HeaderBlock(buffer: Bytes): seq<Bytes>
  {
    var ls := Lines(buffer);
    if |ls| == 0 then [] else ls[1..][..HeaderEnd(ls[1..])]
  }

  /**
   newRequest(conn, buffer, dir). It returns nil exactly when the request line
   holds fewer than two spaces, that is splits into fewer than three tokens;
   it panics exactly when, past that check, a header line has no colon;
   otherwise the method and the path are the text before the first space and
   between the first and the second, and the body, rebuilt from lines, holds no
   line feed.
   */
  function NewRequest(buffer: Bytes, dir: Bytes): (r: ParseResult)
    ensures r.Nil? <==> Count(FirstLine(buffer), SP) < 2
    ensures r.NoColon? <==>
              Count(FirstLine(buffer), SP) >= 2 &&
              exists i :: 0 <= i < |HeaderBlock(buffer)| && COLON !in HeaderBlock(buffer)[i]
    ensures r.Parsed? ==> SP !in r.request.httpMethod && SP !in r.request.path
    ensures r.Parsed? ==> r.request.httpMethod + [SP] + r.request.path + [SP] <= FirstLine(buffer)
    ensures r.Parsed? ==> LF !in r.request.body
    ensures r.Parsed? ==> |Lines(buffer)| > 0 && r.request.body == Concat(BodyLines(Lines(buffer)[1..]))
    ensures r.Parsed? ==> r.request.fileDir == dir
  {
    var ls := Lines(buffer);
    var tokens := Split(FirstLine(buffer), SP);
    SplitCount(FirstLine(buffer), SP);
    if |tokens| >= 3 then
      LeadingTokens(FirstLine(buffer));
      BodyLinesAvoidLF(ls, dir);
      var block := HeaderBlock(buffer);
      assert |ls| > 0 && block == ls[1..][..HeaderEnd(ls[1..])];
      assert ReadHeaders(block).None? <==> exists i :: 0 <= i < |block| && COLON !in block[i];
      ParseLines(ls, dir)
    else
      ParseLines(ls, dir)
  }

  /**
   The headers of a parsed request: every line of the header block has a colon,
   and each name maps to the trimmed value of the last line whose trimmed name
   it is; names no line carries are absent.
   */
  lemma RequestHeaders(buffer: Bytes, dir: Bytes, name: Bytes)
    requires NewRequest(buffer, dir).Parsed?
    ensures forall i :: 0 <= i < |HeaderBlock(buffer)| ==> COLON in HeaderBlock(buffer)[i]
    ensures forall i :: 0 <= i < |ParseFields(HeaderBlock(buffer))| ==> ParseFields(HeaderBlock(buffer))[i].Some?
    ensures Lookup(NewRequest(buffer, dir).request.headers, name) == LastValue(ParseFields(HeaderBlock(buffer)), name)
  {
    var ls := Lines(buffer);
    assert ReadHeaders(ls[1..][..HeaderEnd(ls[1..])]) == Some(NewRequest(buffer, dir).request.headers);
    HeadersOf(HeaderBlock(buffer), NewRequest(buffer, dir).request.headers, name);
  }

  /** A header map the loop builds: every line has a colon, and each name has its last value. */
  lemma HeadersOf(lines: seq<Bytes>, headers: map<Bytes, Bytes>, name: Bytes)
    requires ReadHeaders(lines) == Some(headers)
    ensures forall i :: 0 <= i < |lines| ==> COLON in lines[i]
    ensures forall i :: 0 <= i < |ParseFields(lines)| ==> ParseFields(lines)[i].Some?
    ensures Lookup(headers, name) == LastValue(ParseFields(lines), name)
  {
    CollectLastValues(ParseFields(lines));
  }


  /** The first two of three or more tokens, each followed by its space, start the split text. */
  lemma LeadingTokens(line: Bytes)
    requires |Split(line, SP)| >= 3
    ensures var t := Split(line, SP); t[0] + [SP] + t[1] + [SP] <= line
  {
    var t := Split(line, SP);
    var tail := Join(t[2..], SP);
    assert t[1..][1..] == t[2..];
    assert Join(t[1..], SP) == t[1] + [SP] + tail;
    assert line == t[0] + [SP] + (t[1] + [SP] + tail);
    assert line == (t[0] + [SP] + t[1] + [SP]) + tail;
    AppendParts(t[0] + [SP] + t[1] + [SP], tail);
  }

  /** Whatever the parser makes of scanned lines, its body holds no line feed. */
  lemma BodyLinesAvoidLF(ls: seq<Bytes>, dir: Bytes)
    requires forall i :: 0 <= i < |ls| ==> LF !in ls[i]
    ensures ParseLines(ls, dir).Parsed? ==> LF !in ParseLines(ls, dir).request.body
  {
    if |ls| > 0 {
      var body := BodyLines(ls[1..]);
      assert forall i :: 0 <= i < |body| ==> LF !in body[i];
      ConcatAvoids(body, LF);
    }
  }

  /** The three properties of `HeaderEnd` determine it. */
  lemma HeaderEndIs(lines: seq<Bytes>, k: nat)
    requires k <= |lines|
    requires forall i :: 0 <= i < k ==> lines[i] != []
    requires k < |lines| ==> lines[k] == []
    ensures HeaderEnd(lines) == k
  {
  }

  /** A header field as a client writes it: the name, a colon, one space, the value. */
  function FieldLine(f: Field): Bytes
  {
    f.0 + [COLON, SP] + f.1
  }

  function FieldLines(fields: seq<Field>): (lines: seq<Bytes>)
    ensures |lines| == |fields|
    ensures forall i :: 0 <= i < |fields| ==> lines[i] == FieldLine(fields[i])
  {
    seq(|fields|, i requires 0 <= i < |fields| => FieldLine(fields[i]))
  }

  /** A field whose line parses back to it: a trimmed name without colon, a trimmed value, neither with a line feed. */
  predicate WellFormedField(f: Field)
  {
    COLON !in f.0 && LF !in f.0 && LF !in f.1 && IsTrimmed(f.0) && IsTrimmed(f.1)
  }

  /** The header map the fields make when each overwrites earlier ones of its name. */
  function FieldMap(fields: seq<Field>): map<Bytes, Bytes>
    decreases |fields|
  {
    if |fields| == 0 then map[]
    else
      var f := fields[|fields| - 1];
      FieldMap(fields[..|fields| - 1])[f.0 := f.1]
  }

  /** A well-formed field line parses to its field. */
  lemma ParseFieldLine(f: Field)
    requires WellFormedField(f)
    ensures ParseField(FieldLine(f)) == Some(f)
  {
    assert FieldLine(f) == f.0 + [COLON] + ([SP] + f.1);
    SplitN2After(f.0, COLON, [SP] + f.1);
    assert [SP] + f.1 == [SP] + f.1 + [];
    TrimSpaceOfPadded([SP], f.1, []);
  }

  function Present(fields: seq<Field>): (fs: seq<Option<Field>>)
    ensures |fs| == |fields|
    ensures forall i :: 0 <= i < |fields| ==> fs[i] == Some(fields[i])
  {
    seq(|fields|, i requires 0 <= i < |fields| => Some(fields[i]))
  }

  /** The header loop over fields that all parsed builds their field map. */
  lemma {:induction false} CollectPresent(fields: seq<Field>)
    ensures Collect(map[], Present(fields)) == Some(FieldMap(fields))
    decreases |fields|
  {
    if |fields| > 0 {
      var init := fields[..|fields| - 1];
      var f := fields[|fields| - 1];
      CollectPresent(init);
      assert Present(fields) == Present(init) + [Some(f)];
      CollectSnoc(map[], Present(init), f);
    }
  }

  /** The header loop over well-formed field lines builds their field map. */
  lemma ReadFieldLines(fields: seq<Field>)
    requires forall i :: 0 <= i < |fields| ==> WellFormedField(fields[i])
    ensures ReadHeaders(FieldLines(fields)) == Some(FieldMap(fields))
  {
    var lines := FieldLines(fields);
    forall i | 0 <= i < |fields|
      ensures ParseField(lines[i]) == Some(fields[i])
    {
      ParseFieldLine(fields[i]);
    }
    assert ParseFields(lines) == Present(fields);
    CollectPresent(fields);
  }

  /** A request as a client frames it: request line, field lines and an empty line, each ended by CR LF, then the body. */
  function RequestText(verb: Bytes, target: Bytes, version: Bytes, fields: seq<Field>, body: Bytes): Bytes
  {
    Terminated([verb + [SP] + target + [SP] + version] + FieldLines(fields) + [[]]) + body
  }

  /**
   Parsing round trip: a request framed with CR LF line endings parses to its
   method, path, header map and body, provided the method and path hold no
   space, no part holds a line feed, the header fields are well formed, and the
   body does not end in a carriage return. The version and any further
   request-line tokens are ignored.
   */
  lemma ParseRequestText(verb: Bytes, target: Bytes, version: Bytes, fields: seq<Field>, body: Bytes, dir: Bytes)
    requires SP !in verb && LF !in verb && SP !in target && LF !in target && LF !in version
    requires forall i :: 0 <= i < |fields| ==> WellFormedField(fields[i])
    requires LF !in body && (|body| == 0 || body[|body| - 1] != CR)
    ensures NewRequest(RequestText(verb, target, version, fields, body), dir)
         == Parsed(Request(verb, target, FieldMap(fields), body, dir))
  {
    var requestLine := verb + [SP] + target + [SP] + version;
    LinesOfRequestText(verb, target, version, fields, body);
    RequestLineTokens(verb, target, version);
    ReadFieldLines(fields);
    ParseLinesOf(requestLine, FieldLines(fields), Lines(body), dir);
  }

  /** The parser over a request line, non-empty header lines, an empty line and body lines. */
  lemma ParseLinesOf(requestLine: Bytes, head: seq<Bytes>, bodyLines: seq<Bytes>, dir: Bytes)
    requires |Split(requestLine, SP)| >= 3
    requires forall i :: 0 <= i < |head| ==> head[i] != []
    requires ReadHeaders(head).Some?
    ensures ParseLines([requestLine] + (head + [[]] + bodyLines), dir)
         == Parsed(Request(Split(requestLine, SP)[0], Split(requestLine, SP)[1], ReadHeaders(head).value, Concat(bodyLines), dir))
  {
    var rest := head + [[]] + bodyLines;
    DropHead(requestLine, rest);
    SplitAtEmptyLine(head, bodyLines);
  }

  /** Header lines, an empty line and body lines: the header loop reads the first, the body loop the last. */
  lemma SplitAtEmptyLine(head: seq<Bytes>, bodyLines: seq<Bytes>)
    requires forall i :: 0 <= i < |head| ==> head[i] != []
    ensures var rest := head + [[]] + bodyLines;
            HeaderEnd(rest) == |head| && rest[..|head|] == head && BodyLines(rest) == bodyLines
  {
    var rest := head + [[]] + bodyLines;
    HeaderEndIs(rest, |head|);
    assert rest[..|head|] == head;
    assert rest[|head| + 1..] == bodyLines;
  }

  /** The lines of a framed request: the request line, the field lines, the empty line, and the body if there is one. */
  lemma LinesOfRequestText(verb: Bytes, target: Bytes, version: Bytes, fields: seq<Field>, body: Bytes)
    requires LF !in verb && LF !in target && LF !in version
    requires forall i :: 0 <= i < |fields| ==> WellFormedField(fields[i])
    requires LF !in body && (|body| == 0 || body[|body| - 1] != CR)
    ensures Lines(RequestText(verb, target, version, fields, body))
         == [verb + [SP] + target + [SP] + version] + (FieldLines(fields) + [[]] + Lines(body))
    ensures Concat(Lines(body)) == body
    ensures forall i :: 0 <= i < |fields| ==> FieldLines(fields)[i] != []
  {
    var requestLine := verb + [SP] + target + [SP] + version;
    var ls := [requestLine] + FieldLines(fields) + [[]];
    AppendAssoc([requestLine], FieldLines(fields), [[]]);
    AppendAssoc([requestLine], FieldLines(fields) + [[]], Lines(body));
    RequestLinesAvoidLF(requestLine, fields);
    LinesOfTerminated(ls, body);
    LinesOfFinal(body);
  }

  lemma RequestLinesAvoidLF(requestLine: Bytes, fields: seq<Field>)
    requires LF !in requestLine
    requires forall i :: 0 <= i < |fields| ==> WellFormedField(fields[i])
    ensures var ls := [requestLine] + FieldLines(fields) + [[]]; forall i :: 0 <= i < |ls| ==> LF !in ls[i]
  {
    var head := FieldLines(fields);
    var ls := [requestLine] + head + [[]];
    forall i | 0 <= i < |ls|
      ensures LF !in ls[i]
    {
      if i == 0 {
        assert ls[i] == requestLine;
      } else if i <= |fields| {
        assert ls[i] == head[i - 1] == FieldLine(fields[i - 1]);
      } else {
        assert ls[i] == [];
      }
    }
  }

  /** A request line with a space-free method and path splits into them, then the tokens of the version. */
  lemma RequestLineTokens(verb: Bytes, target: Bytes, version: Bytes)
    requires SP !in verb && SP !in target
    ensures Split(verb + [SP] + target + [SP] + version, SP) == [verb, target] + Split(version, SP)
  {
    assert verb + [SP] + target + [SP] + version == verb + [SP] + (target + [SP] + version);
    SplitAfter(verb, SP, target + [SP] + version);
    SplitAfter(target, SP, version);
  }

  /**
   The body is rebuilt from lines: whatever lines follow the empty line, the
   request's body is their concatenation, the line endings between them gone.
   */
  lemma ParseFramedLines(verb: Bytes, target: Bytes, version: Bytes, fields: seq<Field>, bodyLines: seq<Bytes>, dir: Bytes)
    requires SP !in verb && LF !in verb && SP !in target && LF !in target && LF !in version
    requires forall i :: 0 <= i < |fields| ==> WellFormedField(fields[i])
    requires forall i :: 0 <= i < |bodyLines| ==> LF !in bodyLines[i]
    ensures NewRequest(Terminated([verb + [SP] + target + [SP] + version] + FieldLines(fields) + [[]] + bodyLines), dir)
         == Parsed(Request(verb, target, FieldMap(fields), Concat(bodyLines), dir))
  {
    var requestLine := verb + [SP] + target + [SP] + version;
    var head := [requestLine] + FieldLines(fields) + [[]];
    var ls := head + bodyLines;
    RequestLinesAvoidLF(requestLine, fields);
    assert forall i :: 0 <= i < |ls| ==> LF !in ls[i] by {
      forall i | 0 <= i < |ls|
        ensures LF !in ls[i]
      {
        if i < |head| {
          assert ls[i] == head[i];
        } else {
          assert ls[i] == bodyLines[i - |head|];
        }
      }
    }
    LinesOfTerminated(ls, []);
    assert Terminated(ls) + [] == Terminated(ls);
    assert ls + [] == ls;
    AppendAssoc([requestLine], FieldLines(fields), [[]]);
    AppendAssoc([requestLine], FieldLines(fields) + [[]], bodyLines);
    LinesOfRequestText(verb, target, version, fields, []);
    RequestLineTokens(verb, target, version);
    ReadFieldLines(fields);
    ParseLinesOf(requestLine, FieldLines(fields), bodyLines, dir);
  }
}
