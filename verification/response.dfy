/**
 The four response serialisers of the server (`ok`, `badRequest`, `notFound`,
 `created`), each giving the exact bytes written to the connection, and two
 readers a client would apply to them: the status code of the status line, and
 the content type and body of a 200 response framed by its Content-Length.
 */
module Response {
  import opened Bytes
  import Decimal

  const TextPlain: Bytes := Ascii("text/plain")
  const OctetStream: Bytes := Ascii("application/octet-stream")

  /** "HTTP/1.1 " starts every status line. */
  const Version: Bytes := Ascii("HTTP/1.1 ")
  const OkHead: Bytes := Version + Ascii("200 OK\r\nContent-Type: ")
  const LengthField: Bytes := Ascii("\r\nContent-Length: ")
  const EndOfHead: Bytes := Ascii("\r\n\r\n")

  /** The error and creation responses are a bare status line: no header fields and no body. */
  const BadRequest: Bytes := Version + Ascii("400 Bad Request\r\n")
  const NotFound: Bytes := Version + Ascii("404 Not Found\r\n")
  const Created: Bytes := Version + Ascii("201 Created\r\n")

  /** `ok(contentType, body)`: a 200 status line, Content-Type, a Content-Length equal to the body's length, a blank line, then the body. */
  function Ok(contentType: Bytes, body: Bytes): (out: Bytes)
    ensures OkHead <= out
    ensures |OkHead| + |body| < |out| && out[|out| - |body|..] == body
  {
    OkHead + (contentType + (LengthField + (Decimal.Format(|body|) + (EndOfHead + body))))
  }

  /** The status code of a response: the three digits after "HTTP/1.1 ". */
  function StatusCode(out: Bytes): Option<nat>
  {
    if |out| >= 12 && Version <= out && Decimal.AllDigits(out[9..12]) then Some(Decimal.Value(out[9..12]))
    else None
  }

  /** A status line whose three digits are those of `code` carries `code`. */
  lemma StatusCodeIs(out: Bytes, code: nat)
    requires 100 <= code < 1000
    requires Version <= out && |out| >= 12
    requires out[9] as int == 48 + code / 100
    requires out[10] as int == 48 + code / 10 % 10
    requires out[11] as int == 48 + code % 10
    ensures StatusCode(out) == Some(code)
  {
    assert out[9..12] == [out[9], out[10], out[11]];
    Decimal.ValueOfThreeDigits(out[9], out[10], out[11]);
  }

  /** Each serialiser writes the status code its name promises. */
  lemma StatusCodes(contentType: Bytes, body: Bytes)
    ensures StatusCode(Ok(contentType, body)) == Some(200)
    ensures StatusCode(BadRequest) == Some(400)
    ensures StatusCode(NotFound) == Some(404)
    ensures StatusCode(Created) == Some(201)
  {
    var ok := Ok(contentType, body);
    assert ok[..|OkHead|] == OkHead;
    assert ok[9] == OkHead[9] == 50 && ok[10] == OkHead[10] == 48 && ok[11] == OkHead[11] == 48;
    StatusCodeIs(ok, 200);
    assert BadRequest[9] == 52 && BadRequest[10] == 48 && BadRequest[11] == 48;
    StatusCodeIs(BadRequest, 400);
    assert NotFound[9] == 52 && NotFound[10] == 48 && NotFound[11] == 52;
    StatusCodeIs(NotFound, 404);
    assert Created[9] == 50 && Created[10] == 48 && Created[11] == 49;
    StatusCodeIs(Created, 201);
  }

  /** The number of decimal digits `s` starts with. */
  function DigitRun(s: Bytes): (n: nat)
    ensures n <= |s|
    ensures Decimal.AllDigits(s[..n])
    ensures n < |s| ==> !Decimal.IsDigit(s[n])
    decreases |s|
  {
    if |s| > 0 && Decimal.IsDigit(s[0]) then
      var n := 1 + DigitRun(s[1..]);
      assert s[..n] == [s[0]] + s[1..][..n - 1];
      n
    else 0
  }

  /** The two properties of `DigitRun` determine it. */
  lemma {:induction false} DigitRunIs(s: Bytes, n: nat)
    requires n <= |s|
    requires Decimal.AllDigits(s[..n])
    requires n < |s| ==> !Decimal.IsDigit(s[n])
    ensures DigitRun(s) == n
    decreases n
  {
    if n > 0 {
      assert s[..n][0] == s[0];
      assert s[1..][..n - 1] == s[..n][1..];
      DigitRunIs(s[1..], n - 1);
    }
  }

  /**
   A client's reading of a 200 response: the content type runs from the
   Content-Type field to the next carriage return, and the body is whatever
   follows the blank line, accepted only when its length is the Content-Length
   value.
   */
  function ReadOk(out: Bytes): Option<(Bytes, Bytes)>
  {
    if OkHead <= out then ReadTypeAndBody(out[|OkHead|..]) else None
  }

  function ReadTypeAndBody(s: Bytes): Option<(Bytes, Bytes)>
  {
    var k := FirstIndex(s, CR);
    match ReadLengthAndBody(s[k..])
    case None => None
    case Some(body) => Some((s[..k], body))
  }

  function ReadLengthAndBody(s: Bytes): Option<Bytes>
  {
    if LengthField <= s then ReadSizedBody(s[|LengthField|..]) else None
  }

  function ReadSizedBody(s: Bytes): Option<Bytes>
  {
    var n := DigitRun(s);
    if n == 0 || !(EndOfHead <= s[n..]) then None
    else
      var body := s[n..][|EndOfHead|..];
      if Decimal.Value(s[..n]) == |body| then Some(body) else None
  }

  lemma ReadSizedBodyOf(numeral: Bytes, body: Bytes)
    requires |numeral| > 0 && Decimal.AllDigits(numeral)
    requires Decimal.Value(numeral) == |body|
    ensures ReadSizedBody(numeral + (EndOfHead + body)) == Some(body)
  {
    var tail := EndOfHead + body;
    var s := numeral + tail;
    AppendParts(numeral, tail);
    AppendParts(EndOfHead, body);
    assert s[|numeral|] == EndOfHead[0] == CR;
    DigitRunIs(s, |numeral|);
  }

  lemma ReadTypeAndBodyOf(contentType: Bytes, rest: Bytes, body: Bytes)
    requires CR !in contentType
    requires ReadSizedBody(rest) == Some(body)
    ensures ReadTypeAndBody(contentType + (LengthField + rest)) == Some((contentType, body))
  {
    var afterType := LengthField + rest;
    var s := contentType + afterType;
    assert LengthField[0] == CR;
    assert afterType == [CR] + (LengthField[1..] + rest);
    assert s == contentType + [CR] + (LengthField[1..] + rest);
    FirstIndexAfter(contentType, CR, LengthField[1..] + rest);
    assert s[..|contentType|] == contentType;
    assert s[|contentType|..] == afterType;
    assert afterType[|LengthField|..] == rest;
  }

  /**
   Framing round trip: a client reading an `ok` response recovers the content
   type and the body byte for byte, because the Content-Length value is the
   body's length. The content types the server sends contain no carriage return.
   */
  lemma ReadOkOfOk(contentType: Bytes, body: Bytes)
    requires CR !in contentType
    ensures ReadOk(Ok(contentType, body)) == Some((contentType, body))
  {
    var numeral := Decimal.Format(|body|);
    Decimal.ValueOfFormat(|body|);
    var sized := numeral + (EndOfHead + body);
    ReadSizedBodyOf(numeral, body);
    ReadTypeAndBodyOf(contentType, sized, body);
    var rest := contentType + (LengthField + sized);
    assert Ok(contentType, body) == OkHead + rest;
    AppendParts(OkHead, rest);
  }

  /** The content types the server sends can be framed by `ok`. */
  lemma ContentTypesHaveNoCR()
    ensures CR !in TextPlain
    ensures CR !in OctetStream
  {
    assert TextPlain == [116, 101, 120, 116, 47, 112, 108, 97, 105, 110];
    assert OctetStream == [97, 112, 112, 108, 105, 99, 97, 116, 105, 111, 110, 47, 111, 99, 116, 101, 116, 45, 115, 116, 114, 101, 97, 109];
  }
}
