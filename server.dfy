/**
 * The request routing and response framing of `handle_connection`
 * (src/main.rs), with the socket and the file read taken out: the request
 * buffer comes in as bytes, the file contents come in as bytes, and the
 * response goes out as bytes.
 */
module Server {
  import opened Wrappers

  newtype byte = b: int | 0 <= b < 256

  /** The bytes of an ASCII string: UTF-8 encodes each such character as one byte. */
  function Ascii(s: string): seq<byte>
    requires forall i :: 0 <= i < |s| ==> s[i] as int < 128
  {
    seq(|s|, i requires 0 <= i < |s| => s[i] as int as byte)
  }

  const CR: byte := 13
  const LF: byte := 10
  const CRLF: seq<byte> := [CR, LF]

  /** The request buffer is a fixed `[u8; 1024]`. */
  const BUFFER_SIZE: nat := 1024

  /** `b"GET / HTTP/1.1\r\n"`: the only request line that is served the hello page. */
  const GET_ROOT: seq<byte> := [71, 69, 84, 32, 47, 32, 72, 84, 84, 80, 47, 49, 46, 49, 13, 10]

  /** `"HTTP/1.1 200 OK"` */
  const OK_STATUS: seq<byte> := [72, 84, 84, 80, 47, 49, 46, 49, 32, 50, 48, 48, 32, 79, 75]

  /** `"HTTP/1.1 404 NOT FOUND"` */
  const NOT_FOUND_STATUS: seq<byte> :=
    [72, 84, 84, 80, 47, 49, 46, 49, 32, 52, 48, 52, 32, 78, 79, 84, 32, 70, 79, 85, 78, 68]

  /**
   * The literal pieces of the format string `"{}\r\nContent-Length: {}\r\n\r\n{}"`:
   * `"\r\nContent-Length: "` and `"\r\n\r\n"`.
   */
  const HEADER_START: seq<byte> := [13, 10, 67, 111, 110, 116, 101, 110, 116, 45, 76, 101, 110, 103, 116, 104, 58, 32]
  const HEADER_END: seq<byte> := [13, 10, 13, 10]

  /** The byte constants are the ASCII encodings of the texts in the source. */
  lemma ConstantsAreAscii()
    ensures GET_ROOT == Ascii("GET / HTTP/1.1\r\n")
    ensures OK_STATUS == Ascii("HTTP/1.1 200 OK")
    ensures NOT_FOUND_STATUS == Ascii("HTTP/1.1 404 NOT FOUND")
    ensures HEADER_START == Ascii("\r\nContent-Length: ")
    ensures HEADER_END == Ascii("\r\n\r\n")
  {
  }

  /** A status line and the file whose contents become the body. */
  datatype Route = Route(statusLine: seq<byte>, filename: string)

  const HELLO_ROUTE: Route := Route(OK_STATUS, "views/hello.html")
  const NOT_FOUND_ROUTE: Route := Route(NOT_FOUND_STATUS, "views/404.html")

  /** Rust's `<[u8]>::starts_with`. */
  predicate StartsWith(s: seq<byte>, prefix: seq<byte>)
  {
    |prefix| <= |s| && s[..|prefix|] == prefix
  }

  /** No carriage return. */
  predicate NoCr(s: seq<byte>)
  {
    forall i :: 0 <= i < |s| ==> s[i] != CR
  }

  /** No carriage return and no line feed. */
  predicate NoCrLf(s: seq<byte>)
  {
    forall i :: 0 <= i < |s| ==> s[i] != CR && s[i] != LF
  }

  /**
   * The `if buffer.starts_with(get)` choice of status line and file: the hello
   * page exactly when the first 16 bytes are the request line `GET / HTTP/1.1`,
   * the 404 page for every other buffer.
   */
  function RouteOf(buffer: seq<byte>): (r: Route)
    requires |buffer| == BUFFER_SIZE
    ensures r == HELLO_ROUTE <==> buffer[..16] == GET_ROOT
    ensures r == NOT_FOUND_ROUTE <==> buffer[..16] != GET_ROOT
  {
    if StartsWith(buffer, GET_ROOT) then HELLO_ROUTE else NOT_FOUND_ROUTE
  }

  /** Routing looks at the first 16 bytes only. */
  lemma RouteDependsOnlyOnRequestLine(a: seq<byte>, b: seq<byte>)
    requires |a| == BUFFER_SIZE && |b| == BUFFER_SIZE
    requires a[..16] == b[..16]
    ensures RouteOf(a) == RouteOf(b)
  {
  }

  /** Overwriting a byte past the request line never changes the route. */
  lemma RouteIgnoresTail(buffer: seq<byte>, i: nat, x: byte)
    requires |buffer| == BUFFER_SIZE && 16 <= i < BUFFER_SIZE
    ensures RouteOf(buffer[i := x]) == RouteOf(buffer)
  {
    // The update leaves `buffer[..16]` alone, and the route reads nothing else.
  }

  // ---------------------------------------------------------------------------
  // Decimal rendering of the length, as `{}` formats a `usize`

  predicate IsDigit(b: byte)
  {
    '0' as int <= b as int <= '9' as int
  }

  predicate AllDigits(s: seq<byte>)
  {
    forall i :: 0 <= i < |s| ==> IsDigit(s[i])
  }

  function DigitByte(d: nat): (b: byte)
    requires d < 10
    ensures IsDigit(b) && b as int - '0' as int == d
  {
    ('0' as int + d) as byte
  }

  /**
   * The decimal text of `n`: non-empty, digits only, and starting with `0`
   * exactly when `n` is zero (no leading zeros).
   */
  function Decimal(n: nat): (d: seq<byte>)
    ensures |d| > 0 && AllDigits(d)
    ensures d[0] == '0' as int as byte <==> n == 0
    decreases n
  {
    if n < 10 then [DigitByte(n)] else Decimal(n / 10) + [DigitByte(n % 10)]
  }

  /** The number a string of decimal digits denotes, read most significant digit first. */
  function DecimalValue(d: seq<byte>): nat
    requires AllDigits(d)
  {
    if d == [] then 0
    else 10 * DecimalValue(d[..|d| - 1]) + (d[|d| - 1] as int - '0' as int)
  }

  /** Reading the decimal text back gives the number it was rendered from. */
  lemma {:induction false} DecimalRoundTrip(n: nat)
    ensures DecimalValue(Decimal(n)) == n
    decreases n
  {
    if n >= 10 {
      var d := Decimal(n);
      assert d[..|d| - 1] == Decimal(n / 10);
      DecimalRoundTrip(n / 10);
    }
  }

  /** Digit strings without a leading zero are exactly the decimal renderings. */
  lemma {:induction false} DecimalOfValue(d: seq<byte>)
    requires |d| > 0 && AllDigits(d)
    requires d[0] == '0' as int as byte ==> |d| == 1
    ensures Decimal(DecimalValue(d)) == d
    decreases |d|
  {
    var init := d[..|d| - 1];
    var last := d[|d| - 1] as int - '0' as int;
    if |d| == 1 {
      assert DecimalValue(d) == last by {
        assert DecimalValue(init) == 0;
      }
      assert [DigitByte(last)] == d;
    } else {
      DecimalOfValue(init);
      var v := DecimalValue(init);
      assert v > 0 by {
        assert Decimal(v)[0] == d[0];
      }
      assert DecimalValue(d) == 10 * v + last;
      assert DecimalValue(d) / 10 == v && DecimalValue(d) % 10 == last;
      assert Decimal(DecimalValue(d)) == init + [DigitByte(last)];
      assert init + [d[|d| - 1]] == d;
    }
  }

  // ---------------------------------------------------------------------------
  // The response and how a client reads it back

  /**
   * `format!("{}\r\nContent-Length: {}\r\n\r\n{}", status_line, contents.len(), contents)`,
   * as the bytes written to the stream; `contents.len()` is the byte length.
   * The response starts with the status line, ends with the body, and is
   * 18 + 4 bytes of fixed text plus the decimal length longer than the two.
   */
  function Response(statusLine: seq<byte>, contents: seq<byte>): (r: seq<byte>)
    ensures |r| == |statusLine| + 18 + |Decimal(|contents|)| + 4 + |contents|
    ensures StartsWith(r, statusLine)
    ensures r[|r| - |contents|..] == contents
  {
    var head := statusLine + HEADER_START + Decimal(|contents|) + HEADER_END;
    assert head == statusLine + (HEADER_START + Decimal(|contents|) + HEADER_END);
    assert (head + contents)[..|statusLine|] == statusLine;
    head + contents
  }

  /** `a + b` splits back into `a` and `b`. */
  lemma Split(a: seq<byte>, b: seq<byte>)
    ensures StartsWith(a + b, a) && (a + b)[|a|..] == b
  {
    // Taking and dropping `|a|` elements of a concatenation.
  }

  /** The status line is followed by CR LF, the start of the header part. */
  lemma ResponseBeginsWithStatusLine(statusLine: seq<byte>, contents: seq<byte>)
    ensures StartsWith(Response(statusLine, contents), statusLine + CRLF)
  {
    // `HEADER_START`, which follows the status line, begins with CR LF.
  }

  /** `s[i..]` begins with `pat`. */
  predicate MatchesAt(s: seq<byte>, pat: seq<byte>, i: nat)
  {
    i + |pat| <= |s| && s[i..i + |pat|] == pat
  }

  /** The first position at or after `from` where `pat` occurs in `s`. */
  function IndexOf(s: seq<byte>, pat: seq<byte>, from: nat): (r: Option<nat>)
    ensures r.Some? ==> from <= r.value && MatchesAt(s, pat, r.value)
    ensures r.Some? ==> forall i :: from <= i < r.value ==> !MatchesAt(s, pat, i)
    ensures r.None? ==> forall i :: from <= i ==> !MatchesAt(s, pat, i)
    decreases |s| - from
  {
    if from + |pat| > |s| then None
    else if MatchesAt(s, pat, from) then Some(from)
    else IndexOf(s, pat, from + 1)
  }

  /** If `b` begins with `pat` and `pat` occurs nowhere else in `a + b` before `b`, the first occurrence is at `|a|`. */
  lemma FirstMatchAt(a: seq<byte>, b: seq<byte>, pat: seq<byte>)
    requires StartsWith(b, pat)
    requires forall i :: 0 <= i < |a| ==> !MatchesAt(a + b, pat, i)
    ensures IndexOf(a + b, pat, 0) == Some(|a|)
  {
    assert (a + b)[|a|..|a| + |pat|] == b[..|pat|];
    assert MatchesAt(a + b, pat, |a|);
  }

  /** A CR LF that follows a prefix without carriage returns is the first one. */
  lemma FirstCrlfAt(a: seq<byte>, b: seq<byte>)
    requires NoCr(a)
    requires StartsWith(b, CRLF)
    ensures IndexOf(a + b, CRLF, 0) == Some(|a|)
  {
    forall i | 0 <= i < |a|
      ensures !MatchesAt(a + b, CRLF, i)
    {
      if i + 2 <= |a + b| {
        assert (a + b)[i..i + 2][0] == a[i];
      }
    }
    FirstMatchAt(a, b, CRLF);
  }

  /** The response as a client parses it: status line, declared body length, body. */
  datatype ParsedResponse = ParsedResponse(statusLine: seq<byte>, contentLength: nat, body: seq<byte>)

  /**
   * Reads a response of the shape `handle_connection` writes: the status line
   * up to the first CR LF, then the header part.
   */
  function ParseResponse(r: seq<byte>): Option<ParsedResponse>
  {
    match IndexOf(r, CRLF, 0)
    case None => None
    case Some(i) =>
      match ParseHeader(r[i..])
      case None => None
      case Some(header) => Some(ParsedResponse(r[..i], header.0, header.1))
  }

  /**
   * Reads what follows the status line: the `Content-Length` header name, then
   * the field value and the body.
   */
  function ParseHeader(rest: seq<byte>): Option<(nat, seq<byte>)>
  {
    if StartsWith(rest, HEADER_START) then ParseLength(rest[|HEADER_START|..]) else None
  }

  /**
   * Reads the decimal field value up to the next CR LF, the blank line that
   * ends the header, and the rest as the body.
   */
  function ParseLength(value: seq<byte>): Option<(nat, seq<byte>)>
  {
    match IndexOf(value, CRLF, 0)
    case None => None
    case Some(j) =>
      var digits := value[..j];
      if digits == [] || !AllDigits(digits) || !StartsWith(value[j..], HEADER_END) then None
      else Some((DecimalValue(digits), value[j + |HEADER_END|..]))
  }

  /** A field value made of the digit string `d` reads back as the number `d` denotes and the body. */
  lemma ParseLengthOf(d: seq<byte>, body: seq<byte>)
    requires |d| > 0 && AllDigits(d)
    ensures ParseLength(d + HEADER_END + body) == Some((DecimalValue(d), body))
  {
    var after := HEADER_END + body;
    var value := d + HEADER_END + body;
    assert value == d + after;
    assert IndexOf(value, CRLF, 0) == Some(|d|) by {
      assert after[..2] == HEADER_END[..2];
      FirstCrlfAt(d, after);
    }
    assert value[..|d|] == d;
    assert value[|d|..] == after;
    assert StartsWith(after, HEADER_END) && after[|HEADER_END|..] == body;
  }

  /** The part after the status line reads back as the number `d` denotes and the body. */
  lemma ParseHeaderOf(d: seq<byte>, body: seq<byte>)
    requires |d| > 0 && AllDigits(d)
    ensures ParseHeader(HEADER_START + (d + HEADER_END + body)) == Some((DecimalValue(d), body))
  {
    Split(HEADER_START, d + HEADER_END + body);
    ParseLengthOf(d, body);
  }

  /**
   * Framing round trip: reading the response back gives the status line, a
   * Content-Length equal to the body's byte length, and the body.
   */
  lemma ParseResponseRoundTrip(statusLine: seq<byte>, contents: seq<byte>)
    requires NoCr(statusLine)
    ensures ParseResponse(Response(statusLine, contents))
         == Some(ParsedResponse(statusLine, |contents|, contents))
  {
    var r := Response(statusLine, contents);
    var rest := HEADER_START + (Decimal(|contents|) + HEADER_END + contents);
    assert r == statusLine + rest;
    assert StartsWith(rest, CRLF) by {
      assert rest[..2] == HEADER_START[..2];
    }
    FirstCrlfAt(statusLine, rest);
    assert r[|statusLine|..] == rest;
    assert r[..|statusLine|] == statusLine;
    ParseHeaderOf(Decimal(|contents|), contents);
    DecimalRoundTrip(|contents|);
  }

  /**
   * The first blank line (`\r\n\r\n`) of the response begins right before the
   * body, so the header cannot swallow part of it or end early.
   */
  lemma HeaderEndsBeforeBody(statusLine: seq<byte>, contents: seq<byte>)
    requires NoCr(statusLine)
    ensures var r := Response(statusLine, contents);
      IndexOf(r, HEADER_END, 0) == Some(|r| - |contents| - |HEADER_END|)
  {
    var d := Decimal(|contents|);
    var head := statusLine + HEADER_START + d;
    var r := Response(statusLine, contents);
    assert r == head + (HEADER_END + contents);
    forall i | 0 <= i < |head|
      ensures !MatchesAt(r, HEADER_END, i)
    {
      if i + 4 <= |r| {
        assert r[i..i + 4][0] == r[i] && r[i..i + 4][2] == r[i + 2];
        if i < |statusLine| {
          assert r[i] == statusLine[i];
        } else if i == |statusLine| {
          assert r[i + 2] == HEADER_START[2];
        } else if i < |statusLine| + |HEADER_START| {
          assert r[i] == HEADER_START[i - |statusLine|];
        } else {
          assert r[i] == d[i - |statusLine| - |HEADER_START|];
        }
      }
    }
    assert StartsWith(HEADER_END + contents, HEADER_END) by {
      assert (HEADER_END + contents)[..|HEADER_END|] == HEADER_END;
    }
    FirstMatchAt(head, HEADER_END + contents, HEADER_END);
  }

  /** Neither status line contains CR or LF. */
  lemma StatusLinesHaveNoCrLf()
    ensures NoCrLf(OK_STATUS) && NoCrLf(NOT_FOUND_STATUS)
  {
  }

  // ---------------------------------------------------------------------------
  // The whole request-to-response step

  /**
   * `handle_connection` between the read and the write: route the buffer, take
   * the chosen file's contents from `readFile`, frame the response.
   */
  function HandleConnection(buffer: seq<byte>, readFile: string -> seq<byte>): (r: seq<byte>)
    requires |buffer| == BUFFER_SIZE
    ensures StartsWith(r, OK_STATUS + CRLF) <==> buffer[..16] == GET_ROOT
    ensures StartsWith(r, NOT_FOUND_STATUS + CRLF) <==> buffer[..16] != GET_ROOT
  {
    var route := RouteOf(buffer);
    var contents := readFile(route.filename);
    var r := Response(route.statusLine, contents);
    ResponseBeginsWithStatusLine(route.statusLine, contents);
    assert r[9] == route.statusLine[9] by {
      assert r[..|route.statusLine|][9] == r[9];
    }
    assert (OK_STATUS + CRLF)[9] != (NOT_FOUND_STATUS + CRLF)[9];
    assert StartsWith(r, OK_STATUS + CRLF) ==> r[9] == (OK_STATUS + CRLF)[9] by {
      if |OK_STATUS + CRLF| <= |r| {
        assert r[..|OK_STATUS + CRLF|][9] == r[9];
      }
    }
    assert StartsWith(r, NOT_FOUND_STATUS + CRLF) ==> r[9] == (NOT_FOUND_STATUS + CRLF)[9] by {
      if |NOT_FOUND_STATUS + CRLF| <= |r| {
        assert r[..|NOT_FOUND_STATUS + CRLF|][9] == r[9];
      }
    }
    r
  }

  /**
   * Every response reads back as the routed status line, a Content-Length equal
   * to the routed file's byte length, and that file's contents.
   */
  lemma HandleConnectionReadsBack(buffer: seq<byte>, readFile: string -> seq<byte>)
    requires |buffer| == BUFFER_SIZE
    ensures var route := RouteOf(buffer);
      var body := readFile(route.filename);
      ParseResponse(HandleConnection(buffer, readFile))
        == Some(ParsedResponse(route.statusLine, |body|, body))
  {
    var route := RouteOf(buffer);
    StatusLinesHaveNoCrLf();
    ParseResponseRoundTrip(route.statusLine, readFile(route.filename));
  }
}
