/**
 * One client connection of the web front end: the request framer that reads
 * the socket into a private buffer until a request header is complete, the
 * header parser, and the write of a response.
 *
 * The socket is modelled by what it will deliver: the chunks successive reads
 * return, and the byte counts successive writes report. The serialisation of
 * a response (HttpResponse::GenerateResponseString) is a given function.
 */
module HttpConnections {
  import opened Strings

  /** The blank line that ends a request header (section 2.1 of RFC 9112). */
  const HeaderEnd: string := "\r\n\r\n"
  /** The most a single read asks the socket for. */
  const BufferSize: nat := 1024

  /** A parsed request: its target and its header fields by lower-case name. */
  datatype HttpRequest = HttpRequest(uri: string, headers: map<string, string>)

  /** A response; contentType None leaves the response's default in place. */
  datatype HttpResponse = HttpResponse(protocol: string, code: int, message: string, contentType: Option<string>, body: string)

  /** HttpRequest::GetHeaderValue: the value stored under the name, or "" when there is none. */
  function HeaderValue(req: HttpRequest, name: string): string {
    if name in req.headers then req.headers[name] else ""
  }

  /** The chunks run together. */
  function Flatten(chunks: seq<string>): string {
    if chunks == [] then [] else chunks[0] + Flatten(chunks[1..])
  }

  /** The outcome of framing one request. */
  datatype Framing =
    | Framed(header: string, rest: string, unread: seq<string>)
    | Dropped(buffer: string)

  /**
   * GetNextRequest's framing, from the buffer and the chunks the socket has
   * yet to deliver: read until the accumulated bytes hold the header
   * terminator, then split them after its first occurrence. Running out of
   * chunks before that drops the connection.
   */
  function Frame(buffer: string, chunks: seq<string>): Framing
    decreases |chunks|
  {
    match Find(buffer, HeaderEnd)
    case Some(p) => Framed(buffer[..p + |HeaderEnd|], buffer[p + |HeaderEnd|..], chunks)
    case None => if chunks == [] then Dropped(buffer) else Frame(buffer + chunks[0], chunks[1..])
  }

  /**
   * The header handed to the parser is the accumulated input up to and
   * including the first terminator.
   */
  lemma {:induction false} FrameHeader(buffer: string, chunks: seq<string>)
    ensures var r := Frame(buffer, chunks);
      r.Framed? ==> |r.header| >= |HeaderEnd| && Find(r.header + r.rest, HeaderEnd) == Some(|r.header| - |HeaderEnd|)
    decreases |chunks|
  {
    match Find(buffer, HeaderEnd)
    case Some(p) =>
      assert buffer[..p + |HeaderEnd|] + buffer[p + |HeaderEnd|..] == buffer;
    case None =>
      if chunks != [] {
        FrameHeader(buffer + chunks[0], chunks[1..]);
      }
  }

  /**
   * Framing loses and reorders no byte: the header, the bytes kept and the
   * chunks left unread are the buffer followed by all the chunks, and the
   * unread chunks are the last ones.
   */
  lemma {:induction false} FrameKeepsBytes(buffer: string, chunks: seq<string>)
    ensures var r := Frame(buffer, chunks);
      r.Framed? ==> r.header + r.rest + Flatten(r.unread) == buffer + Flatten(chunks) &&
                    |r.unread| <= |chunks| && r.unread == chunks[|chunks| - |r.unread|..]
    decreases |chunks|
  {
    match Find(buffer, HeaderEnd)
    case Some(p) =>
      assert buffer[..p + |HeaderEnd|] + buffer[p + |HeaderEnd|..] == buffer;
    case None =>
      if chunks != [] {
        FrameKeepsBytes(buffer + chunks[0], chunks[1..]);
        var r := Frame(buffer + chunks[0], chunks[1..]);
        assert buffer + Flatten(chunks) == (buffer + chunks[0]) + Flatten(chunks[1..]);
        if r.Framed? {
          assert chunks[1..][|chunks[1..]| - |r.unread|..] == chunks[|chunks| - |r.unread|..];
        }
      }
  }

  /** A dropped connection has read every chunk without meeting the terminator. */
  lemma {:induction false} FrameDropped(buffer: string, chunks: seq<string>)
    ensures var r := Frame(buffer, chunks);
      r.Dropped? ==> r.buffer == buffer + Flatten(chunks) && !Contains(r.buffer, HeaderEnd)
    decreases |chunks|
  {
    if Find(buffer, HeaderEnd).None? {
      if chunks == [] {
        assert buffer + Flatten(chunks) == buffer;
      } else {
        FrameDropped(buffer + chunks[0], chunks[1..]);
        assert buffer + Flatten(chunks) == (buffer + chunks[0]) + Flatten(chunks[1..]);
      }
    }
  }

  /** A buffer that already holds a terminator is framed without reading. */
  lemma {:induction false} FrameWithoutRead(buffer: string, chunks: seq<string>)
    requires Contains(buffer, HeaderEnd)
    ensures Frame(buffer, chunks).Framed? && Frame(buffer, chunks).unread == chunks
  {
  }

  /** The requests a client's input frames into, until no further request can be read. */
  function Requests(buffer: string, chunks: seq<string>): seq<HttpRequest>
    decreases |buffer| + |Flatten(chunks)|
  {
    FrameHeader(buffer, chunks);
    FrameKeepsBytes(buffer, chunks);
    match Frame(buffer, chunks)
    case Dropped(_) => []
    case Framed(header, rest, unread) => [RequestOf(header)] + Requests(rest, unread)
  }

  /** Requests sent back to back are read one after the other. */
  lemma {:induction false} RequestsPipelined(header: string, rest: string, chunks: seq<string>)
    requires |header| >= |HeaderEnd| && Find(header + rest, HeaderEnd) == Some(|header| - |HeaderEnd|)
    ensures Requests(header + rest, chunks) == [RequestOf(header)] + Requests(rest, chunks)
  {
    var s := header + rest;
    assert s[..|header|] == header && s[|header|..] == rest;
  }

  /**
   * Reading the next request: a dropped connection has no requests left;
   * otherwise the request parsed from the framed header comes first.
   */
  lemma RequestsNext(buffer: string, chunks: seq<string>)
    ensures var f := Frame(buffer, chunks);
      (f.Dropped? ==> Requests(buffer, chunks) == []) &&
      (f.Framed? ==> Requests(buffer, chunks) == [RequestOf(f.header)] + Requests(f.rest, f.unread))
  {
    FrameHeader(buffer, chunks);
    FrameKeepsBytes(buffer, chunks);
  }

  // ---------------------------------------------------------------------------
  // ParseRequest

  /** boost::is_any_of("\r\n"): each of the two characters ends a line on its own. */
  const LineBreaks: set<char> := {'\r', '\n'}

  /** The request-target: the second space-separated token of the request line, "/" when there is none. */
  function UriOf(requestLine: string): string {
    var tokens := Split(requestLine, {' '});
    if |tokens| >= 2 then tokens[1] else "/"
  }

  /**
   * One header line as a (name, value) pair: split at the first colon, the
   * name trimmed and lower-cased, the value trimmed. An empty line, a line
   * without a colon, and a line whose first colon is its first or last
   * character are skipped.
   */
  function HeaderOf(line: string): Option<(string, string)> {
    if line == [] then None
    else match IndexOf(line, ':')
      case None => None
      case Some(c) =>
        if c == 0 || c == |line| - 1 then None
        else Some((Lower(Trim(line[..c])), Trim(line[c + 1..])))
  }

  /** The header map after the lines are handed, in order, to HttpRequest::AddHeader. */
  function AddHeaders(headers: map<string, string>, lines: seq<string>): map<string, string>
    decreases |lines|
  {
    if lines == [] then headers else AddHeaders(AddLine(headers, lines[0]), lines[1..])
  }

  /** HttpRequest::AddHeader for one line, when the line is a header. */
  function AddLine(headers: map<string, string>, line: string): map<string, string> {
    match HeaderOf(line)
    case None => headers
    case Some(h) => headers[h.0 := h.1]
  }

  /** The request a header text parses to: the first line gives the target, the others the header fields. */
  function RequestOf(text: string): HttpRequest {
    var lines := Split(text, LineBreaks);
    HttpRequest(UriOf(lines[0]), AddHeaders(map[], lines[1..]))
  }

  /** Header fields as stored: names lower-case and trimmed, values trimmed. */
  predicate CleanHeaders(headers: map<string, string>) {
    forall k :: k in headers ==> Lower(k) == k && Trim(k) == k && Trim(headers[k]) == headers[k]
  }

  /**
   * Every header name of a parsed request is lower-case with no white space
   * at either end, and every value is trimmed, so a lookup by a lower-case
   * name such as "connection" finds the field whatever its spelling.
   */
  lemma {:induction false} RequestHeadersClean(text: string)
    ensures CleanHeaders(RequestOf(text).headers)
  {
    var lines := Split(text, LineBreaks);
    AddHeadersClean(map[], lines[1..]);
  }

  lemma {:induction false} AddHeadersClean(headers: map<string, string>, lines: seq<string>)
    requires CleanHeaders(headers)
    ensures CleanHeaders(AddHeaders(headers, lines))
    decreases |lines|
  {
    if lines != [] {
      HeaderOfClean(lines[0]);
      AddHeadersClean(AddLine(headers, lines[0]), lines[1..]);
    }
  }

  /** A header line gives a lower-case, trimmed name and a trimmed value. */
  lemma {:induction false} HeaderOfClean(line: string)
    ensures HeaderOf(line).Some? ==>
      var h := HeaderOf(line).value;
      Lower(h.0) == h.0 && Trim(h.0) == h.0 && Trim(h.1) == h.1
  {
    if HeaderOf(line).Some? {
      var c := IndexOf(line, ':').value;
      var name := Trim(line[..c]);
      TrimSpec(line[..c]);
      LowerIdempotent(name);
      LowerKeepsSpaces(name);
      TrimFixed(Lower(name));
      TrimSpec(line[c + 1..]);
      TrimFixed(Trim(line[c + 1..]));
    }
  }

  /** The line is a header line for the given (lower-cased, trimmed) name. */
  predicate Names(line: string, name: string) {
    HeaderOf(line).Some? && HeaderOf(line).value.0 == name
  }

  /** A name no line gives keeps whatever value it had, or stays absent. */
  lemma {:induction false} AddHeadersUntouched(headers: map<string, string>, lines: seq<string>, name: string)
    requires forall j :: 0 <= j < |lines| ==> !Names(lines[j], name)
    ensures name in AddHeaders(headers, lines) <==> name in headers
    ensures name in headers ==> AddHeaders(headers, lines)[name] == headers[name]
    decreases |lines|
  {
    if lines != [] {
      assert !Names(lines[0], name);
      AddHeadersUntouched(AddLine(headers, lines[0]), lines[1..], name);
    }
  }

  /** Dropping the first line keeps "no line after i names it", one position earlier. */
  lemma {:induction false} NoNameAfterTail(lines: seq<string>, i: nat, name: string)
    requires i < |lines|
    requires forall j :: i < j < |lines| ==> !Names(lines[j], name)
    ensures forall j :: i <= j < |lines[1..]| ==> !Names(lines[1..][j], name)
  {
    forall j | i <= j < |lines[1..]|
      ensures !Names(lines[1..][j], name)
    {
      assert lines[1..][j] == lines[j + 1];
    }
  }

  /** The value of a header field is the one on the last line that gives its name. */
  lemma {:induction false} AddHeadersLast(headers: map<string, string>, lines: seq<string>, i: nat, name: string, value: string)
    requires i < |lines| && HeaderOf(lines[i]) == Some((name, value))
    requires forall j :: i < j < |lines| ==> !Names(lines[j], name)
    ensures name in AddHeaders(headers, lines) && AddHeaders(headers, lines)[name] == value
    decreases i
  {
    if i == 0 {
      NoNameAfterTail(lines, 0, name);
      assert AddLine(headers, lines[0]) == headers[name := value];
      AddHeadersUntouched(headers[name := value], lines[1..], name);
    } else {
      NoNameAfterTail(lines, i, name);
      assert lines[1..][i - 1] == lines[i];
      AddHeadersLast(AddLine(headers, lines[0]), lines[1..], i - 1, name, value);
    }
  }

  /**
   * In a parsed request, a header line that no later line overrides gives
   * its value under its lower-cased, trimmed name.
   */
  lemma {:induction false} RequestHeaderLastWins(text: string, i: nat, name: string, value: string)
    requires 1 <= i < |Split(text, LineBreaks)| && HeaderOf(Split(text, LineBreaks)[i]) == Some((name, value))
    requires forall j :: i < j < |Split(text, LineBreaks)| ==> !Names(Split(text, LineBreaks)[j], name)
    ensures HeaderValue(RequestOf(text), name) == value
  {
    HeaderLinesLast(Split(text, LineBreaks), i, name, value);
  }

  lemma {:induction false} HeaderLinesLast(lines: seq<string>, i: nat, name: string, value: string)
    requires 1 <= i < |lines| && HeaderOf(lines[i]) == Some((name, value))
    requires forall j :: i < j < |lines| ==> !Names(lines[j], name)
    ensures name in AddHeaders(map[], lines[1..]) && AddHeaders(map[], lines[1..])[name] == value
  {
    NoNameAfterTail(lines, i, name);
    assert lines[1..][i - 1] == lines[i];
    AddHeadersLast(map[], lines[1..], i - 1, name, value);
  }

  /** A name no header line gives reads as "". */
  lemma {:induction false} RequestHeaderAbsent(text: string, name: string)
    requires forall j :: 1 <= j < |Split(text, LineBreaks)| ==> !Names(Split(text, LineBreaks)[j], name)
    ensures HeaderValue(RequestOf(text), name) == ""
  {
    var lines := Split(text, LineBreaks);
    NoNameAfterTail(lines, 0, name);
    AddHeadersUntouched(map[], lines[1..], name);
  }

  /** The first occurrence of c is at k when s[k] is c and no earlier character is. */
  lemma {:induction false} IndexOfAt(s: string, c: char, k: nat)
    requires k < |s| && s[k] == c && c !in s[..k]
    ensures IndexOf(s, c) == Some(k)
  {
    assert s[k] == c;
  }

  /** A header line as written: the name is lower-cased and both sides are trimmed. */
  lemma HeaderLineExample()
    ensures HeaderOf("Name:value") == Some(("name", "value"))
  {
    var line := "Name:value";
    assert line[..4] == "Name" && line[5..] == "value";
    IndexOfAt(line, ':', 4);
    NameValueCleaned();
  }

  lemma NameValueCleaned()
    ensures Lower(Trim("Name")) == "name" && Trim("value") == "value"
  {
    TrimFixed("Name");
    TrimFixed("value");
    assert "Name" == ['N'] + "ame";
    LowerCapitalised('N', "ame");
  }

  /** The blank after the colon is trimmed off the value. */
  lemma HeaderLineSpaced()
    ensures HeaderOf("Host: x") == Some(("host", "x"))
  {
    var line := "Host: x";
    assert line[..4] == "Host" && line[5..] == " x";
    IndexOfAt(line, ':', 4);
    HostCleaned();
  }

  lemma HostCleaned()
    ensures Lower(Trim("Host")) == "host" && Trim(" x") == "x"
  {
    TrimFixed("Host");
    assert "Host" == ['H'] + "ost";
    LowerCapitalised('H', "ost");
    assert " x" == [' '] + "x";
    TrimOneBlank("x");
  }

  /** A capitalised word lower-cases to its first letter lowered and the rest kept. */
  lemma LowerCapitalised(c: char, w: string)
    requires forall i :: 0 <= i < |w| ==> !IsUpper(w[i])
    ensures Lower([c] + w) == [LowerChar(c)] + w
  {
    assert ([c] + w)[1..] == w;
    LowerHasNoUpper(w);
  }

  /** One blank in front of a word is trimmed off. */
  lemma TrimOneBlank(w: string)
    requires w != [] && !IsSpace(w[0]) && !IsSpace(w[|w| - 1])
    ensures Trim([' '] + w) == w
  {
    var s := [' '] + w;
    assert s[1..] == w;
    assert LeadingSpaces(s) == 1;
    TrimFixed(w);
  }

  /** A header line whose name is empty is skipped. */
  lemma HeaderLineEmptyName()
    ensures HeaderOf(": emptyname") == None
  {
    IndexOfAt(": emptyname", ':', 0);
  }

  /** A header line without a colon is skipped. */
  lemma HeaderLineNoColon()
    ensures HeaderOf("BadHeaderNoColon") == None
  {
    var line := "BadHeaderNoColon";
    assert forall k :: 0 <= k < |line| ==> line[k] != ':';
    assert IndexOf(line, ':') == None;
  }

  /** A header line whose only colon is its last character is skipped. */
  lemma HeaderLineNoValue()
    ensures HeaderOf("Host:") == None
  {
    IndexOfAt("Host:", ':', 4);
  }

  /** The request-target is the second token of the request line. */
  lemma RequestLineExample()
    ensures UriOf("GET /x HTTP/1.1") == "/x"
  {
    assert "GET /x HTTP/1.1" == "GET" + [' '] + ("/x" + [' '] + "HTTP/1.1");
    SplitLeadingField("GET", ' ', "/x" + [' '] + "HTTP/1.1");
    SplitLeadingField("/x", ' ', "HTTP/1.1");
  }

  /** A request line with a single token gives the target "/". */
  lemma RequestLineBare()
    ensures UriOf("GET") == "/"
  {
    SplitNoDelimiter("GET", {' '});
  }

  /** HttpConnection::ParseRequest: one pass over the lines of the header text. */
  method ParseRequest(request: string) returns (req: HttpRequest)
    ensures req == RequestOf(request)
  {
    req := HttpRequest("/", map[]);
    var lines := Split(request, LineBreaks);
    if |lines| > 0 {
      var requestLine := Split(lines[0], {' '});
      if |requestLine| >= 2 {
        req := req.(uri := requestLine[1]);
      }
    }
    var i := 1;
    while i < |lines|
      invariant 1 <= i <= |lines|
      invariant req.uri == UriOf(lines[0])
      invariant AddHeaders(req.headers, lines[i..]) == AddHeaders(map[], lines[1..])
    {
      var line := lines[i];
      ghost var before := req.headers;
      assert AddHeaders(before, lines[i..]) == AddHeaders(AddLine(before, line), lines[i + 1..]) by {
        assert lines[i..][0] == line && lines[i..][1..] == lines[i + 1..];
      }
      if line == [] {
        assert AddLine(before, line) == before;
        i := i + 1;
        continue;
      }
      var colonPos := IndexOf(line, ':');
      if colonPos.None? || colonPos.value == 0 || colonPos.value == |line| - 1 {
        assert AddLine(before, line) == before;
        i := i + 1;
        continue;
      }
      var headerName := Lower(Trim(line[..colonPos.value]));
      var headerValue := Trim(line[colonPos.value + 1..]);
      req := req.(headers := req.headers[headerName := headerValue]);
      assert req.headers == AddLine(before, line);
      i := i + 1;
    }
    assert lines[i..] == [];
  }

  // ---------------------------------------------------------------------------
  // The connection

  class HttpConnection {
    /** Bytes read from the socket and not yet handed out as a request. */
    var buffer: string
    /** What successive reads of the socket will deliver; none left means end of input. */
    var chunks: seq<string>
    /** What successive writes to the socket will report as the number of bytes written. */
    var writeResults: seq<int>
    /** Every serialised response handed to the socket, in order. */
    var sent: seq<string>
    /** HttpResponse::GenerateResponseString. */
    const serialize: HttpResponse -> string

    /** A read delivers at least one and at most BufferSize bytes. */
    ghost predicate Valid()
      reads this
    {
      forall i :: 0 <= i < |chunks| ==> 0 < |chunks[i]| <= BufferSize
    }

    constructor (chunks: seq<string>, writeResults: seq<int>, serialize: HttpResponse -> string)
      requires forall i :: 0 <= i < |chunks| ==> 0 < |chunks[i]| <= BufferSize
      ensures Valid()
      ensures buffer == [] && this.chunks == chunks && this.writeResults == writeResults && sent == []
      ensures this.serialize == serialize
    {
      buffer := [];
      this.chunks := chunks;
      this.writeResults := writeResults;
      sent := [];
      this.serialize := serialize;
    }

    /**
     * GetNextRequest: reads until the buffer holds a complete header, parses
     * the header up to and including the first terminator, and keeps exactly
     * the bytes after it for the next call. Fails when the input ends first.
     */
    method GetNextRequest() returns (ok: bool, request: HttpRequest)
      requires Valid()
      modifies this`buffer, this`chunks
      ensures Valid()
      ensures var f := Frame(old(buffer), old(chunks));
        (ok <==> f.Framed?) &&
        (ok ==> request == RequestOf(f.header) && buffer == f.rest && chunks == f.unread) &&
        (!ok ==> buffer == f.buffer && chunks == [])
      ensures !ok ==> Requests(old(buffer), old(chunks)) == []
      ensures ok ==> Requests(old(buffer), old(chunks)) == [request] + Requests(buffer, chunks)
    {
      RequestsNext(buffer, chunks);
      request := HttpRequest("/", map[]);
      while true
        invariant Valid()
        invariant Frame(buffer, chunks) == Frame(old(buffer), old(chunks))
        decreases |chunks|
      {
        var headerEndPos := Find(buffer, HeaderEnd);
        if headerEndPos.Some? {
          var header := buffer[..headerEndPos.value + |HeaderEnd|];
          assert Frame(buffer, chunks) == Framed(header, buffer[headerEndPos.value + |HeaderEnd|..], chunks);
          request := ParseRequest(header);
          buffer := buffer[headerEndPos.value + |HeaderEnd|..];
          return true, request;
        }
        // The socket read.
        var bytesRead := 0;
        var readBuffer := "";
        if chunks != [] {
          assert Frame(buffer, chunks) == Frame(buffer + chunks[0], chunks[1..]);
          readBuffer := chunks[0];
          bytesRead := |readBuffer|;
          chunks := chunks[1..];
        }
        if bytesRead <= 0 {
          assert Frame(buffer, chunks) == Dropped(buffer);
          return false, request;
        }
        assert readBuffer[..bytesRead] == readBuffer;
        buffer := buffer + readBuffer[..bytesRead];
      }
    }

    /** WriteResponse: succeeds exactly when the socket takes the whole serialised response. */
    method WriteResponse(response: HttpResponse) returns (ok: bool)
      modifies this`writeResults, this`sent
      ensures ok <==> old(writeResults) != [] && old(writeResults[0]) == |serialize(response)|
      ensures writeResults == if old(writeResults) == [] then [] else old(writeResults[1..])
      ensures sent == old(sent) + [serialize(response)]
    {
      var str := serialize(response);
      var res := -1;
      if writeResults != [] {
        res := writeResults[0];
        writeResults := writeResults[1..];
      }
      sent := sent + [str];
      ok := res == |str|;
    }
  }
}
