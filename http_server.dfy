/**
 * The web front end's request handling: the thread that serves one client
 * connection, the routing of a request to the static-file handler or to the
 * search page, and the two pages.
 *
 * The URL parser (URLParser), the file reader (FileReader::ReadFile) and the
 * HTML escaper (EscapeHtml) are given functions of the environment a serving
 * thread runs in.
 */
module HttpServer {
  import opened Strings
  import opened QueryProcessing
  import opened HttpConnections

  /** URLParser's result: the path, and the decoded query arguments by name. */
  datatype ParsedUrl = ParsedUrl(path: string, args: map<string, string>)

  /** What a serving thread works with. */
  datatype Env = Env(
    baseDir: string,
    shards: seq<Shard>,
    parseUrl: string -> ParsedUrl,
    /** FileReader(base_dir, file_name).ReadFile: the contents, or None when the read fails. */
    readFile: (string, string) -> Option<string>,
    escapeHtml: string -> string)

  /** std::string::substr(pos, n): at most n characters starting at pos. */
  function Substr(s: string, pos: nat, n: nat): string
    requires pos <= |s|
  {
    if n < |s| - pos then s[pos..pos + n] else s[pos..]
  }

  /** Comparing the first |p| characters with p is the prefix test. */
  lemma {:induction false} SubstrPrefix(s: string, p: string)
    ensures Substr(s, 0, |p|) == p <==> HasPrefix(s, p)
  {
    if |p| > |s| {
      assert |Substr(s, 0, |p|)| == |s| < |p|;
    }
  }

  /**
   * A serving thread needs at least one index, and every document a result
   * can name must be linkable: a URL, or a local path of at least 12
   * characters.
   */
  predicate Ready(env: Env) {
    |env.shards| > 0 &&
    forall i, d :: 0 <= i < |env.shards| && d in env.shards[i].docTable ==> Linkable(env.shards[i].docTable[d])
  }

  // ---------------------------------------------------------------------------
  // Routing

  const StaticPrefix: string := "/static/"

  predicate IsStaticUri(uri: string) {
    Substr(uri, 0, 8) == StaticPrefix
  }

  /** The response ProcessRequest builds for a request target. */
  function Respond(env: Env, uri: string): HttpResponse
    requires Ready(env)
  {
    if IsStaticUri(uri) then FileResponse(env, uri) else QueryResponse(env, uri)
  }

  /** ProcessRequest: static files under /static/, the search page for everything else. */
  method ProcessRequest(env: Env, req: HttpRequest) returns (response: HttpResponse)
    requires Ready(env)
    ensures HasPrefix(req.uri, StaticPrefix) ==> response == FileResponse(env, req.uri)
    ensures !HasPrefix(req.uri, StaticPrefix) ==> response == QueryResponse(env, req.uri)
    ensures response == Respond(env, req.uri)
  {
    SubstrPrefix(req.uri, StaticPrefix);
    if Substr(req.uri, 0, 8) == StaticPrefix {
      return FileResponse(env, req.uri);
    }
    response := ProcessQueryRequest(env, req.uri);
  }

  /** Every response is 200 "OK", except a static file that cannot be read, which is 404 "Not Found". */
  lemma {:induction false} RespondCodes(env: Env, uri: string)
    requires Ready(env)
    ensures var r := Respond(env, uri);
      r.protocol == "HTTP/1.1" &&
      (r.code == 404 <==> HasPrefix(uri, StaticPrefix) && env.readFile(env.baseDir, StaticFileName(env.parseUrl(uri).path)).None?) &&
      (r.code != 404 ==> r.code == 200 && r.message == "OK")
  {
    SubstrPrefix(uri, StaticPrefix);
  }

  // ---------------------------------------------------------------------------
  // Static files

  /** The file name: the path without its leading eight characters, or "" for a path of at most eight. */
  function StaticFileName(path: string): string {
    if |path| > 8 then path[8..] else ""
  }

  /** The file named in a /static/ path is exactly what follows the prefix. */
  lemma {:induction false} StaticFileNameOfPath(f: string)
    ensures StaticFileName(StaticPrefix + f) == f
  {
    assert (StaticPrefix + f)[8..] == f;
  }

  /** GetContentType's table. */
  const ContentTypes: map<string, string> := map[
    ".html" := "text/html", ".htm" := "text/html",
    ".jpeg" := "image/jpeg", ".jpg" := "image/jpeg",
    ".png" := "image/png", ".txt" := "text/plain",
    ".js" := "text/javascript", ".css" := "text/css",
    ".xml" := "text/xml", ".gif" := "image/gif"]

  const DefaultContentType: string := "text/plain"

  /** GetContentType: the table's entry for the text from the last dot on, or the default. */
  function ContentType(fileName: string): (t: string)
    ensures t == DefaultContentType || t in ContentTypes.Values
  {
    match LastIndexOf(fileName, '.')
    case None => DefaultContentType
    case Some(p) => if fileName[p..] in ContentTypes then ContentTypes[fileName[p..]] else DefaultContentType
  }

  /** Every extension in the table is a dot followed by dot-free text. */
  lemma ExtensionsShape()
    ensures forall ext :: ext in ContentTypes ==> |ext| > 1 && ext[0] == '.' && '.' !in ext[1..]
  {
    forall ext | ext in ContentTypes ensures |ext| > 1 && ext[0] == '.' && '.' !in ext[1..] {
      if ext == ".html" || ext == ".jpeg" {
        assert ext[1..] == [ext[1], ext[2], ext[3], ext[4]];
      } else if ext == ".js" {
        assert ext[1..] == [ext[1], ext[2]];
      } else {
        assert ext[1..] == [ext[1], ext[2], ext[3]];
      }
    }
  }

  /** A file whose name ends in a listed extension gets that extension's type. */
  lemma {:induction false} ContentTypeOfExtension(stem: string, ext: string)
    requires ext in ContentTypes
    ensures ContentType(stem + ext) == ContentTypes[ext]
  {
    ExtensionsShape();
    var s := stem + ext;
    assert s[|stem|] == '.';
    var p := LastIndexOf(s, '.').value;
    if p < |stem| {
      assert false;
    }
    if p > |stem| {
      assert false;
    }
    assert s[p..] == ext;
  }

  /** A file whose name ends in none of the listed extensions gets the default type. */
  lemma {:induction false} ContentTypeUnknown(fileName: string)
    requires forall ext :: ext in ContentTypes ==> !(|ext| <= |fileName| && fileName[|fileName| - |ext|..] == ext)
    ensures ContentType(fileName) == DefaultContentType
  {
    match LastIndexOf(fileName, '.')
    case None =>
    case Some(p) =>
      var ext := fileName[p..];
      assert |ext| <= |fileName| && fileName[|fileName| - |ext|..] == ext;
  }

  /** The body of the 404 page for a file name, given its escaped form. */
  function NotFoundBody(escapedName: string): string {
    "<html><body>Couldn't find file \"" + escapedName + "\"</body></html>\n"
  }

  /**
   * ProcessFileRequest: reads the named file under the base directory and
   * answers with it, typed by its extension; a failed read is answered 404.
   */
  function FileResponse(env: Env, uri: string): (r: HttpResponse)
    ensures var name := StaticFileName(env.parseUrl(uri).path);
      match env.readFile(env.baseDir, name)
      case Some(content) => r.code == 200 && r.body == content && r.contentType == Some(ContentType(name))
      case None => r.code == 404 && r.message == "Not Found" && r.body == NotFoundBody(env.escapeHtml(name))
  {
    var name := StaticFileName(env.parseUrl(uri).path);
    match env.readFile(env.baseDir, name)
    case Some(content) => HttpResponse("HTTP/1.1", 200, "OK", Some(ContentType(name)), content)
    case None => HttpResponse("HTTP/1.1", 404, "Not Found", None, NotFoundBody(env.escapeHtml(name)))
  }

  /**
   * Requesting /static/f, when the URL parser keeps that path, serves file f
   * of the base directory with the type of its name, or the 404 page naming f.
   */
  lemma {:induction false} StaticRequest(env: Env, f: string)
    requires Ready(env)
    requires env.parseUrl(StaticPrefix + f).path == StaticPrefix + f
    ensures var r := Respond(env, StaticPrefix + f);
      match env.readFile(env.baseDir, f)
      case Some(content) => r.code == 200 && r.body == content && r.contentType == Some(ContentType(f))
      case None => r.code == 404 && r.body == NotFoundBody(env.escapeHtml(f))
  {
    SubstrPrefix(StaticPrefix + f, StaticPrefix);
    StaticFileNameOfPath(f);
  }

  // ---------------------------------------------------------------------------
  // The search page

  /** kThreegleStr: the logo and the search form. */
  const LandingPage: string :=
    "<html><head><title>333gle</title></head>\n"
    + "<body>\n"
    + "<center style=\"font-size:500%;\">\n"
    + "<span style=\"position:relative;bottom:-0.33em;color:orange;\">3</span>"
    + "<span style=\"color:red;\">3</span>"
    + "<span style=\"color:gold;\">3</span>"
    + "<span style=\"color:blue;\">g</span>"
    + "<span style=\"color:green;\">l</span>"
    + "<span style=\"color:red;\">e</span>\n"
    + "</center>\n"
    + "<p>\n"
    + "<div style=\"height:20px;\"></div>\n"
    + "<center>\n"
    + "<form action=\"/query\" method=\"get\">\n"
    + "<input type=\"text\" size=30 name=\"terms\" />\n"
    + "<input type=\"submit\" value=\"Search\" />\n"
    + "</form>\n"
    + "</center><p>\n"

  const PageEnd: string := "</body>\r\n</html>\r\n"

  const QueryMarker: string := "query?terms="

  /** The search terms: the "terms" argument (empty when absent), trimmed and lower-cased. */
  function SearchTerms(env: Env, uri: string): string {
    var args := env.parseUrl(uri).args;
    Lower(Trim(if "terms" in args then args["terms"] else ""))
  }

  /** The query words: the terms split at runs of spaces. */
  function QueryWords(terms: string): (q: seq<string>)
    ensures |q| > 0
  {
    SplitCompressed(terms, ' ')
  }

  /**
   * The search terms have no upper-case letter and no white space at either
   * end, and unless they are empty every query word is non-empty and free of
   * spaces.
   */
  lemma {:induction false} SearchTermsClean(arg: string)
    ensures var terms := Lower(Trim(arg));
      (forall i :: 0 <= i < |terms| ==> !IsUpper(terms[i])) &&
      (terms == [] || (!IsSpace(terms[0]) && !IsSpace(terms[|terms| - 1]))) &&
      (terms != [] ==> forall k :: 0 <= k < |QueryWords(terms)| ==>
         QueryWords(terms)[k] != [] && FreeOf(QueryWords(terms)[k], {' '}))
  {
    var t := Trim(arg);
    var terms := Lower(t);
    TrimSpec(arg);
    LowerHasNoUpper(t);
    LowerKeepsSpaces(t);
    if terms != [] {
      assert !IsSpace(terms[0]) && !IsSpace(terms[|terms| - 1]);
      SplitCompressedFields(terms, ' ');
    }
  }

  predicate IsUrl(name: string) {
    Substr(name, 0, 7) == "http://"
  }

  predicate Linkable(name: string) {
    IsUrl(name) || |name| >= 12
  }

  /** The name shown for a document: a URL as it is, a local path without its first 12 characters. */
  function ShownName(name: string): string
    requires Linkable(name)
  {
    if IsUrl(name) then name else name[12..]
  }

  /** The link target of a document: a URL as it is, a local file under /static/. */
  function Href(name: string): string
    requires Linkable(name)
  {
    (if IsUrl(name) then "" else StaticPrefix) + ShownName(name)
  }

  /**
   * The link a result page gives a local document leads, through routing and
   * the file handler, to the file named by the document's path without its
   * first 12 characters.
   */
  lemma {:induction false} LocalLinkServesFile(env: Env, name: string)
    requires Ready(env) && Linkable(name) && !IsUrl(name)
    requires env.parseUrl(Href(name)).path == Href(name)
    ensures HasPrefix(Href(name), StaticPrefix) && Respond(env, Href(name)) == FileResponse(env, Href(name))
    ensures StaticFileName(env.parseUrl(Href(name)).path) == name[12..]
  {
    SubstrPrefix(Href(name), StaticPrefix);
    StaticFileNameOfPath(name[12..]);
  }

  /** A URL document links to itself and shows itself. */
  lemma {:induction false} UrlLinksToItself(name: string)
    requires HasPrefix(name, "http://")
    ensures Linkable(name) && Href(name) == name && ShownName(name) == name
  {
    SubstrPrefix(name, "http://");
    assert [] + name == name;
  }

  function NoResults(escapedTerms: string): string {
    "<p><br>\r\nNo results found for <b>" + escapedTerms + "</b><p>\r\n\r\n"
  }

  /** The summary before the list: the count, "result" made plural exactly when there are several. */
  function Summary(n: nat, escapedTerms: string): string {
    "<p><br>\r\n" + NatToString(n) + " result" + (if n > 1 then "s" else "")
      + " found for <b>" + escapedTerms + "</b><p>\r\n\r\n<ul>\r\n"
  }

  /** One list entry: a link to href showing the (escaped) name, and the rank. */
  function EntryHtml(href: string, shown: string, rank: int): string {
    "<li>\n<a href=\"" + href + "\">" + shown + "</a> [" + IntToString(rank) + "]<br>\n</li>\n"
  }

  /** The list entry of a result. */
  function Entry(r: QueryResult, escapeHtml: string -> string): string
    requires Linkable(r.documentName)
  {
    EntryHtml(Href(r.documentName), escapeHtml(ShownName(r.documentName)), r.rank)
  }

  predicate AllLinkable(results: seq<QueryResult>) {
    forall i :: 0 <= i < |results| ==> Linkable(results[i].documentName)
  }

  /** The entries of the results, in order. */
  function Entries(results: seq<QueryResult>, escapeHtml: string -> string): string
    requires AllLinkable(results)
  {
    if results == [] then []
    else Entries(results[..|results| - 1], escapeHtml) + Entry(results[|results| - 1], escapeHtml)
  }

  const ListEnd: string := "</ul>\r\n"

  /** What AppendSearchResults adds to the page. */
  function SearchResultsHtml(terms: string, results: seq<QueryResult>, escapeHtml: string -> string): string
    requires AllLinkable(results)
  {
    if results == [] then NoResults(escapeHtml(terms))
    else Summary(|results|, escapeHtml(terms)) + Entries(results, escapeHtml) + ListEnd
  }

  /**
   * AppendSearchResults: the no-results notice, or the summary followed by
   * one entry per result, in order, and the list's end.
   */
  method AppendSearchResults(body: string, terms: string, results: seq<QueryResult>, escapeHtml: string -> string)
    returns (newBody: string)
    requires AllLinkable(results)
    ensures newBody == body + SearchResultsHtml(terms, results, escapeHtml)
  {
    if results == [] {
      return body + NoResults(escapeHtml(terms));
    }
    var page := AppendEntries(body + Summary(|results|, escapeHtml(terms)), results, escapeHtml);
    ListComplete(body, page, terms, results, escapeHtml);
    newBody := page + ListEnd;
  }

  /**
   * The loop of AppendSearchResults: one entry per result, in order. A name
   * that is not a URL is linked under /static/ without its first 12
   * characters.
   */
  method AppendEntries(head: string, results: seq<QueryResult>, escapeHtml: string -> string) returns (page: string)
    requires AllLinkable(results)
    ensures page == head + Entries(results, escapeHtml)
  {
    page := head;
    var i := 0;
    while i < |results|
      invariant 0 <= i <= |results|
      invariant page == head + Entries(results[..i], escapeHtml)
    {
      var entry := EntryFor(results[i], escapeHtml);
      EntriesSnoc(head, page, results, i, escapeHtml);
      page := page + entry;
      i := i + 1;
    }
    assert results[..i] == results;
  }

  /** Closing the list after the summary and every entry completes the results section. */
  lemma {:induction false} ListComplete(body: string, page: string, terms: string, results: seq<QueryResult>, escapeHtml: string -> string)
    requires AllLinkable(results) && results != []
    requires page == body + Summary(|results|, escapeHtml(terms)) + Entries(results, escapeHtml)
    ensures page + ListEnd == body + SearchResultsHtml(terms, results, escapeHtml)
  {
    var summary, entries := Summary(|results|, escapeHtml(terms)), Entries(results, escapeHtml);
    AppendAssociates(body, summary, entries, ListEnd);
  }

  lemma {:induction false} EntryParts(r: QueryResult, escapeHtml: string -> string, hrefPrefix: string, docname: string)
    requires Linkable(r.documentName)
    requires IsUrl(r.documentName) ==> hrefPrefix == "" && docname == r.documentName
    requires !IsUrl(r.documentName) ==> hrefPrefix == StaticPrefix && docname == r.documentName[12..]
    ensures EntryHtml(hrefPrefix + docname, escapeHtml(docname), r.rank) == Entry(r, escapeHtml)
  {
    assert hrefPrefix + docname == Href(r.documentName);
  }

  /**
   * One list entry: a name that is not a URL is linked under /static/
   * without its first 12 characters, and shown the same way.
   */
  method EntryFor(r: QueryResult, escapeHtml: string -> string) returns (entry: string)
    requires Linkable(r.documentName)
    ensures entry == Entry(r, escapeHtml)
  {
    var docname := r.documentName;
    var hrefPrefix := "";
    if Substr(docname, 0, 7) != "http://" {
      hrefPrefix := StaticPrefix;
      docname := docname[12..];
    }
    entry := EntryHtml(hrefPrefix + docname, escapeHtml(docname), r.rank);
    EntryParts(r, escapeHtml, hrefPrefix, docname);
  }

  /** Appending the next result's entry extends the page by one entry. */
  lemma {:induction false} EntriesSnoc(head: string, page: string, results: seq<QueryResult>, i: nat, escapeHtml: string -> string)
    requires AllLinkable(results) && i < |results|
    requires page == head + Entries(results[..i], escapeHtml)
    ensures page + Entry(results[i], escapeHtml) == head + Entries(results[..i + 1], escapeHtml)
  {
    var before, entry := Entries(results[..i], escapeHtml), Entry(results[i], escapeHtml);
    assert Entries(results[..i + 1], escapeHtml) == before + entry by {
      assert results[..i + 1][..i] == results[..i];
    }
    AppendAssociates3(head, before, entry);
  }

  lemma AppendAssociates3(a: string, b: string, c: string)
    ensures (a + b) + c == a + (b + c)
  {
  }

  lemma AppendAssociates(a: string, b: string, c: string, d: string)
    ensures a + b + c + d == a + (b + c + d)
  {
  }

  /** The count in the summary reads back as the number of results, and the noun is plural exactly when there are several. */
  lemma {:induction false} SummaryCount(n: nat, escapedTerms: string)
    requires n > 0
    ensures var s := Summary(n, escapedTerms);
      var digits := NatToString(n);
      HasPrefix(s, "<p><br>\r\n" + digits + " result")
      && ParseNat(digits) == n
      && (s[|"<p><br>\r\n" + digits + " result"|] == 's' <==> n > 1)
  {
    ParseNatToString(n);
    var digits := NatToString(n);
    var lead := "<p><br>\r\n" + digits + " result";
    var s := Summary(n, escapedTerms);
    if n > 1 {
      assert s == lead + ("s" + " found for <b>" + escapedTerms + "</b><p>\r\n\r\n<ul>\r\n");
    } else {
      assert s == lead + (" found for <b>" + escapedTerms + "</b><p>\r\n\r\n<ul>\r\n");
    }
  }

  /** Every result the engine returns names a linkable document. */
  lemma {:induction false} ResultsLinkable(env: Env, query: seq<string>)
    requires Ready(env) && |query| > 0
    ensures AllLinkable(SortResults(Gathered(query, env.shards)))
  {
    var results := SortResults(Gathered(query, env.shards));
    forall k | 0 <= k < |results| ensures Linkable(results[k].documentName) {
      ProcessQueryMembers(query, env.shards, results[k]);
    }
  }

  /** The search results section for a request target, empty when it asks no query. */
  function ResultsSection(env: Env, uri: string): string
    requires Ready(env)
  {
    if Contains(uri, QueryMarker) then
      var terms := SearchTerms(env, uri);
      var query := QueryWords(terms);
      ResultsLinkable(env, query);
      SearchResultsHtml(terms, SortResults(Gathered(query, env.shards)), env.escapeHtml)
    else []
  }

  /** The search page for a request target. */
  function QueryResponse(env: Env, uri: string): HttpResponse
    requires Ready(env)
  {
    HttpResponse("HTTP/1.1", 200, "OK", None, LandingPage + ResultsSection(env, uri) + PageEnd)
  }

  /**
   * The search page always opens with the logo and form and closes the
   * document; between them there are results exactly when the target holds
   * a query.
   */
  lemma {:induction false} QueryPageShape(env: Env, uri: string)
    requires Ready(env)
    ensures var body := QueryResponse(env, uri).body;
      HasPrefix(body, LandingPage) && |body| >= |LandingPage| + |PageEnd| &&
      body[|body| - |PageEnd|..] == PageEnd &&
      (body == LandingPage + PageEnd <==> !Contains(uri, QueryMarker))
  {
    var section := ResultsSection(env, uri);
    PageFrame(LandingPage, section, PageEnd);
    if Contains(uri, QueryMarker) {
      var terms := SearchTerms(env, uri);
      var query := QueryWords(terms);
      ResultsLinkable(env, query);
      SearchResultsNonEmpty(terms, SortResults(Gathered(query, env.shards)), env.escapeHtml);
    }
  }

  /** A page made of an opening, a middle and an ending starts and ends with them, and is the two alone exactly when the middle is empty. */
  lemma PageFrame(opening: string, middle: string, ending: string)
    ensures var page := opening + middle + ending;
      HasPrefix(page, opening) && |page| >= |opening| + |ending| &&
      page[|page| - |ending|..] == ending &&
      (page == opening + ending <==> middle == [])
  {
    var page := opening + middle + ending;
    assert page[..|opening|] == opening;
    assert page[|page| - |ending|..] == ending;
    if middle == [] {
      assert opening + middle == opening;
    }
  }

  /** The results section is never empty, even without results. */
  lemma SearchResultsNonEmpty(terms: string, results: seq<QueryResult>, escapeHtml: string -> string)
    requires AllLinkable(results)
    ensures |SearchResultsHtml(terms, results, escapeHtml)| > 0
  {
  }

  /**
   * ProcessQueryRequest: the logo and form; for a query, the engine's answer
   * to the cleaned-up words; then the closing tags.
   */
  method ProcessQueryRequest(env: Env, uri: string) returns (ret: HttpResponse)
    requires Ready(env)
    ensures ret == QueryResponse(env, uri)
  {
    var body := LandingPage;
    if Find(uri, QueryMarker).Some? {
      var url := env.parseUrl(uri);
      var terms := if "terms" in url.args then url.args["terms"] else "";
      terms := Lower(Trim(terms));
      var queryTerms := SplitCompressed(terms, ' ');
      var processor := new QueryProcessor(env.shards);
      var results := processor.ProcessQuery(queryTerms);
      ResultsLinkable(env, queryTerms);
      body := AppendSearchResults(body, terms, results, env.escapeHtml);
    }
    body := body + PageEnd;
    ret := HttpResponse("HTTP/1.1", 200, "OK", None, body);
  }

  // ---------------------------------------------------------------------------
  // Serving one connection

  /** Why a connection's thread stopped. */
  datatype Stop = ReadFailed | CloseRequested | WriteFailed

  /** The header that asks the server to close the connection. */
  predicate AsksClose(req: HttpRequest) {
    HeaderValue(req, "connection") == "close"
  }

  /** ProcessRequest as a function of the request target, for a serving thread's environment. */
  function Responder(env: Env): string --> HttpResponse {
    (uri: string) requires Ready(env) => Respond(env, uri)
  }

  /** A ready server answers every target, each as ProcessRequest does. */
  lemma ResponderTotal(env: Env)
    requires Ready(env)
    ensures Total(Responder(env))
    ensures forall uri :: Responder(env)(uri) == Respond(env, uri)
  {
  }

  /** A responder that answers every target. */
  ghost predicate Total(respond: string --> HttpResponse) {
    forall uri :: respond.requires(uri)
  }

  /**
   * What HttpServer_ThrFn does with the requests a client sends, given how a
   * request target is answered: the responses it writes, in order, and why
   * it stops. Running out of requests (a failed read) or a close request ends
   * it without writing; a write that does not take the whole response ends
   * it after that response.
   */
  function Serve(respond: string --> HttpResponse, serialize: HttpResponse -> string,
                 requests: seq<HttpRequest>, writes: seq<int>): (seq<HttpResponse>, Stop)
    requires Total(respond)
  {
    if requests == [] then ([], ReadFailed)
    else if AsksClose(requests[0]) then ([], CloseRequested)
    else
      var response := respond(requests[0].uri);
      if writes == [] || writes[0] != |serialize(response)| then ([response], WriteFailed)
      else
        var more := Serve(respond, serialize, requests[1..], writes[1..]);
        ([response] + more.0, more.1)
  }

  /**
   * One response per request read, in order, each the answer to its
   * request's target, none to a close request; and the thread stops for
   * a reason that fits what was read.
   */
  lemma {:induction false} ServeAnswersRequests(respond: string --> HttpResponse, serialize: HttpResponse -> string,
                                                requests: seq<HttpRequest>, writes: seq<int>)
    requires Total(respond)
    ensures var responses, stop := Serve(respond, serialize, requests, writes).0, Serve(respond, serialize, requests, writes).1;
      |responses| <= |requests| &&
      (forall k :: 0 <= k < |responses| ==> !AsksClose(requests[k]) && responses[k] == respond(requests[k].uri)) &&
      (stop == ReadFailed ==> |responses| == |requests|) &&
      (stop == CloseRequested ==> |responses| < |requests| && AsksClose(requests[|responses|])) &&
      (stop == WriteFailed ==> |responses| > 0)
  {
    if requests != [] && !AsksClose(requests[0]) {
      var response := respond(requests[0].uri);
      if writes != [] && writes[0] == |serialize(response)| {
        var later := requests[1..];
        ServeAnswersRequests(respond, serialize, later, writes[1..]);
        var more := Serve(respond, serialize, later, writes[1..]);
        var responses := [response] + more.0;
        assert Serve(respond, serialize, requests, writes) == (responses, more.1);
        forall k | 0 <= k < |responses|
          ensures !AsksClose(requests[k]) && responses[k] == respond(requests[k].uri)
        {
          if k > 0 {
            assert requests[k] == later[k - 1];
            assert responses[k] == more.0[k - 1];
          }
        }
        if more.1 == CloseRequested {
          assert requests[|responses|] == later[|more.0|];
        }
      }
    }
  }

  /**
   * Every response but a last one that failed went out whole: the socket
   * reported its full length.
   */
  lemma {:induction false} ServeWrites(respond: string --> HttpResponse, serialize: HttpResponse -> string,
                                       requests: seq<HttpRequest>, writes: seq<int>)
    requires Total(respond)
    ensures WrittenWhole(serialize, Serve(respond, serialize, requests, writes), writes)
  {
    var s := Serve(respond, serialize, requests, writes);
    if requests != [] && !AsksClose(requests[0]) {
      var response := respond(requests[0].uri);
      if writes != [] && writes[0] == |serialize(response)| {
        ServeWrites(respond, serialize, requests[1..], writes[1..]);
        var more := Serve(respond, serialize, requests[1..], writes[1..]);
        assert s.0 == [response] + more.0 && s.1 == more.1;
        forall k | 0 <= k < |s.0| && (k < |s.0| - 1 || s.1 != WriteFailed)
          ensures k < |writes| && writes[k] == |serialize(s.0[k])|
        {
          if k == 0 {
            assert s.0[0] == response;
          } else {
            assert s.0[k] == more.0[k - 1];
            assert writes[k] == writes[1..][k - 1];
          }
        }
      }
    }
  }

  /** Each response the socket took whole, except a last one whose write failed. */
  predicate WrittenWhole(serialize: HttpResponse -> string, s: (seq<HttpResponse>, Stop), writes: seq<int>) {
    forall k :: 0 <= k < |s.0| && (k < |s.0| - 1 || s.1 != WriteFailed) ==> k < |writes| && writes[k] == |serialize(s.0[k])|
  }

  /** A write failure is the last response's: the socket reported less than its full length, or nothing. */
  lemma {:induction false} ServeWriteFailure(respond: string --> HttpResponse, serialize: HttpResponse -> string,
                                             requests: seq<HttpRequest>, writes: seq<int>)
    requires Total(respond)
    ensures var s := Serve(respond, serialize, requests, writes);
      var n := |s.0|;
      s.1 == WriteFailed ==> n > 0 && (n > |writes| || writes[n - 1] != |serialize(s.0[n - 1])|)
  {
    var s := Serve(respond, serialize, requests, writes);
    if requests != [] && !AsksClose(requests[0]) {
      var response := respond(requests[0].uri);
      if writes != [] && writes[0] == |serialize(response)| {
        ServeWriteFailure(respond, serialize, requests[1..], writes[1..]);
        var more := Serve(respond, serialize, requests[1..], writes[1..]);
        assert s.0 == [response] + more.0 && s.1 == more.1;
        if s.1 == WriteFailed {
          var n, m := |s.0|, |more.0|;
          assert n == m + 1 && s.0[n - 1] == more.0[m - 1];
          if n - 1 < |writes| {
            assert writes[n - 1] == writes[1..][m - 1];
          }
        }
      }
    }
  }

  /** The serialised form of each response, in order. */
  function SerializeAll(serialize: HttpResponse -> string, responses: seq<HttpResponse>): seq<string> {
    if responses == [] then []
    else SerializeAll(serialize, responses[..|responses| - 1]) + [serialize(responses[|responses| - 1])]
  }

  /**
   * HttpServer_ThrFn for a client whose socket will deliver `chunks` and
   * report `writeResults`: the loop of read, close check, answer and write.
   * A request is answered by `respond`; for a server's thread that is
   * Responder(env), which is what ProcessRequest computes. The thread writes
   * exactly the responses Serve gives, and stops for the reason it gives.
   */
  method ServeClient(respond: string --> HttpResponse, chunks: seq<string>, writeResults: seq<int>, serialize: HttpResponse -> string)
    returns (stop: Stop, sent: seq<string>)
    requires Total(respond)
    requires forall i :: 0 <= i < |chunks| ==> 0 < |chunks[i]| <= BufferSize
    ensures var s := Serve(respond, serialize, Requests([], chunks), writeResults);
      stop == s.1 && sent == SerializeAll(serialize, s.0)
  {
    var conn := new HttpConnection(chunks, writeResults, serialize);
    ghost var total := ServeAfter(respond, serialize, [], Requests([], chunks), writeResults);
    ServeAfterNothing(respond, serialize, Requests([], chunks), writeResults);
    ghost var done: seq<HttpResponse> := [];
    while true
      invariant conn.Valid() && conn.serialize == serialize
      invariant ServeAfter(respond, serialize, done, Requests(conn.buffer, conn.chunks), conn.writeResults) == total
      invariant conn.sent == SerializeAll(serialize, done)
      decreases |Requests(conn.buffer, conn.chunks)|
    {
      var ok, request := conn.GetNextRequest();
      if !ok {
        return ReadFailed, conn.sent;
      }
      if HeaderValue(request, "connection") == "close" {
        return CloseRequested, conn.sent;
      }
      var response := respond(request.uri);
      var written := conn.WriteResponse(response);
      SerializeAllSnoc(serialize, done, response);
      done := done + [response];
      if !written {
        return WriteFailed, conn.sent;
      }
    }
  }

  /**
   * Serve resumed after the responses `done` already written: the responses
   * written in all, and why the thread stops.
   */
  function ServeAfter(respond: string --> HttpResponse, serialize: HttpResponse -> string, done: seq<HttpResponse>,
                      requests: seq<HttpRequest>, writes: seq<int>): (seq<HttpResponse>, Stop)
    requires Total(respond)
    decreases |requests|
  {
    if requests == [] then (done, ReadFailed)
    else if AsksClose(requests[0]) then (done, CloseRequested)
    else
      var response := respond(requests[0].uri);
      if writes == [] || writes[0] != |serialize(response)| then (done + [response], WriteFailed)
      else ServeAfter(respond, serialize, done + [response], requests[1..], writes[1..])
  }

  /** Resuming after `done` writes `done` and then what Serve writes, and stops for the same reason. */
  lemma {:induction false} ServeAfterServe(respond: string --> HttpResponse, serialize: HttpResponse -> string, done: seq<HttpResponse>,
                                           requests: seq<HttpRequest>, writes: seq<int>)
    requires Total(respond)
    ensures var s := Serve(respond, serialize, requests, writes);
      ServeAfter(respond, serialize, done, requests, writes) == (done + s.0, s.1)
    decreases |requests|
  {
    if requests == [] || AsksClose(requests[0]) {
      assert done + [] == done;
    } else {
      var response := respond(requests[0].uri);
      if writes != [] && writes[0] == |serialize(response)| {
        ServeAfterServe(respond, serialize, done + [response], requests[1..], writes[1..]);
        var more := Serve(respond, serialize, requests[1..], writes[1..]);
        AppendAssociatesResponses(done, [response], more.0);
      }
    }
  }

  /** Resuming before any response is serving from the start. */
  lemma ServeAfterNothing(respond: string --> HttpResponse, serialize: HttpResponse -> string,
                          requests: seq<HttpRequest>, writes: seq<int>)
    requires Total(respond)
    ensures ServeAfter(respond, serialize, [], requests, writes) == Serve(respond, serialize, requests, writes)
  {
    ServeAfterServe(respond, serialize, [], requests, writes);
    var s := Serve(respond, serialize, requests, writes);
    assert [] + s.0 == s.0;
  }

  lemma AppendAssociatesResponses(a: seq<HttpResponse>, b: seq<HttpResponse>, c: seq<HttpResponse>)
    ensures a + (b + c) == (a + b) + c
  {
  }

  /** Serialising one more response appends its serialised form. */
  lemma SerializeAllSnoc(serialize: HttpResponse -> string, done: seq<HttpResponse>, response: HttpResponse)
    ensures SerializeAll(serialize, done + [response]) == SerializeAll(serialize, done) + [serialize(response)]
  {
    assert (done + [response])[..|done|] == done;
  }
}
