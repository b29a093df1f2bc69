# A verified model of the 333gle search engine core

333gle is a small search engine in two parts:

- a query engine that answers AND queries over one or more index files ("shards");
- an HTTP front end that serves a search page and static files.

This project models the sequential logic of both parts in Dafny and proves what that logic promises:

- **Query engine** (`query_processor.dfy`, module `QueryProcessing`).
  - A shard is an index (word to posting list) and a doc table (doc id to name).
  - `Intersection`, `MultiTermIntersection`, `AddMatchingDocuments` and `QueryProcessor.ProcessQuery` are methods with the source's loops. Each is proved equal to a specification function: `Intersect`, `ShardMatches`, `Named`, and `SortResults` of `Gathered`.
  - Lemmas about those functions establish:
    - membership (a document matches exactly when every query word mentions it);
    - rank as a sum of one count per word;
    - a missing word empties the shard;
    - later duplicates are ignored;
    - the result is sorted, is a permutation of the shards' results, and is the only sorted arrangement of them.
- **Connection** (`http_connection.dfy`, module `HttpConnections`).
  - `HttpConnection` is a class whose `buffer` field holds bytes read but not yet handed out as a request.
  - The socket is modelled as the chunks its reads will deliver and the counts its writes will report.
  - `GetNextRequest` is proved against `Frame`, a function of the old buffer and the chunks still unread:
    - it reads no more than it needs;
    - it hands the parser the bytes up to and including the first `\r\n\r\n`;
    - it keeps exactly the bytes after it.
  - `Requests` is the sequence of requests a client's input frames into. `RequestsPipelined` shows that back-to-back requests are read one after the other.
  - `ParseRequest` is proved equal to `RequestOf`: the request-target rule and the header-line rules.
  - Lemmas about `RequestOf` show that stored names are lower-case and trimmed, stored values trimmed, and that the last line giving a name decides its value. Worked examples fix the rules on concrete lines.
- **Server** (`http_server.dfy`, module `HttpServer`).
  - Routing on the `/static/` prefix (`ProcessRequest`), the static-file handler (`FileResponse`), `GetContentType`, and the search page (`ProcessQueryRequest`, `AppendSearchResults`).
  - The serving thread's loop (`ServeClient`) is proved to write exactly the responses `Serve` computes from the client's requests, and to stop for the reason `Serve` gives.
  - Lemmas about `Serve` state:
    - one response per request read, none to a close request;
    - every response but a failed last one was written whole.
- **Linked list** (`linked_list.dfy`, module `LinkedLists`).
  - The doubly-linked list and its iterator are classes over `Node` objects.
  - The ghost sequence `nodes` gives the nodes in list order and `Contents` gives their payloads.
  - Push, Pop, Append, Slice, bubble Sort, and the iterator's Next, Get, Remove and Rewind are each stated as a change of `Contents`.
  - Every operation keeps the invariant: the count equals the chain length, the head is null exactly when the list is empty, and prev/next links agree.
- **Local shell** (`file_search_shell.dfy`, module `FileSearchShell`).
  - `ToLowerCase` is a method over an `array<char>`.
  - `ParseQuery` is proved equal to `Words`, the maximal runs of non-space characters.
  - `ProcessAndDisplayQueryResults` prints one line per result in order, or the no-results line.
- **String helpers** (`strings.dfy`, module `Strings`).
  - The C++ and Boost string operations the core relies on: `tolower`, `trim`, `find`, `rfind`, `boost::split` with and without `token_compress_on`, and `std::to_string`.

The collaborators whose code is not part of this model are given functions:

- `URLParser`, `FileReader::ReadFile` and `EscapeHtml`, as fields of `HttpServer.Env`;
- `HttpResponse::GenerateResponseString`, as the connection's `serialize`.

The index readers are maps inside `QueryProcessing.Shard`.

## Model

| member | source | states |
|---|---|---|
| QueryProcessing.Intersection | hw3/QueryProcessor.cc:111-135 | The nested loops build exactly `Intersect(list1, list2)`: one entry per element of list1, in list1's order, for each element whose document occurs in list2, with the two counts added. |
| QueryProcessing.Intersect | hw3/QueryProcessor.cc:119-131 | The intersection has at most one entry per element of the first list. |
| QueryProcessing.IntersectSplit | hw3/QueryProcessor.cc:119-131 | Each element of the first list contributes independently: the intersection distributes over concatenation of the first list. |
| QueryProcessing.IntersectDocs | hw3/QueryProcessor.cc:119-131 | A document is in the intersection exactly when it is in both lists. |
| QueryProcessing.IntersectEntries | hw3/QueryProcessor.cc:123-129 | Every entry is an element of the first list whose count is raised by the count of the first posting of the same document in the second list. |
| QueryProcessing.IntersectIgnoresLaterDuplicate | hw3/QueryProcessor.cc:121-129 | Appending a posting for a document already in the second list leaves the intersection unchanged: the `break` ignores later duplicates. |
| QueryProcessing.IntersectEmpty | hw3/QueryProcessor.cc:119-131 | Nothing intersects an empty running list. |
| QueryProcessing.IntersectDistinct | hw3/QueryProcessor.cc:119-131 | A first list without repeated documents gives an intersection without repeated documents. |
| QueryProcessing.FindDoc | hw3/QueryProcessor.cc:121-123 | The first position of a document in a posting list, None exactly when it is absent, with no earlier position holding it. |
| QueryProcessing.MultiTermIntersection | hw3/QueryProcessor.cc:137-172 | The loop returns `ShardMatches(query, index)`. It starts from the first word's postings, or nothing when the word is absent. It intersects each later word's postings with the running list, clears the list and stops at a missing word, and stops early once the list is empty. |
| QueryProcessing.NarrowEmpty | hw3/QueryProcessor.cc:165-168 | Once the running list is empty, no later word refills it, so the early exit changes nothing. |
| QueryProcessing.ShardMatchesDocs | hw3/QueryProcessor.cc:137-172 | A document matches in a shard exactly when every query word is in the index and its postings mention the document. |
| QueryProcessing.MissingWordEmptiesShard | hw3/QueryProcessor.cc:140-143 | Any query word missing from the shard's index, the first included, empties the shard's matches. |
| QueryProcessing.ShardMatchesRank | hw3/QueryProcessor.cc:146-169 | When no query word's posting list repeats a document, each match's count is the sum over the query words of that document's count for the word. |
| QueryProcessing.ShardMatchesDistinct | hw3/QueryProcessor.cc:146-169 | When no query word's posting list repeats a document, neither do the shard's matches. |
| QueryProcessing.AddMatchingDocuments | hw3/QueryProcessor.cc:174-189 | The results grow only at the end. What is appended is `Named(matching, docTable)`: the matches whose doc id has a name, in order. |
| QueryProcessing.NamedMembers | hw3/QueryProcessor.cc:181-187 | A result is appended exactly when some match's doc id has that name in the doc table, and its rank is that match's count. |
| QueryProcessing.GatheredMembers | hw3/QueryProcessor.cc:96-104 | A merged result is exactly a named match of some shard. |
| QueryProcessing.StrLeTotal | hw3/QueryProcessor.cc:107 | The string order used by the sort is total. |
| QueryProcessing.StrLeAntisymmetric | hw3/QueryProcessor.cc:107 | The string order used by the sort is antisymmetric. |
| QueryProcessing.StrLeTransitive | hw3/QueryProcessor.cc:107 | The string order used by the sort is transitive. |
| QueryProcessing.ResultLeTotal | hw3/QueryProcessor.cc:107 | The results' order (name, then rank) is total. |
| QueryProcessing.ResultLeAntisymmetric | hw3/QueryProcessor.cc:107 | The results' order is antisymmetric. |
| QueryProcessing.ResultLeTransitive | hw3/QueryProcessor.cc:107 | The results' order is transitive. |
| QueryProcessing.InsertPermutes | hw3/QueryProcessor.cc:107 | Inserting a result adds exactly that result to the multiset. |
| QueryProcessing.InsertSorted | hw3/QueryProcessor.cc:107 | Inserting into a sorted list keeps it sorted. |
| QueryProcessing.SortResultsSpec | hw3/QueryProcessor.cc:106-107 | The sort orders the results and keeps exactly the same results. |
| QueryProcessing.SortedUnique | hw3/QueryProcessor.cc:106-108 | Two sorted lists with the same results are equal, so the output depends only on which results the shards produce, not on their order. |
| QueryProcessing.QueryProcessor.constructor | hw3/QueryProcessor.cc:44-63 | The engine holds one reader pair per index file, and there is at least one. |
| QueryProcessing.QueryProcessor.ProcessQuery | hw3/QueryProcessor.cc:88-109 | A non-empty query returns the sorted concatenation of every shard's named matches. The result is sorted and a permutation of the gathered results. |
| QueryProcessing.ProcessQueryMembers | hw3/QueryProcessor.cc:88-109 | The answer is sorted. A result is in it exactly when some shard has a named match for it, and then every query word's postings in that shard mention the document. |
| HttpConnections.FrameHeader | hw4/HttpConnection.cc:52-58 | The text handed to the parser ends in the header terminator, and that terminator is the first one in the accumulated bytes. |
| HttpConnections.FrameKeepsBytes | hw4/HttpConnection.cc:56-72 | Framing loses and reorders no byte: header, kept bytes and unread chunks together are the old buffer followed by every chunk. The unread chunks are the last ones. |
| HttpConnections.FrameDropped | hw4/HttpConnection.cc:62-70 | A failed call has read every chunk and never met a terminator. |
| HttpConnections.FrameWithoutRead | hw4/HttpConnection.cc:52-59 | A buffer that already holds a terminator is framed without reading anything. |
| HttpConnections.RequestsPipelined | hw4/HttpConnection.cc:45-58 | Two requests sent back to back are read one after the other: the first header's request, then the requests of what follows it. |
| HttpConnections.RequestsNext | hw4/HttpConnection.cc:51-73 | One call yields the first of the client's remaining requests, or finds none left. |
| HttpConnections.HttpConnection.GetNextRequest | hw4/HttpConnection.cc:33-74 | The call succeeds exactly when a terminator is reached before the input ends. On success, the request is the parse of the bytes up to and including the first terminator, and the buffer is exactly the bytes after it. On failure, the input is exhausted. The request returned is the first of the client's remaining requests. |
| HttpConnections.HttpConnection.WriteResponse | hw4/HttpConnection.cc:76-84 | The write succeeds exactly when the socket reports the full serialised length. The serialised response is handed to the socket either way. |
| HttpConnections.ParseRequest | hw4/HttpConnection.cc:86-150 | The loop over the lines builds `RequestOf(request)`. The target is the second space-separated token of the first line, or "/". A line is a header unless it is empty, has no colon, or has its first colon first or last. The name is trimmed and lower-cased and the value trimmed, and a later header overwrites an earlier one. |
| HttpConnections.RequestHeadersClean | hw4/HttpConnection.cc:124-147 | Every stored header name is lower-case with no white space at either end, and every stored value is trimmed. |
| HttpConnections.HeaderOfClean | hw4/HttpConnection.cc:138-143 | A header line yields a lower-case, trimmed name and a trimmed value. |
| HttpConnections.AddHeadersClean | hw4/HttpConnection.cc:124-147 | Adding header lines one after another keeps every name lower-case and trimmed and every value trimmed. |
| HttpConnections.AddHeadersUntouched | hw4/HttpConnection.cc:124-147 | A name that no line gives keeps its earlier value, or stays absent. |
| HttpConnections.AddHeadersLast | hw4/HttpConnection.cc:124-147 | A name gets the value of the last line that gives it. |
| HttpConnections.HeaderLinesLast | hw4/HttpConnection.cc:124-147 | Over the lines after the request line, a header line that no later line overrides sets the value stored under its name. |
| HttpConnections.RequestHeaderLastWins | hw4/HttpConnection.cc:109-147 | In a parsed request, a header line that no later line overrides gives the value found under its lower-cased, trimmed name. |
| HttpConnections.RequestHeaderAbsent | hw4/HttpConnection.cc:109-147 | A name that no header line gives reads as the empty string. |
| HttpConnections.IndexOfAt | hw4/HttpConnection.cc:131 | `find(':')` returns k when the character at k is the first colon. |
| HttpConnections.HeaderLineExample | hw4/HttpConnection.cc:131-146 | `Name:value` is stored as the header `name` with value `value`. |
| HttpConnections.HeaderLineSpaced | hw4/HttpConnection.cc:131-146 | `Host: x` is stored as `host` with value `x`, because the blank after the colon is trimmed. |
| HttpConnections.HeaderLineEmptyName | hw4/HttpConnection.cc:132-134 | `: emptyname` is skipped, because its colon is the first character. |
| HttpConnections.HeaderLineNoColon | hw4/HttpConnection.cc:131-134 | `BadHeaderNoColon` is skipped, because it has no colon. |
| HttpConnections.HeaderLineNoValue | hw4/HttpConnection.cc:132-134 | `Host:` is skipped, because its colon is the last character. |
| HttpConnections.RequestLineExample | hw4/HttpConnection.cc:115-119 | The request line `GET /x HTTP/1.1` gives the target `/x`. |
| HttpConnections.RequestLineBare | hw4/HttpConnection.cc:115-119 | A request line with one token leaves the target `/`. |
| HttpServer.SubstrPrefix | hw4/HttpServer.cc:177 | Comparing `substr(0, n)` with an n-character string is exactly the prefix test. |
| HttpServer.ProcessRequest | hw4/HttpServer.cc:173-183 | A target starting with `/static/` gets the file response; every other target gets the search page. |
| HttpServer.RespondCodes | hw4/HttpServer.cc:173-310 | Every response is HTTP/1.1 200 "OK", except a `/static/` request whose file cannot be read, which is 404, and only that. |
| HttpServer.StaticFileNameOfPath | hw4/HttpServer.cc:219-221 | The file named by `/static/f` is exactly f. |
| HttpServer.FileResponse | hw4/HttpServer.cc:185-247 | A readable file is answered 200 with its contents as body and the content type of its name. An unreadable one is answered 404 "Not Found" with a body naming the escaped file name. |
| HttpServer.StaticRequest | hw4/HttpServer.cc:177-178 | Requesting `/static/f`, when the URL parser keeps the path, serves file f of the base directory or the 404 page naming f. |
| HttpServer.ContentType | hw4/HttpServer.cc:312-331 | The type is one of the table's values or the default `text/plain`. |
| HttpServer.ExtensionsShape | hw4/HttpServer.cc:313-319 | Every extension in the table is a dot followed by dot-free text. |
| HttpServer.ContentTypeOfExtension | hw4/HttpServer.cc:321-327 | A name ending in a listed extension gets that extension's type. |
| HttpServer.ContentTypeUnknown | hw4/HttpServer.cc:321-330 | A name ending in no listed extension gets `text/plain`. |
| HttpServer.QueryWords | hw4/HttpServer.cc:288-290 | Splitting the terms always yields at least one word, so the engine's non-empty precondition always holds on this route. |
| HttpServer.SearchTermsClean | hw4/HttpServer.cc:283-290 | The cleaned terms have no upper-case letter and no white space at either end. Unless they are empty, every word is non-empty and contains no space. |
| HttpServer.LocalLinkServesFile | hw4/HttpServer.cc:356-358 | A local document's link goes through routing to the file handler, and names the document's path without its first 12 characters. |
| HttpServer.UrlLinksToItself | hw4/HttpServer.cc:356-361 | A document named by an `http://` URL links to itself and shows itself. |
| HttpServer.SummaryCount | hw4/HttpServer.cc:346-349 | The summary's number reads back as the result count, and "result" takes an "s" exactly when there are several. |
| HttpServer.AppendSearchResults | hw4/HttpServer.cc:333-371 | Only appends to the body. An empty list gives the no-results notice. Otherwise it appends the summary, one entry per result in order, and the list's end. |
| HttpServer.AppendEntries | hw4/HttpServer.cc:351-368 | The loop appends one entry per result, in order. |
| HttpServer.EntryFor | hw4/HttpServer.cc:353-367 | A name without `http://` is linked under `/static/` and shown without its first 12 characters. A URL is linked and shown as it is. |
| HttpServer.ResultsLinkable | hw4/HttpServer.cc:294-298 | Every result the engine returns names a linkable document. |
| HttpServer.ProcessQueryRequest | hw4/HttpServer.cc:249-310 | The body is the landing page, then the results section when the target contains `query?terms=`, then the closing tags. The response is 200 "OK". |
| HttpServer.QueryPageShape | hw4/HttpServer.cc:276-302 | The search page always opens with the landing page and closes the document. There is something between them exactly when the target holds a query. |
| HttpServer.PageFrame | hw4/HttpServer.cc:276-302 | A page made of opening, middle and ending starts and ends with them, and is opening plus ending exactly when the middle is empty. |
| HttpServer.ResponderTotal | hw4/HttpServer.cc:161-162 | For a ready server, the responder answers every target as ProcessRequest does. |
| HttpServer.ServeAnswersRequests | hw4/HttpServer.cc:147-168 | At most one response per request read, in order, each the answer to its request's target, none to a close request. Running out of requests, a close request, or a failed write is the reason the thread stops, and the counts fit that reason. |
| HttpServer.ServeWrites | hw4/HttpServer.cc:161-167 | Every response but a last one whose write failed went out whole. |
| HttpServer.ServeWriteFailure | hw4/HttpServer.cc:165-166 | A write failure is the last response's: the socket reported less than its full length, or nothing. |
| HttpServer.ServeAfterServe | hw4/HttpServer.cc:147-168 | Resuming the loop after some responses writes those, then what a fresh start would write, and stops for the same reason. |
| HttpServer.ServeClient | hw4/HttpServer.cc:124-171 | The thread writes exactly the serialised responses `Serve` gives for the requests the client's input frames into, in order, and stops for the reason `Serve` gives. |
| LinkedLists.LinkedList.constructor | hw1/LinkedList.c:23-35 | A new list is empty: count 0, no head, no tail. |
| LinkedLists.LinkedList.NumElements | hw1/LinkedList.c:56-59 | The count is the number of payloads. |
| LinkedLists.LinkedList.Push | hw1/LinkedList.c:61-91 | The payloads become `[payload] + old`, through one new node at the head, and the invariant is kept. |
| LinkedLists.LinkedList.Pop | hw1/LinkedList.c:93-127 | An empty list gives false and is unchanged. Otherwise the call returns the head payload and the payloads become `old[1..]`. |
| LinkedLists.LinkedList.Append | hw1/LinkedList.c:129-165 | The payloads become `old + [payload]`, through one new node at the tail. |
| LinkedLists.LinkedList.Slice | hw1/LinkedList.c:315-344 | An empty list gives false and is unchanged. Otherwise the call returns the tail payload and the payloads lose their last element. |
| LinkedLists.LinkedList.Sort | hw1/LinkedList.c:167-199 | The payloads are a permutation of the old ones, sorted under the comparator: non-decreasing when ascending, non-increasing otherwise. The nodes stay the same. |
| LinkedLists.LinkedList.BubblePass | hw1/LinkedList.c:178-197 | One pass keeps the payloads as a permutation and settles one more element at the end. A pass that swaps nothing leaves a sorted list. |
| LinkedLists.LinkedList.SwapWithNext | hw1/LinkedList.c:189-194 | Swapping two neighbouring payloads swaps the two elements of the payload sequence. |
| LinkedLists.LinkedList.Unlink | hw1/LinkedList.c:298-301 | Splicing out an inner node removes exactly its payload. |
| LinkedLists.SortedAscending | hw1/LinkedList.c:185-188 | A list sorted ascending has `cmp(a, b) <= 0` for every earlier a and later b. |
| LinkedLists.SortedDescending | hw1/LinkedList.c:185-188 | A list sorted descending has `cmp(a, b) >= 0` for every earlier a and later b. |
| LinkedLists.LinkedList.ChainEnds | hw1/LinkedList.c:287-292 | Only the first node has no predecessor, and only the last has no successor. |
| LinkedLists.LLIterator.constructor | hw1/LinkedList.c:205-217 | A new iterator is at the head. |
| LinkedLists.LLIterator.IsValid | hw1/LinkedList.c:224-229 | The iterator is valid exactly when it is on an element. |
| LinkedLists.LLIterator.Next | hw1/LinkedList.c:231-250 | The iterator moves one step. The answer is false exactly when it moved past the last element. |
| LinkedLists.LLIterator.Get | hw1/LinkedList.c:252-258 | Returns the payload under the iterator. |
| LinkedLists.LLIterator.Remove | hw1/LinkedList.c:260-309 | Removes exactly the current payload and returns it for freeing. The answer says whether the list is still non-empty. The iterator stays on the successor's index, or moves to the new tail when the tail was removed. |
| LinkedLists.LLIterator.Rewind | hw1/LinkedList.c:346-348 | The iterator goes back to the head. |
| FileSearchShell.ToLowerCase | hw3/filesearchshell.cc:135-139 | The array holds the lower-cased old contents, character by character. |
| Strings.LowerIdempotent | hw3/filesearchshell.cc:135-139 | Lower-casing twice is lower-casing once. |
| Strings.LowerHasNoUpper | hw3/filesearchshell.cc:135-139 | Lower-casing keeps the length, leaves no upper-case letter, and changes no other character. |
| FileSearchShell.ParseQuery | hw3/filesearchshell.cc:106-114 | The extraction loop returns `Words(userQuery)`, the maximal runs of non-space characters, in order. |
| FileSearchShell.WordsWellFormed | hw3/filesearchshell.cc:110-111 | Every extracted word is non-empty and contains no white space. |
| FileSearchShell.WordsKeepOrder | hw3/filesearchshell.cc:108-112 | The words, concatenated, are the line with its white space removed. |
| FileSearchShell.WordsOfJoin | hw3/filesearchshell.cc:108-112 | Joining well-formed words with single spaces and parsing the result gives the words back. |
| FileSearchShell.WordsJoinCollapse | hw3/filesearchshell.cc:106-114 | Joining the words with single spaces gives the line trimmed, with each inner run of white space collapsed to one space (`Collapse`, defined by a scan of the characters). |
| FileSearchShell.WordsOfTrim | hw3/filesearchshell.cc:106-114 | White space at either end of the line does not change its words. |
| FileSearchShell.WordsEmptyIff | hw3/filesearchshell.cc:106-114 | The word list is empty exactly when the line is all white space. |
| FileSearchShell.DisplayResults | hw3/filesearchshell.cc:121-133 | One line per result in the order given, or the single `" [no results]"` line exactly when there are none. |
| FileSearchShell.ProcessAndDisplayQueryResults | hw3/filesearchshell.cc:116-128 | An empty word list fails the engine's precondition and aborts. Otherwise the engine's answer is displayed. |
| FileSearchShell.HandleQueryLine | hw3/filesearchshell.cc:93-104 | A typed line aborts the shell exactly when it is all white space. Otherwise the answer to its lower-cased words is displayed. |
| Strings.Find | hw4/HttpConnection.cc:52 | `std::string::find`: the first occurrence, None exactly when there is none. |
| Strings.LastIndexOf | hw4/HttpServer.cc:321 | `rfind`: the last position of the character, None exactly when it is absent. |
| Strings.TrimSpec | hw4/HttpConnection.cc:141-142 | `trim` removes white space from both ends only: the result is a slice with white space on either side, starting and ending with a non-space. |
| Strings.SplitFieldsFree | hw4/HttpConnection.cc:109 | `boost::split` yields fields free of the delimiters. |
| Strings.JoinSplit | hw4/HttpConnection.cc:109 | Joining the fields of a split with the delimiter gives the string back. |
| Strings.SplitCompressedFields | hw4/HttpServer.cc:289-290 | Splitting trimmed, non-empty terms with `token_compress_on` yields non-empty, space-free words. |
| Strings.ParseNatToString | hw4/HttpServer.cc:347 | `std::to_string` of a count reads back as that count. |

## Left out

- Sockets, the accept loop in `HttpServer::Run`, the thread pool, `hw4/ServerSocket.cc` and `hw4/http333d.cc` are not part of this model: they are OS plumbing and concurrency.
- `hw2/searchshell.c` is not part of this model.
- The interactive stdin loop of the local shell (`RunInteractiveShell`, `GetUserQueryInput`) is not modelled. One turn of it is `HandleQueryLine`.
- Memory management is not modelled: `free`, `delete`, payload free functions and allocation failure. `LLIterator.Remove` returns the removed payload instead of calling a free function.
- The collaborators are given functions, not models:
  - `URLParser`, `FileReader`, `EscapeHtml` and `HttpResponse::GenerateResponseString`;
  - the index readers, as maps;
  - `WrappedRead` and `WrappedWrite`, as the chunks a read returns and the counts a write reports.
- Connection: a read that reports an error is treated like end of input, since both make `GetNextRequest` fail.
- `HttpRequest::AddHeader` is taken to overwrite an earlier value of the same name, and `GetHeaderValue` to give "" for a missing name.
- The `QueryResult` order is taken to be the one the results are sorted by: document name, then rank. `std::sort` is modelled by its outcome, as `SortResults`, an insertion sort. Sorted output with the same multiset is unique, so any correct sort gives the same list.
- QueryProcessing.ShardMatchesRank: the rank-as-a-sum property is stated only when no query word's posting list repeats a document. With repeats, the code emits one entry per repeat in the newer word's list and uses the first match in the running list. The model follows the code in that case: with repeats, a document can appear, and be counted, more than once.
- Counts are unbounded integers: the 32-bit wrap-around of `int32_t total_positions` is not modelled.
- LinkedLists.LinkedList.Sort: the comparator must be consistent and transitive (`Comparator`). The source does not check this, and for other comparators the model says nothing about the result. For such a comparator the source's `do … while (swapped)` loop (hw1/LinkedList.c:176-198) need not end: with two or more elements and a comparator that always returns 1, sorting ascending swaps every adjacent pair on every pass, so `swapped` is never 0. The model's termination proof rests on the `Comparator` requirement.
- HttpServer.AppendSearchResults: a result whose name is neither an `http://` URL nor at least 12 characters long makes `substr(12)` throw. The model requires every document name in the shards to be linkable (`Ready`, `AllLinkable`) instead of modelling the exception.
- HttpServer.ServeClient: the loop takes the function that answers a request target as a parameter. For a server's thread that function is `Responder(env)`, which `ResponderTotal` shows equal to `Respond`, the function `ProcessRequest` is proved to compute. The loop body does not call the `ProcessRequest` method itself.
- HttpServer.AppendEntries and HttpServer.EntryFor are the loop and the loop body of `AppendSearchResults`, split into their own methods.
- The exact landing-page markup (`kThreegleStr`) is copied as a constant. No property depends on its text beyond its being the page's opening.
