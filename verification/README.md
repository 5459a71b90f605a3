# hSS, verified

hSS is a small HTTP server in C. This project models the three parts of it that carry the proof obligations, and proves
what they promise, up to whole runs of a connection.

* **Messages** (`http.c`). `RequestSyntax` says what the parser answers for a sequence of bytes; `Requests` is the
  parser as it runs, scanning loops, linked header list and request object included, proved against it. `HeaderLists` is
  the sorted list that is changed in place, `Fields` the same list as a value and as a map. `ResponseSyntax` and
  `Responses` do the same for the response: the calls that build it, the measuring and the writing pass.
  `PrefixTheorem`, `FieldLines`, `Outcomes`, `RoundTrip`, `Completable` and `ResponseTheorems` hold the theorems.
* **Ranges** (`http_hl.c`, and the arithmetic around it in `server.c`). `RangeSyntax` and `Ranges` are specification and
  loops, `RangeTheorems` and `RangeArithmetic` say what the answer means, `FileServing` turns it into a response, up to
  the bytes that a connection sends for a file.
* **Connections** (`server.c`). `Transport` stands for `recv` and `send` as arbitrary scripts, `ConnectionSteps` is one
  epoll event as a function, `Connections` is `handle_connection` with its pages, its growing buffer and its two loops,
  `StepOutcomes` says what an event does in terms of what the socket does, `ConnectionRuns` proves what holds of every
  sequence of events, `Conversations` what is sent for several requests in turn, and `EventLoop` that a connection
  object does the same over any number of events. `Authorization` is the packing of the random code. `Literals` spells
  out constants, tables and whole messages.

Memory is modelled as follows. Text is a sequence of bytes 0 to 255; `isspace` is true of 9 to 13 and 32. A `const char
*` argument is a `CString`, a text without NUL. The parser is given the memory from its buffer on, in which some NUL
lies behind the buffer; what else lies there is arbitrary. Objects that the source changes in place are classes, its
buffers are arrays. `size_t` is a natural number, except where the source relies on its wrapping around, which is
written out modulo 2 to the 64th. Asserts count as compiled out; all that is required is that the code does not read
behind the end of a string. A transaction is a function from the parsed request to the calls that it makes on the
response.

## Where code and documentation disagree

* `http_hl.h:13` promises that adjacent ranges are merged silently. Upwards the whole chain is; downwards only one range
  is, since the scan is ascending. `RangeTheorems.MergedCompletelyBelowIff` gives the exact condition, and
  `RangeArithmetic.DownwardMergeStopsShort` the example `bytes=20-29,10-19,5-9`, which is answered with the bytes 10
  to 29.
* A range should lie in the file, where section 14.1.2 of RFC 9110 has a last position behind the end stand for the end.
  `http_hl.c:23` does not clamp it, and `server.c:370` copies as many bytes. `RangeArithmetic.AnswerBehindFileIff` says
  for every header when the answer ends behind the file, `RangeArithmetic.LastPositionIsNotClamped` gives the example
  `bytes=0-99` for a file of 10 bytes, which is answered with the bytes 0 to 99.
* A Content-Range describes a partial answer (section 14.4 of RFC 9110). `server.c:377-379` does not remove one that an
  earlier answer left in the response object, which is never cleared: a 200 comes without Content-Range exactly if the
  object held none (`FileServing.WholeHasNoContentRangeIff`). `FileServing.StaleContentRange` gives the example of
  `bytes=0-4` followed by a request without Range, answered with the whole file as bytes 0 to 4.
* `http_hl.h:14-16` promises the full range for erroneous specifiers. Without asserts only numbers that denote no byte
  count as errors, which `RangeArithmetic.RefusedIff` says exactly; `bytes=abc` is answered like `bytes=0-`, as a part
  (`RangeArithmetic.MalformedIsAnswered`).
* `http_hl.c:87-90` claims that sorted ranges have increasing ends. They have exactly if no listed range lies inside
  another one and starts behind it (`RangeTheorems.EndsIncreaseIff`); `bytes=0-9,2-3` is an example
  (`RangeArithmetic.EndsCanDecrease`). The overlap test is complete all the same (`RangeTheorems.NeighboursSuffice`).
* `http.c:191` says that only GET is supported. The comparison accepts every prefix of `GET`, the empty one included,
  and `GET` followed by a NUL and anything (`RequestSyntax.MethodMatchesIsStrncmp`). An accepted request is a GET
  request exactly if its method has three bytes (`RoundTrip.AcceptedIsGetIff`); a space, `/`, a space, `1` and two CRLF
  are accepted without any method (`RoundTrip.NoMethodIsAccepted`).
* `http.h:70-79` says that the reported length is that of the content. For a URL that holds a NUL it is the length of
  the stored URL, while the copy ends at the NUL: the two agree exactly for URLs without NUL
  (`Requests.HttpRequest.GetUrl`), and the URL `/` and NUL is one that is accepted (`RoundTrip.UrlWithNulIsAccepted`).
* `server.c:420-427` closes the connection at the end of the stream only if the event has read nothing before it, and
  else reads on. The end of a stream stays, so that the loop does not end: `Connections.LoopEndsIff` says exactly when
  an event ends, `Connections.EndBehindDataIsReadForEver` gives the example of one byte and then the end.
* "Incomplete" reads as if more bytes could help. They cannot always: `Completable.WaitingPaysOffIff` says exactly when
  they can, `Completable.SomeWaitingIsInVain` gives a buffer for which nothing can.

## Model

| member | source | states |
|---|---|---|
| CStrings.CStr | http.c:335 | the longest prefix without NUL: it ends at the end of the memory or before a NUL |
| CStrings.CStrIsWholeIff | http.c:335 | the length of a text is that of its C string exactly if the text holds no NUL |
| CStrings.StrcmpZero | http.c:28-31 | comparing gives 0 exactly for equal strings |
| CStrings.StrcmpFlip | http.c:28-31 | swapping the arguments swaps the sign |
| CStrings.StrcmpTransitive | http.c:28-31 | the order by `strcmp` is transitive, so that a list can be sorted by it |
| CStrings.StrcmpFirstDifference | http.c:28-31 | the order is that of the bytes, as numbers from 0 to 255, at the first difference |
| CStrings.StrcmpPrefix | http.c:28-31 | a proper prefix is below the longer text |
| CStrings.PutMeans | http.c:488-491 | written bytes are where they were written, and every other byte is as before |
| CStrings.DecimalRoundTrip | http.c:459-460 | the printed length read as a number is the length |
| CStrings.DecimalIsShortest | http.c:459-460 | the printed number has no leading zero |
| Fields.Position | http.c:27-30 | where the walk stops: every key before is below the name, the next one is not |
| Fields.SearchIsComplete | http.c:27-36 | the early-stopping search of a sorted list finds a key if and only if it is there |
| Fields.LookupRefinesMap | http.c:328-334 | searching the list is looking up the map it stands for |
| Fields.InsertRefinesMap | http.c:39-50 | insertion is refused exactly for keys that are present, and else adds one entry, keeps the order and touches no other entry |
| Fields.SetRefinesMap | http.c:427-448 | setting a header is a map update that leaves every other entry alone and keeps the order |
| Fields.SetCommutes | http.c:427-448 | two different headers can be set in either order |
| Fields.SortedUnique | http.c:40-48 | a sorted list is determined by its members |
| Fields.MapDeterminesList | http.c:40-48 | two sorted lists that stand for the same map are the same list |
| HeaderLists.HeaderList.Find | http.c:24-37 | the walk along the links returns the node with the key, or null, and the link where it belongs |
| HeaderLists.HeaderList.LinkAt | http.c:47-48 | the two assignments splice the node in at that place; the list stays acyclic, its nodes distinct |
| HeaderLists.HeaderList.Insert | http.c:39-50 | in-place insertion refines the insertion on values; a refused node changes nothing |
| HeaderLists.HeaderList.ReplaceValue | http.c:434-437 | only the value of that one node changes |
| HeaderLists.HeaderList.Set | http.c:431-447 | replaces or adds in place exactly as on values |
| CStrings.StrncmpZeroIff | http.c:192 | strncmp gives 0 exactly for texts that agree up to its limit or up to a NUL that both have before it |
| RequestSyntax.MethodMatchesIsStrncmp | http.c:192 | the tokens taken for GET are exactly those for which strncmp with the token's own length finds no difference: the prefixes of GET, the empty one too, and GET followed by a NUL and anything |
| RequestSyntax.NonBlankLength | http.c:168-173 | a maximal run of bytes that are not whitespace |
| RequestSyntax.BlankLength | http.c:159-167 | a maximal run of whitespace |
| RequestSyntax.LineLength | http.c:174-183 | the position of the first CRLF, or that there is none |
| RequestSyntax.ColonIndex | http.c:239 | the first colon, with no colon and no NUL before it |
| RequestSyntax.TrimRight | http.c:257-259 | a prefix that ends in a visible byte, cut off before whitespace only |
| Requests.RangeNonBlank | http.c:168-173 | the scanning loop stops behind the maximal run in the buffer, and does nothing behind the buffer |
| Requests.SkipWhitespaces | http.c:159-167 | the skipping loop stops behind the whitespace of the buffer and reports when it consumed the last byte; only at the end of the buffer does it run on, and not past the NUL behind it |
| Requests.RangeLine | http.c:174-183 | finds the first CRLF at or behind the start, and reports incompleteness exactly if there is none |
| Requests.HasWhitespace | http.c:243-248 | tells whether the name holds whitespace |
| Requests.SkipLeading | http.c:254-256 | moves past the leading whitespace and not past the end of the value |
| Requests.DropTrailing | http.c:257-259 | moves back over the trailing whitespace and not before the start of the value |
| Requests.ColonIsInLine | http.c:239-252 | a colon that survives the scan for whitespace lies inside the line, though `strchr` may look further |
| Requests.ParseFieldLine | http.c:238-262 | one round of the header loop finds the field of the line in memory or rejects it, as specified |
| Requests.FieldInMemory | http.c:239-252 | the field of a line does not depend on the memory behind the buffer, though `strchr` may search there |
| Requests.NextToken | http.c:196-213 | whitespace and token as specified for the bytes of the buffer, whatever lies behind them |
| Requests.ParseStartLine | http.c:187-228 | the code before the header loop decides exactly the buffers that the specification decides there, and leaves the rest to the header section |
| Requests.HttpRequest.ParseHeaderLoop | http.c:231-289 | the header loop with its list in place gives the specified answer and list, and each round moves the cursor on |
| Requests.HttpRequest.FromBuffer | http.c:143-296 | each code is given exactly under a condition on the bytes of the buffer that does not mention the parser, whatever lies behind the buffer in memory and whatever an earlier call left in the object; URL, version and headers in the object are then those parts of the buffer |
| Requests.HttpRequest.constructor | http.c:131-140 | a fresh request is initialized and empty |
| Requests.HttpRequest.Destroy | http.c:345-359 | any request becomes an initialized and empty one |
| Requests.HttpRequest.Read | server.c:270-280 | what a transaction can find in a request: the tokens and the list as parsed |
| Requests.HttpRequest.GetUrl | http.c:305-319 | measuring, refusal and copying, with the exact lengths and the rest of the buffer untouched; the reported length is that of the copied string exactly if the URL holds no NUL |
| Requests.HttpRequest.Walk | http.c:328-334 | the walk with its own early stop ends at the header of that name exactly if the map has one |
| Requests.HttpRequest.GetHeader | http.c:321-343 | answers for exactly the names in the map: measures, refuses or copies the value as a C string; a failing call writes nothing |
| Requests.GetRequestHeader | server.c:260-268 | null exactly if the header is missing; otherwise the second call always succeeds and the buffer holds the value and its NUL |
| Requests.CodeMeans | http.c:143-296 | the error code and the condition on the bytes for which it is given, for all five |
| Outcomes.FieldOfLineIff | http.c:238-262 | a line holds a field if and only if it is a name without colon, NUL and whitespace, a colon, and a value that is not empty, with any whitespace around it |
| Outcomes.SectionDecided | http.c:231-289 | the first line that holds no field or repeats a name decides; if there is none, the empty line and what follows it |
| Outcomes.SectionOutcomeIff | http.c:231-289 | each answer of the header loop as an if-and-only-if on lines and tail of the header section |
| Outcomes.UnsupportedIff | http.c:190-195 | the method is refused if and only if strncmp of GET with the bytes before the first whitespace is not 0 |
| Outcomes.StartedIsParsed | http.c:187-228 | with method, URL and version in place, what follows them decides, and they are the request line |
| Outcomes.OutcomeIff | http.c:143-296 | unsupported method, syntax error, duplicate key, incomplete and accepted: each answer if and only if its condition on the bytes holds, for all bytes |
| PrefixTheorem.FieldIsInLine | http.c:238-252 | a field depends on its own line only |
| PrefixTheorem.FieldsStable | http.c:230-286 | once decided, the answer of the header loop does not change when bytes follow, except that an accepted section becomes invalid |
| PrefixTheorem.DecisionsAreFinal | http.c:143-296 | every rejection stands with its error code however many bytes follow, and an accepted request followed by anything is invalid |
| PrefixTheorem.PrefixesAreIncomplete | http.c:143-296 | every proper prefix of an accepted request is incomplete |
| PrefixTheorem.AcceptedRequestsArePrefixFree | http.c:143-296 | no accepted request is a proper prefix of another |
| PrefixTheorem.RejectionsAreHopeless | server.c:495-501 | a 400 is answered only to bytes that no continuation makes acceptable |
| Completable.WaitingPaysOffIff | server.c:495-497 | an incomplete buffer has an acceptable continuation if and only if the stated condition on the buffer holds |
| Completable.SomeWaitingIsInVain | server.c:495-497 | a buffer that is incomplete although no continuation is acceptable |
| Completable.LineCanBeFinished | http.c:231-280 | an unfinished line that meets the condition can be completed to an accepted section |
| Completable.FinishedLineWasHopeful | http.c:231-280 | an unfinished line that was completed to an accepted section met the condition |
| FieldLines.ParseJoined | http.c:231-280 | on lines joined by CRLF the header loop is a fold over the lines |
| FieldLines.FoldIsSorting | http.c:231-280 | the loop accepts with a list exactly if every line holds a field and the list is the sorted arrangement of those fields, all keys distinct |
| FieldLines.SplitRequest | http.c:187-286 | every accepted buffer is a request line, header lines and an empty line |
| FieldLines.AfterRequestLine | http.c:227-231 | behind a request line the answer is that of the header loop |
| FieldLines.HeaderOrderIsIrrelevant | http.c:231-280 | rearranging the header lines of an accepted request gives an accepted request with the identical list |
| RoundTrip.LineParses | http.c:517-522 | a rendered header line is parsed back to its field |
| RoundTrip.BlockParsesBack | http.c:517-524 | a rendered header block is parsed back to exactly the list that was rendered |
| RoundTrip.HeaderBlockRoundTrip | http.c:231-280 | the same behind any request line, as a whole request |
| RoundTrip.AcceptedIsWellFormed | http.c:198-280 | accepted requests have visible tokens and sorted, trimmed, well-formed fields |
| RoundTrip.AcceptedIsGetIff | http.c:190-195 | an accepted request is a GET request if and only if its method has three bytes |
| RoundTrip.NoMethodIsAccepted | http.c:190-195 | a request without any method is accepted |
| RoundTrip.UrlWithNulIsAccepted | http.c:198-207 | a request whose URL holds a NUL is accepted, and its URL as a C string is shorter than the stored one |
| RoundTrip.PrintThenParse | http.c:143-296 | printing and parsing a request gives it back exactly if it is well formed, so the parser produces the well-formed requests and no others |
| RoundTrip.NormalisationIsIdempotent | http.c:198-280 | the canonical form of an accepted buffer has the same URL, version and list, and is its own canonical form |
| ResponseSyntax.StatusText | http.c:395-405 | always three bytes, as the renderer copies; `Literals.NumberIs` says which |
| Responses.HttpResponse.constructor | http.c:373-380 | a fresh response is empty |
| Responses.HttpResponse.SetCode | http.c:407-425 | code and given or default description, nothing else |
| Responses.HttpResponse.SetHeader | http.c:427-448 | the list becomes the updated one, nothing else changes |
| Responses.HttpResponse.SetBody | http.c:450-462 | the body is the given bytes, or those before the NUL, and Content-Length is set to their number |
| Responses.HttpResponse.MeasureResponseSize | http.c:469-486 | the measured size is the number of bytes that rendering writes |
| Responses.CopyAndAdvance | http.c:488-491 | writes the source at the cursor, and nothing else, and moves the cursor behind it |
| Responses.HttpResponse.WriteHeaders | http.c:517-522 | writes the header block contiguously and nothing else |
| Responses.HttpResponse.Write | http.c:508-526 | writes the rendered response to the front of the buffer and leaves the rest untouched |
| Responses.HttpResponse.Render | http.c:493-529 | probing, refusing and writing: the size is exact, a refusal writes nothing, and the response is finalized in each case |
| Responses.HttpResponse.Destroy | http.c:531-536 | the response is empty again |
| ResponseTheorems.CallsKeepAnnouncement | http.c:427-462 | no run of calls that leaves Content-Length alone lets a body differ from its announced length |
| ResponseTheorems.ContentLengthAgrees | http.c:498-526 | after any such run the rendered list holds exactly one Content-Length, the length of the body rendered behind it |
| ResponseTheorems.CallsMean | http.c:407-462 | what each call changes in code, description, body and the map of headers, and that it changes nothing else |
| ResponseTheorems.FinalizingIsIdempotent | http.c:497-501 | the header that a probe may insert does not change what is rendered afterwards |
| ResponseTheorems.SettingOrderIsIrrelevant | http.c:427-448 | different headers can be set in any order, with the same list as the result |
| ResponseTheorems.SameBlock | http.c:517-526 | header block and body can be told apart and read back |
| ResponseTheorems.RenderingIsUniquelyDecodable | http.c:493-529 | two responses that fit on their lines render to the same bytes exactly if code, description, headers and body are the same |
| RangeSyntax.SingleRange | http_hl.c:8-34 | the result is the sentinel or starts below its end, for every specifier that can be read, well formed or not |
| RangeArithmetic.SplitJoined | http_hl.c:60-75 | a list is split into exactly the specifiers that it was joined from |
| RangeArithmetic.JoinSplit | http_hl.c:60-75 | nothing is lost in splitting |
| RangeArithmetic.SpecBeforeComma | http_hl.c:71 | a well-formed specifier is read up to its comma, although the routine is given the rest of the header |
| RangeArithmetic.SpecAsWritten | http_hl.c:66-75 | a well-formed specifier anywhere in a list gives its own range, whatever stands before and behind it |
| RangeArithmetic.ReadAsWritten | http_hl.c:66-75 | a list of well-formed specifiers can be read, and its ranges are those of the specifiers between the commas |
| RangeArithmetic.ReadsNumeral | http_hl.c:19-23 | a decimal numeral is read as its number |
| RangeArithmetic.ReadsSigned | http_hl.c:13-23 | so is one behind whitespace and a sign, with the sign |
| RangeArithmetic.ReadsNothing | http_hl.c:13-23 | without a digit nothing is read |
| RangeArithmetic.IntRange | http_hl.c:15-33 | `a-b` is the bytes a through b, or the sentinel if a is above b, for any a |
| RangeArithmetic.OpenRange | http_hl.c:24-33 | `a-` is everything from a, or the sentinel if there is nothing, for any a |
| RangeArithmetic.SuffixRange | http_hl.c:11-14 | `-n` is the last n bytes; a suffix of 0 or longer than the file wraps around to the sentinel; numbers beyond `long long` are cut to its largest one |
| RangeArithmetic.EndsBehindFileIff | http_hl.c:8-34 | a specifier ends behind the file if and only if it writes out a last position behind the file that is not below its first one |
| RangeArithmetic.AnswerIsProper | http_hl.c:46-107 | the answer is the sentinel or starts below its end, for every header that can be read |
| RangeArithmetic.RefusedIff | http_hl.c:8-34 | a specifier becomes the sentinel if and only if its numbers denote no byte of the file, or none before the last position |
| RangeArithmetic.CombinedBehindFileIff | http_hl.c:76-104 | for every listed ranges: the answer ends behind the file if and only if nothing is empty or overlaps and adjacent ranges lead from the first-listed one to a range that ends there |
| RangeArithmetic.AnswerBehindFileIff | http_hl.c:46-107 | the same for every header that can be read |
| RangeArithmetic.AnswerInFile | http_hl.c:46-107 | a condition read off the specifiers one by one: if none writes out a last position behind the file, the answer lies in the file |
| RangeArithmetic.UnitIff | http_hl.c:52-58 | the list of specifiers is what stands behind whitespace and `bytes=`, and there is none without them |
| RangeArithmetic.OtherUnitIsIgnored | http_hl.c:47-57 | a missing header and one with another unit are answered with the full range |
| RangeArithmetic.LastPositionIsNotClamped | http_hl.c:23 | the example of an answer behind the file |
| RangeArithmetic.IntHeaderIsRead | http_hl.c:46-107 | a header that lists first and last positions is read as exactly the ranges that they denote |
| RangeArithmetic.MalformedIsAnswered | http_hl.c:15-33 | the example of a malformed specifier that is answered as a part |
| RangeArithmetic.DownwardMergeStopsShort | http_hl.c:97-102 | the header for which merging below is not complete |
| RangeArithmetic.EndsCanDecrease | http_hl.c:87-90 | the header whose sorted ranges have decreasing ends |
| RangeTheorems.SortSorts | http_hl.c:77 | sorting gives an ordered rearrangement |
| RangeTheorems.OrderIsUnique | http_hl.c:35-45 | the comparison admits only one order of the same ranges |
| RangeTheorems.OnlyTheFirstPlaceMatters | http_hl.c:76-103 | rearranging every specifier except the first does not change the answer |
| RangeTheorems.NeighboursSuffice | http_hl.c:85-96 | among sorted ranges some neighbours overlap exactly if some two ranges do |
| RangeTheorems.EndsIncreaseIff | http_hl.c:87-90 | sorted ranges have increasing ends if and only if no listed range ends before one that starts before it |
| RangeTheorems.SortedOverlapTestIsComplete | http_hl.c:77-96 | the test on the sorted array fails exactly if a listed range is empty or two listed ones overlap |
| RangeTheorems.FullExactlyWhenRejected | http_hl.c:78-96 | the sentinel is answered exactly in those cases |
| RangeTheorems.MergedExactly | http_hl.c:76-103 | otherwise the answer starts where the range ending at the first-listed one starts, or with the first-listed one, and ends with the whole chain above it |
| RangeTheorems.MergeIsUnique | http_hl.c:76-103 | that description leaves only one possible answer |
| RangeTheorems.AnswerWasAskedFor | http_hl.c:97-102 | every byte of a partial answer lies in a listed range |
| RangeTheorems.MergedCompletelyBelowIff | http_hl.c:97-102 | merging below is complete exactly if no two listed ranges lead down from the first one |
| Ranges.SkipBlanks | http_hl.c:52-54 | stops behind the whitespace |
| Ranges.CountSpecs | http_hl.c:60-65 | the number of specifiers |
| Ranges.SkipSpec | http_hl.c:72-74 | moves past the next comma, or past the NUL and no further |
| Ranges.FillRanges | http_hl.c:66-75 | visits each specifier once, in order, and stores the range that is read there |
| Ranges.QSort | http_hl.c:77 | the array becomes an ordered rearrangement of itself |
| Ranges.MergeRanges | http_hl.c:76-104 | the merging loop over the sorted array |
| Ranges.ParseRange | http_hl.c:46-107 | the whole routine gives the specified answer for every header that can be read, whether or not it meets the assert |
| FileServing.GetRange | server.c:361 | the value of the Range header as a C string, if there is one |
| FileServing.ContentRangeDescribes | server.c:374 | the text is `bytes first-last/size` in decimal, where last is the last byte of the range, not the one behind it |
| FileServing.InFileIffServable | server.c:362-370 | the range that is copied out of the mapping lies in the file if and only if the listed ranges do not lead behind it |
| FileServing.ServeFile | server.c:360-379 | for every request whose range lies in the file, the response object afterwards is the one that the specified calls give |
| FileServing.FileResponseAgrees | server.c:362-379 | body, status and Content-Length of the rendered response agree with the range and the file, whatever the response object held before; a part has a Content-Range that names its first and last byte and the size, the whole file the one that the object held, if any |
| FileServing.WholeHasNoContentRangeIff | server.c:377-379 | a 200 comes without Content-Range if and only if the response object held none |
| FileServing.WholeBehindPart | server.c:373-379 | for every part and every file: the whole file behind a part is sent with the Content-Range of that part |
| FileServing.FirstFiveIsPart | http_hl.c:46-107 | `bytes=0-4` asks for the first five bytes of every file that has them |
| FileServing.StaleContentRange | server.c:373-379 | the example of `bytes=0-4` and then a request without Range |
| FileServing.BothArrive | http.c:143-296 | the two requests of the example are accepted by the parser |
| FileServing.FileIsServed | server.c:388-546 | a request for a file, cut into any bursts, is answered by sending a rendered response that carries the range of the parsed request |
| FileServing.FileCallsLeaveContentLength | server.c:370-379 | serving a file never sets Content-Length by hand |
| Transport.Socket.Recv | tcp_connection.c:4-6 | delivers the next bytes of the script as far as they fit; the end of the stream stays |
| Transport.Socket.Send | tcp_connection.c:7-11 | takes a prefix of what is offered and adds it to what was sent |
| Transport.EndlessIff | server.c:420-427 | reading never stops exactly if the stream ends behind data of the same event |
| Transport.RecvKeepsBurst | server.c:402-436 | cutting a delivery to the room in a page changes nothing in what an event reads |
| Transport.DrainLeavesTheEnd | server.c:525-544 | what is left after sending is the end of what was there |
| StepOutcomes.SendsExactly | server.c:524-545 | what is sent and what is left follow from what the sends take together and from why they stop |
| StepOutcomes.SendsAllIff | server.c:524-545 | everything is sent if and only if the sends take that much; the connection breaks if and only if a send fails before |
| StepOutcomes.BurstIff | server.c:402-437 | the bytes that an event reads, an error, and an end that is never left: each if and only if the script says so |
| StepOutcomes.OnlyReads | server.c:395-497 | bytes that leave the parser undecided are added to the buffered ones, and nothing else happens |
| StepOutcomes.SurvivesIff | server.c:540-543 | a connection is back to waiting, with nothing left and everything sent, if and only if the sends take all that is there to be written |
| StepOutcomes.ClosedIff | server.c:405-427 | a connection is closed if and only if reading meets an error or an end without data, or a send fails before everything is taken |
| Connections.LoopEndsIff | server.c:402-437 | the receive loop ends after some number of rounds if and only if the stream does not end behind data of the event |
| Connections.EndBehindDataIsReadForEver | server.c:420-427 | the example of one byte and then the end, for which no number of rounds ends the loop |
| Connections.ReceiveBurst | server.c:396-437 | for any sizes, the total is 4096 times the pages plus the offset, and pages and offset hold the delivered bytes in order, up to an error too; the list of 128 pages suffices exactly for a burst of less than 128 pages |
| Connections.Advance | server.c:429-436 | moving on in a page or to the next one keeps the staged bytes |
| Connections.OneMorePage | server.c:432-435 | a page that was read full extends the staged bytes by its content |
| Connections.Connection.constructor | server.c:110-121 | a new connection waits, with an empty buffer, request and response |
| Connections.Connection.Compact | server.c:439-448 | the unconsumed bytes are moved to the beginning |
| Connections.Connection.Grow | server.c:449-460 | the wrap-around computation makes the capability exactly the size needed, in every case, and keeps the content |
| Connections.Connection.Append | server.c:462-477 | the bytes go behind the effective part, within the buffer |
| Connections.Connection.AppendPages | server.c:462-469 | the full pages go behind the effective part in order, each whole |
| Connections.Connection.StoreBurst | server.c:438-479 | the buffer holds the unconsumed bytes followed by the received ones, and its end is its capability |
| Connections.Connection.Parse | server.c:490-494 | the code of the parser for the buffered bytes, and the request that they parse to in the request object, whatever an earlier attempt left there and whatever lies behind the buffer |
| Connections.Connection.ReceiveRequest | server.c:395-494 | the bytes after the event, the code of the parser for exactly these bytes, and the accepted request in the request object |
| Connections.Connection.BuildResponse | server.c:498-507 | the calls that the transaction makes for the request in the object, or a 400, and the Server header, in this order |
| Connections.RenderSomewhere | server.c:509-518 | the second rendering always succeeds, into a buffer of exactly the measured size |
| Connections.Connection.RenderResponse | server.c:508-522 | the effective part of the buffer is the rendered response and the state is writing |
| Connections.Connection.TakeRequest | server.c:395-523 | an event answers exactly if it delivered bytes and the parser has decided, and the transaction is handed the request that these bytes parse to |
| Connections.Connection.SendLoop | server.c:524-545 | sent bytes and the effective part always make up what was to be sent; the state is waiting again exactly if nothing is left |
| Connections.Perform | server.c:502 | calls on the response reach the response object one after the other |
| Connections.Connection.HandleConnection | server.c:388-546 | one event takes the connection and the sent bytes to what the step function says, and leaves an object that the next event can be given to |
| ConnectionRuns.WaitsWhileUndecided | server.c:395-504 | while the parser finds what arrived incomplete, whatever the bursts and spurious events, the connection holds exactly the bytes received, waits, has sent nothing and not touched the response |
| ConnectionRuns.WaitsWhileAcceptable | server.c:395-501 | while what arrived is the beginning of an acceptable request, the connection holds exactly these bytes, waits, has sent nothing and not touched the response, over any events without an error or an end of the stream |
| ConnectionRuns.DecidedAtTheLastBurst | server.c:395-523 | when only the last burst could settle an undecided request, good or bad, the whole run equals considering all its bytes at once |
| ConnectionRuns.AnsweredAtTheLastBurst | server.c:395-523 | an acceptable request cut into any bursts is answered at the last one as if it had arrived at once |
| ConnectionRuns.DecidedAsSoonAsPossible | server.c:488-523 | every stream the parser does not find incomplete is settled at the first burst that settles it: all before it wait in silence, and the decision taken there is the decision on the whole stream, except that success becomes a rejection when more bytes follow |
| ConnectionRuns.ChunkingIsIrrelevant | server.c:395-523 | however a request is cut, the transaction gets the request of a one-shot parse; two transactions that treat this one request alike lead to the same connection and the same sent bytes |
| ConnectionRuns.StepConserves | server.c:388-546 | one event neither loses, repeats nor invents a byte of a response |
| ConnectionRuns.RunConserves | server.c:388-546 | over any run, sent bytes and bytes still owed are those of the rendered responses in order; a connection waits exactly if it owes nothing |
| ConnectionRuns.EveryResponseIsAnnounced | server.c:498-522 | every response of a run holds exactly one Content-Length, that of the body it carries, although the response object is never cleared |
| ConnectionRuns.AcceptedIsAnswered | server.c:501-507 | the answer to an accepted request has code, description and body of what the transaction built, the Server header, and all its other headers |
| ConnectionRuns.RejectionsRepeatTheBody | server.c:498-507 | a 400 carries the body that the response object holds; it is empty if and only if that one is |
| Conversations.DrainsAll | server.c:524-545 | sends of any number of events that together take what is there to be written, without an error before that, write it all and leave the connection waiting |
| Conversations.ExchangeAnswers | server.c:388-546 | a request in any bursts whose answer the sends of the following events take: exactly the rendered answer to its one-shot parse is sent, and the connection waits again |
| Conversations.ConversationAnswers | server.c:388-546 | over any number of requests, each cut into any bursts and arriving after the sends have taken the answer to the one before it, exactly the answers to their one-shot parses are sent, in order, and the connection waits again |
| EventLoop.HandleEvents | server.c:576-596 | over any sequence of events, and whatever lies behind the buffer at each, the connection object and the sent bytes are those of the run, so that what holds of every run holds of the object |
| Literals.CharactersAreLiteral | http.c:174-183 | the single bytes that the code compares with |
| Literals.ClassesAreLiteral | http.c:159-173 | exactly six bytes are whitespace, exactly ten are digits |
| Literals.NamesAreLiteral | server.c:507 | method, version, header names and range unit as the source writes them |
| Literals.LongNamesAreLiteral | server.c:377 | the longer names and the name of the server |
| Literals.NumbersAreLiteral | server.c:396-397 | the sizes and limits as numbers |
| Literals.NumberIs | http.c:395-405 | the number that each code of the enumeration is sent as |
| Literals.OtherNumbers | http.c:399-403 | how other codes are padded or cut |
| Literals.TextIs | http.c:382-394 | the default description of each code, and that there is none beyond the enumeration |
| Literals.StartLineIs | http.c:508-516 | a response with a default description starts with the literal line of its code |
| Literals.LineIs | http.c:517-522 | a header line is name, colon, space, value and CRLF |
| Literals.HeadersAreOrdered | http.c:40-48 | Content-Length is listed before Content-Range, and both before Server |
| Literals.RejectionStartsWith | server.c:498-500 | every rejected request is answered with `HTTP/1.1 400 Bad Request` |
| Literals.FileStartsWith | server.c:372-379 | a part starts with `HTTP/1.1 206 Partial Content`, a whole file with `HTTP/1.1 200 OK` |
| Literals.RejectionIs | server.c:498-522 | the answer to a rejected request on a new connection, to the last byte |
| Literals.WholeIs | server.c:370-379 | the answer with any whole file on a new connection, to the last byte |
| Literals.PartIs | server.c:370-379 | the answer with any part of any file on a new connection, to the last byte |
| Literals.FirstFiveOfTen | server.c:374 | for `bytes=0-4` and ten bytes the Content-Range is `bytes 0-4/10` |
| Literals.RangeHeadersAreLiteral | http_hl.c:46-107 | the Range headers of the examples, as sent |
| Literals.TwoRangesAreLiteral | http_hl.c:87-90 | the same |
| Literals.ThreeRangesAreLiteral | http_hl.c:97-102 | the same |
| Literals.RequestsAreLiteral | http.c:187-286 | the requests of the examples, as sent |
| Literals.PostIsUnsupported | http.c:190-195 | a POST request is refused for its method, whatever follows |
| Literals.NoColonIsInvalid | http.c:239-242 | a header line without a colon is a syntax error, whatever lines follow |
| Authorization.Emit | server.c:57 | one letter behind the ones so far, from an index below 64 |
| Authorization.EmitWord | server.c:56-59 | ten letters for the ten lowest groups, and the word keeps its highest bits |
| Authorization.EmitHead | server.c:55-60 | ten letters for each word, in order |
| Authorization.EmitTail | server.c:61-64 | two letters for what is left of each three words |
| Authorization.GetAuthorizationCode | server.c:49-65 | the loops fill the code to its last letter with the specified code |
| Authorization.Code | server.c:49-65 | 32 letters for each three words |
| Authorization.TableIsMap | server.c:42-45 | the table is the list of letters of the source |
| Authorization.LetterOfWord | server.c:54-59 | letter 10 i + j stands for six bits of word i, from bit 6 j on |
| Authorization.LettersOfRest | server.c:61-64 | the last letters stand for the four highest bits of each three words, in the order of the source |
| Authorization.CodesDiffer | server.c:54-64 | two buffers give the same code exactly if they are the same |
| Authorization.EveryCodeOccurs | server.c:54-64 | every sequence of six-bit groups of the right length is the code of some buffer |

## Left out

- Sockets, epoll, accepting, TLS, files, mapping and path resolution: foreign calls; `recv` and `send` are arbitrary scripts, a file is a sequence of bytes.
- Connections.Connection.HandleConnection: `handle_http_transaction` enters as a function from the parsed request to calls on the response, one for each event, since which file a URL names is up to the file system; the file branch is an instance (`FileServing.FileIsServed`), redirects and magic calls are not modelled.
- Connections.Connection.HandleConnection: requires an event that ends, less than 128 pages in it, and sizes that are sizes (`ConnectionSteps.Manageable`); `Connections.LoopEndsIff` and `Connections.ReceiveBurst` say exactly when the first two hold.
- Connections.Connection.Grow: requires sizes below 2 to the 64th, and allocation does not fail.
- FileServing.ServeFile: requires that the listed ranges do not lead behind the file, since nothing is there to be copied; `FileServing.InFileIffServable` shows that no request with a range in the file is shut out.
- Ranges.ParseRange: requires a byte before the NUL where each number ends, since the source looks at the one behind it, and last positions below the largest `long long`, above which the addition overflows.
- Ranges.QSort: `qsort` belongs to the C library and is modelled by its result, which is unique.
- Requests.HttpRequest.FromBuffer: requires some NUL in memory behind the buffer, where `strchr` and the skipping of whitespace stop at the latest; on an error, a header that was allocated but not inserted is simply unreachable.
- HeaderLists.HeaderList.Clear: unlinks the nodes; their release, and that of all other memory, is not modelled.
- ResponseTheorems.RenderingIsUniquelyDecodable: is about the codes of the enumeration; other numbers can share their three digits.
- ResponseSyntax.StatusText: the code is a number from 0 up, as the values of the enumeration are.
- Conversations.ConversationAnswers: requests that arrive before the answer to the one before them are not read until then; what arrives behind an acceptable request in the same burst makes it a syntax error (`PrefixTheorem.DecisionsAreFinal`).
- EventLoop.HandleEvents: the main loop closes a connection at once when epoll reports an error or a hang-up; only the events that it passes on are modelled.
- The list of file descriptors, the rest of the main loop, logging, address formatting, error texts and debug output.
