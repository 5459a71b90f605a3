/** The file branch of `handle_http_transaction`: from the Range header to body, status and Content-Range. */
module FileServing {
  import opened CStrings
  import opened Fields
  import opened RequestSyntax
  import opened Requests
  import opened RoundTrip
  import opened ResponseSyntax
  import opened ResponseTheorems
  import opened Responses
  import opened RangeSyntax
  import opened RangeArithmetic
  import opened Ranges
  import opened ConnectionSteps
  import opened ConnectionRuns

  const RANGE: CString := [82, 97, 110, 103, 101]
  const CONTENT_RANGE: CString := [67, 111, 110, 116, 101, 110, 116, 45, 82, 97, 110, 103, 101]
  const BYTES: Text := [98, 121, 116, 101, 115, 32]
  const SLASH: Byte := 47
  const PARTIAL_CONTENT: nat := 2
  const OK: nat := 0

  /** `sprintf(buffer, "bytes %lu-%lu/%lu", start, end - 1, size)` */
  function ContentRange(range: Range, size: nat): (r: CString)
    requires range.start < range.end
  {
    var r := BYTES + Decimal(range.start) + [MINUS] + Decimal(range.end - 1) + [SLASH] + Decimal(size);
    assert NulFree(Decimal(range.start)) && NulFree(Decimal(range.end - 1)) && NulFree(Decimal(size));
    r
  }

  predicate AllDigits(s: Text) {
    forall i | 0 <= i < |s| :: IsDigit(s[i])
  }

  /** The text is `bytes first-last/total`, in decimal and without leading zeros. */
  ghost predicate Describes(text: Text, first: nat, last: nat, total: nat) {
    exists f, l, t ::
      && text == Ascii("bytes ") + f + Ascii("-") + l + Ascii("/") + t
      && IsNumeral(f, first) && IsNumeral(l, last) && IsNumeral(t, total)
  }

  predicate IsNumeral(s: Text, n: nat) {
    s != [] && AllDigits(s) && DigitsValue(s) == n && (s[0] == 48 ==> |s| == 1)
  }

  lemma DecimalIsNumeral(n: nat)
    ensures IsNumeral(Decimal(n), n)
  {
    hide DigitsValue;
    DecimalRoundTrip(n);
    DecimalIsShortest(n);
  }

  /** Content-Range names the first and the last byte of the range, counted from 0, and the size of the file. */
  lemma ContentRangeDescribes(range: Range, size: nat)
    requires range.start < range.end
    ensures Describes(ContentRange(range, size), range.start, range.end - 1, size)
  {
    hide IsNumeral, Decimal;
    DecimalIsNumeral(range.start);
    DecimalIsNumeral(range.end - 1);
    DecimalIsNumeral(size);
    var f, l, t := Decimal(range.start), Decimal(range.end - 1), Decimal(size);
    assert BYTES == Ascii("bytes ") && [MINUS] == Ascii("-") && [SLASH] == Ascii("/");
    assert ContentRange(range, size) == Ascii("bytes ") + f + Ascii("-") + l + Ascii("/") + t;
  }

  /** The value that the Range header has as a C string. */
  function RangeHeader(fields: seq<Field>): Option<Text> {
    match Lookup(fields, RANGE)
    case None => None
    case Some(v) => Some(CStr(v))
  }

  /** The calls on the response that serving a file amounts to. */
  function FileCalls(range: Range, content: Text): seq<Call>
    requires range == FULL || range.start < range.end <= |content|
  {
    if range != FULL then [
      SetBody(content[range.start..range.end]),
      SetCode(PARTIAL_CONTENT, None),
      SetHeader(CONTENT_RANGE, ContentRange(range, |content|))]
    else [SetBody(content), SetCode(OK, None)]
  }

  /**
   What the file branch needs of the Range header, since it copies the answer out of a mapping of the file: that the
   list can be read, and that its ranges do not lead behind the file.
   */
  ghost predicate Servable(fields: seq<Field>, size: nat) {
    var list := RangeList(RangeHeader(fields));
    && size <= LLONG_MAX
    && (list.Some? ==> ReadableList(list.value) && !LeadsBehindFile(ListedRanges(list.value, size), size))
  }

  /** The range that a request is answered with. */
  function FileRange(fields: seq<Field>, size: nat): Range
    requires size <= LLONG_MAX
    requires RangeList(RangeHeader(fields)).Some? ==> ReadableList(RangeList(RangeHeader(fields)).value)
  {
    RangeOf(RangeHeader(fields), size)
  }

  /** The answer is the whole file or lies in it if and only if the header can be served. */
  lemma InFileIffServable(fields: seq<Field>, size: nat)
    requires size <= LLONG_MAX
    requires RangeList(RangeHeader(fields)).Some? ==> ReadableList(RangeList(RangeHeader(fields)).value)
    ensures var range := FileRange(fields, size);
            Servable(fields, size) <==> range == FULL || range.start < range.end <= size
  {
    hide RangeOf, RangeHeader, RangeList, ReadableList, LeadsBehindFile;
    AnswerIsProper(RangeHeader(fields), size);
    AnswerBehindFileIff(RangeHeader(fields), size);
  }

  /** `get_request_header` for the Range header, as the C string that is handed to `parse_range`. */
  method GetRange(request: HttpRequest) returns (value: Option<CString>)
    requires request.Valid() && request.state == Parsed
    ensures value == RangeHeader(request.headers.contents)
  {
    var buffer := GetRequestHeader(request, RANGE);
    LookupRefinesMap(request.headers.contents, RANGE);
    if buffer == null {
      return None;
    }
    CStrIsNulFree(AsMap(request.headers.contents)[RANGE]);
    CStrOfTerminated(CStr(AsMap(request.headers.contents)[RANGE]), []);
    assert buffer[..] == buffer[..] + [];
    return Some(CStr(buffer[..]));
  }

  /** The file branch, from the calculation of the range on. */
  method ServeFile(request: HttpRequest, response: HttpResponse, content: Text)
    requires request.Valid() && request.state == Parsed && response.Valid()
    requires Servable(request.headers.contents, |content|)
    modifies response, response.headers, response.headers.Repr
    ensures response.Valid() && fresh(response.headers.Repr - old(response.headers.Repr))
    ensures Served(old(response.Value()), response.Value(), old(request.headers.contents), content)
  {
    hide RangeOf, ContentRange, HttpResponse.Valid, RangeHeader, Apply;
    ghost var before, fields := response.Value(), request.headers.contents;
    InFileIffServable(fields, |content|);
    var value := GetRange(request);
    var range := ParseRange(value, |content|);
    var realLength := if range.start == range.end then |content| else range.end - range.start;
    assert content[range.start..][..realLength] ==
           if range.start == range.end then content else content[range.start..range.end];
    response.SetBody(content[range.start..], Some(realLength));
    if range.start != range.end {
      var text := ContentRange(range, |content|);
      response.SetCode(PARTIAL_CONTENT, None);
      response.SetHeader(CONTENT_RANGE, text);
      ThreeCalls(
        before, SetBody(content[range.start..range.end]), SetCode(PARTIAL_CONTENT, None),
        SetHeader(CONTENT_RANGE, text));
    } else {
      response.SetCode(OK, None);
      TwoCalls(before, SetBody(content), SetCode(OK, None));
    }
  }

  /** The response after the calls for this file. */
  ghost predicate Served(before: Response, after: Response, fields: seq<Field>, content: Text)
    requires Servable(fields, |content|)
  {
    InFileIffServable(fields, |content|);
    after == ApplyAll(before, FileCalls(FileRange(fields, |content|), content))
  }

  lemma TwoCalls(r: Response, a: Call, b: Call)
    ensures ApplyAll(r, [a, b]) == Apply(Apply(r, a), b)
  {
    assert [a, b][1..] == [b];
    assert ApplyAll(Apply(r, a), [b]) == ApplyAll(Apply(Apply(r, a), b), [b][1..]);
  }

  lemma ThreeCalls(r: Response, a: Call, b: Call, c: Call)
    ensures ApplyAll(r, [a, b, c]) == Apply(Apply(Apply(r, a), b), c)
  {
    assert [a, b, c][1..] == [b, c];
    TwoCalls(Apply(r, a), b, c);
  }

  /**
   A response that carries this part of the file: body, status and Content-Length agree with the range, the sentinel
   standing for the whole file. A part is described by Content-Range; for the whole file that header is not touched, and
   so is what the response object held of it.
   */
  ghost predicate Carries(s: Response, range: Range, content: Text, held: Option<Text>)
    requires range == FULL || range.start < range.end <= |content|
  {
    && Lookup(s.fields, CONTENT_LENGTH) == Some(Decimal(|s.body|))
    && Some(s.description) == DefaultDescription(s.code)
    && if range != FULL
       then
         && s.code == PARTIAL_CONTENT
         && s.body == content[range.start..range.end]
         && Lookup(s.fields, CONTENT_RANGE) == Some(ContentRange(range, |content|))
         && Describes(Lookup(s.fields, CONTENT_RANGE).value, range.start, range.end - 1, |content|)
       else s.code == OK && s.body == content && Lookup(s.fields, CONTENT_RANGE) == held
  }

  lemma PartialCarries(r: Response, range: Range, content: Text)
    requires Sorted(r.fields) && range.start < range.end <= |content|
    ensures Carries(ApplyAll(r, FileCalls(range, content)), range, content, Lookup(r.fields, CONTENT_RANGE))
    ensures Sorted(ApplyAll(r, FileCalls(range, content)).fields)
  {
    hide ContentRange, Lookup, Sorted, Set;
    hide Describes;
    KeysDiffer();
    ContentRangeDescribes(range, |content|);
    var body, text := content[range.start..range.end], ContentRange(range, |content|);
    ThreeCalls(r, SetBody(body), SetCode(PARTIAL_CONTENT, None), SetHeader(CONTENT_RANGE, text));
    LookupAfterSet(r.fields, CONTENT_LENGTH, Decimal(|body|), CONTENT_LENGTH);
    var l := Set(r.fields, CONTENT_LENGTH, Decimal(|body|));
    LookupAfterSet(l, CONTENT_RANGE, text, CONTENT_LENGTH);
    LookupAfterSet(l, CONTENT_RANGE, text, CONTENT_RANGE);
  }

  lemma WholeCarries(r: Response, content: Text)
    requires Sorted(r.fields)
    ensures Carries(ApplyAll(r, FileCalls(FULL, content)), FULL, content, Lookup(r.fields, CONTENT_RANGE))
    ensures Sorted(ApplyAll(r, FileCalls(FULL, content)).fields)
  {
    hide Lookup, Sorted, Set;
    KeysDiffer();
    TwoCalls(r, SetBody(content), SetCode(OK, None));
    LookupAfterSet(r.fields, CONTENT_LENGTH, Decimal(|content|), CONTENT_LENGTH);
    LookupAfterSet(r.fields, CONTENT_LENGTH, Decimal(|content|), CONTENT_RANGE);
  }

  lemma KeysDiffer()
    ensures CONTENT_RANGE != CONTENT_LENGTH && SERVER != CONTENT_LENGTH && SERVER != CONTENT_RANGE
  {
    assert |CONTENT_RANGE| != |CONTENT_LENGTH| && |SERVER| != |CONTENT_LENGTH| && |SERVER| != |CONTENT_RANGE|;
  }

  /** The Server header and what rendering may add change nothing about what a response carries. */
  lemma StillCarries(s: Response, range: Range, content: Text, held: Option<Text>)
    requires range == FULL || range.start < range.end <= |content|
    requires Sorted(s.fields) && Carries(s, range, content, held)
    ensures var t := Finalized(Apply(s, SetHeader(SERVER, SERVER_NAME)));
            Carries(t, range, content, held) && Sorted(t.fields)
  {
    hide ContentRange, Lookup, Sorted, Set, Decimal, Describes, DefaultDescription;
    KeysDiffer();
    LookupAfterSet(s.fields, SERVER, SERVER_NAME, CONTENT_LENGTH);
    LookupAfterSet(s.fields, SERVER, SERVER_NAME, CONTENT_RANGE);
    var l := Set(s.fields, SERVER, SERVER_NAME);
    LookupAfterSet(l, CONTENT_LENGTH, ZERO, CONTENT_LENGTH);
    LookupAfterSet(l, CONTENT_LENGTH, ZERO, CONTENT_RANGE);
    DecimalOfNothing();
  }

  lemma DecimalOfNothing()
    ensures Decimal(0) == ZERO
  {
  }

  /** The request asks for a part of this file, or all of it, and a transaction answers it with that. */
  ghost predicate ServesFile(handler: Handler, q: Request, content: Text) {
    && Servable(q.fields, |content|)
    && (InFileIffServable(q.fields, |content|);
        handler(q) == FileCalls(FileRange(q.fields, |content|), content))
  }

  /**
   The answer to a request for a file carries the range that was asked for, whatever the response object held before,
   except that a whole file comes with the Content-Range that the object held, if it held one.
   */
  lemma FileResponseAgrees(r: Response, q: Request, handler: Handler, content: Text)
    requires Sorted(r.fields) && ServesFile(handler, q, content)
    ensures var range := FileRange(q.fields, |content|);
            var s := Answered(r, Accepted(q), handler);
            && (range == FULL || range.start < range.end <= |content|)
            && Carries(s, range, content, Lookup(r.fields, CONTENT_RANGE))
            && Sorted(s.fields)
  {
    hide FileRange, Carries, FileCalls, LeadsBehindFile, Finalized, Apply, Sorted, Lookup;
    InFileIffServable(q.fields, |content|);
    var range := FileRange(q.fields, |content|);
    if range == FULL {
      WholeCarries(r, content);
    } else {
      PartialCarries(r, range, content);
    }
    var calls := FileCalls(range, content);
    StillCarries(ApplyAll(r, calls), range, content, Lookup(r.fields, CONTENT_RANGE));
    ApplyOneMore(r, calls, SetHeader(SERVER, SERVER_NAME));
  }

  /** A 200 comes without Content-Range if and only if the response object held none. */
  lemma WholeHasNoContentRangeIff(r: Response, q: Request, handler: Handler, content: Text)
    requires Sorted(r.fields) && ServesFile(handler, q, content)
    requires FileRange(q.fields, |content|) == FULL
    ensures var s := Answered(r, Accepted(q), handler);
            && s.code == OK
            && s.body == content
            && (Lookup(s.fields, CONTENT_RANGE).None? <==> Lookup(r.fields, CONTENT_RANGE).None?)
  {
    hide FileRange, Servable, Answered, Sorted, Lookup, FileCalls, Describes;
    FileResponseAgrees(r, q, handler, content);
  }

  /** Behind an answer with a part of a file, the whole file is sent with the Content-Range of that part. */
  lemma WholeBehindPart(
      r: Response, part: Request, whole: Request, first: Handler, second: Handler, content: Text)
    requires Sorted(r.fields) && ServesFile(first, part, content) && ServesFile(second, whole, content)
    requires FileRange(part.fields, |content|) != FULL && FileRange(whole.fields, |content|) == FULL
    ensures var range := FileRange(part.fields, |content|);
            var s := Answered(Answered(r, Accepted(part), first), Accepted(whole), second);
            && range.start < range.end <= |content|
            && s.code == OK
            && s.body == content
            && Lookup(s.fields, CONTENT_RANGE) == Some(ContentRange(range, |content|))
            && Describes(ContentRange(range, |content|), range.start, range.end - 1, |content|)
  {
    hide FileRange, Servable, Answered, Sorted, Lookup, ContentRange, FileCalls, Describes;
    FileResponseAgrees(r, part, first, content);
    FileResponseAgrees(Answered(r, Accepted(part), first), whole, second, content);
  }

  /** A request for the first five bytes, and one for everything. */
  const FIRST_FIVE := Request([47], [49], [Field(RANGE, IntHeader([(0, 4)]))])
  const EVERYTHING := Request([47], [49], [])

  lemma FirstFiveIsPart(size: nat)
    requires 5 <= size <= LLONG_MAX
    ensures Servable(FIRST_FIVE.fields, size) && FileRange(FIRST_FIVE.fields, size) == Range(0, 5)
  {
    hide RangeOf, RangeList, ReadableList, IntHeader, LeadsBehindFile, Answers, Lists;
    var fields := FIRST_FIVE.fields;
    IntHeaderIsRead([(0, 4)], size);
    assert IntRanges([(0, 4)]) == [Range(0, 5)];
    OneRange(Range(0, 5));
    IntHeaderIsCString(0, 4);
    CStrOfNulFree(IntHeader([(0, 4)]));
    OneHeader(Field(RANGE, IntHeader([(0, 4)])));
    assert Answers(RangeHeader(fields), size, Range(0, 5));
    AnswersMeans(RangeHeader(fields), size, Range(0, 5));
    InFileIffServable(fields, size);
  }

  lemma AnswersMeans(value: Option<Text>, size: nat, r: Range)
    requires Answers(value, size, r)
    ensures size < SIZE_WRAP && (RangeList(value).Some? ==> ReadableList(RangeList(value).value))
    ensures RangeOf(value, size) == r
  {
  }

  lemma OneHeader(f: Field)
    ensures Lookup([f], f.key) == Some(f.value)
  {
    StrcmpZero(f.key, f.key);
  }

  /** `bytes=0-4` and then a request without Range: a 200 with all of the file and `Content-Range: bytes 0-4`. */
  lemma StaleContentRange(r: Response, handler: Handler, content: Text)
    requires Sorted(r.fields) && 5 <= |content| <= LLONG_MAX
    requires ServesFile(handler, FIRST_FIVE, content) && ServesFile(handler, EVERYTHING, content)
    ensures var s := Answered(Answered(r, Accepted(FIRST_FIVE), handler), Accepted(EVERYTHING), handler);
            && s.code == OK
            && s.body == content
            && Lookup(s.fields, CONTENT_RANGE).Some?
            && Describes(Lookup(s.fields, CONTENT_RANGE).value, 0, 4, |content|)
  {
    hide ServesFile, Answered, Sorted, ContentRange, RangeOf, ReadableList, LeadsBehindFile, Describes;
    FirstFiveIsPart(|content|);
    EverythingIsWhole(|content|);
    WholeBehindPart(r, FIRST_FIVE, EVERYTHING, handler, handler, content);
  }

  /** Both requests can arrive. */
  lemma BothArrive()
    ensures ParseRequest(Print(FIRST_FIVE)) == Accepted(FIRST_FIVE)
    ensures ParseRequest(Print(EVERYTHING)) == Accepted(EVERYTHING)
  {
    hide ParseRequest, Print, JoinCommas;
    var value := IntHeader([(0, 4)]);
    assert IntSpecs([(0, 4)]) == [IntSpec(0, 4)];
    JoinOne(IntSpec(0, 4));
    assert value == BYTES_UNIT + [48, 45, 52];
    assert IsValue(value) && IsKey(RANGE);
    PrintThenParse(FIRST_FIVE);
    PrintThenParse(EVERYTHING);
  }

  lemma EverythingIsWhole(size: nat)
    requires size <= LLONG_MAX
    ensures Servable(EVERYTHING.fields, size) && FileRange(EVERYTHING.fields, size) == FULL
  {
    assert Lookup([], RANGE) == None;
  }

  /**
   From the bytes that arrive to the bytes that leave: however a request for a file is cut into bursts, the connection
   sends, as far as there is room, the rendering of a response that carries the range of the parsed request.
   */
  lemma FileIsServed(
      pending: Text, response: Response, es: seq<Event>, last: Event, q: Request, content: Text)
    requires (forall i | 0 <= i < |es| :: Harmless(es[i])) && Harmless(last) && Delivered(last) != []
    requires ParseRequest(pending + Stream(es) + Delivered(last)) == Accepted(q)
    requires ServesFile(last.handler, q, content) && Sorted(response.fields)
    ensures var range := FileRange(q.fields, |content|);
            var s := Answered(response, Accepted(q), last.handler);
            && (range == FULL || range.start < range.end <= |content|)
            && Carries(s, range, content, Lookup(response.fields, CONTENT_RANGE))
            && Run(Open(false, pending, response), es + [last]) == SendPending(Rendered(s), s, last.outgoing)
  {
    hide ParseRequest, Harmless, Delivered, Stream, Run, Answered, Carries, FileRange, Servable, Sorted;
    hide Lookup, FileCalls;
    AnsweredAtTheLastBurst(pending, response, es, last);
    FileResponseAgrees(response, q, last.handler, content);
  }

  /** Serving a file never sets Content-Length by hand, so that what holds of every run of such calls holds here. */
  lemma FileCallsLeaveContentLength(range: Range, content: Text)
    requires range == FULL || range.start < range.end <= |content|
    ensures LeavesContentLength(FileCalls(range, content))
  {
    hide ContentRange;
    assert |CONTENT_RANGE| != |CONTENT_LENGTH|;
  }
}
