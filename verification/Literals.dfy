/** Constants, tables and whole messages, spelled out. */
module Literals {
  import opened CStrings
  import opened Fields
  import opened RequestSyntax
  import opened PrefixTheorem
  import opened FieldLines
  import opened Outcomes
  import opened ResponseSyntax
  import opened ResponseTheorems
  import opened RoundTrip
  import opened RangeSyntax
  import opened RangeArithmetic
  import opened FileServing
  import opened ConnectionSteps
  import opened ConnectionRuns

  lemma CharactersAreLiteral()
    ensures [NUL] == Ascii("\0") && [LF] == Ascii("\n") && [CR] == Ascii("\r") && CRLF == Ascii("\r\n")
    ensures [SPACE] == Ascii(" ") && [COLON] == Ascii(":") && [COMMA] == Ascii(",")
    ensures [MINUS] == Ascii("-") && [PLUS] == Ascii("+") && [FileServing.SLASH] == Ascii("/")
  {
  }

  /** `isspace` is true of space, tab, line feed, vertical tab, form feed and carriage return, `isdigit` of digits. */
  lemma ClassesAreLiteral(c: Byte)
    ensures IsSpace(c) <==> c in Ascii(" \t\n\U{0B}\U{0C}\r")
    ensures IsDigit(c) <==> c in Ascii("0123456789")
  {
    var blanks, digits := Ascii(" \t\n\U{0B}\U{0C}\r"), Ascii("0123456789");
    assert blanks == [32, 9, 10, 11, 12, 13];
    assert digits == [48, 49, 50, 51, 52, 53, 54, 55, 56, 57];
  }

  lemma NamesAreLiteral()
    ensures GET == Ascii("GET") && HTTP_VERSION == Ascii("HTTP/1.1") && ZERO == Ascii("0")
    ensures RANGE == Ascii("Range") && BYTES_UNIT == Ascii("bytes=")
    ensures SERVER == Ascii("Server")
  {
  }

  lemma LongNamesAreLiteral()
    ensures CONTENT_LENGTH == Ascii("Content-Length") && CONTENT_RANGE == Ascii("Content-Range")
    ensures SERVER_NAME == Ascii("hSS/0.0.1-alpha")
  {
  }

  /** The largest `long long`, the number of `size_t` values, the pages of a burst, and the codes of the enumeration. */
  lemma NumbersAreLiteral()
    ensures LLONG_MAX == 9223372036854775807 && SIZE_WRAP == 18446744073709551616
    ensures PAGE == 4096 && MAX_PAGES == 128 && CODE_MAX == 10
  {
  }

  // ---------------------------------------------------------------- status lines

  const NUMBERS := ["200", "204", "206", "301", "400", "403", "404", "500", "501", "505"]

  const TEXTS := [
    "OK", "No Content", "Partial Content", "Moved Permanently", "Bad Request",
    "Forbidden", "Not Found", "Internal Server Error", "Not Implemented", "HTTP Version Not Supported"]

  lemma NumberIs(code: nat)
    requires code < CODE_MAX
    ensures StatusText(code) == Ascii(NUMBERS[code])
  {
    var n := StatusNumber(code);
    ThreeDigits(n);
    assert Decimal(n / 100) == [48 + n / 100];
    assert Decimal(n / 10) == Decimal(n / 100) + [48 + n / 10 % 10];
  }

  /** A code beyond the enumeration is padded to three digits, or cut to its first three. */
  lemma OtherNumbers()
    ensures StatusText(42) == Ascii("042") && StatusText(418) == Ascii("418") && StatusText(1234) == Ascii("123")
  {
    assert Decimal(4) == [52] && Decimal(42) == Decimal(4) + [50];
    assert Decimal(41) == Decimal(4) + [49] && Decimal(418) == Decimal(41) + [56];
    assert Decimal(1) == [49] && Decimal(12) == Decimal(1) + [50] && Decimal(123) == Decimal(12) + [51];
    assert Decimal(1234) == Decimal(123) + [52];
  }

  lemma TextIs(code: nat)
    ensures DefaultDescription(code).Some? <==> code < CODE_MAX
    ensures code < CODE_MAX ==>
              TEXTS[code] != "" && DefaultDescription(code).value == Ascii(TEXTS[code])
  {
    hide Ascii;
  }

  /** The first line of a response with a code of the enumeration and its default description. */
  function StartLine(code: nat): string
    requires code < CODE_MAX
  {
    "HTTP/1.1 " + NUMBERS[code] + " " + TEXTS[code] + "\r\n"
  }

  /** A response with a code of the enumeration and no description of its own starts with the line of that code. */
  lemma StartLineIs(r: Response)
    requires r.code < CODE_MAX && Some(r.description) == DefaultDescription(r.code)
    ensures Rendered(r) == Ascii(StartLine(r.code)) + (Block(r.fields) + (CRLF + r.body))
  {
    hide StatusText, DefaultDescription, Block, Ascii;
    NumberIs(r.code);
    TextIs(r.code);
    Punctuation();
    FiveTogether("HTTP/1.1 ", NUMBERS[r.code], " ", TEXTS[r.code], "\r\n");
    var number, text := Ascii(NUMBERS[r.code]), Ascii(TEXTS[r.code]);
    assert StatusLine(r) == HTTP_VERSION + [SPACE] + number + ([SPACE] + text);
    assert StatusLine(r) + CRLF == HTTP_VERSION + [SPACE] + number + [SPACE] + text + CRLF;
  }

  lemma Punctuation()
    ensures Ascii("HTTP/1.1 ") == HTTP_VERSION + [SPACE] && Ascii(" ") == [SPACE] && Ascii("\r\n") == CRLF
  {
  }

  lemma FiveTogether(a: string, b: string, c: string, d: string, e: string)
    ensures Ascii(a + b + c + d + e) == Ascii(a) + Ascii(b) + Ascii(c) + Ascii(d) + Ascii(e)
  {
    hide Ascii;
    AsciiAppend(a, b);
    AsciiAppend(a + b, c);
    AsciiAppend(a + b + c, d);
    AsciiAppend(a + b + c + d, e);
  }

  /** A response starts with the line of its code. */
  lemma StartsWithLine(r: Response)
    requires r.code < CODE_MAX && Some(r.description) == DefaultDescription(r.code)
    ensures Ascii(StartLine(r.code)) <= Rendered(r)
  {
    hide StartLine, Rendered, Block, DefaultDescription;
    StartLineIs(r);
  }

  /** Every rejected request is answered with a 400. */
  lemma RejectionStartsWith(r: Response, outcome: Outcome<Request>, handler: Handler)
    requires !outcome.Accepted?
    ensures Ascii("HTTP/1.1 400 Bad Request\r\n") <= Rendered(Answered(r, outcome, handler))
  {
    hide Answered, Rendered;
    RejectionsRepeatTheBody(r, outcome, handler);
    StartsWithLine(Answered(r, outcome, handler));
    LinesAre();
  }

  /** A part of a file is sent as a 206, the whole of it as a 200. */
  lemma FileStartsWith(s: Response, range: Range, content: Text, held: Option<Text>)
    requires range == FULL || range.start < range.end <= |content|
    requires Carries(s, range, content, held)
    ensures range != FULL ==> Ascii("HTTP/1.1 206 Partial Content\r\n") <= Rendered(s)
    ensures range == FULL ==> Ascii("HTTP/1.1 200 OK\r\n") <= Rendered(s)
  {
    hide Rendered, ContentRange, Describes;
    StartsWithLine(s);
    LinesAre();
  }

  // ---------------------------------------------------------------- the order of the headers

  /** `strcmp` puts Content-Length before Content-Range, and both before Server. */
  lemma HeadersAreOrdered()
    ensures Strcmp(CONTENT_LENGTH, CONTENT_RANGE) < 0
    ensures Strcmp(CONTENT_LENGTH, SERVER) < 0 && Strcmp(CONTENT_RANGE, SERVER) < 0
  {
    assert CONTENT_LENGTH[..8] == CONTENT_RANGE[..8];
    StrcmpFirstDifference(CONTENT_LENGTH, CONTENT_RANGE, 8);
    assert CONTENT_LENGTH[..0] == SERVER[..0] == CONTENT_RANGE[..0];
    StrcmpFirstDifference(CONTENT_LENGTH, SERVER, 0);
    StrcmpFirstDifference(CONTENT_RANGE, SERVER, 0);
  }

  /** Setting a header that is above all others puts it last, one that is below all others first. */
  lemma SetAtEnd(l: seq<Field>, key: Text, value: Text)
    requires forall i | 0 <= i < |l| :: Strcmp(l[i].key, key) < 0
    ensures Set(l, key, value) == l + [Field(key, value)]
  {
    PositionIs(l, key, |l|);
  }

  lemma SetAtStart(l: seq<Field>, key: Text, value: Text)
    requires forall i | 0 <= i < |l| :: Strcmp(key, l[i].key) < 0
    ensures Set(l, key, value) == [Field(key, value)] + l
  {
    if l != [] {
      StrcmpFlip(key, l[0].key);
    }
    PositionIs(l, key, 0);
  }

  // ---------------------------------------------------------------- whole messages

  /** A header line is the name, a colon, a space, the value and CRLF. */
  lemma LineIs(f: Field)
    ensures LineOf(f) + CRLF == f.key + Ascii(": ") + f.value + Ascii("\r\n")
  {
    Separators();
  }

  lemma Separators()
    ensures Ascii(": ") == [COLON, SPACE] && Ascii("\r\n") == CRLF
  {
  }

  const SERVER_FIELD := Field(SERVER, SERVER_NAME)

  lemma ServerLine()
    ensures LineOf(SERVER_FIELD) + CRLF == Ascii("Server: hSS/0.0.1-alpha\r\n")
  {
  }

  lemma LengthLine(size: Text)
    ensures LineOf(Field(CONTENT_LENGTH, size)) + CRLF == Ascii("Content-Length: ") + size + Ascii("\r\n")
  {
    assert CONTENT_LENGTH + [COLON, SPACE] == Ascii("Content-Length: ");
    Separators();
  }

  lemma RangeLine(text: Text)
    ensures LineOf(Field(CONTENT_RANGE, text)) + CRLF == Ascii("Content-Range: ") + text + Ascii("\r\n")
  {
    assert CONTENT_RANGE + [COLON, SPACE] == Ascii("Content-Range: ");
    Separators();
  }

  /** The block of some headers, line by line. */
  lemma BlockOfOne(f: Field)
    ensures Block([f]) == LineOf(f) + CRLF
  {
    hide LineOf;
    assert Block([f]) == LineOf(f) + CRLF + Block([f][1..]);
  }

  lemma BlockOfMore(f: Field, l: seq<Field>)
    ensures Block([f] + l) == LineOf(f) + CRLF + Block(l)
  {
    assert ([f] + l)[1..] == l;
  }

  /** A response object as a new connection has it. */
  const NEW := Response(0, [], [], [])

  /** The answer to a rejected request on a new connection, to the last byte. */
  lemma RejectionIs(outcome: Outcome<Request>, handler: Handler)
    requires !outcome.Accepted?
    ensures var length := Ascii("Content-Length: ") + Ascii("0") + Ascii("\r\n");
            var server := Ascii("Server: hSS/0.0.1-alpha\r\n");
            Rendered(Answered(NEW, outcome, handler)) ==
            Ascii("HTTP/1.1 400 Bad Request\r\n") + ((length + server) + Ascii("\r\n"))
  {
    hide Rendered, DefaultDescription, Block, Ascii, StartLine, Answered;
    var s := Answered(NEW, outcome, handler);
    RejectedFields(outcome, handler);
    TextIs(4);
    StartLineIs(s);
    LinesAre();
    LengthAndServerBlock(ZERO);
    NamesAreLiteral();
    Separators();
    assert CRLF + s.body == CRLF;
  }

  lemma LinesAre()
    ensures StartLine(4) == "HTTP/1.1 400 Bad Request\r\n" && StartLine(2) == "HTTP/1.1 206 Partial Content\r\n"
    ensures StartLine(0) == "HTTP/1.1 200 OK\r\n"
  {
  }

  lemma SetFirst(a: Field)
    ensures Set([], a.key, a.value) == [a]
  {
  }

  /** Two headers end up in the order of their names, whichever is set first. */
  lemma SetTwo(a: Field, b: Field)
    requires Strcmp(a.key, b.key) < 0
    ensures Set([a], b.key, b.value) == [a, b] && Set([b], a.key, a.value) == [a, b]
  {
    hide Set, Strcmp;
    SetAtEnd([a], b.key, b.value);
    SetAtStart([b], a.key, a.value);
  }

  lemma SetThird(a: Field, b: Field, c: Field)
    requires Strcmp(a.key, c.key) < 0 && Strcmp(b.key, c.key) < 0
    ensures Set([a, b], c.key, c.value) == [a, b, c]
  {
    hide Set, Strcmp;
    SetAtEnd([a, b], c.key, c.value);
  }

  lemma SetAgain(a: Field, b: Field, value: Text)
    ensures Set([a, b], a.key, value) == [Field(a.key, value), b]
  {
    StrcmpZero(a.key, a.key);
    PositionIs([a, b], a.key, 0);
  }

  /** The calls for a rejected request, one after the other. */
  lemma RejectedFields(outcome: Outcome<Request>, handler: Handler)
    requires !outcome.Accepted?
    ensures var s := Answered(NEW, outcome, handler);
            && s.code == 4 && Some(s.description) == DefaultDescription(4) && s.body == []
            && s.fields == [Field(CONTENT_LENGTH, ZERO)] + [SERVER_FIELD]
  {
    hide Set, DefaultDescription, Strcmp;
    var bad, server := Call.SetCode(BAD_REQUEST, None), Call.SetHeader(SERVER, SERVER_NAME);
    assert ConnectionSteps.Answer(outcome, handler) == [bad, server];
    TwoCalls(NEW, bad, server);
    HeadersAreOrdered();
    SetFirst(SERVER_FIELD);
    SetTwo(Field(CONTENT_LENGTH, ZERO), SERVER_FIELD);
    TextIs(4);
  }

  lemma LengthAndServer(size: Text)
    ensures var l := Set(Set([], CONTENT_LENGTH, size), SERVER, SERVER_NAME);
            && l == [Field(CONTENT_LENGTH, size)] + [SERVER_FIELD]
            && (size == ZERO ==> Set(l, CONTENT_LENGTH, ZERO) == l)
  {
    hide Set, Strcmp;
    var length := Field(CONTENT_LENGTH, size);
    HeadersAreOrdered();
    SetFirst(length);
    SetTwo(length, SERVER_FIELD);
    SetAgain(length, SERVER_FIELD, ZERO);
  }

  lemma WholeCalls(content: Text)
    ensures FileCalls(FULL, content) == [Call.SetBody(content), Call.SetCode(OK, None)]
  {
  }

  lemma WholeSteps(content: Text)
    ensures var s := Apply(Apply(NEW, Call.SetBody(content)), Call.SetCode(OK, None));
            Apply(s, Call.SetHeader(SERVER, SERVER_NAME)) ==
            Response(
              0, DefaultDescription(0).GetOr([]),
              Set(Set([], CONTENT_LENGTH, Decimal(|content|)), SERVER, SERVER_NAME), content)
  {
    hide Set, DefaultDescription, Decimal, CONTENT_LENGTH, SERVER, SERVER_NAME;
  }

  /** The calls for all of a file. */
  lemma WholeFields(content: Text)
    ensures var s := Finalized(Apply(ApplyAll(NEW, FileCalls(FULL, content)), Call.SetHeader(SERVER, SERVER_NAME)));
            && s.code == 0 && Some(s.description) == DefaultDescription(0) && s.body == content
            && s.fields == [Field(CONTENT_LENGTH, Decimal(|content|))] + [SERVER_FIELD]
  {
    hide Set, DefaultDescription, Decimal, CONTENT_LENGTH, SERVER, SERVER_NAME, ApplyAll, ZERO, Apply, FileCalls;
    WholeCalls(content);
    TwoCalls(NEW, Call.SetBody(content), Call.SetCode(OK, None));
    WholeSteps(content);
    TextIs(0);
    LengthAndServer(Decimal(|content|));
    DecimalOfNothing();
  }

  /** The calls for a part of a file. */
  lemma PartFields(range: Range, content: Text)
    requires range.start < range.end <= |content|
    ensures var s := Finalized(Apply(ApplyAll(NEW, FileCalls(range, content)), Call.SetHeader(SERVER, SERVER_NAME)));
            && s.code == 2 && Some(s.description) == DefaultDescription(2)
            && s.body == content[range.start..range.end]
            && s.fields == [Field(CONTENT_LENGTH, Decimal(range.end - range.start))]
                           + ([Field(CONTENT_RANGE, ContentRange(range, |content|))] + [SERVER_FIELD])
  {
    hide Set, DefaultDescription, Strcmp, Decimal, ContentRange;
    var body, text := content[range.start..range.end], ContentRange(range, |content|);
    ThreeCalls(
      NEW, Call.SetBody(body), Call.SetCode(PARTIAL_CONTENT, None), Call.SetHeader(CONTENT_RANGE, text));
    HeadersAreOrdered();
    TextIs(2);
    var length, part := Field(CONTENT_LENGTH, Decimal(|body|)), Field(CONTENT_RANGE, text);
    SetFirst(length);
    SetTwo(length, part);
    SetThird(length, part, SERVER_FIELD);
  }

  /** What a transaction that serves this file leaves in a new response, with the Server header. */
  lemma ServedIs(q: Request, handler: Handler, content: Text)
    requires ServesFile(handler, q, content)
    ensures var range := FileRange(q.fields, |content|);
            && (range == FULL || range.start < range.end <= |content|)
            && Answered(NEW, Accepted(q), handler) ==
               Finalized(Apply(ApplyAll(NEW, FileCalls(range, content)), Call.SetHeader(SERVER, SERVER_NAME)))
  {
    hide FileRange, LeadsBehindFile, FileCalls, Apply, Finalized;
    InFileIffServable(q.fields, |content|);
    ApplyOneMore(NEW, handler(q), Call.SetHeader(SERVER, SERVER_NAME));
  }

  lemma LengthAndServerBlock(size: Text)
    ensures Block([Field(CONTENT_LENGTH, size)] + [SERVER_FIELD]) ==
            (Ascii("Content-Length: ") + size + Ascii("\r\n")) + Ascii("Server: hSS/0.0.1-alpha\r\n")
  {
    hide Block, LineOf, Ascii;
    BlockOfMore(Field(CONTENT_LENGTH, size), [SERVER_FIELD]);
    BlockOfOne(SERVER_FIELD);
    ServerLine();
    LengthLine(size);
  }

  /** The answer to a request for all of a file on a new connection, for every file. */
  lemma WholeIs(q: Request, handler: Handler, content: Text)
    requires ServesFile(handler, q, content) && FileRange(q.fields, |content|) == FULL
    ensures var length := Ascii("Content-Length: ") + Decimal(|content|) + Ascii("\r\n");
            var server := Ascii("Server: hSS/0.0.1-alpha\r\n");
            Rendered(Answered(NEW, Accepted(q), handler)) ==
            Ascii("HTTP/1.1 200 OK\r\n") + ((length + server) + (Ascii("\r\n") + content))
  {
    hide Rendered, DefaultDescription, Block, Ascii, StartLine, LineOf, Answered, FileRange, Decimal, FileCalls;
    hide LeadsBehindFile, RangeList, ReadableList, RangeHeader, Finalized, ApplyAll, Apply;
    var s := Answered(NEW, Accepted(q), handler);
    ServedIs(q, handler, content);
    WholeFields(content);
    TextIs(0);
    StartLineIs(s);
    LinesAre();
    var length := Field(CONTENT_LENGTH, Decimal(|content|));
    LengthAndServerBlock(length.value);
    Separators();
  }

  /** A response with this part of the file. */
  function PartText(range: Range, content: Text): Text
    requires range.start < range.end <= |content|
  {
    var length := Ascii("Content-Length: ") + Decimal(range.end - range.start) + Ascii("\r\n");
    var part := Ascii("Content-Range: ") + ContentRange(range, |content|) + Ascii("\r\n");
    var server := Ascii("Server: hSS/0.0.1-alpha\r\n");
    Ascii("HTTP/1.1 206 Partial Content\r\n")
    + ((length + (part + server)) + (Ascii("\r\n") + content[range.start..range.end]))
  }

  /** The answer to a request for a part of a file on a new connection, for every file and every part. */
  lemma PartIs(q: Request, handler: Handler, content: Text)
    requires ServesFile(handler, q, content) && FileRange(q.fields, |content|) != FULL
    ensures FileRange(q.fields, |content|).start < FileRange(q.fields, |content|).end <= |content|
    ensures Rendered(Answered(NEW, Accepted(q), handler)) == PartText(FileRange(q.fields, |content|), content)
  {
    hide Rendered, DefaultDescription, Block, Ascii, StartLine, LineOf, Answered, FileRange, Decimal, FileCalls;
    hide LeadsBehindFile, RangeList, ReadableList, RangeHeader, Finalized, ApplyAll, Apply, ContentRange;
    var s := Answered(NEW, Accepted(q), handler);
    ServedIs(q, handler, content);
    var range := FileRange(q.fields, |content|);
    PartFields(range, content);
    TextIs(2);
    StartLineIs(s);
    LinesAre();
    var length := Field(CONTENT_LENGTH, Decimal(range.end - range.start));
    var part := Field(CONTENT_RANGE, ContentRange(range, |content|));
    BlockOfMore(length, [part] + [SERVER_FIELD]);
    BlockOfMore(part, [SERVER_FIELD]);
    BlockOfOne(SERVER_FIELD);
    ServerLine();
    LengthLine(length.value);
    RangeLine(part.value);
    Separators();
  }

  /** For `bytes=0-4` and a file of ten bytes. */
  lemma FirstFiveOfTen()
    ensures ContentRange(Range(0, 5), 10) == Ascii("bytes 0-4/10") && Decimal(5) == Ascii("5")
  {
    hide Decimal;
    SmallNumbers();
  }

  lemma SmallNumbers()
    ensures Decimal(0) == [48] && Decimal(4) == [52] && Decimal(5) == [53] && Decimal(10) == [49, 48]
  {
    assert Decimal(10) == Decimal(1) + [48];
  }

  // ---------------------------------------------------------------- headers and requests of the examples

  lemma TwoDigits(n: nat)
    requires 10 <= n < 100
    ensures Decimal(n) == [48 + n / 10, 48 + n % 10]
  {
    assert Decimal(n / 10) == [48 + n / 10];
  }

  /** The headers of the examples, as they are sent. */
  lemma RangeHeadersAreLiteral()
    ensures IntHeader([(0, 4)]) == Ascii("bytes=0-4")
    ensures IntHeader([(0, 99)]) == Ascii("bytes=0-99")
    ensures BYTES_UNIT + ABC == Ascii("bytes=abc")
  {
    hide Decimal, JoinCommas;
    SmallNumbers();
    TwoDigits(99);
    assert IntSpecs([(0, 4)]) == [IntSpec(0, 4)] && IntSpecs([(0, 99)]) == [IntSpec(0, 99)];
    JoinOne(IntSpec(0, 4));
    JoinOne(IntSpec(0, 99));
  }

  lemma TwoRangesAreLiteral()
    ensures IntHeader([(0, 9), (2, 3)]) == Ascii("bytes=0-9,2-3")
  {
    hide Decimal, JoinCommas;
    var a, b := IntSpec(0, 9), IntSpec(2, 3);
    assert Decimal(9) == [57] && Decimal(2) == [50] && Decimal(3) == [51] by {
      OneDigit(9);
      OneDigit(2);
      OneDigit(3);
    }
    SmallNumbers();
    assert IntSpecs([(0, 9), (2, 3)]) == [a] + [b];
    JoinMore(a, [b]);
    JoinOne(b);
  }

  lemma OneDigit(n: nat)
    requires n < 10
    ensures Decimal(n) == [48 + n]
  {
  }

  lemma ThreeSpecs()
    ensures IntSpec(20, 29) == Ascii("20-29") && IntSpec(10, 19) == Ascii("10-19") && IntSpec(5, 9) == Ascii("5-9")
  {
    hide Decimal;
    TwoDigits(20);
    TwoDigits(29);
    TwoDigits(10);
    TwoDigits(19);
    OneDigit(5);
    OneDigit(9);
  }

  lemma ThreeTogether()
    ensures Ascii("10-19") + [COMMA] + Ascii("5-9") == Ascii("10-19,5-9")
    ensures Ascii("20-29") + [COMMA] + Ascii("10-19,5-9") == Ascii("20-29,10-19,5-9")
    ensures BYTES_UNIT + Ascii("20-29,10-19,5-9") == Ascii("bytes=20-29,10-19,5-9")
  {
    hide Ascii;
    CommaAndUnit();
    AsciiAppend("10-19", ",");
    AsciiAppend("10-19" + ",", "5-9");
    AsciiAppend("20-29", ",");
    AsciiAppend("20-29" + ",", "10-19,5-9");
    AsciiAppend("bytes=", "20-29,10-19,5-9");
    assert "10-19" + "," + "5-9" == "10-19,5-9";
    assert "20-29" + "," + "10-19,5-9" == "20-29,10-19,5-9";
    assert "bytes=" + "20-29,10-19,5-9" == "bytes=20-29,10-19,5-9";
  }

  lemma CommaAndUnit()
    ensures Ascii(",") == [COMMA] && Ascii("bytes=") == BYTES_UNIT
  {
  }

  lemma ThreeRangesAreLiteral()
    ensures IntHeader([(20, 29), (10, 19), (5, 9)]) == Ascii("bytes=20-29,10-19,5-9")
  {
    hide IntSpec, JoinCommas, Ascii;
    ThreeTogether();
    var a, b, c := IntSpec(20, 29), IntSpec(10, 19), IntSpec(5, 9);
    ThreeSpecs();
    assert IntSpecs([(20, 29), (10, 19), (5, 9)]) == [a] + ([b] + [c]);
    JoinMore(a, [b] + [c]);
    JoinMore(b, [c]);
    JoinOne(c);
  }

  /** The requests of the example, as they are sent. */
  lemma RequestsAreLiteral()
    ensures Print(EVERYTHING) == Ascii("GET / 1\r\n\r\n")
    ensures Print(FIRST_FIVE) == Ascii("GET / 1\r\n") + (Ascii("Range: bytes=0-4\r\n") + Ascii("\r\n"))
  {
    hide IntHeader, Block, LineOf, PrintRequestLine, Ascii;
    BlockOfOne(FIRST_FIVE.fields[0]);
    RequestPieces();
    Separators();
    assert Ascii("GET / 1\r\n") + ([] + CRLF) == Ascii("GET / 1\r\n") + Ascii("\r\n");
    AsciiAppend("GET / 1\r\n", "\r\n");
    assert "GET / 1\r\n" + "\r\n" == "GET / 1\r\n\r\n";
    NoBlock();
  }

  lemma RequestPieces()
    ensures PrintRequestLine([47], [49]) == Ascii("GET / 1\r\n")
    ensures LineOf(FIRST_FIVE.fields[0]) + CRLF == Ascii("Range: bytes=0-4\r\n")
  {
    hide IntHeader;
    RangeHeadersAreLiteral();
  }

  lemma NoBlock()
    ensures Block([]) == []
  {
  }

  /** A method that is not GET is refused as such, whatever follows it. */
  lemma PostIsUnsupported(rest: Text)
    ensures ParseRequest(Ascii("POST ") + rest) == UnsupportedMethod
  {
    hide ParseRequest, Unfinished, Invalid, Duplicated, Acceptable;
    var b, t := Ascii("POST ") + rest, Ascii("POST");
    assert IsMethod(b, t) && Strncmp(GET, t, |t|) == 71 - 80;
    OutcomeIff(b);
  }

  /** A header line without a colon is a syntax error, whatever follows it. */
  lemma NoColonIsInvalid(rest: Text)
    requires CrlfFree(rest) || CRLF <= rest
    ensures ParseRequest(Ascii("GET / 1\r\nnocolon\r\n") + rest) == InvalidSyntax
  {
    hide ParseRequest, Unfinished, Unsupported, Duplicated, Acceptable, FieldOfLine, Strncmp, CrlfFree;
    var line := Ascii("nocolon");
    var b := Ascii("GET / 1\r\nnocolon\r\n") + rest;
    var s := line + CRLF + rest;
    var p := Start(GET, [SPACE], [47], [SPACE], [49], CRLF + s);
    StartOfExample(rest);
    NoColonNoField();
    assert line != [] && CrlfFree(line);
    assert AreLines([line]) && AllGood([line], 0);
    JoinCons(line, []);
    assert [line] + [] == [line];
    assert IsSection(s, [line], rest);
    assert p.rest[2..] == s;
    assert BadSection(s);
    assert Invalid(b);
    OutcomeIff(b);
  }

  lemma StartOfExample(rest: Text)
    ensures Started(
      Ascii("GET / 1\r\nnocolon\r\n") + rest,
      Start(GET, [SPACE], [47], [SPACE], [49], CRLF + (Ascii("nocolon") + CRLF + rest)))
  {
    assert Strncmp(GET[3..], GET[3..], 0) == 0;
    MethodMatchesIsStrncmp(GET);
    assert GET + [SPACE] + [47] + [SPACE] + [49] + (CRLF + (Ascii("nocolon") + CRLF)) ==
           Ascii("GET / 1\r\nnocolon\r\n");
  }

  lemma NoColonNoField()
    ensures CrlfFree(Ascii("nocolon")) && FieldOfLine(Ascii("nocolon")).None?
  {
    var line := Ascii("nocolon");
    hide FieldOfLine;
    assert COLON !in line;
    if f :| FieldOfLine(line) == Some(f) {
      FieldOfLineIff(line, f);
    }
  }
}
