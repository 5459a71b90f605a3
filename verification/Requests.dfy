/** `struct http_request`: the parser as it runs over the buffer, and the queries on its result. */
module Requests {
  import opened CStrings
  import F = Fields
  import opened HeaderLists
  import opened RequestSyntax
  import opened PrefixTheorem
  import O = Outcomes

  /** `enum http_error_code`. */
  datatype ErrorCode =
    | Succeed
    | RequestNoValidData
    | ParseInvalidRequestSyntax
    | InsufficientBufferSize
    | IncompleteRequest
    | UnsupportedRequestMethod
    | DuplicateHeaderKey
    | NoSuchHeader

  function CodeOf<T>(r: Outcome<T>): ErrorCode {
    match r
    case Accepted(_) => Succeed
    case Incomplete => IncompleteRequest
    case InvalidSyntax => ParseInvalidRequestSyntax
    case UnsupportedMethod => UnsupportedRequestMethod
    case DuplicateKey => DuplicateHeaderKey
  }

  /** The code says what is wrong with the bytes, if anything is. */
  ghost predicate Means(code: ErrorCode, b: Text) {
    && (code == Succeed <==> exists q :: O.Acceptable(b, q))
    && (code == IncompleteRequest <==> O.Unfinished(b))
    && (code == ParseInvalidRequestSyntax <==> O.Invalid(b))
    && (code == UnsupportedRequestMethod <==> O.Unsupported(b))
    && (code == DuplicateHeaderKey <==> O.Duplicated(b))
  }

  lemma CodeMeans(b: Text)
    ensures Means(CodeOf(ParseRequest(b)), b)
    ensures ParseRequest(b).Accepted? ==> O.Acceptable(b, ParseRequest(b).value)
  {
    hide ParseRequest, O.Acceptable, O.Unfinished, O.Invalid, O.Unsupported, O.Duplicated;
    O.OutcomeIff(b);
  }

  // ---------------------------------------------------------------- the scanning loops

  // The buffer is the first `length` bytes of the memory `m`; what lies behind it is read, but does not matter.

  /** `range_non_blank`, which does nothing at or behind the end of the buffer. */
  method RangeNonBlank(m: Text, length: nat, from: nat) returns (end: nat)
    requires length <= |m|
    ensures end == if from <= length then from + NonBlankLength(m[from..length]) else from
  {
    end := from;
    while end < length && !IsSpace(m[end])
      invariant from <= end && (end <= length || end == from)
      invariant end <= length ==> end + NonBlankLength(m[end..length]) == from + NonBlankLength(m[from..length])
    {
      assert m[end..length][1..] == m[end + 1..length];
      end := end + 1;
    }
  }

  /**
   `skip_whitespaces`, which tells whether it has consumed the last byte of the buffer. At the end of the buffer it may
   run on, up to the first byte behind it that is not blank.
   */
  method SkipWhitespaces(m: Text, length: nat, from: nat) returns (end: nat, exhausted: bool)
    requires Terminated(m, length) && from <= length
    ensures exhausted <==> from < length && BlankLength(m[from..length]) == length - from
    ensures from < length ==> end == from + BlankLength(m[from..length])
    ensures from == length ==> length <= end < |m|
  {
    ghost var k :| 0 <= k < |m[length..]| && m[length..][k] == NUL;
    end := from;
    while IsSpace(m[end])
      invariant from <= end <= length + k
      invariant from < length ==> end < length
      invariant end < length ==> end + BlankLength(m[end..length]) == from + BlankLength(m[from..length])
      decreases length + k - end
    {
      assert m[length + k] == NUL;
      assert end < length ==> m[end..length][1..] == m[end + 1..length];
      end := end + 1;
      if end == length {
        return end, true;
      }
    }
    return end, false;
  }

  /** `range_line` */
  method RangeLine(m: Text, length: nat, from: nat) returns (end: nat, exhausted: bool)
    requires from <= length <= |m|
    ensures exhausted <==> LineLength(m[from..length]).None?
    ensures !exhausted ==> LineLength(m[from..length]) == Some(end - from) && from <= end && end + 2 <= length
  {
    end := from;
    while end + 1 < length && (m[end] != CR || m[end + 1] != LF)
      invariant from <= end <= length
      invariant forall i: nat | i < end - from :: !CrlfAt(m[from..length], i)
    {
      assert !CrlfAt(m[from..length], end - from);
      end := end + 1;
    }
    if end + 1 >= length {
      assert forall i: nat :: !CrlfAt(m[from..length], i);
      return end, true;
    }
    LineIs(m[from..length], end - from);
    return end, false;
  }

  /** Whether the bytes before the colon hold whitespace. */
  method HasWhitespace(b: Text, start: nat, colon: nat) returns (found: bool)
    requires start <= colon <= |b|
    ensures found <==> !BlankFree(b[start..colon])
  {
    var c := start;
    while c < colon
      invariant start <= c <= colon
      invariant forall i | start <= i < c :: !IsSpace(b[i])
    {
      if IsSpace(b[c]) {
        assert b[start..colon][c - start] == b[c];
        return true;
      }
      c := c + 1;
    }
    return false;
  }

  lemma Suffixes(b: Text, i: nat, j: nat)
    requires i <= j <= |b|
    ensures b[i..][j - i..] == b[j..]
  {
  }

  lemma SliceOfSlice(b: Text, i: nat, j: nat, k: nat, n: nat)
    requires i <= j <= k <= n <= |b|
    ensures b[i..n][j - i..k - i] == b[j..k]
  {
    assert b[i..n] == b[i..j] + b[j..k] + b[k..n];
  }

  /** Moves the start of a value past leading whitespace. */
  method SkipLeading(b: Text, from: nat, limit: nat) returns (start: nat)
    requires from <= limit <= |b|
    ensures start == from + BlankLength(b[from..limit])
  {
    start := from;
    while start != limit && IsSpace(b[start])
      invariant from <= start <= limit
      invariant start + BlankLength(b[start..limit]) == from + BlankLength(b[from..limit])
      decreases limit - start
    {
      SliceOfSlice(b, start, start + 1, limit, limit);
      start := start + 1;
    }
  }

  /** Moves the end of a value back over trailing whitespace. */
  method DropTrailing(b: Text, start: nat, limit: nat) returns (end: nat)
    requires start <= limit <= |b|
    ensures start <= end <= limit && b[start..end] == TrimRight(b[start..limit])
  {
    hide TrimRight;
    end := limit;
    while end != start && IsSpace(b[end - 1])
      invariant start <= end <= limit
      invariant TrimRight(b[start..end]) == TrimRight(b[start..limit])
      decreases end
    {
      SliceOfSlice(b, start, start, end - 1, end);
      TrimLast(b[start..end]);
      end := end - 1;
    }
    TrimLast(b[start..end]);
  }

  lemma TrimLast(s: Text)
    ensures TrimRight(s) == if s == [] || !IsSpace(s[|s| - 1]) then s else TrimRight(s[..|s| - 1])
  {
  }

  /** A colon with no whitespace before it lies inside the line, so that the value cannot start behind its end. */
  lemma ColonIsInLine(s: Text, n: nat, colon: nat)
    requires CrlfAt(s, n) && colon < |s| && s[colon] == COLON && BlankFree(s[..colon])
    ensures colon < n
  {
    assert n < colon ==> IsSpace(s[..colon][n]);
  }

  /** The part of a round of the header loop that finds name and value in the line from `start` to `end`. */
  method ParseFieldLine(b: Text, start: nat, end: nat) returns (field: Option<F.Field>)
    requires start <= end <= |b| && CrlfAt(b[start..], end - start)
    ensures field == FieldAt(b[start..], end - start)
  {
    hide Trim, BlankFree, TrimRight, BlankLength;
    var s := b[start..];
    var found := ColonIndex(s);
    if found.None? {
      return None;
    }
    var colon := start + found.value;
    assert b[start..colon] == s[..found.value];
    var blank := HasWhitespace(b, start, colon);
    if blank {
      return None;
    }
    ColonIsInLine(s, end - start, found.value);
    var valueStart := SkipLeading(b, colon + 1, end);
    var valueEnd := DropTrailing(b, valueStart, end);
    ValueIsTrimmed(b, start, colon, end, valueStart, valueEnd);
    if valueStart == valueEnd {
      return None;
    }
    return Some(F.Field(b[start..colon], b[valueStart..valueEnd]));
  }

  /** The search for the colon may leave the buffer, but the field does not depend on what it finds there. */
  lemma FieldInMemory(m: Text, length: nat, start: nat, n: nat)
    requires start <= length <= |m| && CrlfAt(m[start..length], n)
    ensures CrlfAt(m[start..], n) && FieldAt(m[start..], n) == FieldAt(m[start..length], n)
  {
    hide FieldAt;
    FieldIsInLine(m[start..], n);
    FieldIsInLine(m[start..length], n);
    assert m[start..][..n] == m[start..length][..n];
  }

  lemma ValueIsTrimmed(b: Text, start: nat, colon: nat, end: nat, valueStart: nat, valueEnd: nat)
    requires start <= colon < end <= |b| && valueStart == colon + 1 + BlankLength(b[colon + 1..end])
    requires valueStart <= valueEnd <= end && b[valueStart..valueEnd] == TrimRight(b[valueStart..end])
    ensures b[valueStart..valueEnd] == Trim(b[start..][colon - start + 1..end - start])
  {
    hide TrimRight, BlankLength;
    SliceOfSlice(b, start, colon + 1, end, |b|);
    assert b[start..|b|] == b[start..];
    SliceOfSlice(b, colon + 1, valueStart, end, end);
    var v := b[colon + 1..end];
    assert v[valueStart - colon - 1..] == v[valueStart - colon - 1..end - colon - 1];
  }

  lemma TokenAt(b: Text, from: nat, start: nat, end: nat)
    requires from <= |b| && start == from + BlankLength(b[from..])
    requires start <= |b| && end == start + NonBlankLength(b[start..])
    ensures Token(b[from..]) == if start == end then None else Some((b[start..end], b[end..]))
  {
    hide NonBlankLength, BlankLength;
    Suffixes(b, from, start);
    Suffixes(b, start, end);
    assert b[start..][..end - start] == b[start..end];
  }

  lemma TokenMissing(b: Text, from: nat)
    requires from <= |b| && from + BlankLength(b[from..]) == |b|
    ensures Token(b[from..]).None?
  {
    Suffixes(b, from, |b|);
    assert b[|b|..] == [];
    assert NonBlankLength([]) == 0;
  }

  lemma AfterVersionAt(b: Text, end: nat)
    requires end <= |b|
    ensures ParseAfterVersion(b[end..]) ==
            if end + 1 >= |b| then Incomplete
            else if b[end] != CR || b[end + 1] != LF then InvalidSyntax
            else ParseFields(b[end + 2..], [])
  {
    hide ParseFields;
    if end + 2 <= |b| {
      Suffixes(b, end, end + 2);
    }
  }

  /** Whitespace, a token, and the check that the token is there. */
  method NextToken(m: Text, length: nat, from: nat) returns (found: bool, start: nat, end: nat)
    requires Terminated(m, length) && from <= length
    ensures found <==> Token(m[from..length]).Some?
    ensures found ==>
              && start <= end <= length
              && Token(m[from..length]) == Some((m[start..end], m[end..length]))
  {
    hide Token, NonBlankLength, BlankLength;
    ghost var b := m[..length];
    Within(m, length);
    var exhausted;
    start, exhausted := SkipWhitespaces(m, length, from);
    if from == length || exhausted {
      TokenMissing(b, from);
    }
    if exhausted {
      return false, start, start;
    }
    end := RangeNonBlank(m, length, start);
    if from < length {
      TokenAt(b, from, start, end);
      assert b[start..end] == m[start..end];
    }
    found := start != end;
  }

  lemma Within(m: Text, length: nat)
    requires Terminated(m, length)
    ensures length <= |m| && forall i | 0 <= i <= length :: m[..length][i..] == m[i..length]
  {
  }

  /** Everything before the header section: the start line, and where the section starts. */
  method ParseStartLine(m: Text, length: nat) returns (code: ErrorCode, url: Text, version: Text, end: nat)
    requires Terminated(m, length)
    ensures code == Succeed ==>
              end <= length && ParseRequest(m[..length]) == WithFields(url, version, ParseFields(m[end..length], []))
    ensures code != Succeed ==> !ParseRequest(m[..length]).Accepted? && code == CodeOf(ParseRequest(m[..length]))
    ensures code == UnsupportedRequestMethod ==> url == [] && version == []
  {
    hide Token, NonBlankLength, ParseFields, ParseAfterVersion, MethodMatches, Terminated;
    url, version := [], [];
    Within(m, length);
    end := RangeNonBlank(m, length, 0);
    assert m[..end] == m[..length][..end] && m[..length] == m[0..length];
    if !MethodMatches(m[..end]) {
      code := UnsupportedRequestMethod;
      return;
    }
    code := IncompleteRequest;
    var found, start;
    found, start, end := NextToken(m, length, end);
    if !found {
      return;
    }
    url := m[start..end];
    found, start, end := NextToken(m, length, end);
    if !found {
      return;
    }
    version := m[start..end];
    AfterVersionAt(m[..length], end);
    if end + 1 >= length {
      return;
    }
    if m[end] != CR || m[end + 1] != LF {
      code := ParseInvalidRequestSyntax;
      return;
    }
    end := end + 2;
    code := Succeed;
  }

  // ---------------------------------------------------------------- the request object

  datatype RequestState = Initialized | Parsed | Invalid

  class HttpRequest {
    var state: RequestState
    var url: Text
    var version: Text
    const headers: HeaderList

    /** An initialized request is empty; a used one may hold anything. */
    ghost predicate Valid()
      reads this, headers, headers.Repr
    {
      && headers.Valid()
      && (state == Initialized ==> url == [] && version == [] && headers.contents == [])
    }

    ghost function Value(): Request
      reads this, headers
    {
      Request(url, version, headers.contents)
    }

    /** `http_request_initialize` */
    constructor ()
      ensures Valid() && state == Initialized && fresh(headers) && headers.Repr == {}
    {
      state, url, version := Initialized, [], [];
      headers := new HeaderList();
    }

    /** `http_request_destroy` */
    method Destroy()
      requires Valid()
      modifies this, headers
      ensures Valid() && state == Initialized
      ensures headers.Repr <= old(headers.Repr)
    {
      if state == Initialized {
        return;
      }
      headers.Clear();
      state, url, version := Initialized, [], [];
    }

    /**
     `http_request_from_buffer`: the answer depends on the bytes of the buffer alone, whatever lies behind it in memory
     and whatever an earlier call left in the object, and an accepted request is the whole content of the object
     afterwards.
     */
    method FromBuffer(m: Text, length: nat) returns (code: ErrorCode)
      requires Valid() && Terminated(m, length)
      modifies this, headers, headers.Repr
      ensures Valid() && fresh(headers.Repr - old(headers.Repr))
      ensures code == CodeOf(ParseRequest(m[..length])) && Means(code, m[..length])
      ensures code == Succeed <==> state == Parsed
      ensures code == Succeed ==> Value() == ParseRequest(m[..length]).value
      ensures code == Succeed ==> O.Acceptable(m[..length], Request(url, version, headers.contents))
      ensures code == UnsupportedRequestMethod ==> state == Initialized
    {
      hide ParseRequest, ParseFields, HeaderList.Valid, Terminated, Means, O.Acceptable;
      Within(m, length);
      CodeMeans(m[..length]);
      if state != Initialized {
        Destroy();
      }
      var end;
      code, url, version, end := ParseStartLine(m, length);
      if code == Succeed {
        code := ParseHeaderLoop(m, length, end);
        state := if code == Succeed then Parsed else Invalid;
      } else if code != UnsupportedRequestMethod {
        state := Invalid;
      }
    }

    /** Allocates a header and inserts it. */
    method StoreField(f: F.Field) returns (inserted: bool)
      requires headers.Valid()
      modifies headers, headers.Repr
      ensures headers.Valid() && fresh(headers.Repr - old(headers.Repr))
      ensures inserted <==> F.Insert(old(headers.contents), f).Some?
      ensures headers.contents == F.Insert(old(headers.contents), f).GetOr(old(headers.contents))
    {
      hide F.Insert;
      var node := new HeaderNode(f.key, f.value);
      inserted := headers.Insert(node);
    }

    /** The header loop and the check for trailing bytes. */
    method ParseHeaderLoop(m: Text, length: nat, from: nat) returns (code: ErrorCode)
      requires Terminated(m, length) && from <= length && headers.Valid() && headers.contents == []
      modifies headers, headers.Repr
      ensures headers.Valid() && fresh(headers.Repr - old(headers.Repr))
      ensures code == CodeOf(ParseFields(m[from..length], []))
      ensures code == Succeed ==> headers.contents == ParseFields(m[from..length], []).value
    {
      hide FieldAt, LineLength, F.Insert, HeaderList.Valid;
      var start, end := from, from;
      while true
        invariant from <= start == end <= length
        invariant headers.Valid() && fresh(headers.Repr - old(headers.Repr))
        invariant ParseFields(m[from..length], []) == ParseFields(m[start..length], headers.contents)
        decreases length - start
      {
        var exhausted;
        end, exhausted := RangeLine(m, length, start);
        if exhausted {
          return IncompleteRequest;
        }
        if start == end {
          end := end + 2;
          start := end;
          break;
        }
        FieldInMemory(m, length, start, end - start);
        var field := ParseFieldLine(m, start, end);
        if field.None? {
          return ParseInvalidRequestSyntax;
        }
        var inserted := StoreField(field.value);
        if !inserted {
          return DuplicateHeaderKey;
        }
        SliceOfSlice(m, start, end + 2, length, length);
        end := end + 2;
        start := end;
      }
      code := if end != length then ParseInvalidRequestSyntax else Succeed;
    }

    /**
     `http_request_get_url`: measures when there is no buffer or too small a one, else copies. Size and reported length
     are those of the stored URL, while the copy is a C string: they agree exactly for a URL without NUL.
     */
    method GetUrl(buffer: array?<Byte>, length: nat) returns (code: ErrorCode, newLength: nat)
      requires Valid() && (buffer != null ==> length <= buffer.Length)
      modifies if buffer == null then {} else {buffer}
      ensures state != Parsed ==> code == RequestNoValidData && newLength == length
      ensures state == Parsed && (buffer == null || length < |url| + 1) ==>
                newLength == |url| + 1 && code == if buffer == null then Succeed else InsufficientBufferSize
      ensures state == Parsed && buffer != null && length >= |url| + 1 ==>
                code == Succeed && newLength == |url| && buffer[..] == Put(old(buffer[..]), 0, CStr(url) + [NUL])
      ensures state == Parsed && buffer != null && length >= |url| + 1 ==>
                (newLength == |CStr(buffer[..])| <==> NulFree(url))
      ensures buffer != null && code != Succeed ==> buffer[..] == old(buffer[..])
    {
      if state != Parsed {
        return RequestNoValidData, length;
      }
      if buffer == null || length < |url| + 1 {
        return if buffer == null then Succeed else InsufficientBufferSize, |url| + 1;
      }
      CStrIsWholeIff(url);
      CStrIsNulFree(url);
      StrCpy(buffer, CStr(url));
      CStrOfTerminated(CStr(url), buffer[|CStr(url)| + 1..]);
      assert buffer[..] == CStr(url) + [NUL] + buffer[|CStr(url)| + 1..];
      return Succeed, |url|;
    }

    /** The walk of `http_request_get_header`: where it stops is the header, if there is one of that name. */
    method Walk(name: CString) returns (header: HeaderNode?)
      requires Valid()
      ensures (header != null && Strcmp(header.key, name) == 0) <==> name in F.AsMap(headers.contents)
      ensures header != null && Strcmp(header.key, name) == 0 ==> header.value == F.AsMap(headers.contents)[name]
    {
      hide F.AsMap;
      header := headers.head;
      ghost var p := 0;
      while header != null && Strcmp(header.key, name) < 0
        invariant p <= |headers.nodes| && header == headers.NodeAt(p)
        invariant forall i | 0 <= i < p :: Strcmp(headers.contents[i].key, name) < 0
        decreases |headers.nodes| - p
      {
        assert header == headers.nodes[p];
        header := header.next;
        p := p + 1;
      }
      F.PositionIs(headers.contents, name, p);
      F.LookupRefinesMap(headers.contents, name);
    }

    /** What the queries of a transaction can see of a request: its tokens and its header list. */
    method Read() returns (r: Request)
      requires Valid()
      ensures r == Value()
    {
      hide HeaderList.Valid;
      var fields: seq<F.Field> := [];
      var header := headers.head;
      ghost var p := 0;
      headers.AtNode(0);
      while header != null
        invariant p <= |headers.nodes| == |headers.contents| && header == headers.NodeAt(p)
        invariant fields == headers.contents[..p]
        decreases |headers.nodes| - p
      {
        assert header == headers.nodes[p];
        headers.AtNode(p);
        fields := fields + [F.Field(header.key, header.value)];
        header := header.next;
        p := p + 1;
      }
      return Request(url, version, fields);
    }

    /**
     `http_request_get_header`, with its own early-stopping walk through the list: finds exactly the headers that the
     map has, measures when there is no buffer or too small a one, else copies the value as a C string.
     */
    method GetHeader(name: CString, buffer: array?<Byte>, length: nat) returns (code: ErrorCode, newLength: nat)
      requires Valid() && (buffer != null ==> length <= buffer.Length)
      modifies if buffer == null then {} else {buffer}
      ensures state != Parsed ==> code == RequestNoValidData && newLength == length
      ensures state == Parsed && name !in F.AsMap(headers.contents) ==> code == NoSuchHeader && newLength == length
      ensures state == Parsed && name in F.AsMap(headers.contents) ==>
                var v := CStr(F.AsMap(headers.contents)[name]);
                if buffer == null || length < |v| + 1 then
                  newLength == |v| + 1 && code == if buffer == null then Succeed else InsufficientBufferSize
                else
                  code == Succeed && newLength == |v| && buffer[..] == Put(old(buffer[..]), 0, v + [NUL])
      ensures buffer != null && code != Succeed ==> buffer[..] == old(buffer[..])
    {
      if state != Parsed {
        return RequestNoValidData, length;
      }
      hide F.AsMap, HeaderList.Valid, Put;
      var header := Walk(name);
      if header == null || Strcmp(header.key, name) != 0 {
        return NoSuchHeader, length;
      }
      var value := CStr(header.value);
      if buffer == null || length < |value| + 1 {
        return if buffer == null then Succeed else InsufficientBufferSize, |value| + 1;
      }
      StrCpy(buffer, value);
      return Succeed, |value|;
    }
  }

  /** `strcpy` */
  method StrCpy(buffer: array<Byte>, s: Text)
    requires |s| < buffer.Length
    modifies buffer
    ensures buffer[..] == Put(old(buffer[..]), 0, s + [NUL])
  {
    forall i | 0 <= i < |s| {
      buffer[i] := s[i];
    }
    buffer[|s|] := NUL;
  }

  /**
   `get_request_header`: measuring, allocating and copying always succeeds when the header is there; the result is null
   when it is not.
   */
  method GetRequestHeader(request: HttpRequest, name: CString) returns (value: array?<Byte>)
    requires request.Valid()
    ensures value == null <==> request.state != Parsed || name !in F.AsMap(request.headers.contents)
    ensures value != null ==>
              fresh(value) && value[..] == CStr(F.AsMap(request.headers.contents)[name]) + [NUL]
  {
    var code, length := request.GetHeader(name, null, 0);
    if code != Succeed {
      return null;
    }
    value := new Byte[length];
    code, length := request.GetHeader(name, value, length);
  }
}
