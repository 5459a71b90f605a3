/** `struct http_response`: built up by calls, measured, and written to a buffer. */
module Responses {
  import opened CStrings
  import F = Fields
  import opened HeaderLists
  import opened Requests
  import opened ResponseSyntax

  /** Keys and values of a response come from C strings. */
  predicate CStringFields(l: seq<F.Field>) {
    forall i | 0 <= i < |l| :: NulFree(l[i].key) && NulFree(l[i].value)
  }

  lemma SetKeepsCStrings(l: seq<F.Field>, key: CString, value: CString)
    requires CStringFields(l)
    ensures CStringFields(F.Set(l, key, value))
  {
  }

  /** `copy_and_advance` */
  method CopyAndAdvance(buffer: array<Byte>, at: nat, source: Text) returns (next: nat)
    requires at + |source| <= buffer.Length
    modifies buffer
    ensures next == at + |source| && buffer[..] == Put(old(buffer[..]), at, source)
  {
    forall i | 0 <= i < |source| {
      buffer[at + i] := source[i];
    }
    next := at + |source|;
  }

  class HttpResponse {
    var code: nat
    var description: Text
    var body: Text
    const headers: HeaderList

    ghost predicate Valid()
      reads this, headers, headers.Repr
    {
      headers.Valid() && CStringFields(headers.contents)
    }

    ghost function Value(): Response
      reads this, headers
    {
      Response(code, description, headers.contents, body)
    }

    /** `http_response_initialize`; the code is left as it is found in memory. */
    constructor ()
      ensures Valid() && fresh(headers) && headers.Repr == {}
      ensures Value() == Response(code, [], [], [])
    {
      description, body := [], [];
      headers := new HeaderList();
    }

    /** `http_response_set_code` */
    method SetCode(newCode: nat, text: Option<CString>)
      requires Valid()
      modifies this
      ensures Valid() && Value() == Apply(old(Value()), Call.SetCode(newCode, text))
      ensures body == old(body)
    {
      description := [];
      var given: Option<Text> := if text.None? then DefaultDescription(newCode) else text;
      code := newCode;
      if given.Some? {
        description := given.value;
      }
    }

    /** `http_response_set_header` */
    method SetHeader(key: CString, value: CString)
      requires Valid()
      modifies headers, headers.Repr
      ensures Valid() && fresh(headers.Repr - old(headers.Repr))
      ensures Value() == Apply(old(Value()), Call.SetHeader(key, value))
    {
      SetKeepsCStrings(headers.contents, key, value);
      headers.Set(key, value);
    }

    /** `http_response_set_body`: without a length, `memory` is read up to its NUL. */
    method SetBody(memory: Text, length: Option<nat>)
      requires Valid() && (length.Some? ==> length.value <= |memory|)
      modifies this, headers, headers.Repr
      ensures Valid() && fresh(headers.Repr - old(headers.Repr))
      ensures Value() ==
              Apply(old(Value()), Call.SetBody(if length.Some? then memory[..length.value] else CStr(memory)))
    {
      hide HeaderList.Valid, CStringFields, Decimal, F.Set, DefaultDescription;
      body := [];
      var n := if length.None? then |CStr(memory)| else length.value;
      body := memory[..n];
      SetHeader(CONTENT_LENGTH, Decimal(|body|));
    }

    /** `measure_response_size` */
    method MeasureResponseSize() returns (size: nat)
      requires Valid()
      ensures size == |Rendered(Value())|
    {
      hide StatusLine, Block, LineOf, HeaderList.Valid, CStringFields;
      size := 0;
      if description != [] {
        size := size + |HTTP_VERSION| + 3 + |description| + 4;
      } else {
        size := size + |HTTP_VERSION| + 3 + 3;
      }
      StatusLineLength(Value());
      var target := headers.head;
      ghost var p := 0;
      ghost var l := headers.contents;
      headers.AtNode(0);
      assert l[0..] == l;
      while target != null
        invariant p <= |headers.nodes| && target == headers.NodeAt(p)
        invariant size + |Block(l[p..])| == |StatusLine(Value())| + 2 + |Block(l)|
        decreases |headers.nodes| - p
      {
        assert target == headers.nodes[p];
        headers.AtNode(p);
        CStringsAt(l, p);
        BlockStep(l, p);
        LineLengthOf(l[p]);
        CStrOfNulFree(target.key);
        CStrOfNulFree(target.value);
        size := size + |CStr(target.key)| + |CStr(target.value)| + 4;
        target := target.next;
        p := p + 1;
      }
      headers.AtNode(p);
      assert l[p..] == [];
      BlockOfNothing();
      size := size + 2;
      size := size + |body|;
    }

    /**
     `http_response_render`: whether it probes, refuses or writes, it finalizes the response and reports the exact
     size; when the buffer is large enough the rendered bytes are at its front and the rest of it is untouched.
     */
    method Render(buffer: array?<Byte>, length: nat) returns (result: ErrorCode, newLength: nat)
      requires Valid() && (buffer != null ==> length <= buffer.Length)
      modifies headers, headers.Repr, if buffer == null then {} else {buffer}
      ensures Valid() && fresh(headers.Repr - old(headers.Repr))
      ensures Value() == Finalized(old(Value()))
      ensures newLength == |Rendered(Value())|
      ensures buffer == null ==> result == Succeed
      ensures buffer != null && length < newLength ==>
                result == InsufficientBufferSize && buffer[..] == old(buffer[..])
      ensures buffer != null && length >= newLength ==>
                result == Succeed && buffer[..] == Put(old(buffer[..]), 0, Rendered(Value()))
    {
      if |body| == 0 {
        SetHeader(CONTENT_LENGTH, ZERO);
      }
      var size := MeasureResponseSize();
      if buffer == null || length < size {
        return if buffer == null then Succeed else InsufficientBufferSize, size;
      }
      Write(buffer);
      return Succeed, size;
    }

    /** The writing half of `http_response_render`. */
    method Write(buffer: array<Byte>)
      requires Valid() && |Rendered(Value())| <= buffer.Length
      modifies buffer
      ensures buffer[..] == Put(old(buffer[..]), 0, Rendered(Value()))
    {
      hide StatusLine, HeaderList.Valid, CStringFields, Block, Put;
      ghost var before := buffer[..];
      var start, block := StatusLine(Value()), Block(headers.contents);
      var at := WriteStatusLine(buffer);
      at := CopyAndAdvance(buffer, at, CRLF);
      PutPut(before, 0, start, CRLF);
      at := WriteHeaders(buffer, at);
      PutPut(before, 0, start + CRLF, block);
      at := CopyAndAdvance(buffer, at, CRLF);
      PutPut(before, 0, start + CRLF + block, CRLF);
      at := CopyAndAdvance(buffer, at, body);
      PutPut(before, 0, start + CRLF + block + CRLF, body);
      assert start + CRLF + block + CRLF + body == Rendered(Value());
    }

    method WriteStatusLine(buffer: array<Byte>) returns (at: nat)
      requires |StatusLine(Value())| <= buffer.Length
      modifies buffer
      ensures at == |StatusLine(Value())| && buffer[..] == Put(old(buffer[..]), 0, StatusLine(Value()))
    {
      hide StatusText, Put;
      ghost var before := buffer[..];
      var status := StatusText(code);
      at := CopyAndAdvance(buffer, 0, HTTP_VERSION);
      at := CopyAndAdvance(buffer, at, [SPACE]);
      PutPut(before, 0, HTTP_VERSION, [SPACE]);
      at := CopyAndAdvance(buffer, at, status);
      PutPut(before, 0, HTTP_VERSION + [SPACE], status);
      if description != [] {
        at := CopyAndAdvance(buffer, at, [SPACE]);
        PutPut(before, 0, HTTP_VERSION + [SPACE] + status, [SPACE]);
        at := CopyAndAdvance(buffer, at, description);
        PutPut(before, 0, HTTP_VERSION + [SPACE] + status + [SPACE], description);
        assert HTTP_VERSION + [SPACE] + status + [SPACE] + description == StatusLine(Value());
      } else {
        assert HTTP_VERSION + [SPACE] + status == StatusLine(Value());
      }
    }

    method WriteHeaders(buffer: array<Byte>, from: nat) returns (at: nat)
      requires Valid() && from + |Block(headers.contents)| <= buffer.Length
      modifies buffer
      ensures at == from + |Block(headers.contents)|
      ensures buffer[..] == Put(old(buffer[..]), from, Block(headers.contents))
    {
      hide Put, Block, LineOf, HeaderList.Valid, CStringFields;
      at := from;
      var target := headers.head;
      ghost var p := 0;
      ghost var l := headers.contents;
      headers.AtNode(0);
      ghost var before, written := buffer[..], [];
      assert l[0..] == l;
      PutNothing(before, from);
      while target != null
        invariant p <= |headers.nodes| && target == headers.NodeAt(p)
        invariant at == from + |written| && written + Block(l[p..]) == Block(l)
        invariant buffer[..] == Put(before, from, written)
        decreases |headers.nodes| - p
      {
        assert target == headers.nodes[p];
        headers.AtNode(p);
        CStringsAt(l, p);
        BlockStep(l, p);
        ghost var line := LineOf(l[p]) + CRLF;
        assert written + (line + Block(l[p + 1..])) == (written + line) + Block(l[p + 1..]);
        at := WriteHeader(buffer, at, target);
        PutPut(before, from, written, line);
        written := written + line;
        target := target.next;
        p := p + 1;
      }
      headers.AtNode(p);
      assert l[p..] == [];
      BlockOfNothing();
      assert written + [] == written;
    }

    method WriteHeader(buffer: array<Byte>, from: nat, target: HeaderNode) returns (at: nat)
      requires NulFree(target.key) && NulFree(target.value)
      requires from + |LineOf(F.Field(target.key, target.value)) + CRLF| <= buffer.Length
      modifies buffer
      ensures at == from + |LineOf(F.Field(target.key, target.value)) + CRLF|
      ensures buffer[..] == Put(old(buffer[..]), from, LineOf(F.Field(target.key, target.value)) + CRLF)
    {
      hide Put;
      ghost var before := buffer[..];
      var key, value := CStr(target.key), CStr(target.value);
      CStrOfNulFree(target.key);
      CStrOfNulFree(target.value);
      at := CopyAndAdvance(buffer, from, key);
      at := CopyAndAdvance(buffer, at, [COLON, SPACE]);
      PutPut(before, from, key, [COLON, SPACE]);
      at := CopyAndAdvance(buffer, at, value);
      PutPut(before, from, key + [COLON, SPACE], value);
      at := CopyAndAdvance(buffer, at, CRLF);
      PutPut(before, from, key + [COLON, SPACE] + value, CRLF);
    }

    /** `http_response_destroy` */
    method Destroy()
      requires Valid()
      modifies this, headers
      ensures Valid() && headers.Repr == {} && Value() == Response(old(code), [], [], [])
    {
      headers.Clear();
      description, body := [], [];
    }
  }

  lemma PutNothing(before: Text, at: nat)
    requires at <= |before|
    ensures Put(before, at, []) == before
  {
  }

  lemma CStringsAt(l: seq<F.Field>, p: nat)
    requires CStringFields(l) && p < |l|
    ensures NulFree(l[p].key) && NulFree(l[p].value)
  {
  }

  lemma StatusLineLength(r: Response)
    ensures |StatusLine(r)| == |HTTP_VERSION| + 4 + if r.description == [] then 0 else |r.description| + 1
  {
  }

  lemma LineLengthOf(f: F.Field)
    ensures |LineOf(f)| == |f.key| + |f.value| + 2
  {
  }

  lemma BlockOfNothing()
    ensures Block([]) == []
  {
  }

  lemma BlockStep(l: seq<F.Field>, p: nat)
    requires p < |l|
    ensures Block(l[p..]) == LineOf(l[p]) + CRLF + Block(l[p + 1..])
  {
    assert l[p..][1..] == l[p + 1..];
  }
}
