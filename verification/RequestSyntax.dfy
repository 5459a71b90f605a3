/** What `http_request_from_buffer` computes, as a function of the bytes it is given. */
module RequestSyntax {
  import opened CStrings
  import opened Fields

  /** The parsed part of `struct http_request`; `fields` is the header list. */
  datatype Request = Request(url: Text, version: Text, fields: seq<Field>)

  datatype Outcome<+T> =
    | Accepted(value: T)
    | Incomplete
    | InvalidSyntax
    | UnsupportedMethod
    | DuplicateKey

  const GET: Text := [71, 69, 84]

  // ---------------------------------------------------------------- scanning

  /** The number of leading bytes that are not whitespace (`range_non_blank`). */
  function NonBlankLength(s: Text): (n: nat)
    ensures n <= |s|
    ensures forall i | 0 <= i < n :: !IsSpace(s[i])
    ensures n < |s| ==> IsSpace(s[n])
  {
    if s == [] || IsSpace(s[0]) then 0 else 1 + NonBlankLength(s[1..])
  }

  lemma {:induction false} NonBlankIs(s: Text, n: nat)
    requires n <= |s| && BlankFree(s[..n]) && (n < |s| ==> IsSpace(s[n]))
    ensures NonBlankLength(s) == n
  {
    if n == 0 {
    } else {
      assert s[..n][0] == s[0];
      assert s[1..][..n - 1] == s[..n][1..];
      NonBlankIs(s[1..], n - 1);
    }
  }

  /** The number of leading whitespace bytes (`skip_whitespaces`). */
  function BlankLength(s: Text): (n: nat)
    ensures n <= |s|
    ensures forall i | 0 <= i < n :: IsSpace(s[i])
    ensures n < |s| ==> !IsSpace(s[n])
  {
    if s == [] || !IsSpace(s[0]) then 0 else 1 + BlankLength(s[1..])
  }

  lemma {:induction false} BlankIs(s: Text, n: nat)
    requires n <= |s| && (forall i | 0 <= i < n :: IsSpace(s[i])) && (n < |s| ==> !IsSpace(s[n]))
    ensures BlankLength(s) == n
  {
    if n == 0 {
    } else {
      BlankIs(s[1..], n - 1);
    }
  }

  predicate CrlfAt(s: Text, i: nat) {
    i + 1 < |s| && s[i] == CR && s[i + 1] == LF
  }

  predicate CrlfFree(s: Text) {
    forall i: nat | i < |s| :: !CrlfAt(s, i)
  }

  /** The length of the first line, if its CRLF is there (`range_line`). */
  function LineLength(s: Text): (r: Option<nat>)
    ensures r.None? ==> forall i: nat :: !CrlfAt(s, i)
    ensures r.Some? ==> CrlfAt(s, r.value) && forall i: nat | i < r.value :: !CrlfAt(s, i)
  {
    if |s| < 2 then None
    else if CrlfAt(s, 0) then Some(0)
    else
      var r := LineLength(s[1..]);
      assert forall i: nat | 0 < i :: CrlfAt(s, i) == CrlfAt(s[1..], i - 1);
      if r.None? then None else Some(1 + r.value)
  }

  lemma LineIs(s: Text, n: nat)
    requires CrlfAt(s, n) && forall i: nat | i < n :: !CrlfAt(s, i)
    ensures LineLength(s) == Some(n)
  {
  }

  /** `strchr(s, ':')`, where a NUL follows `s`: it may run past the first line, but not past a NUL. */
  function ColonIndex(s: Text): (r: Option<nat>)
    ensures r.Some? ==> r.value < |s| && s[r.value] == COLON
    ensures r.Some? ==> forall i | 0 <= i < r.value :: s[i] != COLON && s[i] != NUL
  {
    if s == [] || s[0] == NUL then None
    else if s[0] == COLON then Some(0)
    else
      var r := ColonIndex(s[1..]);
      if r.None? then None else Some(1 + r.value)
  }

  /** `strncmp("GET", token, |token|) == 0`: true of every prefix of `GET`, and of `GET` and NUL before anything. */
  predicate MethodMatches(token: Text) {
    if |token| <= 3 then token <= GET else GET <= token && token[3] == NUL
  }

  lemma StrncmpStep(a: Text, b: Text, n: nat)
    requires a != [] && b != [] && n > 0 && a[0] != NUL
    ensures Strncmp(a, b, n) == 0 <==> a[0] == b[0] && Strncmp(a[1..], b[1..], n - 1) == 0
  {
  }

  lemma StrncmpStops(b: Text, n: nat)
    requires n <= |b|
    ensures Strncmp([], b, n) == 0 <==> n == 0 || b[0] == NUL
  {
  }

  /** What the comparison of the method lets through, spelled out. */
  lemma MethodMatchesIsStrncmp(token: Text)
    ensures MethodMatches(token) <==> Strncmp(GET, token, |token|) == 0
  {
    hide Strncmp;
    var n := |token|;
    assert GET[1..] == [69, 84] && GET[2..] == [84] && GET[3..] == [];
    if n == 0 {
      StrncmpNothing(GET, token);
    } else {
      StrncmpStep(GET, token, n);
      if n == 1 {
        StrncmpNothing(GET[1..], token[1..]);
      } else {
        StrncmpStep(GET[1..], token[1..], n - 1);
        assert GET[1..][1..] == GET[2..] && token[1..][1..] == token[2..];
        if n == 2 {
          StrncmpNothing(GET[2..], token[2..]);
        } else {
          StrncmpStep(GET[2..], token[2..], n - 2);
          assert GET[2..][1..] == [] && token[2..][1..] == token[3..];
          StrncmpStops(token[3..], n - 3);
        }
      }
    }
  }

  lemma StrncmpNothing(a: Text, b: Text)
    ensures Strncmp(a, b, 0) == 0
  {
  }

  /** A value without the whitespace around it. */
  function Trim(s: Text): (r: Text) {
    var lead := BlankLength(s);
    TrimRight(s[lead..])
  }

  function TrimRight(s: Text): (r: Text)
    ensures r <= s
    ensures r != [] ==> !IsSpace(r[|r| - 1])
    ensures forall i | |r| <= i < |s| :: IsSpace(s[i])
  {
    if s == [] || !IsSpace(s[|s| - 1]) then s else TrimRight(s[..|s| - 1])
  }

  // ---------------------------------------------------------------- the parser

  /**
   The field line of length `n` at the front of `s`; `None` is a syntax error. The colon is searched for in all of
   `s`, but one beyond the line does not survive the scan for whitespace, since the CR of the line is whitespace.
   */
  function FieldAt(s: Text, n: nat): Option<Field>
    requires CrlfAt(s, n)
  {
    var colon := ColonIndex(s);
    if colon.None? then None
    else
      var key := s[..colon.value];
      assert n < |key| ==> IsSpace(key[n]);
      if !BlankFree(key) then None
      else
        var value := Trim(s[colon.value + 1..n]);
        if value == [] then None else Some(Field(key, value))
  }

  /** The header loop: `s` is what is left of the buffer and `l` the list built so far. */
  function ParseFields(s: Text, l: seq<Field>): (r: Outcome<seq<Field>>)
    ensures !r.UnsupportedMethod?
    decreases |s|
  {
    var n := LineLength(s);
    if n.None? then Incomplete
    else if n.value == 0 then
      if |s| == 2 then Accepted(l) else InvalidSyntax
    else
      var f := FieldAt(s, n.value);
      if f.None? then InvalidSyntax
      else
        var m := Insert(l, f.value);
        if m.None? then DuplicateKey else ParseFields(s[n.value + 2..], m.value)
  }

  /** From the byte after the HTTP version on. */
  function ParseAfterVersion(s: Text): Outcome<seq<Field>> {
    if |s| < 2 then Incomplete
    else if !CrlfAt(s, 0) then InvalidSyntax
    else ParseFields(s[2..], [])
  }

  /** One blank-delimited token after whitespace: the token and what follows it, if the token is there. */
  function Token(s: Text): (r: Option<(Text, Text)>)
    ensures r.Some? ==> r.value.0 != [] && |r.value.1| < |s|
  {
    var t := s[BlankLength(s)..];
    var n := NonBlankLength(t);
    if n == 0 then None else Some((t[..n], t[n..]))
  }

  /** The answer for the request, given the one for its header section. */
  function WithFields(url: Text, version: Text, r: Outcome<seq<Field>>): Outcome<Request> {
    match r
    case Accepted(l) => Accepted(Request(url, version, l))
    case Incomplete => Incomplete
    case InvalidSyntax => InvalidSyntax
    case UnsupportedMethod => UnsupportedMethod
    case DuplicateKey => DuplicateKey
  }

  /** From the byte after the method on. */
  function ParseAfterMethod(s: Text): Outcome<Request> {
    var url := Token(s);
    if url.None? then Incomplete
    else
      var version := Token(url.value.1);
      if version.None? then Incomplete
      else
        WithFields(url.value.0, version.value.0, ParseAfterVersion(version.value.1))
  }

  /** What the parser answers for `b`, whatever was parsed before. */
  function ParseRequest(b: Text): Outcome<Request> {
    var n := NonBlankLength(b);
    if MethodMatches(b[..n]) then ParseAfterMethod(b[n..]) else UnsupportedMethod
  }
}
