/** Printing a request, or a header list as the renderer does, and parsing it back. */
module RoundTrip {
  import opened CStrings
  import opened Fields
  import opened RequestSyntax
  import opened PrefixTheorem
  import opened FieldLines
  import opened ResponseSyntax

  /** A field name with which the parser finds the end of the name. */
  predicate IsKey(k: Text) {
    COLON !in k && NUL !in k && BlankFree(k)
  }

  /** A value that is not empty, has no whitespace around it, and fits on a line. */
  predicate IsValue(v: Text) {
    v != [] && !IsSpace(v[0]) && !IsSpace(v[|v| - 1]) && CrlfFree(v)
  }

  predicate IsToken(t: Text) {
    t != [] && BlankFree(t)
  }

  ghost predicate WellFormedFields(l: seq<Field>) {
    && Sorted(l)
    && forall i | 0 <= i < |l| :: IsKey(l[i].key) && IsValue(l[i].value)
  }

  ghost predicate WellFormedRequest(r: Request) {
    IsToken(r.url) && IsToken(r.version) && WellFormedFields(r.fields)
  }

  function PrintRequestLine(url: Text, version: Text): Text {
    GET + ([SPACE] + url + ([SPACE] + version + CRLF))
  }

  function Print(r: Request): Text {
    PrintRequestLine(r.url, r.version) + (Block(r.fields) + CRLF)
  }

  // ---------------------------------------------------------------- one line

  lemma {:induction false} ColonAfterKey(k: Text, x: Text)
    requires COLON !in k && NUL !in k
    ensures ColonIndex(k + [COLON] + x) == Some(|k|)
  {
    var s := k + [COLON] + x;
    if k == [] {
      assert s[0] == COLON;
    } else {
      assert s[0] == k[0] && k[0] in k;
      assert s[1..] == k[1..] + [COLON] + x;
      ColonAfterKey(k[1..], x);
    }
  }

  lemma TrimOfTrimmed(v: Text)
    requires v != [] && !IsSpace(v[0]) && !IsSpace(v[|v| - 1])
    ensures Trim([SPACE] + v) == v
  {
    BlankIs([SPACE] + v, 1);
    assert ([SPACE] + v)[1..] == v;
  }

  lemma TrimIsTrimmed(s: Text) returns (i: nat, j: nat)
    ensures i <= j <= |s| && Trim(s) == s[i..j]
    ensures Trim(s) != [] ==> !IsSpace(Trim(s)[0]) && !IsSpace(Trim(s)[|Trim(s)| - 1])
  {
    i := BlankLength(s);
    var r := TrimRight(s[i..]);
    j := i + |r|;
    assert r == s[i..][..|r|] == s[i..j];
    if r != [] {
      assert r[0] == s[i];
    }
  }

  lemma SliceCrlfFree(s: Text, i: nat, j: nat)
    requires i <= j <= |s| && CrlfFree(s)
    ensures CrlfFree(s[i..j])
  {
    forall k: nat | k < j - i
      ensures !CrlfAt(s[i..j], k)
    {
      assert !CrlfAt(s, i + k);
    }
  }

  lemma TailCrlfFree(s: Text, i: nat)
    requires i <= |s| && CrlfFree(s)
    ensures CrlfFree(s[i..])
  {
    SliceCrlfFree(s, i, |s|);
    assert s[i..|s|] == s[i..];
  }

  /** A field whose parts fit on a line fits on a line. */
  lemma LineIsLine(f: Field)
    requires CrlfFree(f.key) && CrlfFree(f.value)
    ensures IsLine(LineOf(f))
  {
    var line := LineOf(f);
    var n := |f.key|;
    forall i: nat | i < |line|
      ensures !CrlfAt(line, i)
    {
      if i < n {
        assert !CrlfAt(f.key, i);
      } else if n + 2 <= i {
        assert !CrlfAt(f.value, i - n - 2);
      }
    }
  }

  lemma KeyIsCrlfFree(k: Text)
    requires BlankFree(k)
    ensures CrlfFree(k)
  {
  }

  /** A printed field reads back as itself. */
  lemma LineParses(f: Field)
    requires IsKey(f.key) && IsValue(f.value)
    ensures FieldOfLine(LineOf(f)) == Some(f)
    ensures IsLine(LineOf(f))
  {
    hide Trim, CrlfFree, BlankFree, ColonIndex;
    var line := LineOf(f);
    var n := |f.key|;
    KeyIsCrlfFree(f.key);
    LineIsLine(f);
    ColonAfterKey(f.key, [SPACE] + f.value);
    assert line == f.key + [COLON] + ([SPACE] + f.value);
    assert line[..n] == f.key;
    assert line[n + 1..] == [SPACE] + f.value;
    TrimOfTrimmed(f.value);
  }

  /** Whatever a line is parsed to is a well-formed field. */
  lemma ParsedFieldIsWellFormed(line: Text)
    requires CrlfFree(line) && FieldOfLine(line).Some?
    ensures IsKey(FieldOfLine(line).value.key) && IsValue(FieldOfLine(line).value.value)
  {
    hide IsKey, IsValue, Trim, BlankFree, CrlfFree, ColonIndex;
    var c := ColonIndex(line).value;
    NameBeforeColon(line, c);
    TailCrlfFree(line, c + 1);
    TrimmedIsValue(line[c + 1..]);
  }

  lemma NameBeforeColon(line: Text, c: nat)
    requires ColonIndex(line) == Some(c) && BlankFree(line[..c])
    ensures IsKey(line[..c])
  {
  }

  lemma TrimmedIsValue(v: Text)
    requires CrlfFree(v) && Trim(v) != []
    ensures IsValue(Trim(v))
  {
    var i, j := TrimIsTrimmed(v);
    SliceCrlfFree(v, i, j);
  }

  // ---------------------------------------------------------------- the header block

  lemma {:induction false} BlockIsJoin(l: seq<Field>)
    ensures Block(l) == Join(Map(LineOf, l))
  {
    if l == [] {
    } else {
      BlockIsJoin(l[1..]);
      assert Map(LineOf, l)[1..] == Map(LineOf, l[1..]);
    }
  }

  lemma {:induction false} BlockLines(l: seq<Field>)
    requires forall i | 0 <= i < |l| :: IsKey(l[i].key) && IsValue(l[i].value)
    ensures AreLines(Map(LineOf, l)) && AllParse(Map(LineOf, l)) && FieldsOf(Map(LineOf, l)) == l
  {
    hide IsKey, IsValue, FieldOfLine, LineOf, IsLine;
    if l == [] {
    } else {
      LineParses(l[0]);
      BlockLines(l[1..]);
      assert Map(LineOf, l) == [LineOf(l[0])] + Map(LineOf, l[1..]);
      LinesCons(LineOf(l[0]), Map(LineOf, l[1..]));
    }
  }

  lemma LinesCons(t: Text, rest: seq<Text>)
    requires IsLine(t) && FieldOfLine(t).Some? && AreLines(rest) && AllParse(rest)
    ensures AreLines([t] + rest) && AllParse([t] + rest)
    ensures FieldsOf([t] + rest) == [FieldOfLine(t).value] + FieldsOf(rest)
  {
    hide FieldOfLine, IsLine;
    assert ([t] + rest)[1..] == rest;
    AllParseCons([t] + rest);
  }

  /** The header loop reads a rendered header block back as exactly the list that was rendered. */
  lemma BlockParsesBack(l: seq<Field>)
    requires WellFormedFields(l)
    ensures ParseFields(Block(l) + CRLF, []) == Accepted(l)
  {
    BlockIsJoin(l);
    BlockLines(l);
    ParseJoined(Map(LineOf, l), []);
    FoldIsSorting(Map(LineOf, l), [], l);
  }

  // ---------------------------------------------------------------- the request line

  lemma TokenAfterSpace(t: Text, rest: Text)
    requires IsToken(t) && rest != [] && IsSpace(rest[0])
    ensures Token([SPACE] + t + rest) == Some((t, rest))
  {
    var s := [SPACE] + t + rest;
    BlankIs(s, 1);
    assert s[1..] == t + rest;
    assert (t + rest)[..|t|] == t;
    NonBlankIs(t + rest, |t|);
    assert (t + rest)[|t|..] == rest;
  }

  lemma PrintedRequestLine(url: Text, version: Text)
    requires IsToken(url) && IsToken(version)
    ensures RequestLine(PrintRequestLine(url, version), url, version)
  {
    var head := PrintRequestLine(url, version);
    var r := [SPACE] + version + CRLF;
    assert head[..3] == GET;
    NonBlankIs(head, 3);
    assert head[3..] == [SPACE] + url + r;
    TokenAfterSpace(url, r);
    TokenAfterSpace(version, CRLF);
  }

  /** Any request line in front of a rendered header block gives back the list that was rendered. */
  lemma HeaderBlockRoundTrip(head: Text, url: Text, version: Text, l: seq<Field>)
    requires RequestLine(head, url, version) && WellFormedFields(l)
    ensures ParseRequest(head + (Block(l) + CRLF)) == Accepted(Request(url, version, l))
  {
    AfterRequestLine(head, url, version, Block(l) + CRLF);
    BlockParsesBack(l);
  }

  // ---------------------------------------------------------------- printing and parsing are inverse

  lemma InsertKeepsWellFormed(l: seq<Field>, f: Field)
    requires WellFormedFields(l) && IsKey(f.key) && IsValue(f.value) && Insert(l, f).Some?
    ensures WellFormedFields(Insert(l, f).value)
  {
    InsertKeepsSorted(l, f);
    var p := Position(l, f.key);
    var m := Insert(l, f).value;
    forall i | 0 <= i < |m|
      ensures IsKey(m[i].key) && IsValue(m[i].value)
    {
      assert m[i] == if i < p then l[i] else if i == p then f else l[i - 1];
    }
  }

  lemma {:induction false} ParsedFieldsAreWellFormed(s: Text, l: seq<Field>)
    requires WellFormedFields(l) && ParseFields(s, l).Accepted?
    ensures WellFormedFields(ParseFields(s, l).value)
    decreases |s|
  {
    var n := LineLength(s).value;
    if n == 0 {
    } else {
      var f := FieldAt(s, n).value;
      CutLine(s, n);
      FieldIsInLine(s, n);
      ParsedFieldIsWellFormed(s[..n]);
      InsertKeepsWellFormed(l, f);
      ParsedFieldsAreWellFormed(s[n + 2..], Insert(l, f).value);
    }
  }

  lemma TokenIsToken(s: Text)
    requires Token(s).Some?
    ensures IsToken(Token(s).value.0)
  {
  }

  /** Every accepted buffer is parsed to a well-formed request: sorted, distinct, trimmed fields and proper tokens. */
  lemma AcceptedIsWellFormed(b: Text)
    requires ParseRequest(b).Accepted?
    ensures WellFormedRequest(ParseRequest(b).value)
  {
    hide ParseAfterMethod, ParseFields, Token, MethodMatches;
    var url, r, version, s := AcceptedTokens(b);
    TokenIsToken(b[NonBlankLength(b)..]);
    TokenIsToken(r);
    ParsedFieldsAreWellFormed(s, []);
  }

  /** An accepted request is a GET request exactly if its method has three letters. */
  lemma AcceptedIsGetIff(b: Text)
    requires ParseRequest(b).Accepted?
    ensures b[..NonBlankLength(b)] == GET <==> NonBlankLength(b) == 3
  {
    hide ParseAfterMethod;
  }

  /** A request without any method is accepted. */
  lemma NoMethodIsAccepted()
    ensures ParseRequest([SPACE, 47, SPACE, 49] + CRLF + CRLF) == Accepted(Request([47], [49], []))
  {
    hide ParseFields, Token;
    var rest := [SPACE, 49] + CRLF + CRLF;
    var b := [SPACE, 47, SPACE, 49] + CRLF + CRLF;
    assert b == [SPACE] + [47] + rest && rest == [SPACE] + [49] + (CRLF + CRLF);
    NonBlankIs(b, 0);
    assert b[0..] == b;
    TokenAfterSpace([47], rest);
    TokenAfterSpace([49], CRLF + CRLF);
    assert (CRLF + CRLF)[2..] == Block([]) + CRLF && CrlfAt(CRLF + CRLF, 0);
    BlockParsesBack([]);
  }

  /** A request whose URL holds a NUL is accepted, and the URL as a C string is shorter than the stored one. */
  lemma UrlWithNulIsAccepted()
    ensures ParseRequest(Print(Request([47, NUL], [49], []))) == Accepted(Request([47, NUL], [49], []))
    ensures CStr([47, NUL]) == [47]
  {
    hide Print, ParseRequest;
    PrintThenParse(Request([47, NUL], [49], []));
    CStrOfTerminated([47], []);
    assert [47] + [NUL] + [] == [47, NUL];
  }

  /** Printing a request and parsing it gives it back, exactly when it is one that the parser can produce. */
  lemma PrintThenParse(r: Request)
    ensures ParseRequest(Print(r)) == Accepted(r) <==> WellFormedRequest(r)
  {
    if WellFormedRequest(r) {
      PrintedRequestLine(r.url, r.version);
      HeaderBlockRoundTrip(PrintRequestLine(r.url, r.version), r.url, r.version, r.fields);
    }
    if ParseRequest(Print(r)) == Accepted(r) {
      AcceptedIsWellFormed(Print(r));
    }
  }

  /** Normalising an accepted buffer keeps its request, and normalising twice is normalising once. */
  lemma NormalisationIsIdempotent(b: Text)
    requires ParseRequest(b).Accepted?
    ensures ParseRequest(Print(ParseRequest(b).value)) == ParseRequest(b)
    ensures Print(ParseRequest(Print(ParseRequest(b).value)).value) == Print(ParseRequest(b).value)
  {
    AcceptedIsWellFormed(b);
    PrintThenParse(ParseRequest(b).value);
  }
}
