/** Which incomplete buffers can still become an acceptable request, and which ones the server waits on in vain. */
module Completable {
  import opened CStrings
  import opened Fields
  import opened RequestSyntax
  import opened PrefixTheorem
  import opened FieldLines
  import opened ResponseSyntax
  import opened RoundTrip

  /** Whether the unfinished line `p` can still become a line that the header list `l` admits. */
  predicate HopefulLine(p: Text, l: seq<Field>) {
    || p == []
    || p == [CR]
    || match ColonIndex(p)
       case Some(c) => BlankFree(p[..c]) && !Present(l, p[..c])
       case None => BlankFree(p) && NUL !in p
  }

  /** Whether an unfinished header section can still become an acceptable one: that is decided by its last line. */
  predicate HopefulFields(s: Text, l: seq<Field>)
    decreases |s|
  {
    var n := LineLength(s);
    if n.None? then HopefulLine(s, l)
    else
      && n.value != 0
      && FieldAt(s, n.value).Some?
      && Insert(l, FieldAt(s, n.value).value).Some?
      && HopefulFields(s[n.value + 2..], Insert(l, FieldAt(s, n.value).value).value)
  }

  /** Behind the version, only the first byte of a CRLF may stand alone. */
  predicate HopefulAfterVersion(s: Text) {
    if |s| < 2 then s == [] || s == [CR] else CrlfAt(s, 0) && HopefulFields(s[2..], [])
  }

  /** A condition that looks at an incomplete buffer only: can it still become an acceptable request? */
  predicate Hopeful(b: Text) {
    var url := Token(b[NonBlankLength(b)..]);
    if url.None? then true
    else
      var version := Token(url.value.1);
      version.None? || HopefulAfterVersion(version.value.1)
  }

  // ---------------------------------------------------------------- hope is fulfilled

  const LETTER: Byte := 97

  /** A field line that is finished with the text `x` and followed by the empty line. */
  lemma FinishLine(p: Text, l: seq<Field>, x: Text)
    requires CrlfFree(p + x) && p + x != []
    requires FieldOfLine(p + x).Some? && !Present(l, FieldOfLine(p + x).value.key)
    ensures ParseFields(p + (x + CRLF + CRLF), l).Accepted?
  {
    hide FieldOfLine, Present, FieldAt;
    var line := p + x;
    var s := p + (x + CRLF + CRLF);
    assert s == line + CRLF + CRLF;
    FirstLine(line, CRLF);
    FieldIsInLine(s, |line|);
    var m := Insert(l, FieldOfLine(line).value).value;
    assert IsLine(line);
    ParseJoined([], m);
    assert Join([]) + CRLF == CRLF;
  }

  lemma AppendedCrlfFree(p: Text, x: Text)
    requires CrlfFree(p) && CrlfFree(x) && x != [] && x[0] != LF
    ensures CrlfFree(p + x)
  {
    forall i: nat | i < |p + x|
      ensures !CrlfAt(p + x, i)
    {
      if i < |p| {
        assert !CrlfAt(p, i);
      } else {
        assert !CrlfAt(x, i - |p|);
      }
    }
  }

  lemma TrimKeepsVisible(s: Text)
    requires s != [] && !IsSpace(s[|s| - 1])
    ensures Trim(s) != []
  {
    var k := BlankLength(s);
    assert k < |s|;
  }

  /** A name that is longer than every name in the list is not in the list. */
  function LongestKey(l: seq<Field>): (n: nat)
    ensures forall i | 0 <= i < |l| :: |l[i].key| <= n
  {
    if l == [] then 0
    else
      var n := LongestKey(l[1..]);
      assert forall i | 0 < i < |l| :: l[i] == l[1..][i - 1];
      if |l[0].key| > n then |l[0].key| else n
  }

  lemma LongNameIsNew(l: seq<Field>, k: Text)
    requires |k| > LongestKey(l)
    ensures !Present(l, k)
  {
    if Present(l, k) {
      StrcmpZero(l[Position(l, k)].key, k);
    }
  }

  function Letters(n: nat): (r: Text)
    ensures |r| == n && forall i | 0 <= i < n :: r[i] == LETTER
  {
    if n == 0 then [] else [LETTER] + Letters(n - 1)
  }

  /** With its colon in place, a line only needs a value. */
  lemma FinishValue(p: Text, l: seq<Field>, c: nat)
    requires CrlfFree(p) && ColonIndex(p) == Some(c) && BlankFree(p[..c]) && !Present(l, p[..c])
    ensures ParseFields(p + ([LETTER] + CRLF + CRLF), l).Accepted?
  {
    hide Present;
    var line := p + [LETTER];
    AppendedCrlfFree(p, [LETTER]);
    ColonStable(p, [LETTER]);
    assert line[..c] == p[..c];
    assert line[c + 1..] == p[c + 1..] + [LETTER];
    TrimKeepsVisible(line[c + 1..]);
    FinishLine(p, l, [LETTER]);
  }

  /** Without its colon, a line can be finished under a new name. */
  lemma FinishName(p: Text, l: seq<Field>)
    requires CrlfFree(p) && ColonIndex(p).None? && BlankFree(p) && NUL !in p
    ensures exists x :: ParseFields(p + x, l).Accepted?
  {
    hide Present, LongestKey, FieldOfLine, CrlfFree, LineOf, IsKey, IsValue, ParseFields;
    var more := Letters(LongestKey(l) + 1);
    var f := Field(p + more, [LETTER]);
    var x := more + [COLON, SPACE, LETTER];
    NoColon(p);
    NameIsKey(p, more);
    VisibleValue();
    LineParses(f);
    CompletedName(p, more);
    LongNameIsNew(l, f.key);
    FinishLine(p, l, x);
  }

  lemma NameIsKey(p: Text, more: Text)
    requires COLON !in p && NUL !in p && BlankFree(p) && forall i | 0 <= i < |more| :: more[i] == LETTER
    ensures IsKey(p + more)
  {
  }

  lemma CompletedName(p: Text, more: Text)
    ensures LineOf(Field(p + more, [LETTER])) == p + (more + [COLON, SPACE, LETTER])
  {
  }

  lemma VisibleValue()
    ensures IsValue([LETTER])
  {
  }

  lemma {:induction false} NoColon(p: Text)
    requires ColonIndex(p).None? && NUL !in p
    ensures COLON !in p
  {
    if p == [] {
    } else {
      assert p[0] in p;
      NoColon(p[1..]);
      assert p == [p[0]] + p[1..];
    }
  }

  lemma LineCanBeFinished(p: Text, l: seq<Field>)
    requires LineLength(p).None? && HopefulLine(p, l)
    ensures exists x :: ParseFields(p + x, l).Accepted?
  {
    hide Present, ParseFields;
    EmptyLineEnds(l);
    if p == [] {
      assert p + CRLF == CRLF;
    } else if p == [CR] {
      assert p + [LF] == CRLF;
    } else if ColonIndex(p).Some? {
      FinishValue(p, l, ColonIndex(p).value);
    } else {
      FinishName(p, l);
    }
  }

  lemma EmptyLineEnds(l: seq<Field>)
    ensures ParseFields(CRLF, l) == Accepted(l)
  {
    assert CrlfAt(CRLF, 0);
  }

  lemma {:induction false} FieldsCanBeFinished(s: Text, l: seq<Field>)
    requires HopefulFields(s, l)
    ensures exists x :: ParseFields(s + x, l).Accepted?
    decreases |s|
  {
    hide HopefulLine, FieldAt, Insert;
    var n := LineLength(s);
    if n.None? {
      LineCanBeFinished(s, l);
    } else {
      var rest := s[n.value + 2..];
      var m := Insert(l, FieldAt(s, n.value).value).value;
      FieldsCanBeFinished(rest, m);
      var x :| ParseFields(rest + x, m).Accepted?;
      LineStable(s, x);
      FieldStable(s, x, n.value);
      Slices(s, x, n.value + 2);
      assert ParseFields(s + x, l) == ParseFields(rest + x, m);
    }
  }

  /** Whether `x` behind `rest` leaves the token before `rest` as it is. */
  predicate Separates(rest: Text, x: Text) {
    rest != [] || (x != [] && IsSpace(x[0]))
  }

  /** A token is the same with more behind it, if something blank comes next. */
  lemma TokenExtends(s: Text, x: Text)
    requires Token(s).Some? && Separates(Token(s).value.1, x)
    ensures Token(s + x) == Some((Token(s).value.0, Token(s).value.1 + x))
  {
    var k := BlankLength(s);
    var t := s[k..];
    var n := NonBlankLength(t);
    if n < |t| {
      TokenStable(s, x);
    } else {
      BlankIs(s + x, k);
      assert (s + x)[k..] == t + x;
      assert (t + x)[..n] == t;
      NonBlankIs(t + x, n);
      assert t[..n] == t && t[n..] == [];
      assert (t + x)[n..] == [] + x;
    }
  }

  lemma OnlyBlanks(s: Text)
    requires Token(s).None?
    ensures BlankLength(s) == |s|
  {
  }

  /** Behind nothing but whitespace, the next token is the one that is written there. */
  lemma TokenAfterBlanks(s: Text, t: Text, rest: Text)
    requires Token(s).None? && IsToken(t) && rest != [] && IsSpace(rest[0])
    ensures Token(s + ([SPACE] + t + rest)) == Some((t, rest))
  {
    OnlyBlanks(s);
    var u := s + ([SPACE] + t + rest);
    BlankIs(u, |s| + 1);
    assert u[|s| + 1..] == t + rest;
    assert (t + rest)[..|t|] == t;
    NonBlankIs(t + rest, |t|);
    assert (t + rest)[|t|..] == rest;
  }

  lemma VersionCanBeFinished(s: Text)
    requires HopefulAfterVersion(s)
    ensures exists x :: Separates(s, x) && ParseAfterVersion(s + x).Accepted?
  {
    hide HopefulFields, ParseFields;
    EmptyLineEnds([]);
    if s == [] {
      assert CrlfAt(CRLF + CRLF, 0) && (CRLF + CRLF)[2..] == CRLF && [] + (CRLF + CRLF) == CRLF + CRLF;
    } else if |s| == 1 {
      var x := [LF] + CRLF;
      assert s + x == CRLF + CRLF;
      assert CrlfAt(CRLF + CRLF, 0) && (CRLF + CRLF)[2..] == CRLF;
    } else {
      FieldsCanBeFinished(s[2..], []);
      var x :| ParseFields(s[2..] + x, []).Accepted?;
      assert CrlfAt(s + x, 0) && (s + x)[2..] == s[2..] + x;
    }
  }

  const DIGIT: Text := [49]
  const SLASH: Text := [47]

  lemma AfterMethodCanBeFinished(s: Text)
    requires var url := Token(s);
             url.Some? ==> var version := Token(url.value.1); version.Some? ==> HopefulAfterVersion(version.value.1)
    ensures exists x :: Separates(s, x) && ParseAfterMethod(s + x).Accepted?
  {
    hide Token, ParseAfterVersion, HopefulAfterVersion;
    var finish := CRLF + CRLF;
    var version := [SPACE] + DIGIT + finish;
    FinishedVersion();
    if Token(s).None? {
      var x := [SPACE] + SLASH + version;
      TokenAfterBlanks(s, SLASH, version);
      TokenAfterSpace(DIGIT, finish);
      assert ParseAfterMethod(s + x).Accepted?;
    } else {
      var url := Token(s).value;
      TokenNeedsBytes(s);
      if Token(url.1).None? {
        TokenExtends(s, version);
        TokenAfterBlanks(url.1, DIGIT, finish);
        assert ParseAfterMethod(s + version).Accepted?;
      } else {
        var v := Token(url.1).value;
        TokenNeedsBytes(url.1);
        VersionCanBeFinished(v.1);
        var x :| Separates(v.1, x) && ParseAfterVersion(v.1 + x).Accepted?;
        TokenExtends(s, x);
        TokenExtends(url.1, x);
        assert ParseAfterMethod(s + x).Accepted?;
      }
    }
  }

  lemma FinishedVersion()
    ensures ParseAfterVersion(CRLF + CRLF).Accepted?
  {
    EmptyLineEnds([]);
    assert CrlfAt(CRLF + CRLF, 0) && (CRLF + CRLF)[2..] == CRLF;
  }

  lemma TokenNeedsBytes(s: Text)
    requires Token(s).Some?
    ensures s != []
  {
  }

  // ---------------------------------------------------------------- without hope there is none

  lemma FinishedLineWasHopeful(p: Text, l: seq<Field>, x: Text)
    requires LineLength(p).None? && ParseFields(p + x, l).Accepted?
    ensures HopefulLine(p, l)
  {
    hide Present, Trim;
    var s := p + x;
    AcceptedStep(s, l);
    var n := LineLength(s).value;
    assert forall i: nat :: !CrlfAt(p, i);
    if n > 0 {
      if ColonIndex(p).Some? || NUL in p {
        ColonStable(p, x);
        if ColonIndex(p).Some? {
          assert s[..ColonIndex(p).value] == p[..ColonIndex(p).value];
        }
      } else {
        ColonBeyond(p, x);
        var c := ColonIndex(s).value;
        assert forall i | 0 <= i < |p| :: p[i] == s[..c][i];
      }
    }
  }

  lemma {:induction false} FinishedFieldsWereHopeful(s: Text, l: seq<Field>, x: Text)
    requires ParseFields(s, l).Incomplete? && ParseFields(s + x, l).Accepted?
    ensures HopefulFields(s, l)
    decreases |s|
  {
    hide HopefulLine, FieldAt, Insert;
    var n := LineLength(s);
    if n.None? {
      FinishedLineWasHopeful(s, l, x);
    } else {
      LineStable(s, x);
      FieldStable(s, x, n.value);
      Slices(s, x, n.value + 2);
      var m := Insert(l, FieldAt(s, n.value).value).value;
      FinishedFieldsWereHopeful(s[n.value + 2..], m, x);
    }
  }

  lemma FinishedVersionWasHopeful(s: Text, x: Text)
    requires ParseAfterVersion(s).Incomplete? && ParseAfterVersion(s + x).Accepted?
    ensures HopefulAfterVersion(s)
  {
    hide ParseFields, HopefulFields;
    if |s| >= 2 {
      assert (s + x)[2..] == s[2..] + x;
      FinishedFieldsWereHopeful(s[2..], [], x);
    } else if |s| == 1 {
      assert (s + x)[0] == s[0];
    }
  }

  /**
   The exact answer to when waiting can pay off: an incomplete buffer has a continuation that the parser accepts if and
   only if the condition holds. For all others the server waits although it could have answered 400.
   */
  lemma WaitingPaysOffIff(b: Text)
    requires ParseRequest(b).Incomplete?
    ensures Hopeful(b) <==> exists x :: ParseRequest(b + x).Accepted?
  {
    hide HopefulAfterVersion, Token, ParseAfterVersion, MethodMatches;
    var n := NonBlankLength(b);
    if Hopeful(b) {
      AfterMethodCanBeFinished(b[n..]);
      var x :| Separates(b[n..], x) && ParseAfterMethod(b[n..] + x).Accepted?;
      MethodStays(b, n, x);
      assert ParseRequest(b + x).Accepted?;
    }
    if x :| ParseRequest(b + x).Accepted? {
      HopeWasJustified(b, x);
    }
  }

  lemma MethodStays(b: Text, n: nat, x: Text)
    requires n == NonBlankLength(b) && Separates(b[n..], x)
    ensures NonBlankLength(b + x) == n && (b + x)[..n] == b[..n] && (b + x)[n..] == b[n..] + x
  {
    Slices(b, x, n);
    assert n < |b| ==> (b + x)[n] == b[n];
    assert n == |b| ==> x != [] && (b + x)[n] == x[0];
    NonBlankIs(b + x, n);
  }

  lemma HopeWasJustified(b: Text, x: Text)
    requires ParseRequest(b).Incomplete? && ParseRequest(b + x).Accepted?
    ensures Hopeful(b)
  {
    hide HopefulAfterVersion, Token, ParseAfterVersion, MethodMatches;
    var n := NonBlankLength(b);
    if Token(b[n..]).Some? && Token(Token(b[n..]).value.1).Some? {
      var url := Token(b[n..]).value;
      var version := Token(url.1).value;
      if version.1 == [] {
        NothingIsHopeful();
      } else {
        TokenNeedsBytes(b[n..]);
        TokenNeedsBytes(url.1);
        MethodStays(b, n, x);
        TokenStable(b[n..], x);
        TokenStable(url.1, x);
        FinishedVersionWasHopeful(version.1, x);
      }
    }
  }

  lemma NothingIsHopeful()
    ensures HopefulAfterVersion([])
  {
  }

  /** `GET / H`, CRLF, `a b`: no continuation helps, for the name holds a blank, yet the parser asks for more. */
  lemma SomeWaitingIsInVain(x: Text)
    ensures var b := PrintRequestLine(SLASH, DIGIT) + [LETTER, SPACE, LETTER];
            ParseRequest(b).Incomplete? && !ParseRequest(b + x).Accepted?
  {
    hide ParseFields, HopefulFields, ParseRequest, RequestLine;
    var head, p := PrintRequestLine(SLASH, DIGIT), [LETTER, SPACE, LETTER];
    PrintedRequestLine(SLASH, DIGIT);
    AfterRequestLine(head, SLASH, DIGIT, p);
    AfterRequestLine(head, SLASH, DIGIT, p + x);
    assert head + p + x == head + (p + x);
    UnfinishedLine(p);
    if ParseFields(p + x, []).Accepted? {
      FinishedLineWasHopeful(p, [], x);
      NotHopeful(p);
    }
  }

  lemma UnfinishedLine(p: Text)
    requires p == [LETTER, SPACE, LETTER]
    ensures LineLength(p).None? && ParseFields(p, []).Incomplete?
  {
    assert !CrlfAt(p, 0) && !CrlfAt(p, 1) && !CrlfAt(p, 2);
  }

  lemma NotHopeful(p: Text)
    requires p == [LETTER, SPACE, LETTER]
    ensures !HopefulLine(p, [])
  {
    assert IsSpace(p[1]);
    NothingFound(p);
  }

  lemma NothingFound(p: Text)
    requires COLON !in p
    ensures ColonIndex(p).None?
  {
  }
}
