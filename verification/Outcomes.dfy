/** Each answer of the parser, as a condition on the bytes it is given: what exactly is accepted, refused or awaited. */
module Outcomes {
  import opened CStrings
  import opened Fields
  import opened RequestSyntax
  import opened PrefixTheorem
  import opened FieldLines
  import opened RoundTrip

  predicate Blank(s: Text) {
    forall i | 0 <= i < |s| :: IsSpace(s[i])
  }

  // ---------------------------------------------------------------- one line

  /** The line is a name, a colon, the value and whitespace around the value. */
  ghost predicate HoldsField(line: Text, f: Field) {
    && IsKey(f.key)
    && f.value != [] && !IsSpace(f.value[0]) && !IsSpace(f.value[|f.value| - 1])
    && exists lead, trail :: Blank(lead) && Blank(trail) && line == f.key + [COLON] + (lead + f.value + trail)
  }

  lemma {:induction false} TrimRightOf(v: Text, trail: Text)
    requires v != [] && !IsSpace(v[|v| - 1]) && Blank(trail)
    ensures TrimRight(v + trail) == v
    decreases |trail|
  {
    var n := |trail|;
    if n == 0 {
      assert v + trail == v;
    } else {
      assert (v + trail)[..|v + trail| - 1] == v + trail[..n - 1];
      TrimRightOf(v, trail[..n - 1]);
    }
  }

  lemma TrimOf(lead: Text, v: Text, trail: Text)
    requires Blank(lead) && Blank(trail) && v != [] && !IsSpace(v[0]) && !IsSpace(v[|v| - 1])
    ensures Trim(lead + v + trail) == v
  {
    hide TrimRight;
    var s := lead + v + trail;
    BlankIs(s, |lead|);
    assert s[|lead|..] == v + trail;
    TrimRightOf(v, trail);
  }

  lemma TrimSplits(s: Text) returns (lead: Text, trail: Text)
    ensures Blank(lead) && Blank(trail) && s == lead + Trim(s) + trail
  {
    var k := BlankLength(s);
    var r := TrimRight(s[k..]);
    lead, trail := s[..k], s[k + |r|..];
    assert s[k..] == r + s[k..][|r|..] && s[k..][|r|..] == trail;
  }

  /** The field of a line is the one that the line holds, and there is none if the line holds none. */
  lemma FieldOfLineIff(line: Text, f: Field)
    ensures FieldOfLine(line) == Some(f) <==> HoldsField(line, f)
  {
    hide Trim, ColonIndex;
    if FieldOfLine(line) == Some(f) {
      var c := ColonIndex(line).value;
      NameBeforeColon(line, c);
      var v := line[c + 1..];
      var lead, trail := TrimSplits(v);
      var _, _ := TrimIsTrimmed(v);
      assert line == f.key + [COLON] + (lead + f.value + trail);
    }
    if HoldsField(line, f) {
      var lead, trail :| Blank(lead) && Blank(trail) && line == f.key + [COLON] + (lead + f.value + trail);
      ColonAfterKey(f.key, lead + f.value + trail);
      assert line[..|f.key|] == f.key && line[|f.key| + 1..] == lead + f.value + trail;
      TrimOf(lead, f.value, trail);
    }
  }

  // ---------------------------------------------------------------- the header section

  /** The line holds a field, and no earlier line one of the same name. */
  predicate Good(lines: seq<Text>, i: nat)
    requires i < |lines|
  {
    && FieldOfLine(lines[i]).Some?
    && forall j | 0 <= j < i && FieldOfLine(lines[j]).Some? ::
         FieldOfLine(lines[j]).value.key != FieldOfLine(lines[i]).value.key
  }

  /** The line holds a field whose name an earlier line has. */
  predicate Repeats(lines: seq<Text>, i: nat)
    requires i < |lines|
  {
    && FieldOfLine(lines[i]).Some?
    && exists j ::
         && 0 <= j < i
         && FieldOfLine(lines[j]).Some?
         && FieldOfLine(lines[j]).value.key == FieldOfLine(lines[i]).value.key
  }

  predicate AllGood(lines: seq<Text>, n: nat)
    requires n <= |lines|
  {
    forall i: nat | i < n :: Good(lines, i)
  }

  /** The bytes are these lines, each with its CRLF, and then an unfinished line, or an empty one and what follows. */
  predicate IsSection(s: Text, lines: seq<Text>, tail: Text) {
    AreLines(lines) && s == Join(lines) + tail && (CrlfFree(tail) || CRLF <= tail)
  }

  /** The first line that is not good holds no field, or all are good and bytes follow the empty line. */
  ghost predicate BadSection(s: Text) {
    exists lines, tail ::
      && IsSection(s, lines, tail)
      && ((exists i: nat :: i < |lines| && AllGood(lines, i) && FieldOfLine(lines[i]).None?)
          || (AllGood(lines, |lines|) && CRLF < tail))
  }

  /** The first line that is not good repeats a name. */
  ghost predicate RepeatingSection(s: Text) {
    exists lines, tail ::
      IsSection(s, lines, tail) && exists i: nat :: i < |lines| && AllGood(lines, i) && Repeats(lines, i)
  }

  /** All lines are good so far, and there is no empty line yet. */
  ghost predicate OpenSection(s: Text) {
    exists lines, tail :: IsSection(s, lines, tail) && AllGood(lines, |lines|) && CrlfFree(tail)
  }

  /** All lines are good, nothing follows the empty line, and these are the fields, sorted. */
  ghost predicate ClosedSection(s: Text, l: seq<Field>) {
    exists lines ::
      && IsSection(s, lines, CRLF)
      && AllGood(lines, |lines|)
      && Sorted(l) && multiset(l) == multiset(FieldsOf(lines))
  }

  lemma OneLine(line: Text, rest: Text, l: seq<Field>)
    requires IsLine(line)
    ensures ParseFields(line + CRLF + rest, l) ==
            var f := FieldOfLine(line);
            if f.None? then InvalidSyntax
            else if Insert(l, f.value).None? then DuplicateKey
            else ParseFields(rest, Insert(l, f.value).value)
  {
    hide FieldOfLine, FieldAt, Insert;
    FirstLine(line, rest);
    FieldIsInLine(line + CRLF + rest, |line|);
  }

  lemma JoinFrom(lines: seq<Text>, n: nat, tail: Text)
    requires n < |lines|
    ensures Join(lines[n..]) + tail == lines[n] + CRLF + (Join(lines[n + 1..]) + tail)
  {
    assert lines[n..][1..] == lines[n + 1..];
  }

  lemma FieldsOfMore(lines: seq<Text>, n: nat)
    requires n < |lines| && FieldOfLine(lines[n]).Some?
    ensures FieldsOf(lines[..n + 1]) == FieldsOf(lines[..n]) + [FieldOfLine(lines[n]).value]
  {
    hide FieldOfLine;
    assert lines[..n + 1] == lines[..n] + [lines[n]];
    var one := [lines[n]];
    assert one[1..] == [];
    MapAppend(FieldIn, lines[..n], one);
  }

  lemma {:induction false} FieldsAre(lines: seq<Text>, f: Field)
    requires f in FieldsOf(lines)
    ensures exists j :: 0 <= j < |lines| && FieldIn(lines[j]) == f
  {
    hide FieldIn;
    if FieldIn(lines[0]) == f {
    } else {
      FieldsAre(lines[1..], f);
      var j :| 0 <= j < |lines[1..]| && FieldIn(lines[1..][j]) == f;
      assert lines[j + 1] == lines[1..][j];
    }
  }

  lemma {:induction false} FieldAmong(lines: seq<Text>, j: nat)
    requires j < |lines|
    ensures FieldIn(lines[j]) in FieldsOf(lines)
  {
    hide FieldIn;
    if j == 0 {
    } else {
      FieldAmong(lines[1..], j - 1);
    }
  }

  /** Whether the name of a line can be inserted behind good lines. */
  lemma NameIsNewIff(lines: seq<Text>, n: nat, l: seq<Field>)
    requires n < |lines| && AllGood(lines, n) && FieldOfLine(lines[n]).Some?
    requires Sorted(l) && multiset(l) == multiset(FieldsOf(lines[..n]))
    ensures Insert(l, FieldOfLine(lines[n]).value).Some? <==> Good(lines, n)
    ensures Insert(l, FieldOfLine(lines[n]).value).None? <==> Repeats(lines, n)
  {
    hide FieldOfLine, FieldsOf, Position, Sorted;
    var f := FieldOfLine(lines[n]).value;
    SearchIsComplete(l, f.key);
    forall i | 0 <= i < |l| && l[i].key == f.key
      ensures Repeats(lines, n)
    {
      assert l[i] in multiset(l);
      assert l[i] in FieldsOf(lines[..n]);
      FieldsAre(lines[..n], l[i]);
      var j :| 0 <= j < |lines[..n]| && FieldIn(lines[..n][j]) == l[i];
      assert Good(lines, j);
      assert FieldOfLine(lines[j]).value == l[i];
    }
    forall j | 0 <= j < n && FieldOfLine(lines[j]).Some? && FieldOfLine(lines[j]).value.key == f.key
      ensures Present(l, f.key)
    {
      FieldAmong(lines[..n], j);
      var g := FieldOfLine(lines[j]).value;
      assert FieldIn(lines[..n][j]) == g;
      assert g in multiset(FieldsOf(lines[..n]));
      assert g in multiset(l);
      var i :| 0 <= i < |l| && l[i] == g;
    }
  }

  /** Good lines are taken into the list one after the other. */
  lemma {:induction false} GoodLinesAreTaken(lines: seq<Text>, tail: Text, n: nat) returns (l: seq<Field>)
    requires AreLines(lines) && n <= |lines| && AllGood(lines, n)
    ensures Sorted(l) && multiset(l) == multiset(FieldsOf(lines[..n]))
    ensures ParseFields(Join(lines) + tail, []) == ParseFields(Join(lines[n..]) + tail, l)
  {
    hide ParseFields, FieldOfLine, Join, Good, Insert, Sorted, FieldsOf;
    if n == 0 {
      l := [];
      NothingTaken();
      assert lines[0..] == lines && lines[..0] == [];
    } else {
      var k := GoodLinesAreTaken(lines, tail, n - 1);
      assert Good(lines, n - 1);
      GoodHasField(lines, n - 1);
      var f := FieldOfLine(lines[n - 1]).value;
      NameIsNewIff(lines, n - 1, k);
      InsertRefinesMap(k, f);
      l := Insert(k, f).value;
      FieldsOfMore(lines, n - 1);
      JoinFrom(lines, n - 1, tail);
      OneLine(lines[n - 1], Join(lines[n..]) + tail, k);
    }
  }

  lemma NothingTaken()
    ensures Sorted([]) && FieldsOf([]) == []
  {
  }

  lemma GoodHasField(lines: seq<Text>, i: nat)
    requires i < |lines| && Good(lines, i)
    ensures FieldOfLine(lines[i]).Some?
  {
  }

  lemma TailIsParsed(tail: Text, l: seq<Field>)
    requires CrlfFree(tail) || CRLF <= tail
    ensures ParseFields(tail, l) ==
            if CrlfFree(tail) then Incomplete else if tail == CRLF then Accepted(l) else InvalidSyntax
  {
    if CrlfFree(tail) {
      assert forall i: nat :: !CrlfAt(tail, i);
    } else {
      assert CrlfAt(tail, 0);
    }
  }

  /** What the lines decide, decided by the first one that is not good. */
  lemma SectionDecided(s: Text, lines: seq<Text>, tail: Text)
    requires IsSection(s, lines, tail)
    ensures forall i: nat | i < |lines| && AllGood(lines, i) && FieldOfLine(lines[i]).None? ::
              ParseFields(s, []) == InvalidSyntax
    ensures forall i: nat | i < |lines| && AllGood(lines, i) && Repeats(lines, i) :: ParseFields(s, []) == DuplicateKey
    ensures AllGood(lines, |lines|) ==>
              if CrlfFree(tail) then ParseFields(s, []) == Incomplete
              else if tail != CRLF then ParseFields(s, []) == InvalidSyntax
              else
                && ParseFields(s, []).Accepted?
                && Sorted(ParseFields(s, []).value)
                && multiset(ParseFields(s, []).value) == multiset(FieldsOf(lines))
  {
    hide ParseFields, FieldOfLine, AllGood, Repeats, CrlfFree, Insert, Sorted, FieldsOf, Join;
    forall i: nat | i < |lines| && AllGood(lines, i) && (FieldOfLine(lines[i]).None? || Repeats(lines, i))
      ensures ParseFields(s, []) == if FieldOfLine(lines[i]).None? then InvalidSyntax else DuplicateKey
    {
      var l := GoodLinesAreTaken(lines, tail, i);
      JoinFrom(lines, i, tail);
      OneLine(lines[i], Join(lines[i + 1..]) + tail, l);
      if FieldOfLine(lines[i]).Some? {
        NameIsNewIff(lines, i, l);
      }
    }
    RepeatsHasField(lines);
    if AllGood(lines, |lines|) {
      var l := GoodLinesAreTaken(lines, tail, |lines|);
      assert lines[..|lines|] == lines && lines[|lines|..] == [];
      JoinNothing(tail);
      TailIsParsed(tail, l);
    }
  }

  lemma RepeatsHasField(lines: seq<Text>)
    ensures forall i: nat | i < |lines| && Repeats(lines, i) :: FieldOfLine(lines[i]).Some?
  {
  }

  lemma JoinNothing(tail: Text)
    ensures Join([]) + tail == tail
  {
  }

  /** Lines are good up to some first one, if not all are. */
  lemma {:induction false} FirstNotGood(lines: seq<Text>, n: nat) returns (i: nat)
    requires n <= |lines|
    ensures i <= n && AllGood(lines, i) && (i < n ==> FieldOfLine(lines[i]).None? || Repeats(lines, i))
  {
    hide FieldOfLine;
    if n == 0 {
      i := 0;
    } else {
      i := FirstNotGood(lines, n - 1);
      if i == n - 1 && Good(lines, i) {
        i := n;
      }
    }
  }

  /** Every sequence of bytes is some lines and a tail. */
  lemma {:induction false} EverySection(s: Text) returns (lines: seq<Text>, tail: Text)
    ensures IsSection(s, lines, tail)
    decreases |s|
  {
    var n := LineLength(s);
    if n.None? {
      lines, tail := [], s;
      JoinNothing(s);
    } else if n.value == 0 {
      lines, tail := [], s;
      JoinNothing(s);
    } else {
      CutLine(s, n.value);
      var more;
      more, tail := EverySection(s[n.value + 2..]);
      lines := [s[..n.value]] + more;
      JoinCons(s[..n.value], more);
      assert s == s[..n.value] + CRLF + (Join(more) + tail) == Join(lines) + tail;
    }
  }

  /** The answer of the header loop, for each answer. */
  lemma SectionOutcomeIff(s: Text)
    ensures ParseFields(s, []) == InvalidSyntax <==> BadSection(s)
    ensures ParseFields(s, []) == DuplicateKey <==> RepeatingSection(s)
    ensures ParseFields(s, []) == Incomplete <==> OpenSection(s)
    ensures forall l :: ParseFields(s, []) == Accepted(l) <==> ClosedSection(s, l)
  {
    hide ParseFields, FieldOfLine, AllGood, Repeats, CrlfFree, Sorted, FieldsOf, Join, AreLines;
    var lines, tail := EverySection(s);
    SectionDecided(s, lines, tail);
    var i := FirstNotGood(lines, |lines|);
    CrlfIsNotFree();
    assert i == |lines| && !CrlfFree(tail) && tail != CRLF ==> CRLF < tail;
    forall other, rest | IsSection(s, other, rest)
      ensures (forall k: nat | k < |other| && AllGood(other, k) && FieldOfLine(other[k]).None? ::
                 ParseFields(s, []) == InvalidSyntax)
      ensures (forall k: nat | k < |other| && AllGood(other, k) && Repeats(other, k) ::
                 ParseFields(s, []) == DuplicateKey)
      ensures AllGood(other, |other|) && CrlfFree(rest) ==> ParseFields(s, []) == Incomplete
      ensures AllGood(other, |other|) && !CrlfFree(rest) && rest != CRLF ==> ParseFields(s, []) == InvalidSyntax
    {
      SectionDecided(s, other, rest);
    }
    forall l | ClosedSection(s, l)
      ensures ParseFields(s, []) == Accepted(l)
    {
      ClosedIsAccepted(s, l);
    }
  }

  lemma CrlfIsNotFree()
    ensures forall tail | CRLF <= tail :: !CrlfFree(tail)
  {
    forall tail | CRLF <= tail
      ensures !CrlfFree(tail)
    {
      assert CrlfAt(tail, 0);
    }
  }

  lemma ClosedIsAccepted(s: Text, l: seq<Field>)
    requires ClosedSection(s, l)
    ensures ParseFields(s, []) == Accepted(l)
  {
    hide ParseFields, AllGood, Sorted, FieldsOf, CrlfFree;
    var lines :| IsSection(s, lines, CRLF) && AllGood(lines, |lines|) && multiset(l) == multiset(FieldsOf(lines));
    CrlfIsNotFree();
    SectionDecided(s, lines, CRLF);
    FoldNothing(l, ParseFields(s, []).value);
  }

  // ---------------------------------------------------------------- the whole request

  /** The parts of a buffer up to the HTTP version, and the rest. */
  datatype Start = Start(verb: Text, gap: Text, url: Text, space: Text, version: Text, rest: Text)

  /** The buffer starts with a method, a URL and a version, with whitespace between them. */
  predicate Splits(b: Text, p: Start) {
    && b == p.verb + p.gap + p.url + p.space + p.version + p.rest
    && BlankFree(p.verb) && BlankFree(p.url) && BlankFree(p.version) && p.url != [] && p.version != []
    && Blank(p.gap) && Blank(p.space) && p.gap != [] && p.space != []
    && (p.rest == [] || IsSpace(p.rest[0]))
  }

  /** The bytes before the first whitespace. */
  predicate IsMethod(b: Text, t: Text) {
    t <= b && BlankFree(t) && (t == b || IsSpace(b[|t|]))
  }

  ghost predicate Unsupported(b: Text) {
    exists t :: IsMethod(b, t) && Strncmp(GET, t, |t|) != 0
  }

  predicate Started(b: Text, p: Start) {
    Splits(b, p) && Strncmp(GET, p.verb, |p.verb|) == 0
  }

  /** Behind the version stands no CRLF, or a bad header section behind the CRLF. */
  ghost predicate Invalid(b: Text) {
    exists p :: Started(b, p) && |p.rest| >= 2 && (p.rest[..2] == CRLF ==> BadSection(p.rest[2..]))
  }

  ghost predicate Duplicated(b: Text) {
    exists p :: Started(b, p) && CRLF <= p.rest && RepeatingSection(p.rest[2..])
  }

  /** The method is fine, and if the rest of the start line is there, nothing behind it is wrong, or finished, yet. */
  ghost predicate Unfinished(b: Text) {
    && !Unsupported(b)
    && forall p | Started(b, p) :: |p.rest| < 2 || (CRLF <= p.rest && OpenSection(p.rest[2..]))
  }

  ghost predicate Acceptable(b: Text, q: Request) {
    exists p ::
      && Started(b, p)
      && p.url == q.url && p.version == q.version
      && CRLF <= p.rest && ClosedSection(p.rest[2..], q.fields)
  }

  lemma TokenIs(gap: Text, t: Text, rest: Text)
    requires Blank(gap) && t != [] && BlankFree(t) && (rest == [] || IsSpace(rest[0]))
    ensures Token(gap + t + rest) == Some((t, rest))
  {
    var s := gap + t + rest;
    BlankIs(s, |gap|);
    assert s[|gap|..] == t + rest && (t + rest)[..|t|] == t && (t + rest)[|t|..] == rest;
    NonBlankIs(t + rest, |t|);
  }

  lemma StartIsParsed(b: Text, p: Start)
    requires Splits(b, p)
    ensures NonBlankLength(b) == |p.verb| && b[..|p.verb|] == p.verb
    ensures var s := b[|p.verb|..];
            && Token(s) == Some((p.url, p.space + p.version + p.rest))
            && Token(p.space + p.version + p.rest) == Some((p.version, p.rest))
  {
    hide Token;
    assert b[..|p.verb|] == p.verb && b[|p.verb|] == p.gap[0];
    NonBlankIs(b, |p.verb|);
    var after := p.space + p.version + p.rest;
    assert b[|p.verb|..] == p.gap + p.url + after;
    assert after[0] == p.space[0];
    TokenIs(p.gap, p.url, after);
    TokenIs(p.space, p.version, p.rest);
  }

  lemma TokenFound(s: Text) returns (gap: Text)
    requires Token(s).Some?
    ensures Blank(gap) && s == gap + Token(s).value.0 + Token(s).value.1
    ensures Token(s).value.0 != [] && BlankFree(Token(s).value.0)
    ensures Token(s).value.1 == [] || IsSpace(Token(s).value.1[0])
    ensures IsSpace(s[0]) ==> gap != []
  {
    var k := BlankLength(s);
    gap := s[..k];
    var t := s[k..];
    var n := NonBlankLength(t);
    assert t == t[..n] + t[n..];
  }

  lemma StartFound(b: Text) returns (p: Start)
    requires Token(b[NonBlankLength(b)..]).Some? && Token(Token(b[NonBlankLength(b)..]).value.1).Some?
    ensures Splits(b, p)
    ensures p.url == Token(b[NonBlankLength(b)..]).value.0
    ensures p.version == Token(Token(b[NonBlankLength(b)..]).value.1).value.0
    ensures p.rest == Token(Token(b[NonBlankLength(b)..]).value.1).value.1
  {
    hide Token, Blank, BlankFree, NonBlankLength;
    var n := NonBlankLength(b);
    MethodRun(b, n);
    var url := Token(b[n..]).value;
    var version := Token(url.1).value;
    var gap := TokenFound(b[n..]);
    var space := TokenFound(url.1);
    p := Start(b[..n], gap, url.0, space, version.0, version.1);
    SixParts(b, n, gap, url.0, url.1, space, version.0, version.1);
    assert b[n..] != [] && url.1 != [] by {
      TokenIsNotEmpty(b[n..]);
      TokenIsNotEmpty(url.1);
    }
  }

  lemma MethodRun(b: Text, n: nat)
    requires n == NonBlankLength(b)
    ensures n <= |b| && BlankFree(b[..n]) && (n < |b| ==> IsSpace(b[n..][0]))
  {
  }

  lemma TokenIsNotEmpty(s: Text)
    requires Token(s).Some?
    ensures s != []
  {
  }

  lemma SixParts(b: Text, n: nat, gap: Text, url: Text, more: Text, space: Text, version: Text, rest: Text)
    requires n <= |b| && b[n..] == gap + url + more && more == space + version + rest
    ensures b == b[..n] + gap + url + space + version + rest
  {
    assert b == b[..n] + (gap + url + (space + version + rest));
  }

  lemma MethodIs(b: Text, t: Text)
    requires IsMethod(b, t)
    ensures t == b[..NonBlankLength(b)]
  {
    NonBlankIs(b, |t|);
  }

  lemma UnsupportedIff(b: Text)
    ensures Unsupported(b) <==> !MethodMatches(b[..NonBlankLength(b)])
    ensures Unsupported(b) <==> ParseRequest(b) == UnsupportedMethod
  {
    hide Strncmp, MethodMatches, ParseFields, Token;
    var t := b[..NonBlankLength(b)];
    assert IsMethod(b, t);
    MethodMatchesIsStrncmp(t);
    forall u | IsMethod(b, u)
      ensures u == t
    {
      MethodIs(b, u);
    }
    NeverUnsupported(b[NonBlankLength(b)..]);
  }

  lemma NeverUnsupported(s: Text)
    ensures !ParseAfterMethod(s).UnsupportedMethod?
  {
    hide ParseFields, Token;
  }

  /** With a complete start line, what follows it decides. */
  lemma StartedIsParsed(b: Text, p: Start)
    requires Started(b, p)
    ensures ParseRequest(b) == WithFields(p.url, p.version, ParseAfterVersion(p.rest))
    ensures !Unsupported(b)
  {
    hide Token, Strncmp, MethodMatches, ParseAfterVersion, Splits;
    StartIsParsed(b, p);
    MethodMatchesIsStrncmp(p.verb);
    UnsupportedIff(b);
  }

  lemma RestIsParsed(rest: Text)
    ensures |rest| < 2 ==> ParseAfterVersion(rest) == Incomplete
    ensures |rest| >= 2 && rest[..2] != CRLF ==> ParseAfterVersion(rest) == InvalidSyntax
    ensures CRLF <= rest ==> ParseAfterVersion(rest) == ParseFields(rest[2..], [])
  {
    hide ParseFields;
    if CRLF <= rest {
      assert CrlfAt(rest, 0);
    }
  }

  /** If the parser gets behind the method and does not wait, the start line is there up to the version. */
  lemma StartIsThere(b: Text) returns (p: Start)
    requires !Unsupported(b) && ParseRequest(b) != Incomplete
    ensures Started(b, p)
  {
    hide Token, Strncmp, MethodMatches, ParseAfterVersion;
    UnsupportedIff(b);
    p := StartFound(b);
    StartIsParsed(b, p);
    MethodMatchesIsStrncmp(p.verb);
  }

  /**
   The answer of the parser to any bytes: each of its five answers is given exactly under a condition on the bytes that
   does not mention the parser.
   */
  lemma OutcomeIff(b: Text)
    ensures ParseRequest(b) == UnsupportedMethod <==> Unsupported(b)
    ensures ParseRequest(b) == InvalidSyntax <==> Invalid(b)
    ensures ParseRequest(b) == DuplicateKey <==> Duplicated(b)
    ensures ParseRequest(b) == Incomplete <==> Unfinished(b)
    ensures forall q :: ParseRequest(b) == Accepted(q) <==> Acceptable(b, q)
  {
    hide ParseRequest, ParseAfterVersion, ParseFields, Splits, Strncmp;
    hide Unsupported, BadSection, RepeatingSection, OpenSection, ClosedSection, Started;
    UnsupportedIff(b);
    forall p | Started(b, p)
      ensures ParseRequest(b) == WithFields(p.url, p.version, ParseAfterVersion(p.rest)) && !Unsupported(b)
      ensures |p.rest| < 2 ==> ParseAfterVersion(p.rest) == Incomplete
      ensures |p.rest| >= 2 && p.rest[..2] != CRLF ==> ParseAfterVersion(p.rest) == InvalidSyntax
      ensures CRLF <= p.rest ==>
                && ParseAfterVersion(p.rest) == ParseFields(p.rest[2..], [])
                && (ParseFields(p.rest[2..], []) == InvalidSyntax <==> BadSection(p.rest[2..]))
                && (ParseFields(p.rest[2..], []) == DuplicateKey <==> RepeatingSection(p.rest[2..]))
                && (ParseFields(p.rest[2..], []) == Incomplete <==> OpenSection(p.rest[2..]))
                && forall l :: ParseFields(p.rest[2..], []) == Accepted(l) <==> ClosedSection(p.rest[2..], l)
    {
      StartedIsParsed(b, p);
      RestIsParsed(p.rest);
      if CRLF <= p.rest {
        SectionOutcomeIff(p.rest[2..]);
      }
    }
    if !Unsupported(b) && ParseRequest(b) != Incomplete {
      var p := StartIsThere(b);
    }
  }
}
