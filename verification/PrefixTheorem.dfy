/** How the answer of the parser changes, or does not, when more bytes arrive. */
module PrefixTheorem {
  import opened CStrings
  import opened Fields
  import opened RequestSyntax

  // ---------------------------------------------------------------- scanning with more bytes behind

  /** A token that ends before the end of the buffer is the same token with more bytes behind it. */
  lemma TokenStable(s: Text, x: Text)
    requires Token(s).Some? && Token(s).value.1 != []
    ensures Token(s + x) == Some((Token(s).value.0, Token(s).value.1 + x))
  {
    var k := BlankLength(s);
    var t := s[k..];
    var n := NonBlankLength(t);
    BlankIs(s + x, k);
    assert (s + x)[k..] == t + x;
    assert (t + x)[..n] == t[..n];
    NonBlankIs(t + x, n);
    assert (t + x)[n..] == t[n..] + x;
  }

  lemma LineStable(s: Text, x: Text)
    requires LineLength(s).Some?
    ensures LineLength(s + x) == LineLength(s)
  {
    var n := LineLength(s).value;
    forall i: nat | i < n
      ensures !CrlfAt(s + x, i)
    {
      assert !CrlfAt(s, i);
    }
    LineIs(s + x, n);
  }

  // ---------------------------------------------------------------- a field depends on its line only

  /** `ColonIndex` looks no further than the first colon or NUL. */
  lemma {:induction false} ColonStable(s: Text, x: Text)
    requires ColonIndex(s).Some? || NUL in s
    ensures ColonIndex(s + x) == ColonIndex(s)
  {
    assert s != [] && (s + x)[0] == s[0];
    assert (s + x)[1..] == s[1..] + x;
    if s[0] != NUL && s[0] != COLON {
      assert s == [s[0]] + s[1..];
      ColonStable(s[1..], x);
    }
  }

  lemma {:induction false} ColonBeyond(s: Text, x: Text)
    requires ColonIndex(s).None? && ColonIndex(s + x).Some?
    ensures |s| <= ColonIndex(s + x).value
  {
    if s == [] {
    } else {
      assert (s + x)[0] == s[0];
      assert (s + x)[1..] == s[1..] + x;
      ColonBeyond(s[1..], x);
    }
  }

  /** The field that a line holds, read off the line alone. */
  function FieldOfLine(line: Text): Option<Field> {
    var colon := ColonIndex(line);
    if colon.None? || !BlankFree(line[..colon.value]) then None
    else
      var value := Trim(line[colon.value + 1..]);
      if value == [] then None else Some(Field(line[..colon.value], value))
  }

  /** The search for the colon reads on behind the line, but what it finds there never counts. */
  lemma FieldIsInLine(s: Text, n: nat)
    requires CrlfAt(s, n)
    ensures FieldAt(s, n) == FieldOfLine(s[..n])
  {
    hide Trim;
    var line := s[..n];
    assert s == line + s[n..];
    if ColonIndex(line).Some? || NUL in line {
      ColonStable(line, s[n..]);
      if ColonIndex(line).Some? {
        var c := ColonIndex(line).value;
        assert s[..c] == line[..c];
        assert s[c + 1..n] == line[c + 1..];
      }
    } else if ColonIndex(s).Some? {
      ColonBeyond(line, s[n..]);
      var c := ColonIndex(s).value;
      assert s[..c][n] == CR;
    }
  }

  // ---------------------------------------------------------------- the theorems

  /** The answer once more bytes `x` follow: a rejection stands, an acceptance becomes a syntax error. */
  function Extended<T>(r: Outcome<T>): Outcome<T> {
    if r.Accepted? then InvalidSyntax else r
  }

  lemma Slices(s: Text, x: Text, k: nat)
    requires k <= |s|
    ensures (s + x)[..k] == s[..k] && (s + x)[k..] == s[k..] + x
  {
  }

  lemma FieldStable(s: Text, x: Text, n: nat)
    requires CrlfAt(s, n)
    ensures CrlfAt(s + x, n) && FieldAt(s + x, n) == FieldAt(s, n)
  {
    FieldIsInLine(s, n);
    FieldIsInLine(s + x, n);
    Slices(s, x, n);
  }

  lemma {:induction false} FieldsStable(s: Text, l: seq<Field>, x: Text)
    requires x != [] && !ParseFields(s, l).Incomplete?
    ensures ParseFields(s + x, l) == Extended(ParseFields(s, l))
    decreases |s|
  {
    hide FieldAt, Insert, LineLength;
    LineStable(s, x);
    var n := LineLength(s).value;
    FieldStable(s, x, n);
    Slices(s, x, n + 2);
    if n > 0 && FieldAt(s, n).Some? {
      var m := Insert(l, FieldAt(s, n).value);
      if m.Some? {
        FieldsStable(s[n + 2..], m.value, x);
      }
    }
  }

  lemma {:induction false} NonBlankReaches(s: Text, n: nat)
    requires n <= |s| && BlankFree(s[..n])
    ensures n <= NonBlankLength(s)
  {
    if n == 0 {
    } else {
      assert s[..n][0] == s[0];
      assert s[1..][..n - 1] == s[..n][1..];
      NonBlankReaches(s[1..], n - 1);
    }
  }

  lemma MethodStable(b: Text, x: Text)
    requires MethodMatches((b + x)[..NonBlankLength(b + x)])
    ensures MethodMatches(b[..NonBlankLength(b)])
    ensures NonBlankLength(b) < |b| ==> NonBlankLength(b + x) == NonBlankLength(b)
  {
    var n := NonBlankLength(b);
    var t := (b + x)[..NonBlankLength(b + x)];
    if n < |b| {
      assert (b + x)[..n] == b[..n];
      NonBlankIs(b + x, n);
    } else {
      assert BlankFree((b + x)[..n]);
      NonBlankReaches(b + x, n);
      assert b[..n] == t[..n];
    }
  }

  lemma MethodRejectionStable(b: Text, x: Text)
    requires !MethodMatches(b[..NonBlankLength(b)])
    ensures !MethodMatches((b + x)[..NonBlankLength(b + x)])
  {
    if MethodMatches((b + x)[..NonBlankLength(b + x)]) {
      MethodStable(b, x);
    }
  }

  /**
   Once the parser has decided it never changes its mind: every rejection stands, with the same error code, however
   many bytes follow, and an accepted request followed by anything is a syntax error.
   */
  lemma DecisionsAreFinal(b: Text, x: Text)
    requires x != [] && !ParseRequest(b).Incomplete?
    ensures ParseRequest(b + x) == Extended(ParseRequest(b))
  {
    var n := NonBlankLength(b);
    if !MethodMatches(b[..n]) {
      MethodRejectionStable(b, x);
    } else {
      assert Token(b[n..]).Some?;
      Slices(b, x, n);
      NonBlankIs(b + x, n);
      AfterMethodStable(b[n..], x);
    }
  }

  lemma AfterMethodStable(s: Text, x: Text)
    requires x != [] && !ParseAfterMethod(s).Incomplete?
    ensures ParseAfterMethod(s + x) == Extended(ParseAfterMethod(s))
  {
    var url := Token(s).value;
    assert Token(url.1).Some?;
    TokenStable(s, x);
    var version := Token(url.1).value;
    TokenStable(url.1, x);
    AfterVersionStable(version.1, x);
  }

  lemma AfterVersionStable(s: Text, x: Text)
    requires x != [] && !ParseAfterVersion(s).Incomplete?
    ensures ParseAfterVersion(s + x) == Extended(ParseAfterVersion(s))
  {
    assert CrlfAt(s + x, 0) == CrlfAt(s, 0);
    if CrlfAt(s, 0) {
      assert (s + x)[2..] == s[2..] + x;
      FieldsStable(s[2..], [], x);
    }
  }

  lemma AcceptedPrefix(a: Text, x: Text)
    requires x != [] && ParseRequest(a + x).Accepted?
    ensures ParseRequest(a).Incomplete?
  {
    hide ParseRequest;
    if !ParseRequest(a).Incomplete? {
      DecisionsAreFinal(a, x);
    }
  }

  /** Every proper prefix of an accepted request is incomplete: never accepted, never rejected. */
  lemma PrefixesAreIncomplete(b: Text, k: nat)
    requires ParseRequest(b).Accepted? && k < |b|
    ensures ParseRequest(b[..k]).Incomplete?
  {
    hide ParseRequest;
    assert b[..k] + b[k..] == b;
    AcceptedPrefix(b[..k], b[k..]);
  }

  /** No accepted request is a proper prefix of another one. */
  lemma AcceptedRequestsArePrefixFree(a: Text, b: Text)
    requires ParseRequest(a).Accepted? && ParseRequest(b).Accepted? && a <= b
    ensures a == b
  {
    if |a| == |b| {
      assert a == b;
    } else {
      assert b[..|a|] == a;
      PrefixesAreIncomplete(b, |a|);
    }
  }

  /** The server answers 400 only to bytes that no continuation could turn into an acceptable request. */
  lemma RejectionsAreHopeless(b: Text, x: Text)
    requires !ParseRequest(b).Incomplete? && !ParseRequest(b).Accepted?
    ensures !ParseRequest(b + x).Accepted?
  {
    if x == [] {
      assert b + x == b;
    } else {
      DecisionsAreFinal(b, x);
    }
  }
}
