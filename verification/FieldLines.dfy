/** The header section as a sequence of lines: parsing it line by line, and in any order of the lines. */
module FieldLines {
  import opened CStrings
  import opened Fields
  import opened RequestSyntax
  import opened PrefixTheorem

  /** What stands between two line ends of an accepted header section. */
  predicate IsLine(t: Text) {
    t != [] && CrlfFree(t)
  }

  predicate AreLines(lines: seq<Text>) {
    forall i | 0 <= i < |lines| :: IsLine(lines[i])
  }

  /** Lines, each with its CRLF. */
  function Join(lines: seq<Text>): Text {
    if lines == [] then [] else lines[0] + CRLF + Join(lines[1..])
  }

  predicate AllParse(lines: seq<Text>) {
    forall i | 0 <= i < |lines| :: FieldOfLine(lines[i]).Some?
  }

  function FieldIn(line: Text): Field {
    FieldOfLine(line).GetOr(Field([], []))
  }

  function Map<A, B>(f: A -> B, s: seq<A>): seq<B> {
    if s == [] then [] else [f(s[0])] + Map(f, s[1..])
  }

  /** The fields of the lines, in the order of the lines. */
  function FieldsOf(lines: seq<Text>): seq<Field> {
    Map(FieldIn, lines)
  }

  /** The header loop on lines that are already separated. */
  function Fold(lines: seq<Text>, l: seq<Field>): Outcome<seq<Field>> {
    if lines == [] then Accepted(l)
    else
      var f := FieldOfLine(lines[0]);
      if f.None? then InvalidSyntax
      else
        var m := Insert(l, f.value);
        if m.None? then DuplicateKey else Fold(lines[1..], m.value)
  }

  // ---------------------------------------------------------------- lines and bytes

  /** The first line end is the one that was put there. */
  lemma FirstLine(t: Text, rest: Text)
    requires CrlfFree(t)
    ensures LineLength(t + CRLF + rest) == Some(|t|)
    ensures (t + CRLF + rest)[..|t|] == t && (t + CRLF + rest)[|t| + 2..] == rest
  {
    var s := t + CRLF + rest;
    forall i: nat | i < |t|
      ensures !CrlfAt(s, i)
    {
      assert !CrlfAt(t, i);
    }
    assert CrlfAt(s, |t|);
    LineIs(s, |t|);
  }

  lemma {:induction false} ParseJoined(lines: seq<Text>, l: seq<Field>)
    requires AreLines(lines)
    ensures ParseFields(Join(lines) + CRLF, l) == Fold(lines, l)
  {
    if lines == [] {
      assert Join(lines) + CRLF == CRLF;
      FirstLine([], []);
      assert [] + CRLF + [] == CRLF;
    } else {
      var t, rest := lines[0], Join(lines[1..]) + CRLF;
      assert IsLine(t);
      var s := Join(lines) + CRLF;
      assert s == t + CRLF + rest;
      FirstLine(t, rest);
      FieldIsInLine(s, |t|);
      var f := FieldOfLine(t);
      if f.Some? && Insert(l, f.value).Some? {
        ParseJoined(lines[1..], Insert(l, f.value).value);
      }
    }
  }

  lemma CutLine(s: Text, n: nat)
    requires LineLength(s) == Some(n)
    ensures CrlfFree(s[..n]) && s == s[..n] + CRLF + s[n + 2..]
  {
    forall i: nat | i < n
      ensures !CrlfAt(s[..n], i)
    {
      assert !CrlfAt(s, i);
    }
  }

  /** An accepted header section is some lines followed by an empty one. */
  lemma {:induction false} SplitFields(s: Text, l: seq<Field>) returns (lines: seq<Text>)
    requires ParseFields(s, l).Accepted?
    ensures AreLines(lines) && s == Join(lines) + CRLF
    decreases |s|
  {
    AcceptedStep(s, l);
    var n := LineLength(s).value;
    if n == 0 {
      lines := [];
      assert s == Join(lines) + CRLF;
    } else {
      var t, f := s[..n], FieldAt(s, n).value;
      var rest := SplitFields(s[n + 2..], Insert(l, f).value);
      CutLine(s, n);
      lines := [t] + rest;
      JoinCons(t, rest);
      assert s == t + CRLF + (Join(rest) + CRLF) == Join(lines) + CRLF;
    }
  }

  lemma AcceptedStep(s: Text, l: seq<Field>)
    requires ParseFields(s, l).Accepted?
    ensures LineLength(s).Some?
    ensures var n := LineLength(s).value;
            if n == 0 then s == CRLF && ParseFields(s, l).value == l
            else FieldAt(s, n).Some? && Insert(l, FieldAt(s, n).value).Some? &&
                 ParseFields(s, l) == ParseFields(s[n + 2..], Insert(l, FieldAt(s, n).value).value)
  {
  }

  lemma JoinCons(t: Text, rest: seq<Text>)
    ensures Join([t] + rest) == t + CRLF + Join(rest)
  {
    assert ([t] + rest)[1..] == rest;
  }

  // ---------------------------------------------------------------- the order of the lines does not matter

  lemma {:induction false} CountAtMostOne(m: seq<Field>, f: Field)
    requires Sorted(m)
    ensures multiset(m)[f] <= 1
  {
    if m == [] {
    } else {
      assert m == [m[0]] + m[1..];
      TailMembers(m, f);
      CountAtMostOne(m[1..], f);
    }
  }

  lemma KeyIsNew(l: seq<Field>, f: Field, m: seq<Field>, g: Field)
    requires Sorted(m) && multiset(l) + multiset{f} <= multiset(m) && g in l
    ensures g.key != f.key
  {
    CountAtMostOne(m, f);
    assert g in multiset(l) && g in multiset(m) && f in multiset(m);
    var i :| 0 <= i < |m| && m[i] == g;
    var j :| 0 <= j < |m| && m[j] == f;
    SameKeySamePlace(m, i, j);
  }

  /** A key that `l` holds cannot be held once more in a sorted list. */
  lemma NoRoomForDuplicate(l: seq<Field>, f: Field, m: seq<Field>)
    requires Sorted(l) && Sorted(m) && multiset(l) + multiset{f} <= multiset(m)
    ensures Insert(l, f).Some?
  {
    SearchIsComplete(l, f.key);
    forall i | 0 <= i < |l|
      ensures l[i].key != f.key
    {
      KeyIsNew(l, f, m, l[i]);
    }
  }

  /**
   The result of the header loop, without its order: it accepts with the list `m` exactly when every line holds a
   field and `m` is the sorted arrangement of those fields and the ones already listed.
   */
  lemma {:induction false} FoldIsSorting(lines: seq<Text>, l: seq<Field>, m: seq<Field>)
    requires Sorted(l)
    ensures Fold(lines, l) == Accepted(m) <==>
            AllParse(lines) && Sorted(m) && multiset(m) == multiset(l) + multiset(FieldsOf(lines))
  {
    if lines == [] {
      FoldNothing(l, m);
    } else if FieldOfLine(lines[0]).Some? {
      var f := FieldOfLine(lines[0]).value;
      AllParseCons(lines);
      assert FieldsOf(lines) == [f] + FieldsOf(lines[1..]);
      InsertRefinesMap(l, f);
      if Insert(l, f).Some? {
        FoldIsSorting(lines[1..], Insert(l, f).value, m);
      } else if AllParse(lines) && Sorted(m) && multiset(m) == multiset(l) + multiset(FieldsOf(lines)) {
        NoRoomForDuplicate(l, f, m);
      }
    }
  }

  lemma FoldNothing(l: seq<Field>, m: seq<Field>)
    requires Sorted(l)
    ensures l == m <==> Sorted(m) && multiset(m) == multiset(l)
  {
    if Sorted(m) && multiset(m) == multiset(l) {
      forall f
        ensures f in l <==> f in m
      {
        assert f in multiset(l) <==> f in multiset(m);
      }
      SortedUnique(l, m);
    }
  }

  lemma AllParseCons(lines: seq<Text>)
    requires lines != [] && FieldOfLine(lines[0]).Some?
    ensures AllParse(lines) <==> AllParse(lines[1..])
  {
    if AllParse(lines[1..]) {
      forall i | 0 <= i < |lines|
        ensures FieldOfLine(lines[i]).Some?
      {
        assert i > 0 ==> lines[i] == lines[1..][i - 1];
      }
    }
  }

  lemma {:induction false} MapAppend<A, B>(f: A -> B, s: seq<A>, t: seq<A>)
    ensures Map(f, s + t) == Map(f, s) + Map(f, t)
  {
    if s == [] {
      assert s + t == t;
    } else {
      assert (s + t)[1..] == s[1..] + t;
      MapAppend(f, s[1..], t);
    }
  }

  lemma Extract<A>(a: seq<A>, b: seq<A>) returns (x: seq<A>, y: seq<A>)
    requires a != [] && multiset(a) == multiset(b)
    ensures b == x + ([a[0]] + y) && multiset(a[1..]) == multiset(x + y)
  {
    assert a[0] in multiset(b);
    var j :| 0 <= j < |b| && b[j] == a[0];
    x, y := b[..j], b[j + 1..];
    assert b == x + ([a[0]] + y);
    assert a == [a[0]] + a[1..];
    MiddleLast(x, a[0], y);
    CancelMultiset(multiset(a[1..]), multiset(x + y), a[0]);
  }

  lemma MiddleLast<A>(x: seq<A>, e: A, y: seq<A>)
    ensures multiset(x + ([e] + y)) == multiset(x + y) + multiset{e}
  {
  }

  lemma CancelMultiset<A>(m: multiset<A>, n: multiset<A>, e: A)
    requires m + multiset{e} == n + multiset{e}
    ensures m == n
  {
    assert m == (m + multiset{e}) - multiset{e};
    assert n == (n + multiset{e}) - multiset{e};
  }

  /** Mapping a function over a rearranged sequence rearranges the results. */
  lemma {:induction false} MapPermuted<A, B>(f: A -> B, a: seq<A>, b: seq<A>)
    requires multiset(a) == multiset(b)
    ensures multiset(Map(f, a)) == multiset(Map(f, b))
  {
    if a == [] {
      assert |b| == |multiset(b)|;
    } else {
      var x, y := Extract(a, b);
      MapPermuted(f, a[1..], x + y);
      MapAppend(f, x, y);
      MapAppend(f, x, [a[0]] + y);
      assert ([a[0]] + y)[1..] == y;
    }
  }

  /** A request line with its CRLF, holding this URL and version. */
  predicate RequestLine(head: Text, url: Text, version: Text) {
    var n := NonBlankLength(head);
    && MethodMatches(head[..n])
    && Token(head[n..]).Some?
    && Token(head[n..]).value.0 == url
    && Token(Token(head[n..]).value.1) == Some((version, CRLF))
  }

  /** Behind a request line the parser is the header loop. */
  lemma AfterRequestLine(head: Text, url: Text, version: Text, s: Text)
    requires RequestLine(head, url, version)
    ensures ParseRequest(head + s) == WithFields(url, version, ParseFields(s, []))
  {
    hide ParseFields, Token;
    var n := NonBlankLength(head);
    assert n < |head|;
    Slices(head, s, n);
    NonBlankIs(head + s, n);
    TokenStable(head[n..], s);
    TokenStable(Token(head[n..]).value.1, s);
    assert CrlfAt(CRLF + s, 0) && (CRLF + s)[2..] == s;
  }

  /** A token that ends before `x` is the same token without `x`. */
  lemma TokenWithout(s: Text, x: Text, t: Text, r: Text)
    requires Token(s + x) == Some((t, r + x)) && r != []
    ensures Token(s) == Some((t, r))
  {
    hide IsSpace;
    var k := BlankLength(s + x);
    var n := NonBlankLength((s + x)[k..]);
    assert |s + x| - k - n == |r + x|;
    assert k + n < |s|;
    assert forall i | 0 <= i < |s| :: s[i] == (s + x)[i];
    BlankIs(s, k);
    assert (s + x)[k..] == s[k..] + x;
    assert (s[k..] + x)[..n] == s[k..][..n];
    NonBlankIs(s[k..], n);
    assert s[k..][n..] + x == r + x;
    assert s[k..][n..] == (r + x)[..|r|];
  }

  /** Every accepted buffer is a request line, header lines and an empty line. */
  lemma SplitRequest(b: Text) returns (head: Text, lines: seq<Text>)
    requires ParseRequest(b).Accepted?
    ensures AreLines(lines) && b == head + (Join(lines) + CRLF)
    ensures RequestLine(head, ParseRequest(b).value.url, ParseRequest(b).value.version)
  {
    hide Token, ParseAfterMethod, ParseFields, MethodMatches;
    var url, r, version, s := AcceptedTokens(b);
    var n := NonBlankLength(b);
    lines := SplitFields(s, []);
    var h := SplitTokens(b[n..], url, r, version, s);
    head := b[..n] + h;
    SplitMethod(b, n, h, s);
  }

  /** What acceptance says about the parts of a buffer. */
  lemma AcceptedTokens(b: Text) returns (url: Text, r: Text, version: Text, s: Text)
    requires ParseRequest(b).Accepted?
    ensures MethodMatches(b[..NonBlankLength(b)])
    ensures Token(b[NonBlankLength(b)..]) == Some((url, r)) && Token(r) == Some((version, CRLF + s))
    ensures WithFields(url, version, ParseFields(s, [])) == ParseRequest(b)
  {
    var t := Token(b[NonBlankLength(b)..]).value;
    var u := Token(t.1).value;
    url, r, version, s := t.0, t.1, u.0, u.1[2..];
    AcceptedAfterVersion(u.1);
  }

  lemma AcceptedAfterVersion(t: Text)
    requires ParseAfterVersion(t).Accepted?
    ensures |t| >= 2 && t == CRLF + t[2..] && ParseFields(t[2..], []) == ParseAfterVersion(t)
  {
  }

  lemma SplitMethod(b: Text, n: nat, h: Text, s: Text)
    requires n == NonBlankLength(b) && b[n..] == h + s && Token(h).Some?
    ensures b == b[..n] + h + s
    ensures NonBlankLength(b[..n] + h) == n && (b[..n] + h)[..n] == b[..n] && (b[..n] + h)[n..] == h
  {
    var head := b[..n] + h;
    assert h != [];
    assert b[n] == b[n..][0] == h[0] == head[n];
    assert head[..n] == b[..n];
    NonBlankIs(head, n);
  }

  /** Two tokens and a CRLF, cut off from what follows them. */
  lemma SplitTokens(s: Text, u: Text, r: Text, v: Text, rest: Text) returns (h: Text)
    requires Token(s) == Some((u, r)) && Token(r) == Some((v, CRLF + rest))
    ensures s == h + rest && Token(h).Some? && Token(h).value.0 == u && Token(Token(h).value.1) == Some((v, CRLF))
  {
    hide Token;
    TokenSuffix(s);
    TokenSuffix(r);
    var p, q := s[..|s| - |r|], r[..|r| - |CRLF + rest|];
    h := p + (q + CRLF);
    assert r == (q + CRLF) + rest;
    assert s == h + rest;
    TokenWithout(h, rest, u, q + CRLF);
    TokenWithout(q + CRLF, rest, v, CRLF);
  }

  lemma TokenSuffix(s: Text)
    requires Token(s).Some?
    ensures s == s[..|s| - |Token(s).value.1|] + Token(s).value.1
  {
    var k := BlankLength(s);
    var n := NonBlankLength(s[k..]);
    assert s[k..][n..] == s[k + n..];
  }

  lemma LinesPermuted(a: seq<Text>, b: seq<Text>, l: seq<Field>)
    requires multiset(a) == multiset(b) && Fold(a, []) == Accepted(l)
    ensures Fold(b, []) == Accepted(l)
  {
    FoldIsSorting(a, [], l);
    MapPermuted(FieldIn, a, b);
    forall i | 0 <= i < |b|
      ensures FieldOfLine(b[i]).Some?
    {
      assert b[i] in multiset(a);
    }
    FoldIsSorting(b, [], l);
  }

  /**
   The order of the header lines does not matter: rearranging them keeps an accepted request accepted, with the
   identical header list.
   */
  lemma HeaderOrderIsIrrelevant(
      head: Text, url: Text, version: Text, a: seq<Text>, b: seq<Text>, r: Request)
    requires RequestLine(head, url, version) && AreLines(a) && multiset(a) == multiset(b)
    requires ParseRequest(head + (Join(a) + CRLF)) == Accepted(r)
    ensures ParseRequest(head + (Join(b) + CRLF)) == Accepted(r)
  {
    forall i | 0 <= i < |b|
      ensures IsLine(b[i])
    {
      assert b[i] in multiset(a);
    }
    AfterRequestLine(head, url, version, Join(a) + CRLF);
    AfterRequestLine(head, url, version, Join(b) + CRLF);
    ParseJoined(a, []);
    ParseJoined(b, []);
    LinesPermuted(a, b, r.fields);
  }
}
