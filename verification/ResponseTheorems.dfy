/** What holds of every response that API calls can build, and of the bytes it is rendered to. */
module ResponseTheorems {
  import opened CStrings
  import opened Fields
  import opened RequestSyntax
  import opened FieldLines
  import opened RoundTrip
  import opened ResponseSyntax

  // ---------------------------------------------------------------- Content-Length

  /** A response whose body, if there is one, is announced with its length. */
  ghost predicate BodyAnnounced(r: Response) {
    && Sorted(r.fields)
    && (r.body != [] ==> Lookup(r.fields, CONTENT_LENGTH) == Some(Decimal(|r.body|)))
  }

  predicate SetsContentLength(c: Call) {
    c.SetHeader? && c.key == CONTENT_LENGTH
  }

  predicate LeavesContentLength(cs: seq<Call>) {
    forall i | 0 <= i < |cs| :: !SetsContentLength(cs[i])
  }

  lemma LookupAfterSet(l: seq<Field>, key: Text, value: Text, name: Text)
    requires Sorted(l)
    ensures Sorted(Set(l, key, value))
    ensures Lookup(Set(l, key, value), name) == if name == key then Some(value) else Lookup(l, name)
  {
    hide Set, Lookup, Sorted, AsMap, Present;
    SetRefinesMap(l, key, value);
    LookupRefinesMap(l, name);
    LookupRefinesMap(Set(l, key, value), name);
  }

  lemma ApplyKeepsAnnouncement(r: Response, c: Call)
    requires BodyAnnounced(r) && !SetsContentLength(c)
    ensures BodyAnnounced(Apply(r, c))
  {
    hide Lookup, Sorted, Set;
    match c
    case SetCode(_, _) =>
    case SetHeader(key, value) => LookupAfterSet(r.fields, key, value, CONTENT_LENGTH);
    case SetBody(body) => LookupAfterSet(r.fields, CONTENT_LENGTH, Decimal(|body|), CONTENT_LENGTH);
    case Render => LookupAfterSet(r.fields, CONTENT_LENGTH, ZERO, CONTENT_LENGTH);
  }

  lemma {:induction false} CallsKeepAnnouncement(r: Response, cs: seq<Call>)
    requires BodyAnnounced(r) && LeavesContentLength(cs)
    ensures BodyAnnounced(ApplyAll(r, cs))
    decreases |cs|
  {
    hide BodyAnnounced;
    if cs == [] {
    } else {
      ApplyKeepsAnnouncement(r, cs[0]);
      CallsKeepAnnouncement(Apply(r, cs[0]), cs[1..]);
    }
  }

  /** A list with exactly one field of this name, and that one with this value. */
  ghost predicate OnlyField(l: seq<Field>, name: Text, value: Text) {
    exists i :: 0 <= i < |l| && l[i] == Field(name, value) && forall j | 0 <= j < |l| && l[j].key == name :: j == i
  }

  lemma FoundOnce(l: seq<Field>, name: Text, value: Text)
    requires Sorted(l) && Lookup(l, name) == Some(value)
    ensures OnlyField(l, name, value)
  {
    SearchIsComplete(l, name);
    var p := Position(l, name);
    assert l[p].key == name;
    assert l[p] == Field(name, value);
  }

  /**
   However a response was built, short of setting Content-Length by hand, the header list that is rendered holds exactly
   one Content-Length, and it is the length of the body that is rendered behind it.
   */
  lemma ContentLengthAgrees(code: nat, cs: seq<Call>)
    requires LeavesContentLength(cs)
    ensures var r := Finalized(ApplyAll(Response(code, [], [], []), cs));
            OnlyField(r.fields, CONTENT_LENGTH, Decimal(|r.body|))
  {
    hide Lookup, Sorted, OnlyField, Set;
    var start := Response(code, [], [], []);
    EmptyIsAnnounced(start);
    CallsKeepAnnouncement(start, cs);
    AnnouncedOnce(ApplyAll(start, cs));
  }

  lemma EmptyIsAnnounced(r: Response)
    requires r.fields == [] && r.body == []
    ensures BodyAnnounced(r)
  {
  }

  lemma AnnouncedOnce(r: Response)
    requires BodyAnnounced(r)
    ensures BodyAnnounced(Finalized(r))
    ensures OnlyField(Finalized(r).fields, CONTENT_LENGTH, Decimal(|r.body|))
  {
    hide Lookup, OnlyField, Set;
    LookupAfterSet(r.fields, CONTENT_LENGTH, ZERO, CONTENT_LENGTH);
    assert Decimal(0) == ZERO;
    FoundOnce(Finalized(r).fields, CONTENT_LENGTH, Decimal(|r.body|));
  }

  /** Rendering again renders the same: the probe that only measures does not change what is written afterwards. */
  lemma FinalizingIsIdempotent(r: Response)
    requires Sorted(r.fields)
    ensures Finalized(Finalized(r)) == Finalized(r)
  {
    SetTwice(r.fields, CONTENT_LENGTH, ZERO, ZERO);
  }

  lemma {:induction false} ApplyOneMore(r: Response, cs: seq<Call>, c: Call)
    ensures ApplyAll(r, cs + [c]) == Apply(ApplyAll(r, cs), c)
    decreases |cs|
  {
    hide Apply;
    if cs == [] {
      assert cs + [c] == [c];
      assert ApplyAll(Apply(r, c), [c][1..]) == Apply(r, c);
    } else {
      assert (cs + [c])[1..] == cs[1..] + [c];
      ApplyOneMore(Apply(r, cs[0]), cs[1..], c);
    }
  }

  /**
   What each call does to a response, its headers seen as a map: a code comes with the given description or the default
   one, a body with its length, and nothing else changes.
   */
  lemma CallsMean(r: Response)
    requires Sorted(r.fields)
    ensures forall code: nat, text: CString ::
              Apply(r, SetCode(code, Some(text))) == Response(code, text, r.fields, r.body)
    ensures forall code: nat :: Apply(r, SetCode(code, None)) ==
                                Response(code, DefaultDescription(code).GetOr([]), r.fields, r.body)
    ensures forall key: CString, value: CString ::
              var s := Apply(r, SetHeader(key, value));
              && AsMap(s.fields) == AsMap(r.fields)[key := value]
              && (s.code, s.description, s.body) == (r.code, r.description, r.body)
    ensures forall body ::
              var s := Apply(r, SetBody(body));
              && AsMap(s.fields) == AsMap(r.fields)[CONTENT_LENGTH := Decimal(|body|)]
              && (s.code, s.description, s.body) == (r.code, r.description, body)
    ensures var s := Apply(r, Render);
            && AsMap(s.fields) ==
               (if r.body == [] then AsMap(r.fields)[CONTENT_LENGTH := Decimal(0)] else AsMap(r.fields))
            && (s.code, s.description, s.body) == (r.code, r.description, r.body)
  {
    hide Set, AsMap, Sorted, DefaultDescription;
    forall key: CString, value: CString
      ensures AsMap(Set(r.fields, key, value)) == AsMap(r.fields)[key := value]
    {
      SetRefinesMap(r.fields, key, value);
    }
    assert Decimal(0) == ZERO;
  }

  // ---------------------------------------------------------------- the order of the calls

  predicate DistinctKeys(fs: seq<Field>) {
    forall i, j | 0 <= i < j < |fs| :: fs[i].key != fs[j].key
  }

  function SetAll(l: seq<Field>, fs: seq<Field>): seq<Field>
    decreases |fs|
  {
    if fs == [] then l else SetAll(Set(l, fs[0].key, fs[0].value), fs[1..])
  }

  /** Setting distinct headers overlays their map on the one of the list. */
  lemma {:induction false} SetAllOverlays(l: seq<Field>, fs: seq<Field>)
    requires Sorted(l) && DistinctKeys(fs)
    ensures Sorted(SetAll(l, fs))
    ensures forall f | f in fs :: f.key in AsMap(SetAll(l, fs)) && AsMap(SetAll(l, fs))[f.key] == f.value
    ensures forall k | (forall f | f in fs :: f.key != k) ::
              (k in AsMap(SetAll(l, fs)) <==> k in AsMap(l)) &&
              (k in AsMap(l) ==> AsMap(SetAll(l, fs))[k] == AsMap(l)[k])
    decreases |fs|
  {
    hide Set, AsMap, Sorted;
    if fs == [] {
    } else {
      var g := fs[0];
      var m := Set(l, g.key, g.value);
      SetRefinesMap(l, g.key, g.value);
      SetAllOverlays(m, fs[1..]);
      assert forall f | f in fs[1..] :: f.key != g.key;
      assert forall f | f in fs :: f == g || f in fs[1..];
      forall k | forall f | f in fs :: f.key != k
        ensures k in AsMap(SetAll(l, fs)) <==> k in AsMap(l)
        ensures k in AsMap(l) ==> AsMap(SetAll(l, fs))[k] == AsMap(l)[k]
      {
        assert g in fs;
        assert forall f | f in fs[1..] :: f.key != k;
      }
    }
  }

  /** Whatever order different headers are set in, the list is the same, and so are the rendered bytes. */
  lemma SettingOrderIsIrrelevant(l: seq<Field>, a: seq<Field>, b: seq<Field>)
    requires Sorted(l) && DistinctKeys(a) && DistinctKeys(b) && multiset(a) == multiset(b)
    ensures SetAll(l, a) == SetAll(l, b)
  {
    hide Sorted, AsMap, SetAll;
    SetAllOverlays(l, a);
    SetAllOverlays(l, b);
    var m, n := AsMap(SetAll(l, a)), AsMap(SetAll(l, b));
    forall f
      ensures f in a <==> f in b
    {
      assert f in a <==> f in multiset(a);
      assert f in b <==> f in multiset(b);
    }
    forall k
      ensures k in m <==> k in n
      ensures k in m && k in n ==> m[k] == n[k]
    {
      if f :| f in a && f.key == k {
        assert f in b;
      } else {
        assert forall f | f in a :: f.key != k;
        assert forall f | f in b :: f.key != k;
      }
    }
    assert m == n;
    MapDeterminesList(SetAll(l, a), SetAll(l, b));
  }

  // ---------------------------------------------------------------- the bytes can be decoded

  /** A header that can be told apart again once rendered. */
  predicate IsPlainField(f: Field) {
    COLON !in f.key && NUL !in f.key && CrlfFree(f.key) && CrlfFree(f.value)
  }

  predicate IsPlain(r: Response) {
    && r.code < CODE_MAX
    && CrlfFree(r.description)
    && forall i | 0 <= i < |r.fields| :: IsPlainField(r.fields[i])
  }

  /** Two texts that start with a line start with the same one and go on alike. */
  lemma SameLine(t: Text, rest: Text, u: Text, more: Text)
    requires CrlfFree(t) && CrlfFree(u) && t + CRLF + rest == u + CRLF + more
    ensures t == u && rest == more
  {
    FirstLine(t, rest);
    FirstLine(u, more);
  }

  lemma PlainLine(f: Field)
    requires IsPlainField(f)
    ensures IsLine(LineOf(f)) && ColonIndex(LineOf(f)) == Some(|f.key|)
  {
    hide CrlfFree, ColonIndex;
    LineIsLine(f);
    ColonAfterKey(f.key, [SPACE] + f.value);
    assert LineOf(f) == f.key + [COLON] + ([SPACE] + f.value);
  }

  lemma SameField(f: Field, g: Field)
    requires IsPlainField(f) && IsPlainField(g) && LineOf(f) == LineOf(g)
    ensures f == g
  {
    PlainLine(f);
    PlainLine(g);
    assert LineOf(f)[..|f.key|] == f.key && LineOf(g)[..|g.key|] == g.key;
    assert LineOf(f)[|f.key| + 2..] == f.value && LineOf(g)[|g.key| + 2..] == g.value;
  }

  function FirstLineOf(l: seq<Field>): Text {
    if l == [] then [] else LineOf(l[0])
  }

  function RestOf(l: seq<Field>, x: Text): Text {
    if l == [] then x else Block(l[1..]) + (CRLF + x)
  }

  lemma {:induction false} SameBlock(l: seq<Field>, x: Text, m: seq<Field>, y: Text)
    requires forall i | 0 <= i < |l| :: IsPlainField(l[i])
    requires forall i | 0 <= i < |m| :: IsPlainField(m[i])
    requires Block(l) + (CRLF + x) == Block(m) + (CRLF + y)
    ensures l == m && x == y
  {
    hide IsPlainField, Block, LineOf, CrlfFree;
    BlockHead(l, x);
    BlockHead(m, y);
    SameLine(FirstLineOf(l), RestOf(l, x), FirstLineOf(m), RestOf(m, y));
    if l == [] || m == [] {
    } else {
      SameField(l[0], m[0]);
      SameBlock(l[1..], x, m[1..], y);
      assert l == [l[0]] + l[1..] && m == [m[0]] + m[1..];
    }
  }

  lemma {:induction false} BlockHead(l: seq<Field>, x: Text)
    requires forall i | 0 <= i < |l| :: IsPlainField(l[i])
    ensures Block(l) + (CRLF + x) == FirstLineOf(l) + CRLF + RestOf(l, x)
    ensures CrlfFree(FirstLineOf(l)) && (FirstLineOf(l) == [] <==> l == [])
  {
    hide IsPlainField;
    if l != [] {
      PlainLine(l[0]);
      assert Block(l) + (CRLF + x) == LineOf(l[0]) + CRLF + (Block(l[1..]) + (CRLF + x));
    }
  }

  lemma StatusTextDistinct(a: nat, b: nat)
    requires a < CODE_MAX && b < CODE_MAX && StatusText(a) == StatusText(b)
    ensures a == b
  {
    hide Decimal, DigitsValue;
    ThreeDigits(StatusNumber(a));
    ThreeDigits(StatusNumber(b));
    DecimalRoundTrip(StatusNumber(a));
    DecimalRoundTrip(StatusNumber(b));
  }

  lemma ThreeDigits(n: nat)
    requires 100 <= n < 1000
    ensures |Decimal(n)| == 3
    ensures PaddedDecimal(n)[..3] == Decimal(n)
  {
    assert |Decimal(n / 100)| == 1;
    assert |Decimal(n / 10)| == 2;
  }

  lemma StatusLineIsPlain(r: Response)
    requires r.code < CODE_MAX && CrlfFree(r.description)
    ensures CrlfFree(StatusLine(r))
  {
    hide StatusText;
    var line := StatusLine(r);
    DigitsOnly(r.code);
    forall i: nat | i < |line|
      ensures !CrlfAt(line, i)
    {
      if i >= 13 {
        assert !CrlfAt(r.description, i - 13);
      }
    }
  }

  lemma DigitsOnly(code: nat)
    requires code < CODE_MAX
    ensures forall i | 0 <= i < 3 :: IsDigit(StatusText(code)[i])
  {
    ThreeDigits(StatusNumber(code));
  }

  lemma SameStatusLine(r: Response, s: Response)
    requires r.code < CODE_MAX && s.code < CODE_MAX && StatusLine(r) == StatusLine(s)
    ensures r.code == s.code && r.description == s.description
  {
    hide StatusText;
    assert StatusLine(r)[9..12] == StatusText(r.code) && StatusLine(s)[9..12] == StatusText(s.code);
    StatusTextDistinct(r.code, s.code);
    assert r.description != [] ==> StatusLine(r)[13..] == r.description;
    assert s.description != [] ==> StatusLine(s)[13..] == s.description;
  }

  /** Different responses are rendered to different bytes: code, description, headers and body can all be read back. */
  lemma RenderingIsUniquelyDecodable(r: Response, s: Response)
    requires IsPlain(r) && IsPlain(s)
    ensures Rendered(r) == Rendered(s) <==> r == s
  {
    hide StatusLine, IsPlainField, Block;
    if Rendered(r) == Rendered(s) {
      StatusLineIsPlain(r);
      StatusLineIsPlain(s);
      SameLine(StatusLine(r), Block(r.fields) + (CRLF + r.body), StatusLine(s), Block(s.fields) + (CRLF + s.body));
      SameStatusLine(r, s);
      SameBlock(r.fields, r.body, s.fields, s.body);
    }
  }
}
