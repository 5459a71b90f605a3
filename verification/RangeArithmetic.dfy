/** Specifiers as numbers: what the `size_t` arithmetic of `parse_single_range` comes to. */
module RangeArithmetic {
  import opened CStrings
  import opened RequestSyntax
  import opened RangeSyntax
  import opened RangeTheorems

  // ---------------------------------------------------------------- strtoll on a numeral

  lemma {:induction false} DigitsIs(s: Text, n: nat)
    requires n <= |s| && (forall i | 0 <= i < n :: IsDigit(s[i])) && (n < |s| ==> !IsDigit(s[n]))
    ensures DigitsLength(s) == n
  {
    if n == 0 {
    } else {
      DigitsIs(s[1..], n - 1);
    }
  }

  /** A numeral followed by anything but a digit is read as its number, saturated. */
  lemma ReadsNumeral(n: nat, rest: Text)
    requires rest == [] || !IsDigit(rest[0])
    ensures StrToLL(Decimal(n) + rest) == (Saturated(n), |Decimal(n)|)
  {
    hide Saturated, Decimal, DigitsValue, DigitsLength, BlankLength;
    var d := Decimal(n);
    var s := d + rest;
    assert IsDigit(d[0]);
    BlankIs(s, 0);
    assert s[0..] == s;
    DigitsIs(s, |d|);
    assert s[..|d|] == d;
    DecimalRoundTrip(n);
  }

  /** So is one behind whitespace and a sign, with the sign. */
  lemma ReadsSigned(blanks: Text, sign: Byte, n: nat, rest: Text)
    requires (forall i | 0 <= i < |blanks| :: IsSpace(blanks[i])) && (sign == PLUS || sign == MINUS)
    requires rest == [] || !IsDigit(rest[0])
    ensures StrToLL(blanks + [sign] + Decimal(n) + rest) ==
            (Saturated(if sign == MINUS then -(n as int) else n), |blanks| + 1 + |Decimal(n)|)
  {
    hide Saturated, Decimal, BlankLength, Numeral;
    var d := Decimal(n);
    var s := blanks + [sign] + d + rest;
    BlankIs(s, |blanks|);
    var t := s[|blanks|..];
    assert t == [sign] + (d + rest) && t[1..] == d + rest;
    NumeralInFront(n, rest);
  }

  lemma NumeralInFront(n: nat, rest: Text)
    requires rest == [] || !IsDigit(rest[0])
    ensures Numeral(Decimal(n) + rest) == (n, |Decimal(n)|)
  {
    hide Decimal, DigitsValue, DigitsLength;
    var d := Decimal(n);
    DigitsIs(d + rest, |d|);
    assert (d + rest)[..|d|] == d;
    DecimalRoundTrip(n);
  }

  /** Without a digit behind whitespace and sign, nothing is read. */
  lemma ReadsNothing(blanks: Text, rest: Text)
    requires (forall i | 0 <= i < |blanks| :: IsSpace(blanks[i])) && (rest == [] || !IsSpace(rest[0]))
    requires rest != [] && (rest[0] == PLUS || rest[0] == MINUS) ==> |rest| == 1 || !IsDigit(rest[1])
    requires rest == [] || !IsDigit(rest[0])
    ensures StrToLL(blanks + rest) == (0, 0)
  {
    BlankIs(blanks + rest, |blanks|);
    assert (blanks + rest)[|blanks|..] == rest;
  }

  // ---------------------------------------------------------------- splitting at commas

  function JoinCommas(pieces: seq<Text>): Text
    requires pieces != []
  {
    if |pieces| == 1 then pieces[0] else pieces[0] + [COMMA] + JoinCommas(pieces[1..])
  }

  predicate CommaFree(pieces: seq<Text>) {
    forall i | 0 <= i < |pieces| :: COMMA !in pieces[i]
  }

  lemma {:induction false} CommaIndexIs(s: Text, n: nat)
    requires n <= |s| && COMMA !in s[..n] && (n < |s| ==> s[n] == COMMA)
    ensures CommaIndex(s) == n
  {
    if n == 0 {
    } else {
      assert s[0] == s[..n][0] && s[1..][..n - 1] == s[..n][1..];
      CommaIndexIs(s[1..], n - 1);
    }
  }

  /** A list is split into exactly the specifiers that it was joined from, in their order, empty ones included. */
  lemma {:induction false} SplitJoined(pieces: seq<Text>)
    requires pieces != [] && CommaFree(pieces)
    ensures SplitCommas(JoinCommas(pieces)) == pieces
  {
    hide CommaIndex, SplitCommas, JoinCommas;
    var s, p := JoinCommas(pieces), pieces[0];
    SplitOpened(s);
    if |pieces| == 1 {
      assert pieces == [p];
      JoinOne(p);
      assert s[..|s|] == s;
      CommaIndexIs(s, |s|);
    } else {
      var rest := pieces[1..];
      assert pieces == [p] + rest;
      JoinMore(p, rest);
      assert s[..|p|] == p && s[|p| + 1..] == JoinCommas(rest);
      CommaIndexIs(s, |p|);
      SplitJoined(rest);
    }
  }

  lemma SplitOpened(s: Text)
    ensures var n := CommaIndex(s);
            SplitCommas(s) == if n == |s| then [s] else [s[..n]] + SplitCommas(s[n + 1..])
  {
    hide CommaIndex;
  }

  /** And every list is joined from what it is split into. */
  lemma {:induction false} JoinSplit(s: Text)
    ensures CommaFree(SplitCommas(s)) && JoinCommas(SplitCommas(s)) == s
    decreases |s|
  {
    hide CommaIndex, SplitCommas, JoinCommas;
    var n := CommaIndex(s);
    SplitOpened(s);
    if n == |s| {
      assert s[..n] == s;
      JoinOne(s);
    } else {
      var rest := SplitCommas(s[n + 1..]);
      JoinSplit(s[n + 1..]);
      JoinMore(s[..n], rest);
      assert s == s[..n] + [COMMA] + s[n + 1..];
    }
  }

  lemma JoinOne(piece: Text)
    ensures JoinCommas([piece]) == piece
  {
  }

  lemma JoinMore(piece: Text, rest: seq<Text>)
    requires rest != []
    ensures JoinCommas([piece] + rest) == piece + [COMMA] + JoinCommas(rest)
  {
    assert ([piece] + rest)[1..] == rest;
  }

  // ---------------------------------------------------------------- a specifier and what follows it

  lemma BlankBeforeComma(s: Text, x: Text)
    ensures BlankLength(s + [COMMA] + x) == BlankLength(s)
  {
    var n := BlankLength(s);
    assert forall i | 0 <= i < |s| :: (s + [COMMA] + x)[i] == s[i];
    BlankIs(s + [COMMA] + x, n);
  }

  lemma {:induction false} DigitsBeforeComma(s: Text, x: Text)
    ensures DigitsLength(s + [COMMA] + x) == DigitsLength(s)
  {
    var t := s + [COMMA] + x;
    if s == [] {
      assert t[0] == COMMA;
    } else if IsDigit(s[0]) {
      assert t[1..] == s[1..] + [COMMA] + x;
      DigitsBeforeComma(s[1..], x);
    }
  }

  lemma NumeralBeforeComma(s: Text, x: Text)
    ensures Numeral(s + [COMMA] + x) == Numeral(s)
  {
    var n := DigitsLength(s);
    DigitsBeforeComma(s, x);
    assert (s + [COMMA] + x)[..n] == s[..n];
  }

  /** `strtoll` does not look beyond a comma. */
  lemma NumberBeforeComma(s: Text, x: Text)
    ensures StrToLL(s + [COMMA] + x) == StrToLL(s)
  {
    hide DigitsValue, Saturated, BlankLength, Numeral;
    var blanks := BlankLength(s);
    BlankBeforeComma(s, x);
    var t := s[blanks..];
    assert (s + [COMMA] + x)[blanks..] == t + [COMMA] + x;
    var sign := if t != [] && (t[0] == MINUS || t[0] == PLUS) then 1 else 0;
    assert (t + [COMMA] + x)[sign..] == t[sign..] + [COMMA] + x;
    NumeralBeforeComma(t[sign..], x);
  }

  /** The routine is handed the rest of the header, but for a well-formed specifier it answers up to the comma. */
  lemma SpecBeforeComma(s: Text, x: Text, size: nat)
    requires WellFormedSpec(s) && size < SIZE_WRAP
    ensures Readable(s + [COMMA] + x) && SingleRange(s + [COMMA] + x, size) == SingleRange(s, size)
  {
    hide StrToLL;
    var t := s + [COMMA] + x;
    NumberBeforeComma(s, x);
    if s[0] == MINUS {
      assert t[1..] == s[1..] + [COMMA] + x;
      NumberBeforeComma(s[1..], x);
    } else {
      var mid := StrToLL(s).1;
      assert t[mid] == s[mid];
      assert mid + 1 == |s| ==> t[mid + 1] == COMMA;
      assert t[mid + 1..] == s[mid + 1..] + [COMMA] + x;
      NumberBeforeComma(s[mid + 1..], x);
    }
  }

  lemma SpecOfMore(piece: Text, x: Text)
    ensures SpecOf(piece + [COMMA] + x) == SpecOf(piece) + [COMMA] + x
  {
    hide BlankLength;
    BlankBeforeComma(piece, x);
  }

  /** The first specifier of a list, as `parse_range` finds it in front of the rest. */
  lemma FirstSpec(s: Text, size: nat)
    requires WellFormedSpec(SpecOf(s[..CommaIndex(s)])) && size < SIZE_WRAP
    ensures Readable(SpecOf(s)) && SingleRange(SpecOf(s), size) == SingleRange(SpecOf(s[..CommaIndex(s)]), size)
  {
    hide SingleRange, Readable, StrToLL, CommaIndex, SpecOf;
    var n := CommaIndex(s);
    var piece := s[..n];
    if n == |s| {
      assert piece == s;
    } else {
      var x := s[n + 1..];
      assert s == piece + [COMMA] + x;
      SpecOfMore(piece, x);
      SpecBeforeComma(SpecOf(piece), x, size);
    }
  }

  /** A specifier that is as the source asserts is answered as it is written, whatever follows it in the header. */
  lemma {:induction false} SpecAsWritten(s: Text, i: nat, size: nat)
    requires i < |SplitCommas(s)| && WellFormedSpec(SpecOf(SplitCommas(s)[i])) && size < SIZE_WRAP
    ensures Readable(SpecsIn(s)[i]) && SingleRange(SpecsIn(s)[i], size) == SingleRange(SpecOf(SplitCommas(s)[i]), size)
    decreases |s|
  {
    hide WellFormedSpec, Readable, SingleRange, CommaIndex, SpecOf, SplitCommas, SpecsIn;
    var n := CommaIndex(s);
    SplitOpened(s);
    SpecsOpened(s);
    assert n == |s| ==> s[..n] == s;
    if i == 0 {
      FirstSpec(s, size);
    } else {
      SpecAsWritten(s[n + 1..], i - 1, size);
    }
  }

  lemma SpecsOpened(s: Text)
    ensures var n := CommaIndex(s);
            SpecsIn(s) == if n == |s| then [SpecOf(s)] else [SpecOf(s)] + SpecsIn(s[n + 1..])
  {
    hide CommaIndex, SpecOf;
  }

  /** So a list of such specifiers is answered specifier by specifier. */
  lemma ReadAsWritten(s: Text, size: nat)
    requires WellFormedList(s) && size < SIZE_WRAP
    ensures ReadableList(s)
    ensures forall i | 0 <= i < |SplitCommas(s)| ::
              ListedRanges(s, size)[i] == SingleRange(SpecOf(SplitCommas(s)[i]), size)
  {
    hide Readable, StrToLL, SingleRange, SpecOf, SplitCommas, SpecsIn;
    forall i | 0 <= i < |SplitCommas(s)|
      ensures Readable(SpecsIn(s)[i])
      ensures SingleRange(SpecsIn(s)[i], size) == SingleRange(SpecOf(SplitCommas(s)[i]), size)
    {
      SpecAsWritten(s, i, size);
    }
  }

  // ---------------------------------------------------------------- the three kinds of specifier

  /** `first-last` */
  function IntSpec(first: nat, last: nat): Text {
    Decimal(first) + ([MINUS] + Decimal(last))
  }

  /** `first-last`: the bytes from `first` through `last`, however long the file is. */
  lemma IntRange(first: nat, last: nat, size: nat)
    requires last < LLONG_MAX && size <= LLONG_MAX
    ensures WellFormedSpec(IntSpec(first, last))
    ensures SingleRange(IntSpec(first, last), size) == if first <= last then Range(first, last + 1) else FULL
  {
    hide Decimal, StrToLL;
    var s := IntSpec(first, last);
    ReadsNumeral(first, [MINUS] + Decimal(last));
    ReadsNumeral(last, []);
    var mid := |Decimal(first)|;
    assert s[mid + 1..] == Decimal(last) == Decimal(last) + [];
    assert IsDigit(s[0]) && IsDigit(s[mid + 1]);
  }

  /** `first-`: everything from `first` on, or the whole file when there is nothing. */
  lemma OpenRange(first: nat, size: nat)
    requires size <= LLONG_MAX
    ensures var s := Decimal(first) + [MINUS];
            WellFormedSpec(s) && SingleRange(s, size) == if first < size then Range(first, size) else FULL
  {
    hide Decimal, StrToLL;
    var s := Decimal(first) + [MINUS];
    ReadsNumeral(first, [MINUS]);
    assert IsDigit(s[0]);
  }

  /**
   `-length`: the last bytes; a suffix longer than the file wraps around and becomes the whole file. A number beyond the
   largest `long long` is read as that.
   */
  lemma SuffixRange(length: nat, size: nat)
    requires size <= LLONG_MAX
    ensures var s := [MINUS] + Decimal(length);
            var n := if length > LLONG_MAX then LLONG_MAX else length;
            WellFormedSpec(s) && SingleRange(s, size) == if 0 < n <= size then Range(size - n, size) else FULL
  {
    hide Decimal, StrToLL;
    var s := [MINUS] + Decimal(length);
    ReadsNumeral(length, []);
    assert s[1..] == Decimal(length) + [];
  }

  /** Every answer is either the sentinel or a range that is not empty. */
  lemma AnswerIsProper(value: Option<Text>, size: nat)
    requires RangeList(value).Some? ==> ReadableList(RangeList(value).value)
    requires size <= LLONG_MAX
    ensures RangeOf(value, size) == FULL || RangeOf(value, size).start < RangeOf(value, size).end
  {
    hide ReadableList, Combine, ListedRanges;
    if RangeList(value).Some? {
      FullExactlyWhenRejected(ListedRanges(RangeList(value).value, size));
    }
  }

  // ---------------------------------------------------------------- bounds against the file

  /** The specifier is not a suffix, and its last position is written out. */
  predicate HasLast(s: Text) {
    var mid := StrToLL(s).1;
    s != [] && s[0] != MINUS && mid + 1 < |s| && IsDigit(s[mid + 1])
  }

  function LastOf(s: Text): int
    requires HasLast(s)
  {
    StrToLL(s[StrToLL(s).1 + 1..]).0
  }

  lemma DigitFirstIsNatural(s: Text)
    requires s != [] && IsDigit(s[0])
    ensures StrToLL(s).0 >= 0
  {
    BlankIs(s, 0);
    assert s[0..] == s;
  }

  /** The last position is not clamped: the range of a specifier ends behind the file exactly if that was asked for. */
  lemma EndsBehindFileIff(s: Text, size: nat)
    requires Readable(s) && size <= LLONG_MAX
    ensures SingleRange(s, size).end > size <==> HasLast(s) && 0 <= StrToLL(s).0 <= LastOf(s) && LastOf(s) >= size
  {
    hide StrToLL;
    if HasLast(s) {
      DigitFirstIsNatural(s[StrToLL(s).1 + 1..]);
    }
  }

  /**
   The full range, which stands for an error, is the answer for a specifier exactly if its numbers denote no byte. What
   stands around the numbers, or that there is none, is no error.
   */
  lemma RefusedIff(s: Text, size: nat)
    requires Readable(s) && size <= LLONG_MAX
    ensures SingleRange(s, size) == FULL <==>
            if s[0] == MINUS then !(0 < StrToLL(s[1..]).0 <= size)
            else !(0 <= StrToLL(s).0 < if HasLast(s) then LastOf(s) + 1 else size)
  {
    hide StrToLL;
    if HasLast(s) {
      DigitFirstIsNatural(s[StrToLL(s).1 + 1..]);
    }
  }

  lemma {:induction false} ChainGrows(rs: seq<Range>, chain: seq<Range>, a: nat, b: nat)
    requires IsChain(rs, chain, a, b) && Proper(rs) && !SomeEmpty(rs)
    ensures a <= b && (chain != [] ==> exists r :: r in rs && r.end == b)
    decreases |chain|
  {
    if chain == [] {
    } else {
      var i :| 0 <= i < |rs| && rs[i] == chain[0];
      assert rs[i].start < rs[i].end;
      ChainGrows(rs, chain[1..], chain[0].end, b);
      assert chain[1..] == [] ==> chain[0].end == b;
    }
  }

  /** No chain from `a` reaches further than one that cannot be continued. */
  lemma {:induction false} ChainReaches(rs: seq<Range>, c: seq<Range>, d: seq<Range>, a: nat, x: nat, y: nat)
    requires Proper(rs) && !SomeEmpty(rs) && !SomeOverlap(rs)
    requires IsChain(rs, c, a, x)
    requires IsChain(rs, d, a, y) && (forall r | r in rs :: r.start != y)
    ensures x <= y
    decreases |c|
  {
    if c == [] {
      ChainGrows(rs, d, a, y);
    } else if d != [] {
      StartsDiffer(rs, c[0], d[0]);
      ChainReaches(rs, c[1..], d[1..], c[0].end, x, y);
    }
  }

  /**
   The list is taken, and adjacent ranges lead from the first-listed one, or just that one, to a listed range that ends
   behind the file.
   */
  ghost predicate LeadsBehindFile(rs: seq<Range>, size: nat)
    requires rs != []
  {
    && !SomeEmpty(rs)
    && !SomeOverlap(rs)
    && exists r, chain :: r in rs && r.end > size && IsChain(rs, chain, rs[0].end, r.end)
  }

  lemma CombinedBehindFileIff(rs: seq<Range>, size: nat)
    requires rs != [] && Proper(rs)
    ensures Combine(rs).end > size <==> LeadsBehindFile(rs, size)
  {
    hide Combine, IsChain;
    FullExactlyWhenRejected(rs);
    if !SomeEmpty(rs) && !SomeOverlap(rs) {
      MergedExactly(rs);
      var last := Combine(rs).end;
      var d :| IsChain(rs, d, rs[0].end, last);
      if last > size {
        ChainGrows(rs, d, rs[0].end, last);
        EmptyChain(rs, d, rs[0].end, last);
        var r: Range :| r in rs && r.end == last;
        assert IsChain(rs, d, rs[0].end, r.end);
      }
      if r, chain :| r in rs && r.end > size && IsChain(rs, chain, rs[0].end, r.end) {
        ChainReaches(rs, chain, d, rs[0].end, r.end, last);
      }
    }
  }

  lemma EmptyChain(rs: seq<Range>, chain: seq<Range>, a: nat, b: nat)
    requires IsChain(rs, chain, a, b)
    ensures chain == [] ==> a == b
  {
  }

  /** The answer ends behind the file exactly if the listed ranges lead there. */
  lemma AnswerBehindFileIff(value: Option<Text>, size: nat)
    requires RangeList(value).Some? ==> ReadableList(RangeList(value).value)
    requires size <= LLONG_MAX
    ensures RangeOf(value, size).end > size <==>
            RangeList(value).Some? && LeadsBehindFile(ListedRanges(RangeList(value).value, size), size)
  {
    hide Combine, ReadableList, LeadsBehindFile;
    if RangeList(value).Some? {
      CombinedBehindFileIff(ListedRanges(RangeList(value).value, size), size);
    }
  }

  /** In particular the answer lies in the file if no last position is written out behind it. */
  lemma AnswerInFile(value: Option<Text>, size: nat)
    requires RangeList(value).Some? ==>
               ReadableList(RangeList(value).value) &&
               forall s | s in SpecsIn(RangeList(value).value) :: HasLast(s) ==> LastOf(s) < size
    requires size <= LLONG_MAX
    ensures RangeOf(value, size).end <= size
  {
    hide HasLast, LastOf, SingleRange, Readable, RangeOf, IsChain;
    AnswerBehindFileIff(value, size);
    if RangeList(value).Some? {
      var specs := SpecsIn(RangeList(value).value);
      var rs := ListedRanges(RangeList(value).value, size);
      forall r | r in rs
        ensures r.end <= size
      {
        var i :| 0 <= i < |rs| && rs[i] == r;
        assert specs[i] in specs;
        EndsBehindFileIff(specs[i], size);
      }
    }
  }

  // ---------------------------------------------------------------- lists of positions

  /** `bytes=first-last,...` for pairs of a first and a last position. */
  function IntHeader(pairs: seq<(nat, nat)>): Text
    requires pairs != []
  {
    BYTES_UNIT + JoinCommas(IntSpecs(pairs))
  }

  function IntSpecs(pairs: seq<(nat, nat)>): (r: seq<Text>)
    ensures |r| == |pairs|
  {
    seq(|pairs|, i requires 0 <= i < |pairs| => IntSpec(pairs[i].0, pairs[i].1))
  }

  function IntRanges(pairs: seq<(nat, nat)>): (r: seq<Range>)
    ensures |r| == |pairs|
  {
    seq(
      |pairs|,
      i requires 0 <= i < |pairs| =>
        if pairs[i].0 <= pairs[i].1 then Range(pairs[i].0, pairs[i].1 + 1) else FULL)
  }

  lemma NumeralIsVisible(n: nat)
    ensures !IsSpace(Decimal(n)[0]) && COMMA !in Decimal(n)
  {
    hide Decimal;
    assert IsDigit(Decimal(n)[0]);
    assert forall i | 0 <= i < |Decimal(n)| :: IsDigit(Decimal(n)[i]);
  }

  lemma IntSpecIsSpec(first: nat, last: nat)
    ensures SpecOf(IntSpec(first, last)) == IntSpec(first, last) && COMMA !in IntSpec(first, last)
  {
    hide Decimal;
    NumeralIsVisible(first);
    NumeralIsVisible(last);
    BlankIs(IntSpec(first, last), 0);
  }

  lemma UnitIsFound(list: Text)
    ensures RangeList(Some(BYTES_UNIT + list)) == Some(list)
  {
    BlankIs(BYTES_UNIT + list, 0);
    assert (BYTES_UNIT + list)[0..] == BYTES_UNIT + list;
    assert (BYTES_UNIT + list)[6..] == list;
  }

  /** The header is a list that can be read, and these are its ranges. */
  predicate Lists(value: Option<Text>, size: nat, rs: seq<Range>) {
    && size < SIZE_WRAP
    && RangeList(value).Some?
    && ReadableList(RangeList(value).value)
    && ListedRanges(RangeList(value).value, size) == rs
  }

  /** The header can be read, and this is the answer. */
  predicate Answers(value: Option<Text>, size: nat, r: Range) {
    && size < SIZE_WRAP
    && (RangeList(value).Some? ==> ReadableList(RangeList(value).value))
    && RangeOf(value, size) == r
  }

  /** The value is whitespace, `bytes=` and the list. */
  predicate HasUnit(value: Text, blanks: Text, list: Text) {
    value == blanks + Ascii("bytes=") + list && forall i | 0 <= i < |blanks| :: IsSpace(blanks[i])
  }

  /** There is a list exactly behind that unit. */
  lemma UnitIff(value: Text)
    ensures forall list :: RangeList(Some(value)) == Some(list) <==> exists blanks :: HasUnit(value, blanks, list)
  {
    hide RangeList, HasUnit;
    forall blanks: Text, list: Text | HasUnit(value, blanks, list)
      ensures RangeList(Some(value)) == Some(list)
    {
      UnitGivesList(value, blanks, list);
    }
    forall list | RangeList(Some(value)) == Some(list)
      ensures exists blanks :: HasUnit(value, blanks, list)
    {
      ListHasUnit(value, list);
    }
  }

  lemma UnitIsBytes()
    ensures BYTES_UNIT == Ascii("bytes=")
  {
  }

  lemma UnitGivesList(value: Text, blanks: Text, list: Text)
    requires HasUnit(value, blanks, list)
    ensures RangeList(Some(value)) == Some(list)
  {
    hide BlankLength, BYTES_UNIT, Ascii;
    UnitIsBytes();
    var unit := BYTES_UNIT;
    assert value == blanks + (unit + list);
    assert |unit| == 6 && unit[0] == 98 by {
      FirstOfUnit();
    }
    BlankIs(value, |blanks|);
    assert value[|blanks|..] == unit + list;
    assert (unit + list)[6..] == list;
  }

  lemma FirstOfUnit()
    ensures |BYTES_UNIT| == 6 && BYTES_UNIT[0] == 98
  {
  }

  lemma ListHasUnit(value: Text, list: Text)
    requires RangeList(Some(value)) == Some(list)
    ensures HasUnit(value, value[..BlankLength(value)], list)
  {
    hide BlankLength, BYTES_UNIT, Ascii;
    UnitIsBytes();
    FirstOfUnit();
    var k := BlankLength(value);
    assert value[k..] == BYTES_UNIT + list;
    assert value == value[..k] + (BYTES_UNIT + list);
  }

  /** A missing header, or one with another unit, is answered with the full range. */
  lemma OtherUnitIsIgnored(value: Option<Text>, size: nat)
    requires size < SIZE_WRAP
    requires value.Some? ==> forall blanks, list :: !HasUnit(value.value, blanks, list)
    ensures Answers(value, size, FULL)
  {
    hide HasUnit, RangeList;
    if value.Some? {
      UnitIff(value.value);
    } else {
      NoHeader();
    }
  }

  lemma NoHeader()
    ensures RangeList(None) == None
  {
  }

  /** A header that lists positions is read as the ranges that it lists. */
  lemma IntHeaderIsRead(pairs: seq<(nat, nat)>, size: nat)
    requires pairs != [] && size <= LLONG_MAX
    requires forall i | 0 <= i < |pairs| :: pairs[i].1 < LLONG_MAX
    ensures Lists(Some(IntHeader(pairs)), size, IntRanges(pairs))
    ensures Answers(Some(IntHeader(pairs)), size, Combine(IntRanges(pairs)))
  {
    hide IntSpec, SingleRange, StrToLL, Readable, SplitCommas, Combine, JoinCommas, SpecOf, SpecsIn, RangeList;
    var specs := IntSpecs(pairs);
    var list := JoinCommas(specs);
    UnitIsFound(list);
    forall i | 0 <= i < |specs|
      ensures COMMA !in specs[i] && SpecOf(specs[i]) == specs[i] && WellFormedSpec(specs[i])
      ensures SingleRange(specs[i], size) == IntRanges(pairs)[i]
    {
      IntSpecIsSpec(pairs[i].0, pairs[i].1);
      IntRange(pairs[i].0, pairs[i].1, size);
    }
    SplitJoined(specs);
    ReadAsWritten(list, size);
    assert ListedRanges(list, size) == IntRanges(pairs);
  }

  lemma OneRange(r: Range)
    requires r.start < r.end
    ensures Combine([r]) == r
  {
    assert SortRanges([]) == [] && [r][1..] == [] && SortRanges([r]) == [r];
    assert Scan([r], 1, r) == r;
  }

  lemma IntHeaderIsCString(first: nat, last: nat)
    ensures NulFree(IntHeader([(first, last)]))
  {
    hide Decimal;
    assert IntSpecs([(first, last)]) == [IntSpec(first, last)];
    JoinOne(IntSpec(first, last));
  }

  /** `bytes=0-99` of a file of 10 bytes is answered with 100 bytes: the last position is not clamped. */
  lemma LastPositionIsNotClamped()
    ensures Answers(Some(IntHeader([(0, 99)])), 10, Range(0, 100))
  {
    hide Answers, Lists, IntHeader;
    IntHeaderIsRead([(0, 99)], 10);
    assert IntRanges([(0, 99)]) == [Range(0, 100)];
    OneRange(Range(0, 100));
  }

  const ABC: Text := [97, 98, 99]

  /** `bytes=abc` is answered like `bytes=0-`: as a part, although it is all of the file. */
  lemma MalformedIsAnswered(size: nat)
    requires 0 < size <= LLONG_MAX
    ensures Answers(Some(BYTES_UNIT + ABC), size, Range(0, size))
  {
    hide RangeList, StrToLL;
    UnitIsFound(ABC);
    BlankIs(ABC, 0);
    assert ABC[0..] == ABC;
    NoNumber(ABC);
    CommaIndexIs(ABC, 3);
    var rs := ListedRanges(ABC, size);
    assert SpecsIn(ABC) == [ABC] && rs == [Range(0, size)];
    OneRange(Range(0, size));
  }

  lemma NoNumber(s: Text)
    requires s != [] && !IsSpace(s[0]) && !IsDigit(s[0]) && s[0] != MINUS && s[0] != PLUS
    ensures StrToLL(s) == (0, 0)
  {
    BlankIs(s, 0);
    assert s[0..] == s;
  }

  /** `bytes=20-29,10-19,5-9` is answered with the bytes 10 to 29, although 5-9 is adjacent to them. */
  lemma DownwardMergeStopsShort(size: nat)
    requires size <= LLONG_MAX
    ensures Answers(Some(IntHeader([(20, 29), (10, 19), (5, 9)])), size, Range(10, 30))
  {
    hide Answers, Lists, IntHeader, Combine;
    var pairs := [(20, 29), (10, 19), (5, 9)];
    IntHeaderIsRead(pairs, size);
    assert IntRanges(pairs) == [Range(20, 30), Range(10, 20), Range(5, 10)];
    ThreeMerged();
  }

  /** `bytes=0-9,2-3` is sorted into ranges whose ends decrease. */
  lemma EndsCanDecrease(size: nat)
    requires size <= LLONG_MAX
    ensures Lists(Some(IntHeader([(0, 9), (2, 3)])), size, [Range(0, 10), Range(2, 4)])
    ensures SortRanges([Range(0, 10), Range(2, 4)]) == [Range(0, 10), Range(2, 4)]
    ensures !EndsIncrease([Range(0, 10), Range(2, 4)])
  {
    hide Answers, Lists, IntHeader;
    var pairs := [(0, 9), (2, 3)];
    IntHeaderIsRead(pairs, size);
    var a, b := Range(0, 10), Range(2, 4);
    assert IntRanges(pairs) == [a, b];
    assert [a, b][1..] == [b] && [b][1..] == [];
    assert SortRanges([b]) == InsertRange(SortRanges([]), b) == [b];
    assert SortRanges([a, b]) == InsertRange([b], a) == [a, b];
    assert [a, b][0].end > [a, b][1].end;
  }
}
