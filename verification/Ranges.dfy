/** `parse_range` as it scans, fills, sorts and merges. */
module Ranges {
  import opened CStrings
  import opened RequestSyntax
  import opened Requests
  import opened RangeSyntax
  import opened RangeArithmetic
  import opened RangeTheorems

  lemma {:induction false} CommaBehindBlank(s: Text, k: nat)
    requires k <= BlankLength(s)
    ensures k + CommaIndex(s[k..]) == CommaIndex(s)
  {
    if k > 0 {
      BlankIs(s[1..], BlankLength(s) - 1);
      CommaBehindBlank(s[1..], k - 1);
      assert s[1..][k - 1..] == s[k..];
    } else {
      assert s[0..] == s;
    }
  }

  // ---------------------------------------------------------------- the loops

  /** `while (isspace(*representation)) representation++;` */
  method SkipBlanks(s: Text, from: nat) returns (at: nat)
    requires from <= |s|
    ensures at == from + BlankLength(s[from..])
  {
    at := from;
    while IsSpace(ByteAt(s, at))
      invariant from <= at <= |s|
      invariant at + BlankLength(s[at..]) == from + BlankLength(s[from..])
      decreases |s| - at
    {
      Suffixes(s, at, at + 1);
      at := at + 1;
    }
  }

  /** The number of specifiers: one more than the commas. */
  method CountSpecs(s: CString, from: nat) returns (n: nat)
    requires from <= |s|
    ensures n == |SplitCommas(s[from..])|
  {
    hide SplitCommas;
    n := 1;
    var target := from;
    while ByteAt(s, target) != NUL
      invariant from <= target <= |s|
      invariant n + |SplitCommas(s[target..])| == 1 + |SplitCommas(s[from..])|
      decreases |s| - target
    {
      CommaStep(s, target);
      if s[target] == COMMA {
        n := n + 1;
      }
      target := target + 1;
    }
    NothingToSplit(s[target..]);
  }

  lemma NothingToSplit(s: Text)
    ensures s == [] ==> |SplitCommas(s)| == 1
  {
  }

  lemma CommaStep(s: Text, i: nat)
    requires i < |s|
    ensures |SplitCommas(s[i..])| == |SplitCommas(s[i + 1..])| + if s[i] == COMMA then 1 else 0
  {
    var t := s[i..];
    Suffixes(s, i, i + 1);
    if s[i] != COMMA {
      var n := CommaIndex(t[1..]);
      assert CommaIndex(t) == n + 1;
      if n < |t[1..]| {
        assert t[n + 2..] == t[1..][n + 1..];
      }
    }
  }

  /** The `do` loop: past the next comma, or past the NUL and no further. */
  method SkipSpec(s: CString, from: nat) returns (at: nat)
    requires from <= |s|
    ensures at == from + CommaIndex(s[from..]) + 1 <= |s| + 1
  {
    at := from + 1;
    while ByteAt(s, at - 1) != COMMA && ByteAt(s, at - 1) != NUL
      invariant from < at <= |s| + 1
      invariant at - 1 + CommaIndex(s[at - 1..]) == from + CommaIndex(s[from..])
      decreases |s| + 1 - at
    {
      Suffixes(s, at - 1, at);
      at := at + 1;
    }
    assert at - 1 < |s| ==> s[at - 1] in s;
  }

  lemma SpecsStep(s: Text, at: nat)
    requires at <= |s|
    ensures var n := CommaIndex(s[at..]);
            && SpecsIn(s[at..])[0] == SpecOf(s[at..])
            && (at + n == |s| ==> |SpecsIn(s[at..])| == 1)
            && (at + n < |s| ==> SpecsIn(s[at..])[1..] == SpecsIn(s[at + n + 1..]))
  {
    hide SpecsIn, SpecOf, CommaIndex;
    var n := CommaIndex(s[at..]);
    SpecsOpened(s[at..]);
    if at + n < |s| {
      Suffixes(s, at, at + n + 1);
    }
  }

  /** The filling loop: each specifier is visited once, in order. */
  method FillRanges(s: CString, from: nat, size: nat) returns (ranges: array<Range>)
    requires from <= |s| && size < SIZE_WRAP && ReadableList(s[from..])
    ensures fresh(ranges) && ranges[..] == ListedRanges(s[from..], size)
  {
    hide SplitCommas, SpecsIn, Readable, SingleRange, CommaIndex, SpecOf;
    var n := CountSpecs(s, from);
    ranges := new Range[n];
    ghost var specs := SpecsIn(s[from..]);
    var at := from;
    for i := 0 to n
      invariant from <= at <= |s| + 1
      invariant i < n ==> at <= |s| && SpecsIn(s[at..]) == specs[i..]
      invariant forall k | 0 <= k < i :: ranges[k] == SingleRange(specs[k], size)
    {
      SpecsStep(s, at);
      CommaBehindBlank(s[at..], BlankLength(s[at..]));
      var spec := SkipBlanks(s, at);
      SpecAt(s, at, spec);
      assert s[spec..] == specs[i];
      ranges[i] := SingleRange(s[spec..], size);
      at := SkipSpec(s, spec);
      assert specs[i..][1..] == specs[i + 1..];
    }
  }

  lemma SpecAt(s: Text, at: nat, spec: nat)
    requires at <= spec <= |s| && spec == at + BlankLength(s[at..])
    ensures s[spec..] == SpecOf(s[at..]) == s[at..][spec - at..]
  {
  }

  /** `qsort` with `compare_range`: all that the source relies on is an ordered rearrangement. */
  method QSort(a: array<Range>)
    modifies a
    ensures InOrder(a[..]) && multiset(a[..]) == multiset(old(a[..]))
  {
    var sorted := SortRanges(a[..]);
    SortSorts(a[..]);
    forall i | 0 <= i < a.Length {
      a[i] := sorted[i];
    }
    assert a[..] == sorted;
  }

  /** The merging loop over the sorted array. */
  method MergeRanges(ranges: array<Range>, first: Range) returns (result: Range)
    ensures result == Scan(ranges[..], 0, first)
  {
    result := first;
    var i := 0;
    while i < ranges.Length
      invariant i <= ranges.Length
      invariant Scan(ranges[..], i, result) == Scan(ranges[..], 0, first)
    {
      if ranges[i].start == 0 && ranges[i].end == 0 {
        return Range(0, 0);
      }
      if i != 0 && ranges[i].start < ranges[i - 1].end {
        return Range(0, 0);
      }
      if ranges[i].end == result.start {
        result := result.(start := ranges[i].start);
      } else if ranges[i].start == result.end {
        result := result.(end := ranges[i].end);
      }
      i := i + 1;
    }
  }

  /** `parse_range`; a missing header is a null pointer. */
  method ParseRange(representation: Option<CString>, size: nat) returns (range: Range)
    requires size <= LLONG_MAX
    requires RangeList(representation).Some? ==> ReadableList(RangeList(representation).value)
    ensures range == RangeOf(representation, size)
  {
    hide ReadableList, ListedRanges, SortRanges, Scan, InOrder;
    range := Range(0, 0);
    if representation.None? {
      return;
    }
    var s := representation.value;
    var at := SkipBlanks(s, 0);
    assert s[0..] == s;
    if !(BYTES_UNIT <= s[at..]) {
      return;
    }
    Suffixes(s, at, at + 6);
    var ranges := FillRanges(s, at + 6, size);
    var first := ranges[0];
    ghost var listed := ranges[..];
    QSort(ranges);
    SortSorts(listed);
    OrderIsUnique(ranges[..], SortRanges(listed));
    range := MergeRanges(ranges, first);
  }
}
