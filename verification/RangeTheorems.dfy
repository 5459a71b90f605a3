/** What the answer of the range engine means in terms of the ranges that were listed. */
module RangeTheorems {
  import opened RangeSyntax

  // ---------------------------------------------------------------- sorting

  ghost predicate InOrder(s: seq<Range>) {
    forall i, j | 0 <= i < j < |s| :: CompareRange(s[i], s[j]) <= 0
  }

  lemma {:induction false} InsertSorts(s: seq<Range>, r: Range)
    requires InOrder(s)
    ensures InOrder(InsertRange(s, r))
    ensures multiset(InsertRange(s, r)) == multiset(s) + multiset{r}
  {
    if s == [] || CompareRange(r, s[0]) <= 0 {
      assert InsertRange(s, r) == [r] + s;
    } else {
      InsertSorts(s[1..], r);
      var t := InsertRange(s[1..], r);
      assert s == [s[0]] + s[1..];
      assert multiset(t) == multiset(s[1..]) + multiset{r};
      forall i | 0 <= i < |t|
        ensures CompareRange(s[0], t[i]) <= 0
      {
        MemberAfterInsert(s[1..], t, r, i);
      }
    }
  }

  lemma MemberAfterInsert(s: seq<Range>, t: seq<Range>, r: Range, i: nat)
    requires multiset(t) == multiset(s) + multiset{r} && i < |t|
    ensures t[i] in s || t[i] == r
  {
    assert t[i] in multiset(t);
    assert t[i] in multiset(s) || t[i] == r;
  }

  lemma {:induction false} SortSorts(s: seq<Range>)
    ensures InOrder(SortRanges(s)) && multiset(SortRanges(s)) == multiset(s)
    ensures |SortRanges(s)| == |s|
  {
    hide InOrder, InsertRange;
    if s == [] {
      NothingInOrder();
    } else {
      SortSorts(s[1..]);
      InsertSorts(SortRanges(s[1..]), s[0]);
      assert s == [s[0]] + s[1..];
    }
    SameLength(SortRanges(s), s);
  }

  lemma NothingInOrder()
    ensures InOrder([])
  {
  }

  lemma SameLength(a: seq<Range>, b: seq<Range>)
    requires multiset(a) == multiset(b)
    ensures |a| == |b|
  {
    assert |multiset(a)| == |a| && |multiset(b)| == |b|;
  }

  /** There is only one way to put ranges in order. */
  lemma {:induction false} OrderIsUnique(a: seq<Range>, b: seq<Range>)
    requires InOrder(a) && InOrder(b) && multiset(a) == multiset(b)
    ensures a == b
  {
    hide InOrder;
    SameLength(a, b);
    if a == [] {
    } else {
      SameLeast(a, b);
      assert a == [a[0]] + a[1..] && b == [b[0]] + b[1..];
      assert multiset(a[1..]) == multiset(a) - multiset{a[0]};
      assert multiset(b[1..]) == multiset(b) - multiset{b[0]};
      TailInOrder(a);
      TailInOrder(b);
      OrderIsUnique(a[1..], b[1..]);
    }
  }

  lemma TailInOrder(s: seq<Range>)
    requires InOrder(s) && s != []
    ensures InOrder(s[1..])
  {
  }

  lemma SameLeast(a: seq<Range>, b: seq<Range>)
    requires InOrder(a) && InOrder(b) && multiset(a) == multiset(b) && a != [] && b != []
    ensures a[0] == b[0]
  {
    SameMembers(a, b);
    assert a[0] in a && b[0] in b;
    var i :| 0 <= i < |a| && a[i] == b[0];
    var j :| 0 <= j < |b| && b[j] == a[0];
  }

  lemma SameMembers(a: seq<Range>, b: seq<Range>)
    requires multiset(a) == multiset(b)
    ensures forall r :: r in a <==> r in b
  {
    forall r
      ensures r in a <==> r in b
    {
      assert r in multiset(a) <==> r in multiset(b);
    }
  }

  /** The answer does not depend on the order of the specifiers behind the first one. */
  lemma OnlyTheFirstPlaceMatters(a: seq<Range>, b: seq<Range>)
    requires a != [] && b != [] && a[0] == b[0] && multiset(a) == multiset(b)
    ensures Combine(a) == Combine(b)
  {
    SortSorts(a);
    SortSorts(b);
    OrderIsUnique(SortRanges(a), SortRanges(b));
  }

  // ---------------------------------------------------------------- overlap

  predicate Overlap(a: Range, b: Range) {
    a.start < b.end && b.start < a.end
  }

  /** Some two of the listed ranges share a byte. */
  ghost predicate SomeOverlap(s: seq<Range>) {
    exists i, j :: 0 <= i < j < |s| && Overlap(s[i], s[j])
  }

  ghost predicate SomeEmpty(s: seq<Range>) {
    exists i :: 0 <= i < |s| && s[i].Empty()
  }

  ghost predicate Proper(s: seq<Range>) {
    forall i | 0 <= i < |s| :: s[i].Empty() || s[i].start < s[i].end
  }

  /** Where the merging loop gives up. */
  ghost predicate StopsAt(s: seq<Range>, i: nat)
    requires i < |s|
  {
    s[i].Empty() || (i != 0 && s[i].start < s[i - 1].end)
  }

  /** Ranges that follow each other without sharing a byte. */
  ghost predicate Disjoint(s: seq<Range>) {
    && (forall i | 0 <= i < |s| :: s[i].start < s[i].end)
    && (forall i, j | 0 <= i < j < |s| :: s[i].end <= s[j].start)
  }

  lemma {:induction false} NoStopIsDisjoint(s: seq<Range>, n: nat)
    requires Proper(s) && n <= |s| && forall i: nat | i < n :: !StopsAt(s, i)
    ensures Disjoint(s[..n])
  {
    if n == 0 {
    } else {
      NoStopIsDisjoint(s, n - 1);
      assert !StopsAt(s, n - 1);
      assert forall i | 0 <= i < n - 1 :: s[..n][i] == s[..n - 1][i];
      if n > 1 {
        assert s[..n - 1][n - 2] == s[n - 2];
      }
    }
  }

  /** Among sorted proper ranges, neighbours that do not overlap mean that no two ranges overlap. */
  lemma NeighboursSuffice(s: seq<Range>)
    requires InOrder(s) && Proper(s)
    ensures (exists i: nat :: i < |s| && StopsAt(s, i)) <==> SomeEmpty(s) || SomeOverlap(s)
  {
    if i: nat :| i < |s| && StopsAt(s, i) {
      if !SomeEmpty(s) {
        assert CompareRange(s[i - 1], s[i]) <= 0;
        assert s[i].start < s[i].end;
        assert Overlap(s[i - 1], s[i]);
      }
    } else {
      NoStopIsDisjoint(s, |s|);
      assert s[..|s|] == s;
    }
  }

  lemma PairInMultiset(s: seq<Range>, i: nat, j: nat)
    requires i < j < |s|
    ensures multiset{s[i], s[j]} <= multiset(s)
  {
    assert s == s[..i] + [s[i]] + s[i + 1..j] + [s[j]] + s[j + 1..];
  }

  lemma PairFromMultiset(s: seq<Range>, x: Range, y: Range) returns (i: nat, j: nat)
    requires multiset{x, y} <= multiset(s)
    ensures i < |s| && j < |s| && i != j && s[i] == x && s[j] == y
  {
    assert x in multiset(s);
    i :| 0 <= i < |s| && s[i] == x;
    var a, b := s[..i], s[i + 1..];
    assert s == a + [x] + b;
    assert multiset(s) == multiset(a) + multiset{x} + multiset(b);
    assert y in multiset(a) + multiset(b);
    if y in a {
      j :| 0 <= j < |a| && a[j] == y;
    } else {
      var k :| 0 <= k < |b| && b[k] == y;
      j := i + 1 + k;
    }
  }

  lemma OverlapIgnoresOrder(a: seq<Range>, b: seq<Range>)
    requires multiset(a) == multiset(b) && SomeOverlap(a)
    ensures SomeOverlap(b)
  {
    var i, j :| 0 <= i < j < |a| && Overlap(a[i], a[j]);
    PairInMultiset(a, i, j);
    var k, l := PairFromMultiset(b, a[i], a[j]);
    assert Overlap(b[k], b[l]) && Overlap(b[l], b[k]);
  }

  lemma EmptyIgnoresOrder(a: seq<Range>, b: seq<Range>)
    requires multiset(a) == multiset(b) && SomeEmpty(a)
    ensures SomeEmpty(b)
  {
    var i :| 0 <= i < |a| && a[i].Empty();
    assert a[i] in multiset(b);
    var j :| 0 <= j < |b| && b[j] == a[i];
  }

  lemma ProperIgnoresOrder(a: seq<Range>, b: seq<Range>)
    requires multiset(a) == multiset(b) && Proper(a)
    ensures Proper(b)
  {
    forall i | 0 <= i < |b|
      ensures b[i].Empty() || b[i].start < b[i].end
    {
      assert b[i] in multiset(a);
    }
  }

  /** After sorting, some neighbours overlap exactly when some two of the listed ranges do, in whatever order. */
  lemma SortedOverlapTestIsComplete(rs: seq<Range>)
    requires Proper(rs)
    ensures (exists i: nat :: i < |SortRanges(rs)| && StopsAt(SortRanges(rs), i)) <==> SomeEmpty(rs) || SomeOverlap(rs)
  {
    var s := SortRanges(rs);
    SortSorts(rs);
    ProperIgnoresOrder(rs, s);
    NeighboursSuffice(s);
    if SomeOverlap(rs) {
      OverlapIgnoresOrder(rs, s);
    }
    if SomeOverlap(s) {
      OverlapIgnoresOrder(s, rs);
    }
    if SomeEmpty(rs) {
      EmptyIgnoresOrder(rs, s);
    }
    if SomeEmpty(s) {
      EmptyIgnoresOrder(s, rs);
    }
  }

  /** What the source says of sorted ranges: their ends increase as their starts do. */
  ghost predicate EndsIncrease(s: seq<Range>) {
    forall i, j | 0 <= i < j < |s| :: s[i].end <= s[j].end
  }

  /** One range lies inside another and starts behind it. */
  ghost predicate SomeNested(s: seq<Range>) {
    exists a, b :: a in s && b in s && a.start < b.start && b.end < a.end
  }

  lemma EndsIncreaseInOrder(s: seq<Range>)
    requires InOrder(s)
    ensures EndsIncrease(s) <==> !SomeNested(s)
  {
    forall i, j | 0 <= i < j < |s| && s[i].end > s[j].end
      ensures SomeNested(s)
    {
      assert CompareRange(s[i], s[j]) <= 0;
      assert s[i] in s && s[j] in s;
    }
    if a, b :| a in s && b in s && a.start < b.start && b.end < a.end {
      var i :| 0 <= i < |s| && s[i] == a;
      var j :| 0 <= j < |s| && s[j] == b;
      assert j < i ==> CompareRange(s[j], s[i]) <= 0;
    }
  }

  /** The ends of sorted ranges increase exactly if no listed range ends before one that starts before it. */
  lemma EndsIncreaseIff(rs: seq<Range>)
    ensures EndsIncrease(SortRanges(rs)) <==> !SomeNested(rs)
  {
    hide SortRanges, EndsIncrease, InOrder;
    SortSorts(rs);
    SameMembers(SortRanges(rs), rs);
    EndsIncreaseInOrder(SortRanges(rs));
  }

  // ---------------------------------------------------------------- merging

  lemma {:induction false} ScanStops(s: seq<Range>, i: nat, k: nat, result: Range)
    requires i <= k < |s| && StopsAt(s, k)
    ensures Scan(s, i, result) == FULL
    decreases |s| - i
  {
    if !StopsAt(s, i) {
      ScanStops(s, i + 1, k, MergeInto(result, s[i]));
    }
  }

  /** A chain of listed ranges, each starting where the one before it ends, from `a` to `b`. */
  ghost predicate IsChain(rs: seq<Range>, chain: seq<Range>, a: nat, b: nat)
    decreases |chain|
  {
    if chain == [] then a == b
    else chain[0] in rs && chain[0].start == a && IsChain(rs, chain[1..], chain[0].end, b)
  }

  /**
   The answer for a list without empty or overlapping ranges: it starts where the range ending at the start of the
   first-listed one starts, or with the first-listed one if there is none, and ends at the end of the whole chain of
   adjacent ranges behind the first-listed one.
   */
  ghost predicate IsMergeOf(rs: seq<Range>, first: Range, result: Range) {
    && (forall r | r in rs && r.end == first.start :: result.start == r.start)
    && ((forall r | r in rs :: r.end != first.start) ==> result.start == first.start)
    && (exists chain :: IsChain(rs, chain, first.end, result.end))
    && (forall r | r in rs :: r.start != result.end)
  }

  lemma {:induction false} ChainExtends(rs: seq<Range>, chain: seq<Range>, a: nat, b: nat, r: Range)
    requires IsChain(rs, chain, a, b) && r in rs && r.start == b
    ensures IsChain(rs, chain + [r], a, r.end)
    decreases |chain|
  {
    if chain != [] {
      ChainExtends(rs, chain[1..], chain[0].end, b, r);
      assert (chain + [r])[1..] == chain[1..] + [r];
    } else {
      assert (chain + [r])[1..] == [];
    }
  }

  /** Below the first-listed range `s[m]` only its lower neighbour can be merged, and that changes the start alone. */
  lemma {:induction false} ScanBelow(s: seq<Range>, i: nat, m: nat)
    requires Disjoint(s) && i <= m < |s|
    ensures Scan(s, i, s[m]) ==
            if i < m && s[m - 1].end == s[m].start then Scan(s, m, Range(s[m - 1].start, s[m].end))
            else Scan(s, m, s[m])
    decreases m - i
  {
    if i < m {
      assert !s[i].Empty() && (i == 0 || s[i - 1].end <= s[i].start);
      assert s[i].start < s[i].end <= s[m].start < s[m].end;
      if i == m - 1 {
      } else {
        assert s[i].end <= s[m - 1].start < s[m - 1].end <= s[m].start;
        ScanBelow(s, i + 1, m);
      }
    }
  }

  /** From the first-listed range on, the end follows the chain and the start stays. */
  lemma {:induction false} ScanAbove(s: seq<Range>, i: nat, result: Range, from: nat, chain: seq<Range>)
    requires Disjoint(s) && i <= |s|
    requires result.start < result.end && (i < |s| ==> result.end <= s[i].end && result.start < s[i].end)
    requires forall k | 0 <= k < i :: s[k].start < result.end
    requires IsChain(s, chain, from, result.end)
    ensures Scan(s, i, result).start == result.start
    ensures result.end <= Scan(s, i, result).end
    ensures exists c :: IsChain(s, c, from, Scan(s, i, result).end)
    ensures forall r | r in s :: r.start != Scan(s, i, result).end
    decreases |s| - i
  {
    if i < |s| {
      assert !s[i].Empty() && (i == 0 || s[i - 1].end <= s[i].start);
      var next := MergeInto(result, s[i]);
      assert i + 1 < |s| ==> s[i].end <= s[i + 1].start < s[i + 1].end;
      if s[i].start == result.end {
        ChainExtends(s, chain, from, result.end, s[i]);
        ScanAbove(s, i + 1, next, from, chain + [s[i]]);
      } else if s[i].start < result.end {
        ScanAbove(s, i + 1, next, from, chain);
      } else {
        BeyondChain(s, i, result);
      }
    }
  }

  /** Once a range starts beyond the end, nothing is merged any more. */
  lemma {:induction false} BeyondChain(s: seq<Range>, i: nat, result: Range)
    requires Disjoint(s) && i <= |s| && result.start < result.end
    requires forall k | i <= k < |s| :: result.end < s[k].start
    ensures Scan(s, i, result) == result
    decreases |s| - i
  {
    if i == |s| {
    } else {
      assert !s[i].Empty() && (i == 0 || s[i - 1].end <= s[i].start);
      BeyondChain(s, i + 1, result);
    }
  }

  /** The full-range sentinel is the answer exactly when some specifier is empty or some two of them overlap. */
  lemma FullExactlyWhenRejected(rs: seq<Range>)
    requires rs != [] && Proper(rs)
    ensures Combine(rs) == FULL <==> SomeEmpty(rs) || SomeOverlap(rs)
    ensures Combine(rs) == FULL || Combine(rs).start < Combine(rs).end
  {
    SortedOverlapTestIsComplete(rs);
    var s := SortRanges(rs);
    if SomeEmpty(rs) || SomeOverlap(rs) {
      var i: nat :| i < |s| && StopsAt(s, i);
      ScanStops(s, 0, i, rs[0]);
      assert Combine(rs) == FULL;
    } else {
      MergedExactly(rs);
      assert Combine(rs).start < Combine(rs).end;
    }
  }

  lemma SortedIsDisjoint(rs: seq<Range>)
    requires Proper(rs) && !SomeEmpty(rs) && !SomeOverlap(rs)
    ensures Disjoint(SortRanges(rs)) && forall r :: r in SortRanges(rs) <==> r in rs
  {
    var s := SortRanges(rs);
    SortSorts(rs);
    SortedOverlapTestIsComplete(rs);
    ProperIgnoresOrder(rs, s);
    NoStopIsDisjoint(s, |s|);
    assert s[..|s|] == s;
    SameMembers(s, rs);
  }

  /** The exact answer for a list without empty or overlapping ranges. */
  lemma MergedExactly(rs: seq<Range>)
    requires rs != [] && Proper(rs) && !SomeEmpty(rs) && !SomeOverlap(rs)
    ensures IsMergeOf(rs, rs[0], Combine(rs))
    ensures Combine(rs).start <= rs[0].start < rs[0].end <= Combine(rs).end
  {
    var s := SortRanges(rs);
    var first := rs[0];
    SortedIsDisjoint(rs);
    assert first in s;
    var m :| 0 <= m < |s| && s[m] == first;
    ScanBelow(s, 0, m);
    var below := 0 < m && s[m - 1].end == first.start;
    var result := if below then Range(s[m - 1].start, first.end) else first;
    assert result.start <= first.start by {
      assert below ==> s[m - 1].start < s[m - 1].end;
    }
    ScanAbove(s, m, result, first.end, []);
    var chain :| IsChain(s, chain, first.end, Combine(rs).end);
    ChainElsewhere(s, rs, chain, first.end, Combine(rs).end);
    forall r | r in rs && r.end == first.start
      ensures below && r == s[m - 1]
    {
      NeighbourBelow(s, m, r);
    }
    assert below ==> s[m - 1] in rs;
  }

  lemma NeighbourBelow(s: seq<Range>, m: nat, r: Range)
    requires Disjoint(s) && m < |s| && r in s && r.end == s[m].start
    ensures 0 < m && r == s[m - 1]
  {
    var k :| 0 <= k < |s| && s[k] == r;
    assert s[k].start < s[k].end && s[m].start < s[m].end;
  }

  lemma {:induction false} ChainElsewhere(s: seq<Range>, rs: seq<Range>, chain: seq<Range>, a: nat, b: nat)
    requires IsChain(s, chain, a, b) && forall r | r in s :: r in rs
    ensures IsChain(rs, chain, a, b)
    decreases |chain|
  {
    if chain == [] {
    } else {
      ChainElsewhere(s, rs, chain[1..], chain[0].end, b);
    }
  }

  /** Listed ranges that do not overlap start in different places. */
  lemma StartsDiffer(rs: seq<Range>, a: Range, b: Range)
    requires Proper(rs) && !SomeEmpty(rs) && !SomeOverlap(rs)
    requires a in rs && b in rs && (a.start == b.start || a.end == b.end)
    ensures a == b
  {
    var i :| 0 <= i < |rs| && rs[i] == a;
    var j :| 0 <= j < |rs| && rs[j] == b;
    assert forall x, y | 0 <= x < y < |rs| :: !Overlap(rs[x], rs[y]);
  }

  lemma {:induction false} ChainIsUnique(rs: seq<Range>, c: seq<Range>, d: seq<Range>, a: nat, x: nat, y: nat)
    requires Proper(rs) && !SomeEmpty(rs) && !SomeOverlap(rs)
    requires IsChain(rs, c, a, x) && (forall r | r in rs :: r.start != x)
    requires IsChain(rs, d, a, y) && (forall r | r in rs :: r.start != y)
    ensures x == y
    decreases |c|
  {
    if c == [] || d == [] {
    } else {
      StartsDiffer(rs, c[0], d[0]);
      ChainIsUnique(rs, c[1..], d[1..], c[0].end, x, y);
    }
  }

  /** The description of the answer leaves no choice: only one range meets it. */
  lemma MergeIsUnique(rs: seq<Range>, first: Range, a: Range, b: Range)
    requires Proper(rs) && !SomeEmpty(rs) && !SomeOverlap(rs)
    requires IsMergeOf(rs, first, a) && IsMergeOf(rs, first, b)
    ensures a == b
  {
    var c :| IsChain(rs, c, first.end, a.end);
    var d :| IsChain(rs, d, first.end, b.end);
    ChainIsUnique(rs, c, d, first.end, a.end, b.end);
    if r :| r in rs && r.end == first.start {
      assert a.start == r.start == b.start;
    }
  }

  lemma {:induction false} ChainCovers(rs: seq<Range>, chain: seq<Range>, a: nat, b: nat, k: nat)
    requires IsChain(rs, chain, a, b) && a <= k < b
    ensures exists r :: r in rs && r.start <= k < r.end
    decreases |chain|
  {
    if k >= chain[0].end {
      ChainCovers(rs, chain[1..], chain[0].end, b, k);
    }
  }

  /** Every byte of a partial answer was asked for. */
  lemma AnswerWasAskedFor(rs: seq<Range>, k: nat)
    requires rs != [] && Proper(rs) && Combine(rs).start <= k < Combine(rs).end
    ensures exists r :: r in rs && r.start <= k < r.end
  {
    FullExactlyWhenRejected(rs);
    MergedExactly(rs);
    var result := Combine(rs);
    if k < rs[0].start {
      var r :| r in rs && r.end == rs[0].start;
    } else if k < rs[0].end {
      assert rs[0] in rs;
    } else {
      var chain :| IsChain(rs, chain, rs[0].end, result.end);
      ChainCovers(rs, chain, rs[0].end, result.end, k);
    }
  }

  /** A range that ends where `below` starts, which in turn ends where the first-listed one starts. */
  ghost predicate TwoStepsBelow(rs: seq<Range>, first: Range) {
    exists q, r :: q in rs && r in rs && q.end == first.start && r.end == q.start
  }

  /**
   Adjacent ranges are promised to be merged silently. Upwards they all are, but downwards only one is: nothing listed
   ends where the answer starts exactly when no two listed ranges lead down from the first one.
   */
  lemma MergedCompletelyBelowIff(rs: seq<Range>)
    requires rs != [] && Proper(rs) && !SomeEmpty(rs) && !SomeOverlap(rs)
    ensures (forall r | r in rs :: r.end != Combine(rs).start) <==> !TwoStepsBelow(rs, rs[0])
  {
    MergedExactly(rs);
    var result := Combine(rs);
    if q, r :| q in rs && r in rs && q.end == rs[0].start && r.end == q.start {
      assert result.start == q.start;
    }
    if r :| r in rs && r.end == result.start {
      if q :| q in rs && q.end == rs[0].start {
        assert result.start == q.start;
      }
    }
  }

  lemma ThreeMerged()
    ensures Combine([Range(20, 30), Range(10, 20), Range(5, 10)]) == Range(10, 30)
  {
    var a, b, c := Range(20, 30), Range(10, 20), Range(5, 10);
    assert SortRanges([c]) == [c];
    assert SortRanges([b, c]) == InsertRange([c], b) == [c, b];
    var s := SortRanges([a, b, c]);
    assert [a, b, c][1..] == [b, c];
    assert [c, b][1..] == [b];
    assert InsertRange([b], a) == [b] + InsertRange([], a) == [b, a];
    assert s == InsertRange([c, b], a) == [c] + InsertRange([b], a) == [c, b, a];
    assert Scan(s, 3, Range(10, 30)) == Range(10, 30);
    assert Scan(s, 2, Range(10, 30)) == Range(10, 30);
    assert Scan(s, 1, a) == Range(10, 30);
  }
}
