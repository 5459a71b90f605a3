/** What `parse_range` computes: one range of bytes for the value of a Range header. */
module RangeSyntax {
  import opened CStrings
  import opened RequestSyntax

  /** `struct range`: `start` inclusive, `end` exclusive; both 0 stands for the whole file. */
  datatype Range = Range(start: nat, end: nat) {
    predicate Empty() {
      start == 0 && end == 0
    }
  }

  const FULL := Range(0, 0)
  const COMMA: Byte := 44
  const PLUS: Byte := 43
  const MINUS: Byte := 45
  const BYTES_UNIT: Text := [98, 121, 116, 101, 115, 61]   // "bytes="
  const LLONG_MAX: int := 0x7FFF_FFFF_FFFF_FFFF

  // ---------------------------------------------------------------- strtoll

  function DigitsLength(s: Text): (n: nat)
    ensures n <= |s|
    ensures forall i | 0 <= i < n :: IsDigit(s[i])
    ensures n < |s| ==> !IsDigit(s[n])
  {
    if s == [] || !IsDigit(s[0]) then 0 else 1 + DigitsLength(s[1..])
  }

  function Saturated(v: int): int {
    if v > LLONG_MAX then LLONG_MAX else if v < -LLONG_MAX - 1 then -LLONG_MAX - 1 else v
  }

  /** The digits at the front of `s`: their value, and how many they are. */
  function Numeral(s: Text): (r: (nat, nat))
    ensures r.1 <= |s|
  {
    var n := DigitsLength(s);
    (DigitsValue(s[..n]), n)
  }

  /** `strtoll(s, &end, 10)`: the value, saturated, and how many bytes were consumed, 0 if there is no number. */
  function StrToLL(s: Text): (r: (int, nat))
    ensures r.1 <= |s| && -LLONG_MAX - 1 <= r.0 <= LLONG_MAX
  {
    var blanks := BlankLength(s);
    var t := s[blanks..];
    var sign := if t != [] && (t[0] == MINUS || t[0] == PLUS) then 1 else 0;
    var (v, n) := Numeral(t[sign..]);
    if n == 0 then (0, 0)
    else (Saturated(if sign == 1 && t[0] == MINUS then -(v as int) else v), blanks + sign + n)
  }

  // ---------------------------------------------------------------- one range

  /**
   What `parse_single_range` needs of a specifier, with what follows it in the header: behind the number, if there is
   one, there is a byte before the NUL, since the one after it is looked at; and 1 can be added to the last position.
   */
  predicate Readable(s: Text) {
    var mid := StrToLL(s).1;
    || (s != [] && s[0] == MINUS)
    || (mid < |s| && (mid + 1 < |s| && IsDigit(s[mid + 1]) ==> StrToLL(s[mid + 1..]).0 < LLONG_MAX))
  }

  /** What the source asserts in addition: the specifier is a suffix, or a number and then a minus. */
  predicate WellFormedSpec(s: Text) {
    Readable(s) && (s[0] == MINUS || s[StrToLL(s).1] == MINUS)
  }

  /** The two numbers of a specifier in `size_t`, before they are compared. */
  function Bounds(s: Text, size: nat): Range
    requires Readable(s) && size < SIZE_WRAP
  {
    if s[0] == MINUS then
      Range((size - StrToLL(s[1..]).0) % SIZE_WRAP, size)
    else
      var (first, mid) := StrToLL(s);
      Range(
        first % SIZE_WRAP,
        if mid + 1 < |s| && IsDigit(s[mid + 1]) then (StrToLL(s[mid + 1..]).0 + 1) % SIZE_WRAP else size)
  }

  /** `parse_single_range` */
  function SingleRange(s: Text, size: nat): (r: Range)
    requires Readable(s) && size < SIZE_WRAP
    ensures r.Empty() || r.start < r.end
  {
    var b := Bounds(s, size);
    if b.start >= b.end then FULL else b
  }

  // ---------------------------------------------------------------- the list

  function CommaIndex(s: Text): (n: nat)
    ensures n <= |s|
    ensures COMMA !in s[..n]
    ensures n < |s| ==> s[n] == COMMA
  {
    if s == [] || s[0] == COMMA then 0
    else
      var n := 1 + CommaIndex(s[1..]);
      assert s[..n] == [s[0]] + s[1..][..n - 1];
      n
  }

  /** The specifiers between the commas. */
  function SplitCommas(s: Text): (r: seq<Text>)
    ensures r != []
    decreases |s|
  {
    var n := CommaIndex(s);
    if n == |s| then [s] else [s[..n]] + SplitCommas(s[n + 1..])
  }

  /** A specifier without the whitespace in front of it. */
  function SpecOf(piece: Text): Text {
    piece[BlankLength(piece)..]
  }

  /** The specifiers as `parse_single_range` is handed them, each with everything that follows it in the header. */
  function SpecsIn(s: Text): (r: seq<Text>)
    ensures |r| == |SplitCommas(s)|
    decreases |s|
  {
    var n := CommaIndex(s);
    [SpecOf(s)] + if n == |s| then [] else SpecsIn(s[n + 1..])
  }

  predicate ReadableList(s: Text) {
    forall i | 0 <= i < |SpecsIn(s)| :: Readable(SpecsIn(s)[i])
  }

  /** Every specifier between the commas is as the source asserts. */
  predicate WellFormedList(s: Text) {
    forall i | 0 <= i < |SplitCommas(s)| :: WellFormedSpec(SpecOf(SplitCommas(s)[i]))
  }

  /** The ranges of a list, in the order in which they are listed. */
  function ListedRanges(s: Text, size: nat): (rs: seq<Range>)
    requires ReadableList(s) && size < SIZE_WRAP
    ensures |rs| == |SplitCommas(s)|
    ensures forall i | 0 <= i < |rs| :: rs[i].Empty() || rs[i].start < rs[i].end
  {
    seq(|SpecsIn(s)|, i requires 0 <= i < |SpecsIn(s)| => SingleRange(SpecsIn(s)[i], size))
  }

  /** The list behind the unit, if the value has one. */
  function RangeList(value: Option<Text>): Option<Text> {
    if value.None? then None
    else
      var s := SpecOf(value.value);
      if BYTES_UNIT <= s then Some(s[6..]) else None
  }

  // ---------------------------------------------------------------- sorting and merging

  /** `compare_range` */
  function CompareRange(a: Range, b: Range): int {
    if a.start != b.start then if a.start < b.start then -1 else 1
    else if a.end != b.end then if a.end < b.end then -1 else 1
    else 0
  }

  function InsertRange(s: seq<Range>, r: Range): seq<Range> {
    if s == [] || CompareRange(r, s[0]) <= 0 then [r] + s else [s[0]] + InsertRange(s[1..], r)
  }

  /** What `qsort` makes of an array. */
  function SortRanges(s: seq<Range>): seq<Range> {
    if s == [] then [] else InsertRange(SortRanges(s[1..]), s[0])
  }

  function MergeInto(result: Range, r: Range): Range {
    if r.end == result.start then result.(start := r.start)
    else if r.start == result.end then result.(end := r.end)
    else result
  }

  /** The merging loop, from index `i` on. */
  function Scan(s: seq<Range>, i: nat, result: Range): Range
    requires i <= |s|
    decreases |s| - i
  {
    if i == |s| then result
    else if s[i].Empty() then FULL
    else if i != 0 && s[i].start < s[i - 1].end then FULL
    else Scan(s, i + 1, MergeInto(result, s[i]))
  }

  /** The answer for the listed ranges. */
  function Combine(rs: seq<Range>): Range
    requires rs != []
  {
    Scan(SortRanges(rs), 0, rs[0])
  }

  function RangeOf(value: Option<Text>, size: nat): Range
    requires RangeList(value).Some? ==> ReadableList(RangeList(value).value)
    requires size < SIZE_WRAP
  {
    if RangeList(value).None? then FULL else Combine(ListedRanges(RangeList(value).value, size))
  }
}
