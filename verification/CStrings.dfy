/** Bytes, C strings and the character classes and library routines that the server relies on. */
module CStrings {
  type Byte = x: int | 0 <= x < 256
  type Text = seq<Byte>

  const NUL: Byte := 0
  const LF: Byte := 10
  const CR: Byte := 13
  const SPACE: Byte := 32
  const COLON: Byte := 58
  const CRLF: Text := [13, 10]

  datatype Option<+T> = None | Some(value: T) {
    function GetOr(default: T): T {
      match this
      case Some(v) => v
      case None => default
    }
  }

  /** `isspace` in the C locale. */
  predicate IsSpace(c: Byte) {
    9 <= c <= 13 || c == 32
  }

  /** `isdigit`. */
  predicate IsDigit(c: Byte) {
    48 <= c <= 57
  }

  predicate BlankFree(s: Text) {
    forall i | 0 <= i < |s| :: !IsSpace(s[i])
  }

  predicate NulFree(s: Text) {
    NUL !in s
  }

  /** What a `char *` can denote: its bytes up to the terminator. */
  type CString = s: Text | NulFree(s)

  /** The C string that starts at the first byte of `s`, in memory where a NUL follows `s`. */
  function CStr(s: Text): (r: CString)
    ensures r <= s
    ensures |r| < |s| ==> s[|r|] == NUL
  {
    if s == [] || s[0] == NUL then [] else [s[0]] + CStr(s[1..])
  }

  lemma {:induction false} CStrOfNulFree(s: Text)
    requires NulFree(s)
    ensures CStr(s) == s
  {
    if s == [] {
    } else {
      assert s[0] in s;
      CStrOfNulFree(s[1..]);
    }
  }

  lemma {:induction false} CStrIsNulFree(s: Text)
    ensures NulFree(CStr(s))
  {
    if s == [] || s[0] == NUL {
    } else {
      CStrIsNulFree(s[1..]);
    }
  }

  /** The length of a text is that of its C string exactly if it holds no NUL. */
  lemma CStrIsWholeIff(s: Text)
    ensures |CStr(s)| == |s| <==> NulFree(s)
  {
    CStrIsNulFree(s);
    if NulFree(s) {
      CStrOfNulFree(s);
    }
    assert |CStr(s)| == |s| ==> CStr(s) == s;
  }

  lemma {:induction false} CStrOfTerminated(s: CString, rest: Text)
    ensures CStr(s + [NUL] + rest) == s
  {
    if s == [] {
    } else {
      assert s[0] in s;
      assert (s + [NUL] + rest)[1..] == s[1..] + [NUL] + rest;
      CStrOfTerminated(s[1..], rest);
    }
  }

  // ---------------------------------------------------------------- literals

  /** The bytes of a string literal. */
  function Ascii(s: string): (r: Text)
    ensures |r| == |s|
    ensures forall i | 0 <= i < |s| :: r[i] == s[i] as int % 256
  {
    seq(|s|, i requires 0 <= i < |s| => s[i] as int % 256)
  }

  lemma AsciiAppend(s: string, t: string)
    ensures Ascii(s + t) == Ascii(s) + Ascii(t)
  {
  }

  // ---------------------------------------------------------------- buffers

  const SIZE_WRAP: nat := 0x1_0000_0000_0000_0000   // one more than the largest size_t

  /** Memory in which a buffer of this length lies in front, and some NUL behind it. */
  predicate Terminated(memory: Text, length: nat) {
    length <= |memory| && NUL in memory[length..]
  }

  /** The byte at index `i`, where a NUL is readable behind the last byte and nothing beyond that. */
  function ByteAt(b: Text, i: nat): Byte
    requires i <= |b|
  {
    if i < |b| then b[i] else NUL
  }

  /** A buffer with `s` written over it from index `at` on. */
  function Put(before: Text, at: nat, s: Text): (after: Text)
    requires at + |s| <= |before|
    ensures |after| == |before|
  {
    before[..at] + s + before[at + |s|..]
  }

  /** The written bytes are there and all others are as before. */
  lemma PutMeans(before: Text, at: nat, s: Text, i: nat)
    requires at + |s| <= |before| && i < |before|
    ensures Put(before, at, s)[i] == if at <= i < at + |s| then s[i - at] else before[i]
  {
  }

  lemma PutPut(before: Text, at: nat, s: Text, t: Text)
    requires at + |s| + |t| <= |before|
    ensures Put(Put(before, at, s), at + |s|, t) == Put(before, at, s + t)
  {
  }

  // ---------------------------------------------------------------- strcmp

  /** `strcmp` on unsigned bytes: the end of a string compares as NUL, below every other byte. */
  function Strcmp(a: Text, b: Text): int {
    if a == [] then if b == [] then 0 else -1
    else if b == [] then 1
    else if a[0] != b[0] then a[0] - b[0]
    else Strcmp(a[1..], b[1..])
  }

  /** `strncmp`, where a NUL follows either text: it stops at the first difference, a common NUL, or after `n` bytes. */
  function Strncmp(a: Text, b: Text, n: nat): int
    decreases n
  {
    var x, y := if a == [] then NUL else a[0], if b == [] then NUL else b[0];
    if n == 0 then 0
    else if x != y then x - y
    else if x == NUL then 0
    else Strncmp(a[1..], b[1..], n - 1)
  }

  /** The byte of a C string at an index, and NUL behind its end. */
  function At(s: Text, i: nat): Byte {
    if i < |s| then s[i] else NUL
  }

  /** The texts agree up to `k`, which is the limit, or where both end. */
  predicate AgreeUpTo(a: Text, b: Text, n: nat, k: nat) {
    && k <= n
    && (forall i: nat | i < k :: At(a, i) == At(b, i))
    && (k == n || At(a, k) == At(b, k) == NUL)
  }

  /** `strncmp` is 0 exactly if the texts agree up to `n` bytes, or up to a NUL that both have before that. */
  lemma {:induction false} StrncmpZeroIff(a: Text, b: Text, n: nat)
    ensures Strncmp(a, b, n) == 0 <==> exists k: nat :: AgreeUpTo(a, b, n, k)
    decreases n
  {
    if n == 0 || At(a, 0) == At(b, 0) == NUL {
      assert AgreeUpTo(a, b, n, 0);
    } else if At(a, 0) != At(b, 0) {
      assert forall k: nat | AgreeUpTo(a, b, n, k) :: k > 0;
    } else {
      var c, d, m := a[1..], b[1..], n - 1;
      StrncmpZeroIff(c, d, m);
      if k: nat :| AgreeUpTo(a, b, n, k) {
        OneByteLess(a, b, n, k - 1);
      }
      if k: nat :| AgreeUpTo(c, d, m, k) {
        OneByteLess(a, b, n, k);
      }
    }
  }

  lemma OneByteLess(a: Text, b: Text, n: nat, k: nat)
    requires n > 0 && a != [] && b != [] && a[0] == b[0]
    ensures AgreeUpTo(a, b, n, k + 1) <==> AgreeUpTo(a[1..], b[1..], n - 1, k)
  {
    var c, d := a[1..], b[1..];
    assert forall i: nat :: At(a, i + 1) == At(c, i) && At(b, i + 1) == At(d, i);
    assert forall i: nat | 0 < i :: At(a, i) == At(c, i - 1) && At(b, i) == At(d, i - 1);
  }

  lemma {:induction false} StrcmpZero(a: Text, b: Text)
    ensures Strcmp(a, b) == 0 <==> a == b
  {
    if a == [] || b == [] {
    } else if a[0] == b[0] {
      StrcmpZero(a[1..], b[1..]);
      assert a == [a[0]] + a[1..] && b == [b[0]] + b[1..];
    }
  }

  lemma {:induction false} StrcmpFlip(a: Text, b: Text)
    ensures Strcmp(a, b) < 0 <==> Strcmp(b, a) > 0
    ensures Strcmp(a, b) == 0 <==> Strcmp(b, a) == 0
  {
    if a == [] || b == [] {
    } else if a[0] == b[0] {
      StrcmpFlip(a[1..], b[1..]);
    }
  }

  lemma {:induction false} StrcmpTransitive(a: Text, b: Text, c: Text)
    requires Strcmp(a, b) < 0 && Strcmp(b, c) < 0
    ensures Strcmp(a, c) < 0
  {
    if a == [] || b == [] || c == [] {
    } else if a[0] == b[0] == c[0] {
      StrcmpTransitive(a[1..], b[1..], c[1..]);
    }
  }

  /** The order is that of the bytes, as numbers from 0 to 255, at the first difference. */
  lemma {:induction false} StrcmpFirstDifference(a: Text, b: Text, i: nat)
    requires i < |a| && i < |b| && a[..i] == b[..i] && a[i] != b[i]
    ensures Strcmp(a, b) < 0 <==> a[i] < b[i]
  {
    if i == 0 {
    } else {
      assert a[0] == a[..i][0] == b[..i][0] == b[0];
      assert a[1..][..i - 1] == a[..i][1..] && b[1..][..i - 1] == b[..i][1..];
      StrcmpFirstDifference(a[1..], b[1..], i - 1);
    }
  }

  /** Without a difference, the shorter one is below. */
  lemma {:induction false} StrcmpPrefix(a: Text, b: Text)
    requires a < b
    ensures Strcmp(a, b) < 0
  {
    if a == [] {
    } else {
      assert a[0] == b[0] && a[1..] < b[1..];
      StrcmpPrefix(a[1..], b[1..]);
    }
  }

  // ---------------------------------------------------------------- decimal numerals

  /** `sprintf("%lu", n)`. */
  function Decimal(n: nat): (r: CString)
    ensures r != [] && forall i | 0 <= i < |r| :: IsDigit(r[i])
    decreases n
  {
    if n < 10 then [48 + n] else Decimal(n / 10) + [48 + n % 10]
  }

  /** The number written by a string of digits. */
  function DigitsValue(s: Text): nat
    requires forall i | 0 <= i < |s| :: IsDigit(s[i])
  {
    if s == [] then 0
    else
      assert IsDigit(s[|s| - 1]);
      DigitsValue(s[..|s| - 1]) * 10 + (s[|s| - 1] as int - 48)
  }

  /** The numeral of a number has no leading zero. */
  lemma {:induction false} DecimalIsShortest(n: nat)
    ensures Decimal(n)[0] == 48 <==> n == 0
    ensures n == 0 ==> Decimal(n) == [48]
    decreases n
  {
    if n < 10 {
    } else {
      DecimalIsShortest(n / 10);
      assert Decimal(n)[0] == Decimal(n / 10)[0];
    }
  }

  lemma {:induction false} DecimalRoundTrip(n: nat)
    ensures DigitsValue(Decimal(n)) == n
    decreases n
  {
    var d := Decimal(n);
    if n < 10 {
      assert d[..0] == [];
    } else {
      DecimalRoundTrip(n / 10);
      assert d[..|d| - 1] == Decimal(n / 10);
    }
  }
}
