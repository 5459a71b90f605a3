/** `get_authorization_code`: random 64-bit words, packed into letters without losing a bit. */
module Authorization {
  /** The table of letters, by the runs of the character set that it is made of. */
  function Table(i: int): char
    requires 0 <= i < 64
  {
    if i < 10 then '0' + i as char
    else if i < 16 then 'A' + (i - 10) as char
    else if i < 20 then 'W' + (i - 16) as char
    else if i < 32 then 'a' + (i - 20) as char
    else if i < 48 then 'G' + (i - 32) as char
    else if i < 62 then 'm' + (i - 48) as char
    else if i == 62 then '~' else '@'
  }

  /** The letter for six bits. */
  function Letter(x: bv64): char
    requires x < 64
  {
    Table(x as int)
  }

  predicate AllSixBits(xs: seq<bv64>) {
    forall i | 0 <= i < |xs| :: xs[i] < 64
  }

  function Letters(xs: seq<bv64>): (r: seq<char>)
    requires AllSixBits(xs)
    ensures |r| == |xs|
  {
    seq(|xs|, i requires 0 <= i < |xs| => Letter(xs[i]))
  }

  // ---------------------------------------------------------------- the six-bit groups

  function Group(w: bv64): (r: bv64)
    ensures r < 64
  {
    w & 0x3f
  }

  function Shifted(w: bv64): bv64 {
    w >> 6
  }

  /** The lowest `n` groups of a word. */
  function Digits(w: bv64, n: nat): (r: seq<bv64>)
    ensures |r| == n && AllSixBits(r)
  {
    if n == 0 then [] else [Group(w)] + Digits(Shifted(w), n - 1)
  }

  /** What is left of a word above its lowest `n` groups. */
  function Rest(w: bv64, n: nat): bv64 {
    if n == 0 then w else Rest(Shifted(w), n - 1)
  }

  /** Ten groups of each word, in order. */
  function Head(ws: seq<bv64>): (r: seq<bv64>)
    ensures |r| == 10 * |ws| && AllSixBits(r)
  {
    if ws == [] then []
    else
      hide Digits;
      Digits(ws[0], 10) + Head(ws[1..])
  }

  lemma FourBitsLeft(w: bv64)
    ensures Rest(w, 10) <= 15
  {
    var v := w >> 6 >> 6 >> 6 >> 6 >> 6;
    FiveGroups(w, 5);
    FiveGroups(v, 0);
    FourBits(w);
  }

  lemma FiveGroups(w: bv64, n: nat)
    ensures Rest(w, n + 5) == Rest(w >> 6 >> 6 >> 6 >> 6 >> 6, n)
  {
    var a, b, c, d := w >> 6, w >> 6 >> 6, w >> 6 >> 6 >> 6, w >> 6 >> 6 >> 6 >> 6;
    assert Rest(w, n + 5) == Rest(a, n + 4) == Rest(b, n + 3) == Rest(c, n + 2) == Rest(d, n + 1);
  }

  lemma FourBits(w: bv64)
    ensures w >> 6 >> 6 >> 6 >> 6 >> 6 >> 6 >> 6 >> 6 >> 6 >> 6 <= 15
  {
  }

  /** The two groups made of what is left of three words. */
  function Pair(a: bv64, b: bv64, c: bv64): (r: seq<bv64>)
    requires a <= 15 && b <= 15 && c <= 15
    ensures |r| == 2 && AllSixBits(r)
  {
    [a | ((b & 0xc) << 2), c | ((b & 0x3) << 4)]
  }

  function Tail(ws: seq<bv64>): (r: seq<bv64>)
    requires |ws| % 3 == 0
    ensures 3 * |r| == 2 * |ws| && AllSixBits(r)
  {
    if ws == [] then []
    else
      hide Rest, Pair;
      FourBitsLeft(ws[0]); FourBitsLeft(ws[1]); FourBitsLeft(ws[2]);
      Pair(Rest(ws[0], 10), Rest(ws[1], 10), Rest(ws[2], 10)) + Tail(ws[3..])
  }

  /** The code for a buffer of random words. */
  function Code(ws: seq<bv64>): (r: seq<char>)
    requires |ws| % 3 == 0
    ensures 3 * |r| == 32 * |ws|
  {
    hide Head, Tail, Letters;
    Letters(Head(ws) + Tail(ws))
  }

  // ---------------------------------------------------------------- no two buffers share a code

  lemma TableIsInjective(i: int, j: int)
    requires 0 <= i < 64 && 0 <= j < 64 && Table(i) == Table(j)
    ensures i == j
  {
  }

  lemma LetterIsInjective(x: bv64, y: bv64)
    requires x < 64 && y < 64 && Letter(x) == Letter(y)
    ensures x == y
  {
    hide Table;
    TableIsInjective(x as int, y as int);
  }

  lemma LettersAreInjective(xs: seq<bv64>, ys: seq<bv64>)
    requires AllSixBits(xs) && AllSixBits(ys) && Letters(xs) == Letters(ys)
    ensures xs == ys
  {
    assert |xs| == |Letters(xs)| == |Letters(ys)| == |ys|;
    forall i | 0 <= i < |xs|
      ensures xs[i] == ys[i]
    {
      assert Letters(xs)[i] == Letter(xs[i]) && Letters(ys)[i] == Letter(ys[i]);
      LetterIsInjective(xs[i], ys[i]);
    }
  }

  lemma OneGroup(u: bv64, v: bv64)
    requires Group(u) == Group(v) && Shifted(u) == Shifted(v)
    ensures u == v
  {
  }

  /** A word is determined by its lowest groups and what is left above them. */
  lemma {:induction false} WordFromGroups(u: bv64, v: bv64, n: nat)
    requires Digits(u, n) == Digits(v, n) && Rest(u, n) == Rest(v, n)
    ensures u == v
  {
    if n == 0 {
    } else {
      hide Group, Shifted;
      assert Digits(u, n)[0] == Group(u) && Digits(v, n)[0] == Group(v);
      assert Digits(u, n)[1..] == Digits(Shifted(u), n - 1) && Digits(v, n)[1..] == Digits(Shifted(v), n - 1);
      WordFromGroups(Shifted(u), Shifted(v), n - 1);
      OneGroup(u, v);
    }
  }

  lemma PairIsInjective(a: bv64, b: bv64, c: bv64, d: bv64, e: bv64, f: bv64)
    requires a <= 15 && b <= 15 && c <= 15 && d <= 15 && e <= 15 && f <= 15
    requires Pair(a, b, c) == Pair(d, e, f)
    ensures a == d && b == e && c == f
  {
    var p, q := Pair(a, b, c), Pair(d, e, f);
    assert p[0] == q[0] && p[1] == q[1];
  }

  lemma {:induction false} HeadAt(ws: seq<bv64>, vs: seq<bv64>, i: nat)
    requires |ws| == |vs| && Head(ws) == Head(vs) && i < |ws|
    ensures Digits(ws[i], 10) == Digits(vs[i], 10)
  {
    hide Digits, AllSixBits;
    assert Head(ws)[..10] == Digits(ws[0], 10) && Head(vs)[..10] == Digits(vs[0], 10);
    assert Head(ws)[10..] == Head(ws[1..]) && Head(vs)[10..] == Head(vs[1..]);
    if i == 0 {
    } else {
      HeadAt(ws[1..], vs[1..], i - 1);
    }
  }

  lemma {:induction false} TailAt(ws: seq<bv64>, vs: seq<bv64>, i: nat)
    requires |ws| == |vs| && |ws| % 3 == 0 && Tail(ws) == Tail(vs) && i < |ws|
    ensures Rest(ws[i], 10) == Rest(vs[i], 10)
  {
    hide Rest, Pair, AllSixBits, Tail;
    forall k | 0 <= k < 3
      ensures Rest(ws[k], 10) <= 15 && Rest(vs[k], 10) <= 15
    {
      FourBitsLeft(ws[k]);
      FourBitsLeft(vs[k]);
    }
    TailStep(ws);
    TailStep(vs);
    PairIsInjective(
      Rest(ws[0], 10), Rest(ws[1], 10), Rest(ws[2], 10), Rest(vs[0], 10), Rest(vs[1], 10), Rest(vs[2], 10));
    if i >= 3 {
      TailAt(ws[3..], vs[3..], i - 3);
    }
  }

  lemma TailStep(ws: seq<bv64>)
    requires |ws| % 3 == 0 && ws != []
    requires Rest(ws[0], 10) <= 15 && Rest(ws[1], 10) <= 15 && Rest(ws[2], 10) <= 15
    ensures Tail(ws)[..2] == Pair(Rest(ws[0], 10), Rest(ws[1], 10), Rest(ws[2], 10))
    ensures Tail(ws)[2..] == Tail(ws[3..])
  {
    hide Rest, Pair;
  }

  /** Different buffers give different codes: every bit of randomness is in the code. */
  lemma CodesDiffer(ws: seq<bv64>, vs: seq<bv64>)
    requires |ws| % 3 == 0 && |vs| % 3 == 0
    ensures Code(ws) == Code(vs) <==> ws == vs
  {
    hide Letters, Head, Tail, Digits, Rest, AllSixBits;
    if Code(ws) == Code(vs) {
      assert 3 * |Code(ws)| == 32 * |ws| && 3 * |Code(vs)| == 32 * |vs|;
      SixBits(Head(ws), Tail(ws));
      SixBits(Head(vs), Tail(vs));
      LettersAreInjective(Head(ws) + Tail(ws), Head(vs) + Tail(vs));
      Cut(Head(ws), Tail(ws), Head(vs), Tail(vs));
      forall i | 0 <= i < |ws|
        ensures ws[i] == vs[i]
      {
        HeadAt(ws, vs, i);
        TailAt(ws, vs, i);
        WordFromGroups(ws[i], vs[i], 10);
      }
    }
  }

  lemma SixBits(a: seq<bv64>, b: seq<bv64>)
    requires AllSixBits(a) && AllSixBits(b)
    ensures AllSixBits(a + b)
  {
  }

  lemma Cut(a: seq<bv64>, b: seq<bv64>, c: seq<bv64>, d: seq<bv64>)
    requires |a| == |c| && a + b == c + d
    ensures a == c && b == d
  {
    assert (a + b)[..|a|] == a && (c + d)[..|a|] == c;
    assert (a + b)[|a|..] == b && (c + d)[|a|..] == d;
  }

  // ---------------------------------------------------------------- the loops

  lemma {:induction false} DigitsStep(w: bv64, n: nat)
    ensures Digits(w, n + 1) == Digits(w, n) + [Group(Rest(w, n))]
    ensures Rest(w, n + 1) == Shifted(Rest(w, n))
    decreases n
  {
    hide AllSixBits, Group, Shifted;
    if n == 0 {
    } else {
      var v := Shifted(w);
      DigitsStep(v, n - 1);
      Regroup([Group(w)], Digits(v, n - 1), [Group(Rest(v, n - 1))]);
    }
  }

  lemma {:induction false} HeadStep(ws: seq<bv64>, i: nat)
    requires i < |ws|
    ensures Head(ws[..i + 1]) == Head(ws[..i]) + Digits(ws[i], 10)
  {
    hide Digits, AllSixBits;
    if i > 0 {
      HeadStep(ws[1..], i - 1);
      assert ws[..i + 1][1..] == ws[1..][..i] && ws[..i][1..] == ws[1..][..i - 1];
    } else {
      assert ws[..1][1..] == [];
    }
  }

  lemma {:induction false} TailGrows(ws: seq<bv64>, i: nat)
    requires i % 3 == 0 && i + 3 <= |ws|
    requires Rest(ws[i], 10) <= 15 && Rest(ws[i + 1], 10) <= 15 && Rest(ws[i + 2], 10) <= 15
    ensures Tail(ws[..i + 3]) == Tail(ws[..i]) + Pair(Rest(ws[i], 10), Rest(ws[i + 1], 10), Rest(ws[i + 2], 10))
  {
    hide Rest, Pair, AllSixBits;
    if i >= 3 {
      TailGrows(ws[3..], i - 3);
      assert ws[..i + 3][3..] == ws[3..][..i] && ws[..i][3..] == ws[3..][..i - 3];
    } else {
      assert ws[..3][3..] == [];
    }
  }

  /** `*target++ = map[x]` */
  method Emit(code: array<char>, target: nat, x: bv64, ghost done: seq<bv64>) returns (next: nat)
    requires target < code.Length && x < 64
    requires AllSixBits(done) && code[..target] == Letters(done)
    modifies code
    ensures next == target + 1 && AllSixBits(done + [x]) && code[..next] == Letters(done + [x])
  {
    code[target] := Table(x as int);
    next := target + 1;
    assert code[..next] == code[..target] + [Letter(x)];
  }

  /** The inner loop: ten letters from one word, which keeps its four highest bits. */
  method EmitWord(buffer: array<bv64>, i: nat, code: array<char>, from: nat, ghost done: seq<bv64>)
    returns (target: nat)
    requires i < buffer.Length && from + 10 <= code.Length && (buffer as object) != (code as object)
    requires AllSixBits(done) && code[..from] == Letters(done)
    modifies buffer, code
    ensures target == from + 10 && AllSixBits(done + Digits(old(buffer[i]), 10))
    ensures code[..target] == Letters(done + Digits(old(buffer[i]), 10))
    ensures buffer[..] == old(buffer[..])[i := Rest(old(buffer[i]), 10)]
  {
    hide Letters, Digits, Rest, AllSixBits, Group, Shifted;
    ghost var w, words := buffer[i], buffer[..];
    target := from;
    NoGroups(w, done);
    for j := 0 to 10
      invariant target == from + j && AllSixBits(done + Digits(w, j))
      invariant code[..target] == Letters(done + Digits(w, j))
      invariant buffer[..] == words[i := Rest(w, j)]
    {
      DigitsStep(w, j);
      assert buffer[i] == words[i := Rest(w, j)][i] == Rest(w, j);
      Regroup(done, Digits(w, j), [Group(buffer[i])]);
      target := Emit(code, target, Group(buffer[i]), done + Digits(w, j));
      buffer[i] := Shifted(buffer[i]);
      assert buffer[..] == words[i := Rest(w, j)][i := Shifted(Rest(w, j))];
    }
  }

  /** The words with their lowest groups shifted out, as far as the first loop has come. */
  ghost predicate ShiftedOut(words: seq<bv64>, ws: seq<bv64>, i: nat) {
    && |words| == |ws|
    && (forall k | 0 <= k < i && k < |ws| :: words[k] == Rest(ws[k], 10))
    && (forall k | i <= k < |ws| :: words[k] == ws[k])
  }

  /** The first loop. */
  method EmitHead(buffer: array<bv64>, code: array<char>) returns (target: nat)
    requires 10 * buffer.Length <= code.Length && (buffer as object) != (code as object)
    modifies buffer, code
    ensures target == 10 * buffer.Length && code[..target] == Letters(Head(old(buffer[..])))
    ensures ShiftedOut(buffer[..], old(buffer[..]), buffer.Length)
  {
    hide Letters, Head, Digits, Rest, AllSixBits;
    ghost var ws := buffer[..];
    target := 0;
    NothingDone();
    for i := 0 to buffer.Length
      invariant target == 10 * i && code[..target] == Letters(Head(ws[..i]))
      invariant ShiftedOut(buffer[..], ws, i)
    {
      assert buffer[i] == buffer[..][i];
      target := EmitWord(buffer, i, code, target, Head(ws[..i]));
      HeadStep(ws, i);
    }
    assert ws[..buffer.Length] == ws;
  }

  /** The two letters that the second loop makes of what is left of three words. */
  method EmitPair(code: array<char>, from: nat, a: bv64, b: bv64, c: bv64, ghost done: seq<bv64>) returns (target: nat)
    requires a <= 15 && b <= 15 && c <= 15 && from + 2 <= code.Length
    requires AllSixBits(done) && code[..from] == Letters(done)
    modifies code
    ensures target == from + 2 && AllSixBits(done + Pair(a, b, c))
    ensures code[..target] == Letters(done + Pair(a, b, c))
  {
    hide Letters, AllSixBits, Pair;
    PairIs(a, b, c);
    target := Emit(code, from, a | ((b & 0xc) << 2), done);
    target := Emit(code, target, c | ((b & 0x3) << 4), done + [a | ((b & 0xc) << 2)]);
    assert done + [a | ((b & 0xc) << 2)] + [c | ((b & 0x3) << 4)] == done + Pair(a, b, c);
  }

  /** The second loop. */
  method EmitTail(buffer: array<bv64>, code: array<char>, from: nat, ghost ws: seq<bv64>, ghost head: seq<bv64>)
    requires buffer.Length % 3 == 0 && 3 * (code.Length - from) == 2 * buffer.Length
    requires (buffer as object) != (code as object)
    requires ShiftedOut(buffer[..], ws, buffer.Length)
    requires |head| == from && AllSixBits(head) && code[..from] == Letters(head)
    modifies code
    ensures AllSixBits(head + Tail(ws)) && code[..] == Letters(head + Tail(ws))
  {
    hide Letters, Tail, Rest, AllSixBits, Pair;
    var i, target := 0, from;
    NothingDone();
    assert head + Tail(ws[..0]) == head;
    while i < buffer.Length
      invariant i % 3 == 0 && i <= buffer.Length && 3 * (target - from) == 2 * i
      invariant AllSixBits(head + Tail(ws[..i])) && code[..target] == Letters(head + Tail(ws[..i]))
      invariant ShiftedOut(buffer[..], ws, buffer.Length)
    {
      assert buffer[i] == buffer[..][i] && buffer[i + 1] == buffer[..][i + 1] && buffer[i + 2] == buffer[..][i + 2];
      FourBitsLeft(ws[i]);
      FourBitsLeft(ws[i + 1]);
      FourBitsLeft(ws[i + 2]);
      TailGrows(ws, i);
      ghost var done := head + Tail(ws[..i]);
      target := EmitPair(code, target, buffer[i], buffer[i + 1], buffer[i + 2], done);
      Regroup(head, Tail(ws[..i]), Pair(buffer[i], buffer[i + 1], buffer[i + 2]));
      i := i + 3;
    }
    assert ws[..i] == ws;
    assert code[..target] == code[..];
  }

  /**
   Both loops, on words from `getrandom`: they fill the code to its last letter and never leave the table. The source
   asserts that the code takes a multiple of 32 letters.
   */
  method GetAuthorizationCode(random: seq<bv64>, code: array<char>)
    requires code.Length % 32 == 0 && |random| == code.Length / 32 * 3
    modifies code
    ensures code[..] == Code(random)
  {
    hide Letters, Head, Tail, AllSixBits, ShiftedOut;
    var buffer := new bv64[|random|](i requires 0 <= i < |random| => random[i]);
    assert buffer[..] == random;
    var target := EmitHead(buffer, code);
    EmitTail(buffer, code, target, random, Head(random));
  }

  lemma Regroup(a: seq<bv64>, b: seq<bv64>, c: seq<bv64>)
    ensures (a + b) + c == a + (b + c)
  {
  }

  lemma NoGroups(w: bv64, done: seq<bv64>)
    ensures Rest(w, 0) == w && done + Digits(w, 0) == done
  {
  }

  lemma NothingDone()
    ensures AllSixBits([]) && Letters([]) == [] && Head([]) == [] && Tail([]) == []
  {
  }

  lemma PairIs(a: bv64, b: bv64, c: bv64)
    requires a <= 15 && b <= 15 && c <= 15
    ensures Pair(a, b, c) == [a | ((b & 0xc) << 2), c | ((b & 0x3) << 4)]
    ensures a | ((b & 0xc) << 2) < 64 && c | ((b & 0x3) << 4) < 64
  {
  }

  // ---------------------------------------------------------------- the letters, one by one

  /** The table as the source writes it. */
  const MAP := "0123456789" + "ABCDEF" + "WXYZ" + "abcdefghijkl" + "GHIJKLMNOPQRSTUV" + "mnopqrstuvwxyz" + "~@"

  lemma TableIsMap(i: int)
    requires 0 <= i < 64
    ensures |MAP| == 64 && Table(i) == MAP[i]
  {
    var r0 := "0123456789";
    var r10 := "ABCDEF";
    var r16 := "WXYZ";
    var r20 := "abcdefghijkl";
    var r32 := "GHIJKLMNOPQRSTUV";
    var r48 := "mnopqrstuvwxyz";
    assert 0 <= i < 10 ==> r0[i - 0] == '0' + (i - 0) as char;
    assert 10 <= i < 16 ==> r10[i - 10] == 'A' + (i - 10) as char;
    assert 16 <= i < 20 ==> r16[i - 16] == 'W' + (i - 16) as char;
    assert 20 <= i < 32 ==> r20[i - 20] == 'a' + (i - 20) as char;
    assert 32 <= i < 48 ==> r32[i - 32] == 'G' + (i - 32) as char;
    assert 48 <= i < 62 ==> r48[i - 48] == 'm' + (i - 48) as char;
  }

  lemma LetterIsMap(x: bv64)
    requires x < 64
    ensures Letter(x) == MAP[x as int]
  {
    TableIsMap(x as int);
  }

  /** A word without its `6 * j` lowest bits. */
  function Above(w: bv64, j: nat): bv64
    requires j <= 10
  {
    match j
    case 0 => w
    case 1 => w >> 6
    case 2 => w >> 12
    case 3 => w >> 18
    case 4 => w >> 24
    case 5 => w >> 30
    case 6 => w >> 36
    case 7 => w >> 42
    case 8 => w >> 48
    case 9 => w >> 54
    case _ => w >> 60
  }

  lemma Shifts(w: bv64)
    ensures (w >> 6) >> 6 == w >> 12 && (w >> 12) >> 6 == w >> 18 && (w >> 18) >> 6 == w >> 24
    ensures (w >> 24) >> 6 == w >> 30 && (w >> 30) >> 6 == w >> 36 && (w >> 36) >> 6 == w >> 42
    ensures (w >> 42) >> 6 == w >> 48 && (w >> 48) >> 6 == w >> 54 && (w >> 54) >> 6 == w >> 60
  {
  }

  lemma AboveStep(w: bv64, j: nat)
    requires j < 10
    ensures Shifted(Above(w, j)) == Above(w, j + 1)
  {
    Shifts(w);
    match j
    case 0 => assert Shifted(w) == w >> 6;
    case 1 => assert Shifted(w >> 6) == w >> 12;
    case 2 => assert Shifted(w >> 12) == w >> 18;
    case 3 => assert Shifted(w >> 18) == w >> 24;
    case 4 => assert Shifted(w >> 24) == w >> 30;
    case 5 => assert Shifted(w >> 30) == w >> 36;
    case 6 => assert Shifted(w >> 36) == w >> 42;
    case 7 => assert Shifted(w >> 42) == w >> 48;
    case 8 => assert Shifted(w >> 48) == w >> 54;
    case 9 => assert Shifted(w >> 54) == w >> 60;
  }

  lemma {:induction false} RestIsAbove(w: bv64, j: nat)
    requires j <= 10
    ensures Rest(w, j) == Above(w, j)
  {
    hide Above, Shifted, Rest;
    if j == 0 {
      NothingShifted(w);
    } else {
      RestIsAbove(w, j - 1);
      DigitsStep(w, j - 1);
      AboveStep(w, j - 1);
    }
  }

  lemma NothingShifted(w: bv64)
    ensures Rest(w, 0) == w == Above(w, 0)
  {
  }

  lemma {:induction false} DigitAt(w: bv64, n: nat, j: nat)
    requires j < n
    ensures Digits(w, n)[j] == Group(Rest(w, j))
    decreases n
  {
    hide AllSixBits, Group, Shifted;
    if j == 0 {
    } else {
      DigitAt(Shifted(w), n - 1, j - 1);
    }
  }

  lemma {:induction false} HeadIs(ws: seq<bv64>, i: nat, j: nat)
    requires i < |ws| && j < 10
    ensures Head(ws)[10 * i + j] == Digits(ws[i], 10)[j]
  {
    hide Digits, AllSixBits;
    assert Head(ws) == Digits(ws[0], 10) + Head(ws[1..]);
    if i == 0 {
    } else {
      HeadIs(ws[1..], i - 1, j);
    }
  }

  lemma {:induction false} TailIs(ws: seq<bv64>, t: nat)
    requires |ws| % 3 == 0 && 3 * t < |ws|
    ensures Rest(ws[3 * t], 10) <= 15 && Rest(ws[3 * t + 1], 10) <= 15 && Rest(ws[3 * t + 2], 10) <= 15
    ensures Tail(ws)[2 * t..2 * t + 2] ==
            Pair(Rest(ws[3 * t], 10), Rest(ws[3 * t + 1], 10), Rest(ws[3 * t + 2], 10))
  {
    hide Rest, Pair, AllSixBits, Tail;
    FourBitsLeft(ws[3 * t]);
    FourBitsLeft(ws[3 * t + 1]);
    FourBitsLeft(ws[3 * t + 2]);
    FourBitsLeft(ws[0]);
    FourBitsLeft(ws[1]);
    FourBitsLeft(ws[2]);
    TailStep(ws);
    if t == 0 {
    } else {
      var rest := ws[3..];
      TailIs(rest, t - 1);
      assert rest[3 * t - 3] == ws[3 * t] && rest[3 * t - 2] == ws[3 * t + 1] && rest[3 * t - 1] == ws[3 * t + 2];
      assert Tail(ws)[2 * t..2 * t + 2] == Tail(ws)[2..][2 * t - 2..2 * t];
    }
  }

  /** Letter `10 * i + j` of a code stands for six bits of word `i`, from bit `6 * j` on. */
  lemma LetterOfWord(ws: seq<bv64>, i: nat, j: nat)
    requires |ws| % 3 == 0 && i < |ws| && j < 10
    ensures 10 * i + j < |Code(ws)|
    ensures Code(ws)[10 * i + j] == Letter(Group(Above(ws[i], j)))
  {
    hide Head, Tail, Digits, Letter, Rest, Above, Group;
    HeadIs(ws, i, j);
    DigitAt(ws[i], 10, j);
    RestIsAbove(ws[i], j);
  }

  /** Behind those, two letters stand for the four highest bits of each three words. */
  lemma LettersOfRest(ws: seq<bv64>, t: nat)
    requires |ws| % 3 == 0 && 3 * t < |ws|
    ensures 10 * |ws| + 2 * t + 1 < |Code(ws)|
    ensures var a, b, c := Above(ws[3 * t], 10), Above(ws[3 * t + 1], 10), Above(ws[3 * t + 2], 10);
            && a <= 15 && b <= 15 && c <= 15
            && Code(ws)[10 * |ws| + 2 * t] == Letter(Pair(a, b, c)[0])
            && Code(ws)[10 * |ws| + 2 * t + 1] == Letter(Pair(a, b, c)[1])
            && Pair(a, b, c) == [a | ((b & 0xc) << 2), c | ((b & 0x3) << 4)]
  {
    hide Head, Tail, Digits, Letter, Rest, Pair, Above;
    TailIs(ws, t);
    var a, b, c := Rest(ws[3 * t], 10), Rest(ws[3 * t + 1], 10), Rest(ws[3 * t + 2], 10);
    RestIsAbove(ws[3 * t], 10);
    RestIsAbove(ws[3 * t + 1], 10);
    RestIsAbove(ws[3 * t + 2], 10);
    PairIs(a, b, c);
    var pair := Tail(ws)[2 * t..2 * t + 2];
    assert Tail(ws)[2 * t] == pair[0] && Tail(ws)[2 * t + 1] == pair[1];
  }

  // ---------------------------------------------------------------- every code occurs

  function Pushed(w: bv64, group: bv64): bv64 {
    (w << 6) | group
  }

  /** The word with these groups and this rest above them. */
  function WordOf(groups: seq<bv64>, rest: bv64): bv64 {
    if groups == [] then rest else Pushed(WordOf(groups[1..], rest), groups[0])
  }

  lemma PushedIsUndone(w: bv64, group: bv64)
    requires group < 64 && w >> 58 == 0
    ensures Group(Pushed(w, group)) == group && Shifted(Pushed(w, group)) == w
  {
  }

  lemma {:induction false} RestStaysSmall(w: bv64, n: nat, m: nat)
    requires n <= m && Rest(w, n) <= 15
    ensures Rest(w, m) <= 15
  {
    if n < m {
      RestStaysSmall(w, n, m - 1);
      DigitsStep(w, m - 1);
    }
  }

  /** A word that runs out after nine groups or fewer leaves room for one more. */
  lemma RoomForOneMore(w: bv64, n: nat)
    requires n <= 9 && Rest(w, n) <= 15
    ensures w >> 58 == 0
  {
    hide Rest, Shifted;
    RestStaysSmall(w, n, 9);
    NineShifts(w);
    NineGroups(w);
  }

  lemma NineShifts(w: bv64)
    ensures Rest(w, 9) ==
            Shifted(Shifted(Shifted(Shifted(Shifted(Shifted(Shifted(Shifted(Shifted(w)))))))))
  {
    hide Shifted;
    var a := Shifted(Shifted(Shifted(w)));
    var b := Shifted(Shifted(Shifted(a)));
    ThreeShifts(w, 6);
    ThreeShifts(a, 3);
    ThreeShifts(b, 0);
  }

  lemma ThreeShifts(w: bv64, n: nat)
    ensures Rest(w, n + 3) == Rest(Shifted(Shifted(Shifted(w))), n)
    ensures Rest(w, 0) == w
  {
    hide Shifted;
    assert Rest(w, n + 3) == Rest(Shifted(w), n + 2) == Rest(Shifted(Shifted(w)), n + 1);
  }

  lemma NineGroups(w: bv64)
    ensures Shifted(Shifted(Shifted(Shifted(Shifted(Shifted(Shifted(Shifted(Shifted(w))))))))) <= 15 ==> w >> 58 == 0
  {
  }

  /** A word is made of its groups and its rest. */
  lemma {:induction false} WordOfGroups(groups: seq<bv64>, rest: bv64)
    requires |groups| <= 10 && AllSixBits(groups) && rest <= 15
    ensures Digits(WordOf(groups, rest), |groups|) == groups && Rest(WordOf(groups, rest), |groups|) == rest
  {
    hide Group, Shifted, Pushed;
    if groups == [] {
    } else {
      var w := WordOf(groups[1..], rest);
      WordOfGroups(groups[1..], rest);
      RoomForOneMore(w, |groups| - 1);
      PushedIsUndone(w, groups[0]);
      assert groups == [groups[0]] + groups[1..];
    }
  }

  /** Any two groups are the ones that some three rests make. */
  lemma PairIsOnto(x: bv64, y: bv64) returns (a: bv64, b: bv64, c: bv64)
    requires x < 64 && y < 64
    ensures a <= 15 && b <= 15 && c <= 15 && Pair(a, b, c) == [x, y]
  {
    a, b, c := x & 0xf, ((x >> 4) << 2) | (y >> 4), y & 0xf;
    PairOfParts(x, y);
  }

  lemma PairOfParts(x: bv64, y: bv64)
    requires x < 64 && y < 64
    ensures ((x >> 4) << 2) | (y >> 4) <= 15
    ensures (x & 0xf) | (((((x >> 4) << 2) | (y >> 4)) & 0xc) << 2) == x
    ensures (y & 0xf) | (((((x >> 4) << 2) | (y >> 4)) & 0x3) << 4) == y
  {
  }

  /** Three words that are packed to any thirty and two groups. */
  lemma ThreeWords(head: seq<bv64>, x: bv64, y: bv64) returns (a: bv64, b: bv64, c: bv64)
    requires |head| == 30 && AllSixBits(head) && x < 64 && y < 64
    ensures Digits(a, 10) + Digits(b, 10) + Digits(c, 10) == head
    ensures Rest(a, 10) <= 15 && Rest(b, 10) <= 15 && Rest(c, 10) <= 15
    ensures Pair(Rest(a, 10), Rest(b, 10), Rest(c, 10)) == [x, y]
  {
    hide Digits, Rest, WordOf, Pair;
    var p, q, r := PairIsOnto(x, y);
    a, b, c := WordOf(head[..10], p), WordOf(head[10..20], q), WordOf(head[20..], r);
    WordOfGroups(head[..10], p);
    WordOfGroups(head[10..20], q);
    WordOfGroups(head[20..], r);
    assert head == head[..10] + head[10..20] + head[20..];
  }

  lemma {:induction false} GroupsAreOnto(head: seq<bv64>, tail: seq<bv64>) returns (ws: seq<bv64>)
    requires |head| % 30 == 0 && |tail| == |head| / 30 * 2 && AllSixBits(head) && AllSixBits(tail)
    ensures |ws| == |head| / 30 * 3 && Head(ws) == head && Tail(ws) == tail
    decreases |head|
  {
    hide Digits, Rest, Pair;
    if head == [] {
      ws := [];
    } else {
      var a, b, c := ThreeWords(head[..30], tail[0], tail[1]);
      var rest := GroupsAreOnto(head[30..], tail[2..]);
      ws := [a, b, c] + rest;
      HeadOfThree(a, b, c, rest);
      assert ws[3..] == rest;
      assert head == head[..30] + head[30..];
      assert tail == [tail[0], tail[1]] + tail[2..];
    }
  }

  lemma HeadOfOne(a: bv64, rest: seq<bv64>)
    ensures Head([a] + rest) == Digits(a, 10) + Head(rest)
  {
    assert ([a] + rest)[1..] == rest;
  }

  lemma HeadOfThree(a: bv64, b: bv64, c: bv64, rest: seq<bv64>)
    ensures Head([a, b, c] + rest) == Digits(a, 10) + Digits(b, 10) + Digits(c, 10) + Head(rest)
  {
    hide Digits;
    HeadOfOne(a, [b, c] + rest);
    HeadOfOne(b, [c] + rest);
    HeadOfOne(c, rest);
    assert [a] + ([b, c] + rest) == [a, b, c] + rest && [b] + ([c] + rest) == [b, c] + rest;
    assert Head([a, b, c] + rest) == Digits(a, 10) + (Digits(b, 10) + (Digits(c, 10) + Head(rest)));
  }

  lemma SixBitParts(groups: seq<bv64>, n: nat)
    requires AllSixBits(groups) && n <= |groups|
    ensures AllSixBits(groups[..n]) && AllSixBits(groups[n..])
  {
  }

  /** Every sequence of six-bit groups of the right length is packed from some buffer: no code is impossible. */
  lemma EveryCodeOccurs(groups: seq<bv64>) returns (ws: seq<bv64>)
    requires |groups| % 32 == 0 && AllSixBits(groups)
    ensures |ws| == |groups| / 32 * 3 && Code(ws) == Letters(groups)
  {
    hide Letters, Head, Tail, AllSixBits;
    var n := |groups| / 32 * 30;
    SixBitParts(groups, n);
    ws := GroupsAreOnto(groups[..n], groups[n..]);
    assert groups[..n] + groups[n..] == groups;
  }
}
