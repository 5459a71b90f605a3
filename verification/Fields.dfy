/** The sorted list of header fields, as a value: what `struct headers` holds and how it is searched and changed. */
module Fields {
  import opened CStrings

  datatype Field = Field(key: Text, value: Text)

  /** Strictly increasing keys, in `strcmp` order. */
  ghost predicate Sorted(l: seq<Field>) {
    forall i, j | 0 <= i < j < |l| :: Strcmp(l[i].key, l[j].key) < 0
  }

  /** How far the search for `name` walks: past every leading key below `name`. */
  function Position(l: seq<Field>, name: Text): (p: nat)
    ensures p <= |l|
    ensures forall i | 0 <= i < p :: Strcmp(l[i].key, name) < 0
    ensures p < |l| ==> Strcmp(l[p].key, name) >= 0
  {
    if l == [] || Strcmp(l[0].key, name) >= 0 then 0 else 1 + Position(l[1..], name)
  }

  /** The early-stopping search hits when it stopped on an equal key. */
  predicate Present(l: seq<Field>, name: Text) {
    var p := Position(l, name);
    p < |l| && Strcmp(l[p].key, name) == 0
  }

  function Lookup(l: seq<Field>, name: Text): Option<Text> {
    if Present(l, name) then Some(l[Position(l, name)].value) else None
  }

  /** `s` with `x` put in at index `p`. */
  function Splice<T>(s: seq<T>, p: nat, x: T): (r: seq<T>)
    requires p <= |s|
    ensures |r| == |s| + 1
    ensures forall i | 0 <= i < p :: r[i] == s[i]
    ensures r[p] == x
    ensures forall i | p < i < |r| :: r[i] == s[i - 1]
  {
    s[..p] + [x] + s[p..]
  }

  /** `insert_header`: `None` is the duplicate-key error. */
  function Insert(l: seq<Field>, f: Field): Option<seq<Field>> {
    var p := Position(l, f.key);
    if Present(l, f.key) then None else Some(Splice(l, p, f))
  }

  /** The list after `http_response_set_header`. */
  function Set(l: seq<Field>, key: Text, value: Text): seq<Field> {
    var p := Position(l, key);
    if Present(l, key) then l[p := Field(l[p].key, value)] else Splice(l, p, Field(key, value))
  }

  /** The abstract map that a list stands for. */
  ghost function AsMap(l: seq<Field>): map<Text, Text> {
    if l == [] then map[] else AsMap(l[1..])[l[0].key := l[0].value]
  }

  // ---------------------------------------------------------------- search

  /** In a sorted list the walk stops exactly where an equal key is, and only there. */
  lemma {:induction false} PositionIs(l: seq<Field>, name: Text, p: nat)
    requires p <= |l|
    requires forall i | 0 <= i < p :: Strcmp(l[i].key, name) < 0
    requires p < |l| ==> Strcmp(l[p].key, name) >= 0
    ensures Position(l, name) == p
  {
    if p == 0 {
    } else {
      PositionIs(l[1..], name, p - 1);
    }
  }

  /** The early-stopping search of a sorted list finds a key if and only if the list holds it. */
  lemma SearchIsComplete(l: seq<Field>, name: Text)
    requires Sorted(l)
    ensures Present(l, name) <==> exists i :: 0 <= i < |l| && l[i].key == name
    ensures forall i | 0 <= i < |l| && l[i].key == name :: i == Position(l, name)
  {
    var p := Position(l, name);
    if p < |l| {
      StrcmpZero(l[p].key, name);
    }
    forall i | 0 <= i < |l| && l[i].key == name
      ensures i == p && Present(l, name)
    {
      StrcmpZero(l[i].key, name);
      StrcmpFlip(l[p].key, l[i].key);
    }
  }

  // ---------------------------------------------------------------- sortedness is kept

  lemma SplicedSorted(l: seq<Field>, f: Field)
    requires Sorted(l) && !Present(l, f.key)
    ensures Sorted(Splice(l, Position(l, f.key), f))
  {
    var p := Position(l, f.key);
    var m := Splice(l, p, f);
    forall i, j | 0 <= i < j < |m|
      ensures Strcmp(m[i].key, m[j].key) < 0
    {
      if i == p {
        StrcmpFlip(l[p].key, f.key);
        if p < j - 1 {
          StrcmpTransitive(f.key, l[p].key, l[j - 1].key);
        }
      } else if i < p && p < j {
        assert m[j] == l[j - 1];
        assert m[i] == l[i];
      }
    }
  }

  lemma InsertKeepsSorted(l: seq<Field>, f: Field)
    requires Sorted(l)
    ensures Insert(l, f).Some? ==> Sorted(Insert(l, f).value)
  {
    if !Present(l, f.key) {
      SplicedSorted(l, f);
    }
  }

  lemma SetKeepsSorted(l: seq<Field>, key: Text, value: Text)
    requires Sorted(l)
    ensures Sorted(Set(l, key, value))
  {
    if !Present(l, key) {
      SplicedSorted(l, Field(key, value));
    } else {
      var m := Set(l, key, value);
      forall i, j | 0 <= i < j < |m|
        ensures Strcmp(m[i].key, m[j].key) < 0
      {
        assert m[i].key == l[i].key && m[j].key == l[j].key;
      }
    }
  }

  // ---------------------------------------------------------------- the list as a map

  lemma {:induction false} AsMapMembers(l: seq<Field>)
    requires Sorted(l)
    ensures forall i | 0 <= i < |l| :: l[i].key in AsMap(l) && AsMap(l)[l[i].key] == l[i].value
    ensures forall k | k in AsMap(l) :: exists i :: 0 <= i < |l| && l[i].key == k
  {
    if l == [] {
    } else {
      AsMapMembers(l[1..]);
      forall i | 0 <= i < |l|
        ensures l[i].key in AsMap(l) && AsMap(l)[l[i].key] == l[i].value
      {
        if i > 0 {
          StrcmpZero(l[0].key, l[i].key);
          assert l[i] == l[1..][i - 1];
        }
      }
      forall k | k in AsMap(l)
        ensures exists i :: 0 <= i < |l| && l[i].key == k
      {
        if k != l[0].key {
          assert k in AsMap(l[1..]);
          var i :| 0 <= i < |l[1..]| && l[1..][i].key == k;
          assert l[i + 1].key == k;
        } else {
          assert l[0].key == k;
        }
      }
    }
  }

  /** Searching the list is looking up the map. */
  lemma LookupRefinesMap(l: seq<Field>, name: Text)
    requires Sorted(l)
    ensures Present(l, name) <==> name in AsMap(l)
    ensures Lookup(l, name) == if name in AsMap(l) then Some(AsMap(l)[name]) else None
  {
    SearchIsComplete(l, name);
    AsMapMembers(l);
    if Present(l, name) {
      StrcmpZero(l[Position(l, name)].key, name);
    }
  }

  /** A sorted list is determined by its members. */
  lemma {:induction false} SortedUnique(a: seq<Field>, b: seq<Field>)
    requires Sorted(a) && Sorted(b)
    requires forall f :: f in a <==> f in b
    ensures a == b
  {
    if a == [] {
      HasMember(b);
    } else {
      assert a[0] in b;
      HeadIsLeast(a, b);
      HeadIsLeast(b, a);
      StrcmpFlip(a[0].key, b[0].key);
      StrcmpZero(a[0].key, b[0].key);
      var j :| 0 <= j < |b| && b[j] == a[0];
      StrcmpZero(b[0].key, b[j].key);
      forall f
        ensures f in a[1..] <==> f in b[1..]
      {
        TailMembers(a, f);
        TailMembers(b, f);
      }
      SortedUnique(a[1..], b[1..]);
      assert a == [a[0]] + a[1..] && b == [b[0]] + b[1..];
    }
  }

  lemma HasMember(b: seq<Field>)
    ensures b != [] ==> exists f :: f in b
  {
    if b != [] {
      assert b[0] in b;
    }
  }

  lemma HeadIsLeast(a: seq<Field>, b: seq<Field>)
    requires Sorted(a) && a != [] && b != []
    requires forall f :: f in b ==> f in a
    ensures Strcmp(a[0].key, b[0].key) <= 0
  {
    assert b[0] in b;
    var i :| 0 <= i < |a| && a[i] == b[0];
    if i == 0 {
      StrcmpZero(a[0].key, b[0].key);
    }
  }

  lemma TailMembers(a: seq<Field>, f: Field)
    requires Sorted(a) && a != []
    ensures f in a[1..] <==> f in a && f != a[0]
  {
    if f in a[1..] {
      var i :| 0 <= i < |a[1..]| && a[1..][i] == f;
      assert a[i + 1] == f;
      StrcmpZero(a[0].key, a[i + 1].key);
    }
    if f in a && f != a[0] {
      var i :| 0 <= i < |a| && a[i] == f;
      assert a[1..][i - 1] == f;
    }
  }

  lemma MapDeterminesList(a: seq<Field>, b: seq<Field>)
    requires Sorted(a) && Sorted(b)
    requires AsMap(a) == AsMap(b)
    ensures a == b
  {
    forall f
      ensures f in a <==> f in b
    {
      MemberOfMap(a, f);
      MemberOfMap(b, f);
    }
    SortedUnique(a, b);
  }

  lemma MemberOfMap(l: seq<Field>, f: Field)
    requires Sorted(l)
    ensures f in l <==> f.key in AsMap(l) && AsMap(l)[f.key] == f.value
  {
    AsMapMembers(l);
    if f.key in AsMap(l) && AsMap(l)[f.key] == f.value {
      var i :| 0 <= i < |l| && l[i].key == f.key;
      assert l[i] == f;
    }
  }

  /** `insert_header` rejects exactly the keys that are present, and otherwise adds one entry and touches no other. */
  lemma {:induction false} InsertRefinesMap(l: seq<Field>, f: Field)
    requires Sorted(l)
    ensures Insert(l, f).None? <==> f.key in AsMap(l)
    ensures Insert(l, f).Some? ==>
              Sorted(Insert(l, f).value) && AsMap(Insert(l, f).value) == AsMap(l)[f.key := f.value]
    ensures Insert(l, f).Some? ==> multiset(Insert(l, f).value) == multiset(l) + multiset{f}
  {
    LookupRefinesMap(l, f.key);
    InsertKeepsSorted(l, f);
    if Insert(l, f).Some? {
      var p := Position(l, f.key);
      assert l == l[..p] + l[p..];
      SplicedMap(l, p, f);
    }
  }

  /** A sorted list stands for `m` when its members are the entries of `m`. */
  lemma MapOfMembers(l: seq<Field>, m: map<Text, Text>)
    requires Sorted(l)
    requires forall g :: g in l <==> g.key in m && m[g.key] == g.value
    ensures AsMap(l) == m
  {
    var n := AsMap(l);
    forall k
      ensures k in n <==> k in m
      ensures k in n && k in m ==> n[k] == m[k]
    {
      if k in m {
        MemberOfMap(l, Field(k, m[k]));
      }
      if k in n {
        MemberOfMap(l, Field(k, n[k]));
      }
    }
  }

  lemma {:induction false} SplicedMap(l: seq<Field>, p: nat, f: Field)
    requires Sorted(l) && p <= |l| && f.key !in AsMap(l)
    requires Sorted(Splice(l, p, f))
    ensures AsMap(Splice(l, p, f)) == AsMap(l)[f.key := f.value]
  {
    var m := AsMap(l)[f.key := f.value];
    assert l == l[..p] + l[p..];
    forall g
      ensures g in Splice(l, p, f) <==> g.key in m && m[g.key] == g.value
    {
      MemberOfMap(l, g);
      assert g in l <==> g in l[..p] || g in l[p..];
    }
    MapOfMembers(Splice(l, p, f), m);
  }

  /** `http_response_set_header` is a map update: every other entry keeps its value. */
  lemma SetRefinesMap(l: seq<Field>, key: Text, value: Text)
    requires Sorted(l)
    ensures Sorted(Set(l, key, value))
    ensures AsMap(Set(l, key, value)) == AsMap(l)[key := value]
  {
    SetKeepsSorted(l, key, value);
    LookupRefinesMap(l, key);
    var p := Position(l, key);
    if !Present(l, key) {
      SplicedMap(l, p, Field(key, value));
    } else {
      StrcmpZero(l[p].key, key);
      forall g
        ensures g in Set(l, key, value) <==> g.key in AsMap(l)[key := value] && AsMap(l)[key := value][g.key] == g.value
      {
        MemberOfMap(l, g);
        ReplacedMembers(l, p, Field(key, value), g);
      }
      MapOfMembers(Set(l, key, value), AsMap(l)[key := value]);
    }
  }

  lemma ReplacedMembers(l: seq<Field>, p: nat, f: Field, g: Field)
    requires Sorted(l) && p < |l| && l[p].key == f.key
    ensures g in l[p := f] <==> g == f || (g in l && g.key != f.key)
  {
    var m := l[p := f];
    assert m[p] == f;
    if g in m && g != f {
      var i :| 0 <= i < |m| && m[i] == g;
      assert l[i] == g;
      SameKeySamePlace(l, i, p);
    }
    if g in l && g.key != f.key {
      var i :| 0 <= i < |l| && l[i] == g;
      assert m[i] == g;
    }
  }

  lemma SameKeySamePlace(l: seq<Field>, i: nat, j: nat)
    requires Sorted(l) && i < |l| && j < |l|
    ensures l[i].key == l[j].key <==> i == j
  {
    StrcmpZero(l[i].key, l[j].key);
    StrcmpFlip(l[i].key, l[j].key);
  }

  lemma UpdatesCommute(m: map<Text, Text>, k1: Text, v1: Text, k2: Text, v2: Text)
    requires k1 != k2
    ensures m[k1 := v1][k2 := v2] == m[k2 := v2][k1 := v1]
  {
  }

  /** The list does not remember the order in which two different keys were set. */
  lemma SetCommutes(l: seq<Field>, k1: Text, v1: Text, k2: Text, v2: Text)
    requires Sorted(l) && k1 != k2
    ensures Set(Set(l, k1, v1), k2, v2) == Set(Set(l, k2, v2), k1, v1)
  {
    var a, b := Set(l, k1, v1), Set(l, k2, v2);
    SetRefinesMap(l, k1, v1);
    SetRefinesMap(l, k2, v2);
    SetRefinesMap(a, k2, v2);
    SetRefinesMap(b, k1, v1);
    UpdatesCommute(AsMap(l), k1, v1, k2, v2);
    MapDeterminesList(Set(a, k2, v2), Set(b, k1, v1));
  }

  lemma SetTwice(l: seq<Field>, k: Text, v: Text, w: Text)
    requires Sorted(l)
    ensures Set(Set(l, k, v), k, w) == Set(l, k, w)
  {
    SetRefinesMap(l, k, v);
    SetRefinesMap(l, k, w);
    SetRefinesMap(Set(l, k, v), k, w);
    MapDeterminesList(Set(Set(l, k, v), k, w), Set(l, k, w));
  }
}
