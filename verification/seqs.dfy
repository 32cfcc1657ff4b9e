/** Small facts about sequences used as Python lists: membership without
    duplicates, `list.remove`, order-preserving de-duplication, filtering. */
module Seqs {

  /** No element occurs twice. */
  predicate NoDup<T(==)>(s: seq<T>) {
    forall i, j :: 0 <= i < j < |s| ==> s[i] != s[j]
  }

  /** Index of the first occurrence of `x` in `s` (`list.index`). */
  function FirstIndex<T(==)>(s: seq<T>, x: T): (i: nat)
    requires x in s
    ensures i < |s| && s[i] == x
    ensures forall j :: 0 <= j < i ==> s[j] != x
  {
    if s[0] == x then 0 else 1 + FirstIndex(s[1..], x)
  }

  /** Python's `list.remove(x)`: drops the first occurrence of `x`.
      Python raises ValueError when `x` is absent; every caller tests
      membership first. */
  function RemoveFirst<T(==)>(s: seq<T>, x: T): (r: seq<T>)
    requires x in s
    ensures |r| == |s| - 1
    ensures multiset(r) == multiset(s) - multiset{x}
  {
    var i := FirstIndex(s, x);
    assert s == s[..i] + [x] + s[i + 1..];
    s[..i] + s[i + 1..]
  }

  /** `if x in L: L.remove(x)`. */
  function RemoveIfPresent<T(==)>(s: seq<T>, x: T): (r: seq<T>)
    ensures multiset(r) == multiset(s) - multiset{x}
  {
    if x in s then RemoveFirst(s, x) else assert multiset(s)[x] == 0; s
  }

  /** `t` is `s` with later repetitions dropped: no duplicates, the same
      elements, and elements ordered by their first occurrence in `s`. */
  ghost predicate IsDedupOf<T(!new)>(t: seq<T>, s: seq<T>) {
    && NoDup(t)
    && (forall x :: x in t <==> x in s)
    && (forall i, j :: 0 <= i < j < |t| ==> FirstIndex(s, t[i]) < FirstIndex(s, t[j]))
  }

  /** The `if not f in L: L.append(f)` idiom. */
  function AppendIfAbsent<T(==,!new)>(t: seq<T>, x: T): (r: seq<T>)
    ensures x in r
    ensures forall y :: y in r <==> y in t || y == x
    ensures NoDup(t) ==> NoDup(r)
  {
    if x in t then t else t + [x]
  }

  lemma FirstIndexAppend<T>(s: seq<T>, x: T, y: T)
    requires y in s
    ensures FirstIndex(s + [x], y) == FirstIndex(s, y)
  {
    var i := FirstIndex(s, y);
    var j := FirstIndex(s + [x], y);
    assert (s + [x])[i] == y;
    assert s[j] == y by { if j == |s| { assert false; } }
  }

  /** Appending each element only when absent de-duplicates the whole
      input: the loop invariant of the target-list construction. */
  lemma {:induction false} AppendIfAbsentDedup<T(!new)>(t: seq<T>, s: seq<T>, x: T)
    requires IsDedupOf(t, s)
    ensures IsDedupOf(AppendIfAbsent(t, x), s + [x])
  {
    var r := AppendIfAbsent(t, x);
    var s' := s + [x];
    forall y | y in s ensures FirstIndex(s', y) == FirstIndex(s, y) {
      FirstIndexAppend(s, x, y);
    }
    forall i, j | 0 <= i < j < |r| ensures FirstIndex(s', r[i]) < FirstIndex(s', r[j]) {
      if x in t || j < |t| {
        assert r[i] == t[i] && r[j] == t[j];
      } else {
        assert r[i] == t[i] && r[j] == x && x !in s;
        assert FirstIndex(s', x) == |s|;
      }
    }
  }

  /** The elements of `s` that satisfy `f`, in order. */
  function Filter<T(!new)>(s: seq<T>, f: T -> bool): (r: seq<T>)
    ensures |r| <= |s|
    ensures forall x :: x in r <==> x in s && f(x)
  {
    if |s| == 0 then []
    else (if f(s[0]) then [s[0]] else []) + Filter(s[1..], f)
  }

  lemma {:induction false} FilterConcat<T(!new)>(a: seq<T>, b: seq<T>, f: T -> bool)
    ensures Filter(a + b, f) == Filter(a, f) + Filter(b, f)
  {
    if |a| == 0 {
      assert a + b == b;
    } else {
      assert (a + b)[1..] == a[1..] + b;
      FilterConcat(a[1..], b, f);
    }
  }

  /** Everything is kept when every element satisfies `f`. */
  lemma {:induction false} FilterAll<T(!new)>(s: seq<T>, f: T -> bool)
    requires forall x :: x in s ==> f(x)
    ensures Filter(s, f) == s
  {
    if |s| > 0 {
      FilterAll(s[1..], f);
    }
  }

  /** Nothing is kept when no element satisfies `f`. */
  lemma {:induction false} FilterNone<T(!new)>(s: seq<T>, f: T -> bool)
    requires forall x :: x in s ==> !f(x)
    ensures Filter(s, f) == []
  {
    if |s| > 0 {
      FilterNone(s[1..], f);
    }
  }

  /** Two duplicate-free lists with no common element join into one. */
  lemma NoDupConcat<T>(a: seq<T>, b: seq<T>)
    requires NoDup(a) && NoDup(b)
    requires forall x :: x in a ==> x !in b
    ensures NoDup(a + b)
  {
    var c := a + b;
    forall i, j | 0 <= i < j < |c| ensures c[i] != c[j] {
      if j >= |a| && i < |a| {
        assert c[i] in a && c[j] in b;
      }
    }
  }
}
