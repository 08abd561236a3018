/** Sequence notions shared by the extractors and the walk: duplicate-freedom,
    first-occurrence filtering, filter-map, and iteration orders for Go maps. */
module Seqs {
  import opened Wrappers

  predicate NoDuplicates<T(==)>(s: seq<T>) {
    forall i, j | 0 <= i < j < |s| :: s[i] != s[j]
  }

  /** The elements of `s` that do not occur earlier in `s`, in order: the
      element at index `i` survives exactly when it is not in `s[..i]`. */
  function FirstOccurrences<T(==,!new)>(s: seq<T>): (r: seq<T>)
    ensures forall x :: x in r <==> x in s
    decreases |s|
  {
    if |s| == 0 then []
    else
      var init := s[..|s| - 1];
      var last := s[|s| - 1];
      assert s == init + [last];
      FirstOccurrences(init) + (if last in init then [] else [last])
  }

  lemma {:induction false} FirstOccurrencesNoDuplicates<T(!new)>(s: seq<T>)
    ensures NoDuplicates(FirstOccurrences(s))
    decreases |s|
  {
    if |s| > 0 {
      var init, last := s[..|s| - 1], s[|s| - 1];
      FirstOccurrencesNoDuplicates(init);
      if last !in init {
        NoDuplicatesSnoc(FirstOccurrences(init), last);
      }
    }
  }

  lemma {:induction false} NoDuplicatesSnoc<T>(a: seq<T>, x: T)
    requires NoDuplicates(a) && x !in a
    ensures NoDuplicates(a + [x])
  {
    assert forall i | 0 <= i < |a| :: (a + [x])[i] == a[i];
  }

  lemma {:induction false} NoDuplicatesCons<T>(x: T, a: seq<T>)
    requires NoDuplicates(a) && x !in a
    ensures NoDuplicates([x] + a)
  {
    assert forall i | 0 < i <= |a| :: ([x] + a)[i] == a[i - 1];
  }

  /** Keep the `Some` results of `f`, in order. */
  function FilterMap<A, B>(f: A -> Option<B>, s: seq<A>): (r: seq<B>)
    ensures |r| <= |s|
    decreases |s|
  {
    if |s| == 0 then []
    else (match f(s[0]) case Some(b) => [b] case None => []) + FilterMap(f, s[1..])
  }

  lemma {:induction false} FilterMapAppend<A, B>(f: A -> Option<B>, a: seq<A>, b: seq<A>)
    ensures FilterMap(f, a + b) == FilterMap(f, a) + FilterMap(f, b)
    decreases |a|
  {
    if |a| > 0 {
      assert (a + b)[1..] == a[1..] + b;
      FilterMapAppend(f, a[1..], b);
    } else {
      assert a + b == b;
    }
  }

  lemma {:induction false} FilterMapPair<A, B>(f: A -> Option<B>, a: A, b: A)
    ensures f(a).Some? && f(b).Some? ==> FilterMap(f, [a, b]) == [f(a).value, f(b).value]
  {
    assert [a, b][1..] == [b];
  }

  /** When `f` keeps every element, the result maps `s` element by element. */
  lemma {:induction false} FilterMapAllSome<A, B>(f: A -> Option<B>, s: seq<A>)
    requires forall k | 0 <= k < |s| :: f(s[k]).Some?
    ensures |FilterMap(f, s)| == |s|
    ensures forall k | 0 <= k < |s| :: FilterMap(f, s)[k] == f(s[k]).value
    decreases |s|
  {
    if |s| > 0 {
      var tail := s[1..];
      assert forall k | 0 <= k < |tail| :: tail[k] == s[k + 1];
      FilterMapAllSome(f, tail);
    }
  }

  /** When `f` drops every element, nothing is kept. */
  lemma {:induction false} FilterMapAllNone<A, B>(f: A -> Option<B>, s: seq<A>)
    requires forall k | 0 <= k < |s| :: f(s[k]).None?
    ensures FilterMap(f, s) == []
    decreases |s|
  {
    if |s| > 0 {
      var tail := s[1..];
      assert forall k | 0 <= k < |tail| :: tail[k] == s[k + 1];
      FilterMapAllNone(f, tail);
    }
  }

  /** Dropped elements before the first kept one leave no trace. */
  lemma {:induction false} FilterMapFirstKept<A, B>(f: A -> Option<B>, dropped: seq<A>, x: A, rest: seq<A>)
    requires forall k | 0 <= k < |dropped| :: f(dropped[k]).None?
    requires f(x).Some?
    ensures FilterMap(f, dropped + [x] + rest) == [f(x).value] + FilterMap(f, rest)
  {
    FilterMapAllNone(f, dropped);
    FilterMapAppend(f, dropped + [x], rest);
    FilterMapAppend(f, dropped, [x]);
    assert [x][1..] == [];
  }

  /** `y` is kept exactly when some element of `s` maps to `Some(y)`. */
  lemma {:induction false} FilterMapMember<A, B>(f: A -> Option<B>, s: seq<A>, y: B)
    ensures y in FilterMap(f, s) <==> exists x :: x in s && f(x) == Some(y)
    decreases |s|
  {
    if |s| > 0 {
      FilterMapMember(f, s[1..], y);
      assert forall x :: x in s <==> x == s[0] || x in s[1..];
    }
  }

  /** Concatenate the sequences `f` gives for the elements of `s`, in order. */
  function FlatMap<A, B>(f: A -> seq<B>, s: seq<A>): seq<B>
    decreases |s|
  {
    if |s| == 0 then [] else f(s[0]) + FlatMap(f, s[1..])
  }

  /** `y` is produced exactly when some element of `s` produces it. */
  lemma {:induction false} FlatMapMember<A, B>(f: A -> seq<B>, s: seq<A>, y: B)
    ensures y in FlatMap(f, s) <==> exists x :: x in s && y in f(x)
    decreases |s|
  {
    if |s| > 0 {
      FlatMapMember(f, s[1..], y);
      assert forall x :: x in s <==> x == s[0] || x in s[1..];
    }
  }

  /** Filter-mapping two rearrangements of the same elements gives two
      rearrangements of the same results. */
  lemma {:induction false} FilterMapPermutation<A, B>(f: A -> Option<B>, a: seq<A>, b: seq<A>)
    requires multiset(a) == multiset(b)
    ensures multiset(FilterMap(f, a)) == multiset(FilterMap(f, b))
    decreases |a|
  {
    if |a| == 0 {
      assert |b| == |multiset(b)| == 0;
    } else {
      var x := a[0];
      assert x in multiset(b);
      var k :| 0 <= k < |b| && b[k] == x;
      var rest, b1, b2 := a[1..], b[..k], b[k + 1..];
      RemoveMatching(a, b, k);
      FilterMapPermutation(f, rest, b1 + b2);
      FilterMapMoveOne(f, x, rest, b1, b2);
      assert FilterMap(f, a) == FilterMap(f, [x] + rest) by {
        assert a == [x] + rest;
      }
      assert FilterMap(f, b) == FilterMap(f, b1 + [x] + b2) by {
        assert b == b1 + [x] + b2;
      }
    }
  }

  /** The induction step of `FilterMapPermutation`: `x` moved from the front
      to between `b1` and `b2`. */
  lemma {:induction false} FilterMapMoveOne<A, B>(f: A -> Option<B>, x: A, rest: seq<A>, b1: seq<A>, b2: seq<A>)
    requires multiset(FilterMap(f, rest)) == multiset(FilterMap(f, b1 + b2))
    ensures multiset(FilterMap(f, [x] + rest)) == multiset(FilterMap(f, b1 + [x] + b2))
  {
    var fx, fr, fb1, fb2 := FilterMap(f, [x]), FilterMap(f, rest), FilterMap(f, b1), FilterMap(f, b2);
    FilterMapAppend(f, [x], rest);
    FilterMapAppend(f, b1 + [x], b2);
    FilterMapAppend(f, b1, [x]);
    FilterMapAppend(f, b1, b2);
    assert multiset(fr) == multiset(fb1) + multiset(fb2);
    assert multiset(FilterMap(f, b1 + [x] + b2)) == multiset(fb1) + multiset(fx) + multiset(fb2);
  }

  /** Removing one copy of the same element from two rearrangements leaves
      two rearrangements. */
  lemma {:induction false} RemoveMatching<A>(a: seq<A>, b: seq<A>, k: nat)
    requires multiset(a) == multiset(b)
    requires |a| > 0 && k < |b| && b[k] == a[0]
    ensures multiset(a[1..]) == multiset(b[..k] + b[k + 1..])
  {
    var x := a[0];
    var b1, b2 := b[..k], b[k + 1..];
    assert a == [x] + a[1..];
    assert b == b1 + [x] + b2;
    assert multiset(a) == multiset{x} + multiset(a[1..]);
    assert multiset(b) == multiset{x} + multiset(b1 + b2);
    forall y ensures multiset(a[1..])[y] == multiset(b1 + b2)[y] {
      assert (multiset{x} + multiset(a[1..]))[y] == (multiset{x} + multiset(b1 + b2))[y];
    }
  }

  /** `order` lists every element of `keys` exactly once: one iteration of a Go map. */
  predicate IsEnumeration<T(==)>(order: seq<T>, keys: set<T>) {
    && NoDuplicates(order)
    && (forall x | x in order :: x in keys)
    && (forall x | x in keys :: x in order)
  }

  /** An iteration-order oracle that always produces a genuine enumeration
      of the map it is given. */
  ghost predicate ValidOrder<V(!new)>(order: map<string, V> -> seq<string>) {
    forall m: map<string, V> :: IsEnumeration(order(m), m.Keys)
  }

  lemma {:induction false} NoDuplicatesMultiset<T>(s: seq<T>)
    requires NoDuplicates(s)
    ensures forall x :: multiset(s)[x] == if x in s then 1 else 0
    decreases |s|
  {
    if |s| > 0 {
      assert s == [s[0]] + s[1..];
      NoDuplicatesMultiset(s[1..]);
      assert s[0] !in s[1..];
    }
  }

  /** An enumeration is as long as the set it enumerates. */
  lemma {:induction false} NoDuplicatesCardinality<T>(s: seq<T>, keys: set<T>)
    requires IsEnumeration(s, keys)
    ensures |s| == |keys|
    decreases |s|
  {
    if |s| > 0 {
      var rest := s[1..];
      assert forall i, j | 0 <= i < j < |rest| :: rest[i] == s[i + 1] && rest[j] == s[j + 1];
      assert s[0] !in rest;
      assert forall x | x in rest :: x in s;
      NoDuplicatesCardinality(rest, keys - {s[0]});
    } else {
      assert forall x | x in keys :: x in s;
    }
  }

  /** Two enumerations of the same key set are rearrangements of each other. */
  lemma {:induction false} EnumerationsArePermutations<T(!new)>(a: seq<T>, b: seq<T>, keys: set<T>)
    requires IsEnumeration(a, keys) && IsEnumeration(b, keys)
    ensures multiset(a) == multiset(b)
  {
    NoDuplicatesMultiset(a);
    NoDuplicatesMultiset(b);
    assert forall x :: multiset(a)[x] == multiset(b)[x];
  }
}
