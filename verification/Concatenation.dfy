/** Small facts about taking sequences apart and regrouping them. They are stated on their own so that proofs
    about large concatenations can name the step they need. */
module Concatenation {

  ghost predicate Distinct<T(!new)>(s: seq<T>) {
    forall i, j :: 0 <= i < j < |s| ==> s[i] != s[j]
  }

  lemma Join<T>(a: seq<T>, b: seq<T>, c: seq<T>)
    ensures a + b + c == a + (b + c)
  {
  }

  lemma Regroup<T>(a: seq<T>, b: seq<T>, c: seq<T>, d: seq<T>, e: seq<T>)
    ensures a + (b + (c + d)) + e == a + (b + (c + (d + e)))
  {
  }

  lemma HeadAndTail<T>(s: seq<T>)
    requires s != []
    ensures s == [s[0]] + s[1..]
  {
  }

  lemma DropHead<T>(x: T, s: seq<T>)
    ensures ([x] + s)[0] == x && ([x] + s)[1..] == s
  {
  }

  lemma NothingAdded<T>(s: seq<T>)
    ensures [] + s == s && s + [] == s
  {
  }

  lemma CutAt<T>(s: seq<T>, head: seq<T>, rest: seq<T>)
    requires s == head + rest
    ensures |rest| <= |s| && s[..|s| - |rest|] == head && s[|s| - |rest|..] == rest
  {
  }

  lemma PrefixThenRest<T>(part: seq<T>, whole: seq<T>)
    requires part <= whole
    ensures whole == part + whole[|part|..]
  {
  }

  /** The images of the elements, joined. */
  function FlatMap<T, U>(s: seq<T>, f: T -> seq<U>): seq<U> {
    if s == [] then [] else FlatMap(s[..|s| - 1], f) + f(s[|s| - 1])
  }

  lemma {:induction false} FlatMapWithout<T, U>(left: seq<T>, x: T, right: seq<T>, f: T -> seq<U>)
    ensures multiset(FlatMap(left + [x] + right, f)) == multiset(FlatMap(left + right, f)) + multiset(f(x))
  {
    if right == [] {
      NothingAdded(left);
      NothingAdded(left + [x]);
      assert (left + [x])[..|left|] == left;
    } else {
      var older, last := right[..|right| - 1], right[|right| - 1];
      FlatMapWithout(left, x, older, f);
      FlatMapLast(left + [x] + right, left + [x] + older, last, f);
      FlatMapLast(left + right, left + older, last, f);
    }
  }

  lemma FlatMapLast<T, U>(s: seq<T>, older: seq<T>, last: T, f: T -> seq<U>)
    requires s == older + [last]
    ensures FlatMap(s, f) == FlatMap(older, f) + f(last)
  {
    assert s[..|s| - 1] == older;
  }

  lemma SplitAround<T>(s: seq<T>, x: T) returns (left: seq<T>, right: seq<T>)
    requires x in multiset(s)
    ensures s == left + [x] + right && multiset(left + right) == multiset(s) - multiset{x}
  {
    var j :| 0 <= j < |s| && s[j] == x;
    left, right := s[..j], s[j + 1..];
    assert s == left + [x] + right;
    assert multiset(s) == multiset(left) + multiset{x} + multiset(right);
  }

  /** Joining does not care about order, up to order. */
  lemma {:induction false} FlatMapPermuted<T, U>(a: seq<T>, b: seq<T>, f: T -> seq<U>)
    requires multiset(a) == multiset(b)
    ensures multiset(FlatMap(a, f)) == multiset(FlatMap(b, f))
  {
    assert |a| == |multiset(a)| == |multiset(b)| == |b|;
    if a != [] {
      var older, x := a[..|a| - 1], a[|a| - 1];
      assert a == older + [x];
      assert multiset(older) == multiset(a) - multiset{x};
      var left, right := SplitAround(b, x);
      FlatMapPermuted(older, left + right, f);
      FlatMapWithout(left, x, right, f);
      FlatMapLast(a, older, x, f);
    }
  }

  lemma {:induction false} FlatMapAlike<T, U>(a: seq<T>, b: seq<T>, f: T -> seq<U>)
    requires |a| == |b| && forall i :: 0 <= i < |a| ==> multiset(f(a[i])) == multiset(f(b[i]))
    ensures multiset(FlatMap(a, f)) == multiset(FlatMap(b, f))
  {
    if a != [] {
      FlatMapAlike(a[..|a| - 1], b[..|b| - 1], f);
    }
  }
}
