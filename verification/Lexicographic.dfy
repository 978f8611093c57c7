/** Dictionary order on sequences: `str::cmp` on code points, and `Path::cmp` on components. */
module Lexicographic {
  import opened Sorting

  predicate LexLeq<T(==)>(a: seq<T>, b: seq<T>, leq: (T, T) -> bool) {
    a == [] || (b != [] && if a[0] == b[0] then LexLeq(a[1..], b[1..], leq) else leq(a[0], b[0]))
  }

  predicate CharLeq(a: char, b: char) {
    a <= b
  }

  predicate StringLeq(a: string, b: string) {
    LexLeq(a, b, CharLeq)
  }

  predicate PathLeq(a: seq<string>, b: seq<string>) {
    LexLeq(a, b, StringLeq)
  }

  /** At the first place where the two differ, a has ended or has the smaller element. */
  ghost predicate Precedes<T(!new)>(a: seq<T>, b: seq<T>, less: (T, T) -> bool) {
    exists i: nat :: i <= |a| && i < |b| && a[..i] == b[..i] && (i == |a| || less(a[i], b[i]))
  }

  predicate CharBefore(a: char, b: char) {
    a < b
  }

  ghost predicate StringBefore(a: string, b: string) {
    Precedes(a, b, CharBefore)
  }

  ghost predicate PathBefore(a: seq<string>, b: seq<string>) {
    Precedes(a, b, StringBefore)
  }

  lemma PrecedesUnfolds<T(!new)>(a: seq<T>, b: seq<T>, less: (T, T) -> bool)
    requires a != [] && b != [] && forall x :: !less(x, x)
    ensures Precedes(a, b, less) <==> if a[0] == b[0] then Precedes(a[1..], b[1..], less) else less(a[0], b[0])
  {
    if Precedes(a, b, less) {
      var i: nat :| i <= |a| && i < |b| && a[..i] == b[..i] && (i == |a| || less(a[i], b[i]));
      if i > 0 {
        assert a[0] == a[..i][0] && b[0] == b[..i][0];
        assert a[1..][..i - 1] == a[..i][1..] && b[1..][..i - 1] == b[..i][1..];
      }
    }
    if a[0] == b[0] && Precedes(a[1..], b[1..], less) {
      var i: nat :| i <= |a[1..]| && i < |b[1..]| && a[1..][..i] == b[1..][..i]
                    && (i == |a[1..]| || less(a[1..][i], b[1..][i]));
      assert a[..i + 1] == [a[0]] + a[1..][..i] && b[..i + 1] == [b[0]] + b[1..][..i];
    }
    if a[0] != b[0] && less(a[0], b[0]) { assert a[..0] == b[..0]; }
  }

  /** Dictionary order is decided at the first difference, and puts a proper prefix first. */
  lemma {:induction false} LexIsFirstDifference<T(!new)>(
    a: seq<T>, b: seq<T>, leq: (T, T) -> bool, less: (T, T) -> bool)
    requires forall x, y :: less(x, y) <==> leq(x, y) && x != y
    ensures LexLeq(a, b, leq) <==> a == b || Precedes(a, b, less)
  {
    if a == [] {
      assert b != [] ==> a[..0] == b[..0];
    } else if b != [] {
      PrecedesUnfolds(a, b, less);
      LexIsFirstDifference(a[1..], b[1..], leq, less);
      assert a == [a[0]] + a[1..] && b == [b[0]] + b[1..];
    }
  }

  /** On strings by code points, on paths by components. */
  lemma DictionaryOrders()
    ensures forall a, b :: StringLeq(a, b) <==> a == b || StringBefore(a, b)
    ensures forall a, b :: PathLeq(a, b) <==> a == b || PathBefore(a, b)
    ensures forall a, b :: StringBefore(a, b) ==> a != b
  {
    forall a: string ensures !StringBefore(a, a) {}
    forall a, b ensures StringLeq(a, b) <==> a == b || StringBefore(a, b) {
      LexIsFirstDifference(a, b, CharLeq, CharBefore);
    }
    forall a, b ensures PathLeq(a, b) <==> a == b || PathBefore(a, b) {
      LexIsFirstDifference(a, b, StringLeq, StringBefore);
    }
  }

  /** A total order: a total preorder without ties. */
  ghost predicate TotalOrder<T(!new)>(leq: (T, T) -> bool) {
    TotalPreorder(leq) && forall x, y :: leq(x, y) && leq(y, x) ==> x == y
  }

  lemma {:induction false} LexTotal<T(!new)>(a: seq<T>, b: seq<T>, leq: (T, T) -> bool)
    requires TotalOrder(leq)
    ensures LexLeq(a, b, leq) || LexLeq(b, a, leq)
    ensures LexLeq(a, b, leq) && LexLeq(b, a, leq) ==> a == b
  {
    if a != [] && b != [] && a[0] == b[0] {
      LexTotal(a[1..], b[1..], leq);
      assert a == [a[0]] + a[1..] && b == [b[0]] + b[1..];
    }
  }

  lemma {:induction false} LexTransitive<T(!new)>(a: seq<T>, b: seq<T>, c: seq<T>, leq: (T, T) -> bool)
    requires TotalOrder(leq) && LexLeq(a, b, leq) && LexLeq(b, c, leq)
    ensures LexLeq(a, c, leq)
  {
    if a != [] && a[0] == b[0] == c[0] {
      LexTransitive(a[1..], b[1..], c[1..], leq);
    }
  }

  /** Dictionary order over a total order is a total order. */
  lemma LexIsTotalOrder<T(!new)>(leq: (T, T) -> bool, lex: (seq<T>, seq<T>) -> bool)
    requires TotalOrder(leq) && forall a, b :: lex(a, b) == LexLeq(a, b, leq)
    ensures TotalOrder(lex)
  {
    forall a, b ensures (lex(a, b) || lex(b, a)) && (lex(a, b) && lex(b, a) ==> a == b) {
      LexTotal(a, b, leq);
    }
    forall a, b, c | lex(a, b) && lex(b, c) ensures lex(a, c) {
      LexTransitive(a, b, c, leq);
    }
  }

  lemma StringAndPathOrders()
    ensures TotalOrder(StringLeq) && TotalOrder(PathLeq)
  {
    assert TotalOrder(CharLeq);
    LexIsTotalOrder(CharLeq, StringLeq);
    LexIsTotalOrder(StringLeq, PathLeq);
  }
}
