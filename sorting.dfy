/** Python's `sorted` on a list of strings. Python sorts with Timsort; on a
    total order every sorting algorithm gives the same list (lemma
    SortedUnique), so an insertion sort stands for it here. */
module Sorting {
  import Lex

  /** Ascending in Python's string order. */
  predicate Sorted(s: seq<string>)
  {
    forall i, j :: 0 <= i < j < |s| ==> Lex.LessEq(s[i], s[j])
  }

  /** Inserts `x` into the sorted list `s` in front of the first element
      that is not smaller than it. */
  function Insert(x: string, s: seq<string>): (r: seq<string>)
    requires Sorted(s)
    ensures Sorted(r)
    ensures multiset(r) == multiset(s) + multiset{x}
  {
    if s == [] then [x]
    else if Lex.LessEq(x, s[0]) then
      assert forall j :: 0 <= j < |s| ==> Lex.LessEq(x, s[j]) by {
        forall j | 0 <= j < |s| ensures Lex.LessEq(x, s[j]) {
          Lex.LessEqTransitive(x, s[0], s[j]);
        }
      }
      [x] + s
    else
      var rest := Insert(x, s[1..]);
      assert s == [s[0]] + s[1..];
      assert forall j :: 0 <= j < |rest| ==> Lex.LessEq(s[0], rest[j]) by {
        forall j | 0 <= j < |rest| ensures Lex.LessEq(s[0], rest[j]) {
          assert rest[j] in multiset(rest);
          if rest[j] == x {
            Lex.LessEqTotal(x, s[0]);
          } else {
            assert rest[j] in multiset(s[1..]);
            var k :| 0 <= k < |s[1..]| && s[1..][k] == rest[j];
            assert s[k + 1] == rest[j];
          }
        }
      }
      [s[0]] + rest
  }

  /** `sorted(s)`: the elements of `s` in ascending order. */
  function Sort(s: seq<string>): (r: seq<string>)
    ensures Sorted(r)
    ensures multiset(r) == multiset(s)
  {
    if s == [] then []
    else
      assert s == [s[0]] + s[1..];
      Insert(s[0], Sort(s[1..]))
  }

  /** The first element of a sorted list is below all of it. */
  lemma HeadIsLeast(s: seq<string>, x: string)
    requires Sorted(s) && x in s
    ensures Lex.LessEq(s[0], x)
  {
  }

  /** Two sorted lists with the same elements are the same list, so the
      model's sort and Python's agree. */
  lemma {:induction false} SortedUnique(a: seq<string>, b: seq<string>)
    requires Sorted(a) && Sorted(b)
    requires multiset(a) == multiset(b)
    ensures a == b
    decreases |a|
  {
    if a != [] {
      assert a[0] in multiset(b);
      assert b != [];
      assert b[0] in multiset(a);
      HeadIsLeast(a, b[0]);
      HeadIsLeast(b, a[0]);
      Lex.LessEqAntisymmetric(a[0], b[0]);
      assert a == [a[0]] + a[1..] && b == [b[0]] + b[1..];
      assert multiset(a) == multiset{a[0]} + multiset(a[1..]);
      assert multiset(b) == multiset{a[0]} + multiset(b[1..]);
      assert multiset(a[1..]) == multiset(a) - multiset{a[0]};
      assert multiset(b[1..]) == multiset(b) - multiset{a[0]};
      SortedUnique(a[1..], b[1..]);
    } else {
      assert |b| == |multiset(b)| == 0;
    }
  }

  /** The last element of `sorted(s)` is an element of `s` not below any
      other: `sorted(s)[-1]` is the maximum. */
  lemma LastIsGreatest(s: seq<string>)
    requires s != []
    ensures |Sort(s)| == |s|
    ensures Sort(s)[|s| - 1] in s
    ensures forall x :: x in s ==> Lex.LessEq(x, Sort(s)[|s| - 1])
  {
    var r := Sort(s);
    assert |r| == |multiset(r)| == |multiset(s)| == |s|;
    assert r[|r| - 1] in multiset(s);
    forall x | x in s ensures Lex.LessEq(x, r[|s| - 1]) {
      assert x in multiset(r);
      var k :| 0 <= k < |r| && r[k] == x;
      if k == |r| - 1 {
        assert Lex.LessEq(r[k], r[k]);
      }
    }
  }

  /** `sorted(s)` holds the same strings as `s`. */
  lemma SortSameMembers(s: seq<string>)
    ensures forall x :: x in Sort(s) <==> x in s
  {
    forall x ensures x in Sort(s) <==> x in s {
      assert x in Sort(s) <==> x in multiset(Sort(s));
      assert x in s <==> x in multiset(s);
    }
  }
}
