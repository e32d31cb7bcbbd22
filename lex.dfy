/** Python's ordering of `str` values: code point by code point, with a
    proper prefix ordered before the longer string. `sorted` on the list of
    run directories and on the NetCDF paths uses exactly this order. */
module Lex {

  /** `a < b` on Python strings. */
  predicate Less(a: string, b: string)
    decreases |a|
  {
    if |a| == 0 then |b| > 0
    else if |b| == 0 then false
    else if a[0] != b[0] then a[0] < b[0]
    else Less(a[1..], b[1..])
  }

  /** `a <= b` on Python strings. */
  predicate LessEq(a: string, b: string)
  {
    a == b || Less(a, b)
  }

  /** Reference definition: `a` is a proper prefix of `b`, or the two agree
      up to some position where `a` holds the smaller character. */
  ghost predicate LessAt(a: string, b: string)
  {
    (|a| < |b| && a == b[..|a|]) ||
    (exists k :: 0 <= k < |a| && k < |b| && a[..k] == b[..k] && a[k] < b[k])
  }

  lemma {:induction false} LessIffLessAt(a: string, b: string)
    ensures Less(a, b) <==> LessAt(a, b)
    decreases |a|
  {
    if |a| == 0 {
      assert a == b[..0];
    } else if |b| == 0 {
    } else if a[0] != b[0] {
      if a[0] < b[0] {
        assert a[..0] == b[..0];
      } else {
        forall k | 0 < k <= |a| && k <= |b|
          ensures a[..k] != b[..k]
        {
          assert a[..k][0] != b[..k][0];
        }
      }
    } else {
      LessIffLessAt(a[1..], b[1..]);
      if LessAt(a[1..], b[1..]) {
        if |a[1..]| < |b[1..]| && a[1..] == b[1..][..|a[1..]|] {
          assert a == b[..|a|];
        } else {
          var k :| 0 <= k < |a[1..]| && k < |b[1..]| && a[1..][..k] == b[1..][..k] && a[1..][k] < b[1..][k];
          assert a[..k + 1] == [a[0]] + a[1..][..k];
          assert b[..k + 1] == [b[0]] + b[1..][..k];
        }
      }
      if LessAt(a, b) {
        if |a| < |b| && a == b[..|a|] {
          assert a[1..] == b[1..][..|a[1..]|];
        } else {
          var k :| 0 <= k < |a| && k < |b| && a[..k] == b[..k] && a[k] < b[k];
          assert k != 0;
          assert a[1..][..k - 1] == a[..k][1..];
          assert b[1..][..k - 1] == b[..k][1..];
        }
      }
    }
  }

  lemma {:induction false} LessIrreflexive(a: string)
    ensures !Less(a, a)
    decreases |a|
  {
    if |a| > 0 {
      LessIrreflexive(a[1..]);
    }
  }

  lemma {:induction false} LessAsymmetric(a: string, b: string)
    ensures Less(a, b) ==> !Less(b, a)
    decreases |a|
  {
    if |a| > 0 && |b| > 0 && a[0] == b[0] {
      LessAsymmetric(a[1..], b[1..]);
    }
  }

  lemma {:induction false} LessTransitive(a: string, b: string, c: string)
    ensures Less(a, b) && Less(b, c) ==> Less(a, c)
    decreases |a|
  {
    if |a| > 0 && |b| > 0 && |c| > 0 && a[0] == b[0] && b[0] == c[0] {
      LessTransitive(a[1..], b[1..], c[1..]);
    }
  }

  /** Any two strings are equal or ordered one way or the other. */
  lemma {:induction false} LessTotal(a: string, b: string)
    ensures a == b || Less(a, b) || Less(b, a)
    decreases |a|
  {
    if |a| > 0 && |b| > 0 && a[0] == b[0] {
      LessTotal(a[1..], b[1..]);
      if a[1..] == b[1..] {
        assert a == [a[0]] + a[1..] && b == [b[0]] + b[1..];
      }
    }
  }

  lemma LessEqAntisymmetric(a: string, b: string)
    ensures LessEq(a, b) && LessEq(b, a) ==> a == b
  {
    LessAsymmetric(a, b);
  }

  lemma LessEqTransitive(a: string, b: string, c: string)
    ensures LessEq(a, b) && LessEq(b, c) ==> LessEq(a, c)
  {
    LessTransitive(a, b, c);
  }

  lemma LessEqTotal(a: string, b: string)
    ensures LessEq(a, b) || LessEq(b, a)
  {
    LessTotal(a, b);
  }

  /** Comparing two strings that start with equally long fields: the first
      fields decide, unless they are equal, in which case the rests do. */
  lemma {:induction false} LessConcat(p1: string, r1: string, p2: string, r2: string)
    requires |p1| == |p2|
    ensures Less(p1 + r1, p2 + r2) <==> Less(p1, p2) || (p1 == p2 && Less(r1, r2))
    decreases |p1|
  {
    if |p1| == 0 {
      assert p1 + r1 == r1 && p2 + r2 == r2;
    } else {
      assert (p1 + r1)[0] == p1[0] && (p2 + r2)[0] == p2[0];
      assert (p1 + r1)[1..] == p1[1..] + r1;
      assert (p2 + r2)[1..] == p2[1..] + r2;
      LessConcat(p1[1..], r1, p2[1..], r2);
      if p1[0] == p2[0] && p1[1..] == p2[1..] {
        assert p1 == [p1[0]] + p1[1..] && p2 == [p2[0]] + p2[1..];
      }
    }
  }
}
