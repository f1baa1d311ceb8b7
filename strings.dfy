/**
 * The two operations on `str` the pipeline relies on: substring membership
 * (`"BOT_ALIAS" not in sk`, the glob pattern) and the order `sorted` puts
 * file names in (code-point lexicographic order).
 */
module Strings {

  /** `pat` occurs in `s` starting at index `i`. */
  predicate OccursAt(s: string, pat: string, i: int) {
    0 <= i && i + |pat| <= |s| && s[i..i + |pat|] == pat
  }

  /** An occurrence in a suffix of `s` is an occurrence in `s`, shifted by where the suffix starts. */
  lemma OccursAtDrop(s: string, pat: string, k: int, i: int)
    requires 0 <= k <= |s| && 0 <= i
    ensures OccursAt(s[k..], pat, i) <==> OccursAt(s, pat, k + i)
  {
    if k + i + |pat| <= |s| {
      assert s[k..][i..i + |pat|] == s[k + i..k + i + |pat|];
    }
  }

  /** `s` begins with `pat`. */
  predicate StartsWith(s: string, pat: string) {
    |pat| <= |s| && s[..|pat|] == pat
  }

  /** Python's `pat in s` on two strings. */
  predicate Contains(s: string, pat: string)
    ensures Contains(s, pat) ==> |pat| <= |s|
    ensures StartsWith(s, pat) ==> Contains(s, pat)
    decreases |s|
  {
    StartsWith(s, pat) || (|s| > 0 && Contains(s[1..], pat))
  }

  /** Substring membership holds exactly when there is an index where `pat` occurs. */
  lemma {:induction false} ContainsIff(s: string, pat: string)
    ensures Contains(s, pat) <==> exists i :: OccursAt(s, pat, i)
    decreases |s|
  {
    if StartsWith(s, pat) {
      assert OccursAt(s, pat, 0);
    } else if |s| > 0 {
      ContainsIff(s[1..], pat);
      if Contains(s[1..], pat) {
        var i :| OccursAt(s[1..], pat, i);
        OccursAtDrop(s, pat, 1, i);
      }
      if exists i :: OccursAt(s, pat, i) {
        var i :| OccursAt(s, pat, i);
        assert i != 0;
        OccursAtDrop(s, pat, 1, i - 1);
      }
    }
  }

  /** Python's `a < b` on two strings: code-point lexicographic order, a proper prefix first. */
  predicate LexLess(a: string, b: string)
    ensures |a| < |b| && a == b[..|a|] ==> LexLess(a, b)
    decreases |a|
  {
    if |a| == 0 then |b| > 0
    else if |b| == 0 then false
    else if a[0] != b[0] then a[0] < b[0]
    else LexLess(a[1..], b[1..])
  }

  /** `a < b` exactly when `a` is a proper prefix of `b`, or the first position where they differ has the smaller character in `a`. */
  lemma {:induction false} LexLessIff(a: string, b: string)
    ensures LexLess(a, b) <==>
      (|a| < |b| && a == b[..|a|])
      || (exists k :: 0 <= k < |a| && k < |b| && a[..k] == b[..k] && a[k] < b[k])
    decreases |a|
  {
    if |a| > 0 && |b| > 0 && a[0] == b[0] {
      LexLessIff(a[1..], b[1..]);
      if exists k :: 0 <= k < |a| - 1 && k < |b| - 1 && a[1..][..k] == b[1..][..k] && a[1..][k] < b[1..][k] {
        var k :| 0 <= k < |a| - 1 && k < |b| - 1 && a[1..][..k] == b[1..][..k] && a[1..][k] < b[1..][k];
        assert a[..k + 1] == [a[0]] + a[1..][..k] && b[..k + 1] == [b[0]] + b[1..][..k];
      }
      if exists k :: 0 <= k < |a| && k < |b| && a[..k] == b[..k] && a[k] < b[k] {
        var k :| 0 <= k < |a| && k < |b| && a[..k] == b[..k] && a[k] < b[k];
        assert k > 0;
        assert a[1..][..k - 1] == a[1..k] == b[1..k] == b[1..][..k - 1];
        assert a[1..][k - 1] < b[1..][k - 1];
      }
      if |a| < |b| && a == b[..|a|] {
        assert a[1..] == b[1..][..|a| - 1];
      }
    } else if |a| > 0 && |b| > 0 {
      assert a[..0] == b[..0];
    } else if |a| > 0 {
      assert !(|a| < |b|);
    }
  }

  lemma {:induction false} LexLessIrreflexive(a: string)
    ensures !LexLess(a, a)
    decreases |a|
  {
    if |a| > 0 {
      LexLessIrreflexive(a[1..]);
    }
  }

  lemma {:induction false} LexLessTransitive(a: string, b: string, c: string)
    requires LexLess(a, b) && LexLess(b, c)
    ensures LexLess(a, c)
    decreases |a|
  {
    if |a| > 0 && a[0] == b[0] && b[0] == c[0] {
      LexLessTransitive(a[1..], b[1..], c[1..]);
    }
  }

  /** Any two different strings are ordered one way or the other. */
  lemma {:induction false} LexLessTotal(a: string, b: string)
    ensures a == b || LexLess(a, b) || LexLess(b, a)
    decreases |a|
  {
    if |a| > 0 && |b| > 0 && a[0] == b[0] {
      LexLessTotal(a[1..], b[1..]);
    }
  }

  lemma LexLessAsymmetric(a: string, b: string)
    requires LexLess(a, b)
    ensures !LexLess(b, a)
  {
    if LexLess(b, a) {
      LexLessTransitive(a, b, a);
      LexLessIrreflexive(a);
    }
  }

  /** Every element of `s` is strictly smaller than every later one: sorted, no repeats. */
  predicate StrictlySorted(s: seq<string>) {
    forall i, j :: 0 <= i < j < |s| ==> LexLess(s[i], s[j])
  }

  /** `m` belongs to `names` and comes before every other member. */
  predicate IsLeast(m: string, names: set<string>) {
    m in names && forall x :: x in names && x != m ==> LexLess(m, x)
  }

  /** A finite non-empty set of strings has a least member. */
  lemma {:induction false} LeastExists(names: set<string>)
    requires names != {}
    ensures exists m :: IsLeast(m, names)
    decreases names
  {
    var x :| x in names;
    if names == {x} {
      assert IsLeast(x, names);
    } else {
      var rest := names - {x};
      LeastExists(rest);
      var m :| IsLeast(m, rest);
      LexLessTotal(m, x);
      if LexLess(m, x) {
        assert IsLeast(m, names);
      } else {
        forall y | y in names && y != x
          ensures LexLess(x, y)
        {
          if y != m {
            LexLessTransitive(x, m, y);
          }
        }
        assert IsLeast(x, names);
      }
    }
  }

  /** The members of `names` in ascending order: what `sorted` returns for a set of file names. */
  ghost function SortedOf(names: set<string>): (p: seq<string>)
    ensures StrictlySorted(p)
    ensures forall x :: x in p <==> x in names
    decreases names
  {
    if names == {} then []
    else
      LeastExists(names);
      var m :| IsLeast(m, names);
      [m] + SortedOf(names - {m})
  }

  /** Two ascending, repeat-free sequences with the same members are the same sequence. */
  lemma {:induction false} SortedUnique(p: seq<string>, q: seq<string>)
    requires StrictlySorted(p) && StrictlySorted(q)
    requires forall x :: x in p <==> x in q
    ensures p == q
    decreases |p|
  {
    assert p == [] <==> q == [] by {
      if p != [] {
        assert p[0] in p;
      }
      if q != [] {
        assert q[0] in q;
      }
    }
    if p != [] && q != [] {
      if p[0] != q[0] {
        assert p[0] in q;
        var j :| 0 <= j < |q| && q[j] == p[0];
        assert q[0] in p;
        var i :| 0 <= i < |p| && p[i] == q[0];
        LexLessAsymmetric(p[0], q[0]);
      }
      forall x
        ensures x in p[1..] <==> x in q[1..]
      {
        if x in p[1..] {
          var i :| 1 <= i < |p| && p[i] == x;
          LexLessIrreflexive(x);
          assert x in q;
          var j :| 0 <= j < |q| && q[j] == x;
          assert j != 0;
          assert q[1..][j - 1] == x;
        }
        if x in q[1..] {
          var j :| 1 <= j < |q| && q[j] == x;
          assert LexLess(q[0], x);
          LexLessIrreflexive(x);
          assert x in p;
          var i :| 0 <= i < |p| && p[i] == x;
          assert i != 0;
          assert p[1..][i - 1] == x;
        }
      }
      SortedUnique(p[1..], q[1..]);
    }
  }
}
