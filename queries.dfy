/**
 * The row-set operations behind the store's SQL queries: `select ... where p`
 * (Where), taking the first row of such a result (First), and the pairwise
 * constraints a table declares (Pairwise), with the facts the store needs
 * about each.
 */
module Queries {
  import opened Options

  /** The rows of `s` satisfying `p`, in table order. */
  function Where<T(!new)>(s: seq<T>, p: T -> bool): (r: seq<T>)
    ensures forall x :: multiset(r)[x] == if p(x) then multiset(s)[x] else 0
    ensures forall x :: x in r <==> x in s && p(x)
    ensures |r| <= |s|
  {
    if s == [] then []
    else
      assert s == [s[0]] + s[1..];
      (if p(s[0]) then [s[0]] else []) + Where(s[1..], p)
  }

  /** The first row of `s` satisfying `p`: what `const [row] = await db.select()...where(p)` binds. */
  function First<T(!new)>(s: seq<T>, p: T -> bool): (r: Option<T>)
    ensures r.Some? ==> r.value in s && p(r.value)
    ensures r.None? <==> forall x :: x in s ==> !p(x)
  {
    if s == [] then None
    else if p(s[0]) then Some(s[0])
    else First(s[1..], p)
  }

  /** Every two rows of `s`, the earlier one first, are related by `R` (a unique constraint, for instance). */
  ghost predicate Pairwise<T>(s: seq<T>, R: (T, T) -> bool) {
    forall i, j :: 0 <= i < j < |s| ==> R(s[i], s[j])
  }

  /** Appending a row related to every existing one keeps a pairwise constraint. */
  lemma PairwiseAppend<T>(s: seq<T>, x: T, R: (T, T) -> bool)
    requires Pairwise(s, R)
    requires forall y :: y in s ==> R(y, x)
    ensures Pairwise(s + [x], R)
  {
    forall i, j | 0 <= i < j < |s + [x]|
      ensures R((s + [x])[i], (s + [x])[j])
    {
      if j == |s| {
        assert (s + [x])[i] == s[i] && s[i] in s;
      }
    }
  }

  /** Filtering a table keeps every pairwise constraint it satisfied. */
  lemma {:induction false} WherePairwise<T(!new)>(s: seq<T>, p: T -> bool, R: (T, T) -> bool)
    requires Pairwise(s, R)
    ensures Pairwise(Where(s, p), R)
  {
    if s != [] {
      var rest := Where(s[1..], p);
      assert Pairwise(s[1..], R) by {
        forall i, j | 0 <= i < j < |s[1..]| ensures R(s[1..][i], s[1..][j]) {
          assert s[1..][i] == s[i + 1] && s[1..][j] == s[j + 1];
        }
      }
      WherePairwise(s[1..], p, R);
      if p(s[0]) {
        forall y | y in rest ensures R(s[0], y) {
          var k :| 0 <= k < |s[1..]| && s[1..][k] == y;
          assert s[k + 1] == y;
        }
        var r := [s[0]] + rest;
        forall i, j | 0 <= i < j < |r| ensures R(r[i], r[j]) {
          if i == 0 {
            assert r[j] == rest[j - 1] && rest[j - 1] in rest;
          } else {
            assert r[i] == rest[i - 1] && r[j] == rest[j - 1];
          }
        }
        assert Where(s, p) == r;
      } else {
        assert Where(s, p) == rest;
      }
    }
  }
}
