/** Permutations of a pool and the bijections built by zipping one against the pool. */
module Permutations {
  import opened Dicts

  /** `s` holds the same elements as `t`, with the same multiplicities. */
  predicate IsPermutationOf<T(==)>(s: seq<T>, t: seq<T>) {
    multiset(s) == multiset(t)
  }

  predicate Distinct<T(==)>(s: seq<T>) {
    forall i, j :: 0 <= i < j < |s| ==> s[i] != s[j]
  }

  /**
   * `pairs` maps the pool onto itself one to one: every pool member is a giver
   * exactly once and a receiver exactly once, and nothing outside the pool occurs.
   */
  ghost predicate IsBijectionOn<T(!new)>(pairs: seq<(T, T)>, pool: seq<T>) {
    && Distinct(Keys(pairs))
    && Distinct(Values(pairs))
    && (forall x :: x in Keys(pairs) <==> x in pool)
    && (forall x :: x in Values(pairs) <==> x in pool)
  }

  /** A sequence is duplicate-free exactly when no element has multiplicity above one. */
  lemma {:induction false} DistinctIffSingleMultiplicity<T>(s: seq<T>)
    ensures Distinct(s) <==> forall x :: multiset(s)[x] <= 1
  {
    if |s| > 0 {
      var rest := s[1..];
      assert s == [s[0]] + rest;
      assert multiset(s) == multiset{s[0]} + multiset(rest);
      DistinctIffSingleMultiplicity(rest);
      if Distinct(s) {
        assert Distinct(rest) by {
          forall i, j | 0 <= i < j < |rest| ensures rest[i] != rest[j] {
            assert rest[i] == s[i + 1] && rest[j] == s[j + 1];
          }
        }
        assert s[0] !in rest;
        forall x ensures multiset(s)[x] <= 1 {
          if x == s[0] {
            assert multiset(rest)[x] == 0;
          }
        }
      } else {
        var i, j :| 0 <= i < j < |s| && s[i] == s[j];
        var x := s[i];
        if i == 0 {
          assert rest[j - 1] == x;
          assert multiset(rest)[x] >= 1;
          assert multiset(s)[x] == 1 + multiset(rest)[x];
        } else {
          assert rest[i - 1] == x && rest[j - 1] == x;
          assert !Distinct(rest);
          var y :| multiset(rest)[y] > 1;
          assert multiset(s)[y] > 1;
        }
      }
    }
  }

  /** A permutation of a duplicate-free sequence is duplicate-free and has the same members. */
  lemma PermutationOfDistinct<T>(s: seq<T>, t: seq<T>)
    requires IsPermutationOf(s, t)
    requires Distinct(t)
    ensures Distinct(s)
    ensures |s| == |t|
    ensures forall x :: x in s <==> x in t
  {
    DistinctIffSingleMultiplicity(t);
    DistinctIffSingleMultiplicity(s);
    assert |s| == |multiset(s)| == |multiset(t)| == |t|;
    forall x ensures x in s <==> x in t {
      assert x in s <==> x in multiset(s);
      assert x in t <==> x in multiset(t);
    }
  }

  /**
   * Zipping a permutation of a duplicate-free pool against the pool in its fixed
   * order gives a bijection of the pool onto itself.
   */
  lemma ZipPermutationIsBijection<T(!new)>(pool: seq<T>, perm: seq<T>)
    requires Distinct(pool)
    requires IsPermutationOf(perm, pool)
    ensures IsBijectionOn(Zip(pool, perm), pool)
    ensures DistinctKeys(Zip(pool, perm))
  {
    PermutationOfDistinct(perm, pool);
    var z := Zip(pool, perm);
    assert Keys(z) == pool;
    assert Values(z) == perm;
  }
}
