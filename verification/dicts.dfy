/**
 * Python dictionaries whose iteration order matters, as insertion-ordered
 * association lists, and the `zip` builtin.
 */
module Dicts {
  import opened Wrappers

  /** A dict's `items()`, in insertion order. */
  type Dict<K, V> = seq<(K, V)>

  /** `list(d.keys())`. */
  function Keys<K, V>(d: Dict<K, V>): (ks: seq<K>)
    ensures |ks| == |d|
    ensures forall i :: 0 <= i < |d| ==> ks[i] == d[i].0
  {
    if |d| == 0 then [] else [d[0].0] + Keys(d[1..])
  }

  /** `list(d.values())`. */
  function Values<K, V>(d: Dict<K, V>): (vs: seq<V>)
    ensures |vs| == |d|
    ensures forall i :: 0 <= i < |d| ==> vs[i] == d[i].1
  {
    if |d| == 0 then [] else [d[0].1] + Values(d[1..])
  }

  /** No key occurs twice: the invariant every Python dict keeps. */
  predicate DistinctKeys<K(==), V>(d: Dict<K, V>) {
    forall i, j :: 0 <= i < j < |d| ==> d[i].0 != d[j].0
  }

  /** `d.get(k)`: the value stored under `k`, if any. */
  function Get<K(==), V>(d: Dict<K, V>, k: K): (r: Option<V>)
    ensures r.None? <==> forall i :: 0 <= i < |d| ==> d[i].0 != k
  {
    if |d| == 0 then None
    else if d[0].0 == k then Some(d[0].1)
    else
      assert forall i :: 1 <= i < |d| ==> d[i] == d[1..][i - 1];
      Get(d[1..], k)
  }

  /** In a dict, the value `Get` finds under a key is the one stored beside it. */
  lemma {:induction false} GetFindsItem<K, V>(d: Dict<K, V>, i: nat)
    requires DistinctKeys(d)
    requires i < |d|
    ensures Get(d, d[i].0) == Some(d[i].1)
  {
    if i > 0 {
      assert d[0].0 != d[i].0;
      assert d[1..][i - 1] == d[i];
      GetFindsItem(d[1..], i - 1);
    }
  }

  /** A value `Get` returns is stored beside its key somewhere in `d`. */
  lemma {:induction false} GetHasItem<K, V>(d: Dict<K, V>, k: K, v: V)
    requires Get(d, k) == Some(v)
    ensures exists i :: 0 <= i < |d| && d[i] == (k, v)
  {
    if d[0].0 != k {
      GetHasItem(d[1..], k, v);
      var i :| 0 <= i < |d[1..]| && d[1..][i] == (k, v);
      assert d[i + 1] == (k, v);
    }
  }

  /** `d.get(k, default)`. */
  function GetOr<K(==), V>(d: Dict<K, V>, k: K, default: V): V {
    match Get(d, k)
    case Some(v) => v
    case None => default
  }

  /**
   * `d[k] = v`: afterwards `k` holds `v` and every other key is unchanged; a
   * present key keeps its position, an absent one is appended.
   */
  function Put<K(==,!new), V>(d: Dict<K, V>, k: K, v: V): (r: Dict<K, V>)
    ensures Get(r, k) == Some(v)
    ensures forall k' :: k' != k ==> Get(r, k') == Get(d, k')
    ensures Get(d, k).None? ==> r == d + [(k, v)]
    ensures Get(d, k).Some? ==> |r| == |d| && forall i :: 0 <= i < |d| ==> r[i].0 == d[i].0
  {
    if |d| == 0 then [(k, v)]
    else if d[0].0 == k then
      var r := [(k, v)] + d[1..];
      assert r[1..] == d[1..];
      r
    else
      var rest := Put(d[1..], k, v);
      var r := [d[0]] + rest;
      assert r[1..] == rest;
      assert d == [d[0]] + d[1..];
      r
  }

  /** Assigning into a dict keeps its keys distinct. */
  lemma PutKeepsKeysDistinct<K(!new), V>(d: Dict<K, V>, k: K, v: V)
    requires DistinctKeys(d)
    ensures DistinctKeys(Put(d, k, v))
  {
    var r := Put(d, k, v);
    if Get(d, k).None? {
      assert forall i :: 0 <= i < |d| ==> r[i] == d[i];
    } else {
      assert forall i :: 0 <= i < |r| ==> r[i].0 == d[i].0;
    }
  }

  /**
   * `dict(pairs)` and `{k: v for k, v in pairs}`: one entry per key occurring in
   * `pairs`; a later pair overwrites an earlier one with the same key.
   */
  function FromPairs<K(==,!new), V>(pairs: seq<(K, V)>): (d: Dict<K, V>)
    ensures DistinctKeys(d)
    ensures forall i :: 0 <= i < |pairs| ==> Get(d, pairs[i].0).Some?
    decreases |pairs|
  {
    if |pairs| == 0 then []
    else
      var init := pairs[..|pairs| - 1];
      var last := pairs[|pairs| - 1];
      var prev := FromPairs(init);
      PutKeepsKeysDistinct(prev, last.0, last.1);
      assert forall i :: 0 <= i < |init| ==> init[i] == pairs[i];
      Put(prev, last.0, last.1)
  }

  /** `pairs[i]` is the last pair in `pairs` whose key is `pairs[i].0`. */
  predicate IsLastForKey<K(==), V>(pairs: seq<(K, V)>, i: int) {
    && 0 <= i < |pairs|
    && forall j :: i < j < |pairs| ==> pairs[j].0 != pairs[i].0
  }

  /**
   * The value `dict(pairs)` holds under a key is the value of the last pair
   * carrying that key: a later pair overwrites every earlier one.
   */
  lemma FromPairsKeepsLastValue<K(!new), V>(pairs: seq<(K, V)>, k: K, v: V)
    ensures Get(FromPairs(pairs), k) == Some(v) <==>
      exists i :: IsLastForKey(pairs, i) && pairs[i] == (k, v)
  {
    if Get(FromPairs(pairs), k) == Some(v) {
      FoundValueIsLast(pairs, k, v);
    }
    if exists i :: IsLastForKey(pairs, i) && pairs[i] == (k, v) {
      var i :| IsLastForKey(pairs, i) && pairs[i] == (k, v);
      LastPairWins(pairs, i);
    }
  }

  /** The last pair carrying a key gives that key its value. */
  lemma {:induction false} LastPairWins<K(!new), V>(pairs: seq<(K, V)>, i: int)
    requires IsLastForKey(pairs, i)
    ensures Get(FromPairs(pairs), pairs[i].0) == Some(pairs[i].1)
    decreases |pairs|
  {
    var n := |pairs| - 1;
    var init := pairs[..n];
    FromPairsSnoc(pairs);
    if i < n {
      LastInPairsIsLastInInit(pairs, i);
      LastPairWins(init, i);
      assert Get(FromPairs(init), pairs[i].0) == Some(pairs[i].1);
    }
  }

  /** The last pair for a key, when it is not the final pair, is also last among the pairs before the final one. */
  lemma LastInPairsIsLastInInit<K(!new), V>(pairs: seq<(K, V)>, i: int)
    requires IsLastForKey(pairs, i) && i < |pairs| - 1
    ensures IsLastForKey(pairs[..|pairs| - 1], i) && pairs[..|pairs| - 1][i] == pairs[i]
    ensures pairs[|pairs| - 1].0 != pairs[i].0
  {
    var init := pairs[..|pairs| - 1];
    assert forall j :: 0 <= j < |init| ==> init[j] == pairs[j];
  }

  /** A value found in `dict(pairs)` comes from the last pair carrying its key. */
  lemma {:induction false} FoundValueIsLast<K(!new), V>(pairs: seq<(K, V)>, k: K, v: V)
    requires Get(FromPairs(pairs), k) == Some(v)
    ensures exists i :: IsLastForKey(pairs, i) && pairs[i] == (k, v)
    decreases |pairs|
  {
    FoundKeyHasPairs(pairs, k, v);
    var n := |pairs| - 1;
    var init := pairs[..n];
    FromPairsSnoc(pairs);
    if pairs[n].0 == k {
      assert pairs[n] == (k, v);
      assert IsLastForKey(pairs, n);
    } else {
      assert Get(FromPairs(init), k) == Some(v);
      FoundValueIsLast(init, k, v);
      var i :| IsLastForKey(init, i) && init[i] == (k, v);
      LastInInitStaysLast(pairs, i);
    }
  }

  /** Only a non-empty list of pairs gives a dict in which a lookup succeeds. */
  lemma FoundKeyHasPairs<K(!new), V>(pairs: seq<(K, V)>, k: K, v: V)
    requires Get(FromPairs(pairs), k) == Some(v)
    ensures |pairs| > 0
  {
  }

  /** `dict(pairs)` assigns the last pair into the dict of the pairs before it. */
  lemma FromPairsSnoc<K(!new), V>(pairs: seq<(K, V)>)
    requires |pairs| > 0
    ensures FromPairs(pairs) == Put(FromPairs(pairs[..|pairs| - 1]), pairs[|pairs| - 1].0, pairs[|pairs| - 1].1)
  {
  }

  /** The last pair for a key among all but the final pair stays last when the final pair has another key. */
  lemma LastInInitStaysLast<K(!new), V>(pairs: seq<(K, V)>, i: int)
    requires |pairs| > 0
    requires IsLastForKey(pairs[..|pairs| - 1], i)
    requires pairs[|pairs| - 1].0 != pairs[..|pairs| - 1][i].0
    ensures IsLastForKey(pairs, i) && pairs[i] == pairs[..|pairs| - 1][i]
  {
    var init := pairs[..|pairs| - 1];
    assert forall j :: 0 <= j < |init| ==> init[j] == pairs[j];
  }

  /** A list of pairs with distinct keys becomes a dict with the same items in the same order. */
  lemma {:induction false} FromDistinctPairs<K(!new), V>(pairs: seq<(K, V)>)
    requires DistinctKeys(pairs)
    ensures FromPairs(pairs) == pairs
    decreases |pairs|
  {
    if |pairs| > 0 {
      var init := pairs[..|pairs| - 1];
      var last := pairs[|pairs| - 1];
      assert DistinctKeys(init);
      FromDistinctPairs(init);
      assert Get(init, last.0).None?;
      assert init + [last] == pairs;
    }
  }

  /** `zip(a, b)`: pairs up positions, stopping at the shorter sequence. */
  function Zip<A, B>(a: seq<A>, b: seq<B>): (r: seq<(A, B)>)
    ensures |r| == if |a| < |b| then |a| else |b|
    ensures forall i :: 0 <= i < |r| ==> r[i] == (a[i], b[i])
  {
    if |a| == 0 || |b| == 0 then []
    else [(a[0], b[0])] + Zip(a[1..], b[1..])
  }
}
