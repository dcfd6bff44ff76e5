/** The two-year look-back window: Python's `history[-2:]` slice. */
module Window {

  /** Number of most recent history entries a giver may not draw again. */
  const Size: nat := 2

  /** `s[-2:]`: the last two entries of `s`, or all of `s` when it is shorter. */
  function Recent<T>(s: seq<T>): (r: seq<T>)
    ensures |r| == if |s| < Size then |s| else Size
    ensures r == s[|s| - |r|..]
  {
    if |s| <= Size then s else s[|s| - Size..]
  }

  /** Membership in the window is membership among the last two positions of `s`. */
  lemma InRecentIff<T>(s: seq<T>, x: T)
    ensures x in Recent(s) <==> exists i :: |s| - Size <= i < |s| && 0 <= i && s[i] == x
  {
    var r := Recent(s);
    var off := |s| - |r|;
    assert off == if |s| < Size then 0 else |s| - Size;
    if x in r {
      var k :| 0 <= k < |r| && r[k] == x;
      assert s[off + k] == x && |s| - Size <= off + k;
    }
    if exists i :: |s| - Size <= i < |s| && 0 <= i && s[i] == x {
      var i :| |s| - Size <= i < |s| && 0 <= i && s[i] == x;
      assert r[i - off] == x;
    }
  }

  /** An entry that occurs only before the last two positions is outside the window. */
  lemma OlderEntryOutsideWindow<T>(s: seq<T>, x: T)
    requires forall i :: 0 <= i < |s| && s[i] == x ==> i < |s| - Size
    ensures x !in Recent(s)
  {
    InRecentIff(s, x);
  }
}
