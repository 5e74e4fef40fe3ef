/** Highlight vectors: one flag per element (menu item or page button), true when the
    element carries the "selected" class or the active button colours. */
module Highlight {

  /** The pattern in which element k of n is marked and no other; an index outside
      [0, n) marks nothing. */
  function OneHot(k: int, n: nat): (r: seq<bool>)
    ensures |r| == n
  {
    seq(n, j => j == k)
  }

  /** Number of marked elements. */
  function CountTrue(s: seq<bool>): nat
  {
    if s == [] then 0 else CountTrue(s[..|s| - 1]) + (if s[|s| - 1] then 1 else 0)
  }

  /** Exactly one element is marked when k is a valid index, none otherwise. */
  lemma {:induction false} OneHotCount(k: int, n: nat)
    ensures CountTrue(OneHot(k, n)) == if 0 <= k < n then 1 else 0
  {
    if n > 0 {
      OneHotCount(k, n - 1);
      assert OneHot(k, n)[..n - 1] == OneHot(k, n - 1);
    }
  }

  /** A vector with exactly one mark, at k, is the one-hot vector for k: so the
      count above pins down which element is marked. */
  lemma {:induction false} SingleMarkIsOneHot(s: seq<bool>, k: nat)
    requires k < |s| && s[k] && CountTrue(s) == 1
    ensures s == OneHot(k, |s|)
  {
    var n := |s|;
    if k == n - 1 {
      NoMarks(s[..n - 1]);
    } else {
      assert s[..n - 1][k];
      MarkCounts(s[..n - 1], k);
      assert !s[n - 1];
      SingleMarkIsOneHot(s[..n - 1], k);
    }
  }

  /** A vector with no marks counted has none at all. */
  lemma {:induction false} NoMarks(s: seq<bool>)
    requires CountTrue(s) == 0
    ensures forall j :: 0 <= j < |s| ==> !s[j]
  {
    if s != [] {
      NoMarks(s[..|s| - 1]);
      assert forall j :: 0 <= j < |s| - 1 ==> s[j] == s[..|s| - 1][j];
    }
  }

  /** A mark at k contributes to the count. */
  lemma {:induction false} MarkCounts(s: seq<bool>, k: nat)
    requires k < |s| && s[k]
    ensures CountTrue(s) >= 1
  {
    if k < |s| - 1 {
      assert s[..|s| - 1][k];
      MarkCounts(s[..|s| - 1], k);
    }
  }
}
