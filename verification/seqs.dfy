/** Sequence helpers for the list comprehensions the plugin uses. */
module Seqs {

  /** Python's `list(filter(p, s))`: the elements of `s` satisfying `p`, in order. */
  function Filter<T(==)>(p: T -> bool, s: seq<T>): (r: seq<T>)
    ensures |r| <= |s|
    ensures forall k :: 0 <= k < |r| ==> p(r[k])
    ensures forall k :: 0 <= k < |s| && p(s[k]) ==> s[k] in r
  {
    if |s| == 0 then []
    else (if p(s[0]) then [s[0]] else []) + Filter(p, s[1..])
  }

  /** Filtering loses nothing exactly when every element passes the test:
      `len(list(filter(p, s))) == len(s)` is the "all of them" check. */
  lemma {:induction false} FilterKeepsAll<T>(p: T -> bool, s: seq<T>)
    ensures |Filter(p, s)| == |s| <==> forall k :: 0 <= k < |s| ==> p(s[k])
  {
    if |s| > 0 {
      FilterKeepsAll(p, s[1..]);
      if |Filter(p, s)| == |s| {
        assert p(s[0]);
        forall k | 0 <= k < |s|
          ensures p(s[k])
        {
          if k > 0 {
            assert s[k] == s[1..][k - 1];
          }
        }
      }
      if forall k :: 0 <= k < |s| ==> p(s[k]) {
        assert forall k :: 0 <= k < |s[1..]| ==> p(s[1..][k]) by {
          forall k | 0 <= k < |s[1..]|
            ensures p(s[1..][k])
          {
            assert s[1..][k] == s[k + 1];
          }
        }
      }
    }
  }
}
