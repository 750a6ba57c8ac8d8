/** A stable sort of positions by a key, highest key first: what Python's
    `sorted(..., key=..., reverse=True)` does, which keeps equal keys in their
    input order. */
module Ranking {

  /** Position `i` is ranked before position `j`: a higher key, or an equal key
      and an earlier position. */
  ghost predicate Before(keys: seq<real>, i: nat, j: nat)
    requires i < |keys| && j < |keys|
  {
    keys[i] > keys[j] || (keys[i] == keys[j] && i < j)
  }

  ghost predicate RankedFrom(keys: seq<real>, lo: nat, r: seq<nat>)
    requires lo <= |keys|
  {
    && |r| == |keys| - lo
    && (forall p :: 0 <= p < |r| ==> lo <= r[p] < |keys|)
    && (forall i :: lo <= i < |keys| ==> i in r)
    && (forall p, q :: 0 <= p < q < |r| ==> Before(keys, r[p], r[q]))
  }

  /** `r` lists every position of `keys` exactly once, in `Before` order. */
  ghost predicate IsRanking(keys: seq<real>, r: seq<nat>)
  {
    RankedFrom(keys, 0, r)
  }

  /** The ranking of all positions of `keys`. */
  function Rank(keys: seq<real>): (r: seq<nat>)
    ensures IsRanking(keys, r)
  {
    RankFrom(keys, 0)
  }

  /** The ranking of positions `lo` .. `|keys| - 1`. */
  function RankFrom(keys: seq<real>, lo: nat): (r: seq<nat>)
    requires lo <= |keys|
    ensures RankedFrom(keys, lo, r)
    decreases |keys| - lo
  {
    if lo == |keys| then []
    else
      var rest := RankFrom(keys, lo + 1);
      Insert(keys, lo, rest)
  }

  /** Puts position `i` in front of the first position whose key is not higher. */
  function Insert(keys: seq<real>, i: nat, s: seq<nat>): (r: seq<nat>)
    requires i < |keys|
    requires forall p :: 0 <= p < |s| ==> i < s[p] < |keys|
    requires forall p, q :: 0 <= p < q < |s| ==> Before(keys, s[p], s[q])
    ensures |r| == |s| + 1
    ensures forall p :: 0 <= p < |r| ==> i <= r[p] < |keys|
    ensures forall x :: x in r <==> x == i || x in s
    ensures forall p, q :: 0 <= p < q < |r| ==> Before(keys, r[p], r[q])
    decreases |s|
  {
    if s == [] || keys[s[0]] <= keys[i] then
      assert forall q :: 0 <= q < |s| ==> Before(keys, i, s[q]) by {
        forall q | 0 <= q < |s| ensures Before(keys, i, s[q]) {
          if q > 0 { assert Before(keys, s[0], s[q]); }
        }
      }
      [i] + s
    else
      var t := Insert(keys, i, s[1..]);
      assert forall q :: 0 <= q < |t| ==> Before(keys, s[0], t[q]) by {
        forall q | 0 <= q < |t| ensures Before(keys, s[0], t[q]) {
          assert t[q] in t;
          if t[q] != i {
            var k :| 1 <= k < |s| && s[k] == t[q];
          }
        }
      }
      [s[0]] + t
  }

  /** No position is ranked twice. */
  lemma RankDistinct(keys: seq<real>, r: seq<nat>)
    requires IsRanking(keys, r)
    ensures forall p, q :: 0 <= p < q < |r| ==> r[p] != r[q]
  {
  }
}
