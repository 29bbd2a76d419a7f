/** Sequence helpers: JavaScript's `Array.prototype.filter` and the
    "exactly one element matches" condition the manifest lookups use. */
module Seqs {

  /** The elements of `s` that satisfy `keep`, in their original order */
  function Filter<T>(s: seq<T>, keep: T -> bool): (r: seq<T>)
    ensures |r| <= |s|
    ensures forall i :: 0 <= i < |r| ==> keep(r[i]) && r[i] in s
    ensures forall i :: 0 <= i < |s| && keep(s[i]) ==> s[i] in r
  {
    if s == [] then []
    else if keep(s[0]) then [s[0]] + Filter(s[1..], keep)
    else Filter(s[1..], keep)
  }

  /** Index `k` is the one and only position of `s` whose element satisfies `keep` */
  ghost predicate SoleMatch<T>(s: seq<T>, keep: T -> bool, k: int) {
    && 0 <= k < |s|
    && keep(s[k])
    && forall j :: 0 <= j < |s| && j != k ==> !keep(s[j])
  }

  /** When exactly one element matches, the filter keeps exactly that element. */
  lemma {:induction false} FilterOfSoleMatch<T>(s: seq<T>, keep: T -> bool, k: int)
    requires SoleMatch(s, keep, k)
    ensures Filter(s, keep) == [s[k]]
  {
    if k == 0 {
      NoneKept(s[1..], keep);
    } else {
      assert SoleMatch(s[1..], keep, k - 1);
      FilterOfSoleMatch(s[1..], keep, k - 1);
    }
  }

  /** No element matches: the filter is empty. */
  lemma {:induction false} NoneKept<T>(s: seq<T>, keep: T -> bool)
    requires forall j :: 0 <= j < |s| ==> !keep(s[j])
    ensures Filter(s, keep) == []
  {
    if s != [] {
      NoneKept(s[1..], keep);
    }
  }

  /** A filter of length one means exactly one element matches: no more, no fewer. */
  lemma {:induction false} SoleMatchOfFilter<T>(s: seq<T>, keep: T -> bool)
    requires |Filter(s, keep)| == 1
    ensures exists k :: SoleMatch(s, keep, k)
  {
    if keep(s[0]) {
      var tail := Filter(s[1..], keep);
      assert |tail| == 0;
      forall j | 0 < j < |s|
        ensures !keep(s[j])
      {
        assert s[1..][j - 1] == s[j];
      }
      assert SoleMatch(s, keep, 0);
    } else {
      SoleMatchOfFilter(s[1..], keep);
      var k :| SoleMatch(s[1..], keep, k);
      forall j | 0 <= j < |s| && j != k + 1
        ensures !keep(s[j])
      {
        if j > 0 {
          assert s[1..][j - 1] == s[j];
        }
      }
      assert SoleMatch(s, keep, k + 1);
    }
  }

  /** The two lemmas above together: a one-element filter is the same thing
      as a unique match, and then it holds the matching element. */
  lemma FilterIsSingleton<T>(s: seq<T>, keep: T -> bool)
    ensures |Filter(s, keep)| == 1 <==> exists k :: SoleMatch(s, keep, k)
    ensures forall k :: SoleMatch(s, keep, k) ==> Filter(s, keep) == [s[k]]
  {
    forall k | SoleMatch(s, keep, k)
      ensures Filter(s, keep) == [s[k]]
    {
      FilterOfSoleMatch(s, keep, k);
    }
    if |Filter(s, keep)| == 1 {
      SoleMatchOfFilter(s, keep);
    }
  }
}
