/** `Array.prototype.filter` and `Array.prototype.find` over sequences, with the
    facts the pages rely on: a filter keeps exactly the matching elements, in
    their original order, and a find returns the first match. */
module Seqs {
  import opened Wrappers

  /** `s.filter(p)`, built from the front of `s` one element at a time. */
  function Filter<T>(s: seq<T>, p: T -> bool): (r: seq<T>)
    ensures |r| <= |s|
    ensures forall i :: 0 <= i < |r| ==> r[i] in s && p(r[i])
    ensures forall j :: 0 <= j < |s| && p(s[j]) ==> s[j] in r
  {
    if |s| == 0 then []
    else Filter(s[..|s| - 1], p) + (if p(s[|s| - 1]) then [s[|s| - 1]] else [])
  }

  /** `r` is the selection of the positions `idx` of `s`: `idx` is strictly
      increasing, `r` lists `s` at those positions in order, and the positions
      are exactly those whose element satisfies `p`. */
  ghost predicate SelectedAt<T>(r: seq<T>, s: seq<T>, p: T -> bool, idx: seq<int>) {
    && |idx| == |r|
    && (forall k :: 0 <= k < |idx| ==> 0 <= idx[k] < |s| && r[k] == s[idx[k]] && p(s[idx[k]]))
    && (forall k, l :: 0 <= k < l < |idx| ==> idx[k] < idx[l])
    && (forall j :: 0 <= j < |s| && p(s[j]) ==> j in idx)
  }

  /** A selection from the front of `s` extends to all of `s` by the last
      element, when that element satisfies `p`. */
  lemma SelectedAtSnoc<T>(r0: seq<T>, s: seq<T>, p: T -> bool, idx0: seq<int>)
    requires |s| > 0 && SelectedAt(r0, s[..|s| - 1], p, idx0)
    ensures var n := |s| - 1;
            SelectedAt(r0 + (if p(s[n]) then [s[n]] else []), s, p, idx0 + (if p(s[n]) then [n] else []))
  {
    var n := |s| - 1;
    var front := s[..n];
    var r := r0 + (if p(s[n]) then [s[n]] else []);
    var idx := idx0 + (if p(s[n]) then [n] else []);
    forall k | 0 <= k < |idx|
      ensures 0 <= idx[k] < |s| && r[k] == s[idx[k]] && p(s[idx[k]])
    {
      if k < |idx0| {
        assert idx[k] == idx0[k] && r[k] == r0[k];
        assert front[idx0[k]] == s[idx0[k]];
      }
    }
    forall k, l | 0 <= k < l < |idx|
      ensures idx[k] < idx[l]
    {
      assert idx[k] == idx0[k];
    }
    forall j | 0 <= j < |s| && p(s[j])
      ensures j in idx
    {
      if j < n {
        assert front[j] == s[j];
        assert j in idx0;
      } else {
        assert idx[|idx0|] == n;
      }
    }
  }

  /** A filter is an order-preserving subsequence holding every match. */
  lemma {:induction false} FilterSelects<T>(s: seq<T>, p: T -> bool) returns (idx: seq<int>)
    ensures SelectedAt(Filter(s, p), s, p, idx)
  {
    if |s| == 0 {
      return [];
    }
    var n := |s| - 1;
    var idx0 := FilterSelects(s[..n], p);
    SelectedAtSnoc(Filter(s[..n], p), s, p, idx0);
    idx := idx0 + (if p(s[n]) then [n] else []);
  }

  /** Filtering distributes over concatenation. */
  lemma {:induction false} FilterAppend<T>(a: seq<T>, b: seq<T>, p: T -> bool)
    ensures Filter(a + b, p) == Filter(a, p) + Filter(b, p)
  {
    if |b| == 0 {
      assert a + b == a;
    } else {
      var n := |b| - 1;
      assert (a + b)[..|a + b| - 1] == a + b[..n];
      assert (a + b)[|a + b| - 1] == b[n];
      FilterAppend(a, b[..n], p);
    }
  }

  /** `s.findIndex(p)`, `None` for -1. */
  function FindFirst<T>(s: seq<T>, p: T -> bool): (r: Option<nat>)
    ensures r.Some? ==> r.value < |s| && p(s[r.value])
    ensures r.Some? ==> forall j :: 0 <= j < r.value ==> !p(s[j])
    ensures r.None? ==> forall j :: 0 <= j < |s| ==> !p(s[j])
  {
    if |s| == 0 then None
    else
      var n := |s| - 1;
      match FindFirst(s[..n], p)
      case Some(i) => Some(i)
      case None => if p(s[n]) then Some(n) else None
  }
}
