/**
 * List comprehensions `[f(x) for x in s if p(x)]`, told by the positions they keep, and
 * sums of lengths, as the downloader's filters and batches need them.
 */
module Lists {

  /**
   * `r` is `[f(x) for x in s if p(x)]`: `idx` lists, in increasing order, exactly the
   * positions of `s` whose element satisfies `p`, and `r` holds `f` of those elements, in
   * that order and with their repeats.
   */
  ghost predicate KeptInOrder<T, U>(s: seq<T>, p: T -> bool, f: T -> U, r: seq<U>, idx: seq<nat>) {
    && |idx| == |r|
    && (forall k :: 0 <= k < |idx| ==> idx[k] < |s| && p(s[idx[k]]) && r[k] == f(s[idx[k]]))
    && (forall k, l :: 0 <= k < l < |idx| ==> idx[k] < idx[l])
    && (forall i :: 0 <= i < |s| && p(s[i]) ==> i in idx)
  }

  function Shift(idx: seq<nat>): (r: seq<nat>)
    ensures |r| == |idx|
    ensures forall k :: 0 <= k < |idx| ==> r[k] == idx[k] + 1
  {
    seq(|idx|, k requires 0 <= k < |idx| => idx[k] + 1)
  }

  /** Keeping or dropping one more element at the front. */
  lemma KeptCons<T, U>(s: seq<T>, p: T -> bool, f: T -> U, r: seq<U>, idx: seq<nat>) returns (idx': seq<nat>)
    requires s != [] && KeptInOrder(s[1..], p, f, r, idx)
    ensures KeptInOrder(s, p, f, (if p(s[0]) then [f(s[0])] else []) + r, idx')
  {
    var h: seq<nat> := if p(s[0]) then [0] else [];
    idx' := h + Shift(idx);
    KeptConsElements(s, p, f, r, idx, h, idx');
    KeptConsComplete(s, p, f, r, idx, h, idx');
    ShiftIncreasing(idx, h, idx');
  }

  lemma ShiftIncreasing(idx: seq<nat>, h: seq<nat>, idx': seq<nat>)
    requires forall k, l :: 0 <= k < l < |idx| ==> idx[k] < idx[l]
    requires (h == [] || h == [0]) && idx' == h + Shift(idx)
    ensures forall k, l :: 0 <= k < l < |idx'| ==> idx'[k] < idx'[l]
  {
    forall k, l | 0 <= k < l < |idx'| ensures idx'[k] < idx'[l] {
      if k >= |h| {
        assert idx'[k] == idx[k - |h|] + 1 && idx'[l] == idx[l - |h|] + 1;
      }
    }
  }

  lemma KeptConsElements<T, U>(s: seq<T>, p: T -> bool, f: T -> U, r: seq<U>, idx: seq<nat>, h: seq<nat>, idx': seq<nat>)
    requires s != [] && KeptInOrder(s[1..], p, f, r, idx)
    requires h == (if p(s[0]) then [0] else []) && idx' == h + Shift(idx)
    ensures forall k :: 0 <= k < |idx'| ==>
      idx'[k] < |s| && p(s[idx'[k]]) && ((if p(s[0]) then [f(s[0])] else []) + r)[k] == f(s[idx'[k]])
  {
    var r' := (if p(s[0]) then [f(s[0])] else []) + r;
    forall k | 0 <= k < |idx'| ensures idx'[k] < |s| && p(s[idx'[k]]) && r'[k] == f(s[idx'[k]]) {
      if k >= |h| {
        assert s[idx'[k]] == s[1..][idx[k - |h|]];
      }
    }
  }

  lemma KeptConsComplete<T, U>(s: seq<T>, p: T -> bool, f: T -> U, r: seq<U>, idx: seq<nat>, h: seq<nat>, idx': seq<nat>)
    requires s != [] && KeptInOrder(s[1..], p, f, r, idx)
    requires h == (if p(s[0]) then [0] else []) && idx' == h + Shift(idx)
    ensures forall i :: 0 <= i < |s| && p(s[i]) ==> i in idx'
  {
    forall i | 0 <= i < |s| && p(s[i]) ensures i in idx' {
      if i > 0 {
        assert s[1..][i - 1] == s[i];
        var j :| 0 <= j < |idx| && idx[j] == i - 1;
        assert idx'[|h| + j] == i;
      }
    }
  }

  /** Keeping or dropping one more element at the back. */
  lemma KeptSnoc<T, U>(s: seq<T>, x: T, p: T -> bool, f: T -> U, r: seq<U>, idx: seq<nat>) returns (idx': seq<nat>)
    requires KeptInOrder(s, p, f, r, idx)
    ensures KeptInOrder(s + [x], p, f, r + (if p(x) then [f(x)] else []), idx')
  {
    idx' := idx + (if p(x) then [|s|] else []);
    var s' := s + [x];
    forall k | 0 <= k < |idx| ensures s'[idx'[k]] == s[idx[k]] {
    }
    forall i | 0 <= i < |s'| && p(s'[i]) ensures i in idx' {
      if i < |s| {
        assert s'[i] == s[i];
        var j :| 0 <= j < |idx| && idx[j] == i;
        assert idx'[j] == i;
      }
    }
  }

  /** Where the first element sits among the kept positions: first if kept, nowhere if not. */
  lemma KeptHead<T, U>(s: seq<T>, p: T -> bool, f: T -> U, r: seq<U>, idx: seq<nat>)
    requires s != [] && KeptInOrder(s, p, f, r, idx)
    ensures p(s[0]) ==> |idx| > 0 && idx[0] == 0 && r[0] == f(s[0])
    ensures forall k :: (if p(s[0]) then 1 else 0) <= k < |idx| ==> idx[k] > 0
  {
    if p(s[0]) {
      var m :| 0 <= m < |idx| && idx[m] == 0;
      assert idx[0] <= idx[m];
      forall k | 1 <= k < |idx| ensures idx[k] > 0 {
        assert idx[0] < idx[k];
      }
    } else {
      forall k | 0 <= k < |idx| ensures idx[k] > 0 {
        assert p(s[idx[k]]);
      }
    }
  }

  /** The positions after the first `d`, each moved one to the left. */
  function Unshift(idx: seq<nat>, d: nat): (r: seq<nat>)
    requires d <= |idx| && forall k :: d <= k < |idx| ==> idx[k] > 0
    ensures |r| == |idx| - d
    ensures forall k :: 0 <= k < |r| ==> r[k] + 1 == idx[k + d]
  {
    seq(|idx| - d, k requires 0 <= k < |idx| - d => idx[k + d] - 1)
  }

  /** Taking the first element off: what the rest of the list keeps. */
  lemma KeptUncons<T, U>(s: seq<T>, p: T -> bool, f: T -> U, r: seq<U>, idx: seq<nat>)
    returns (rest: seq<U>, idx': seq<nat>)
    requires s != [] && KeptInOrder(s, p, f, r, idx)
    ensures r == (if p(s[0]) then [f(s[0])] else []) + rest
    ensures KeptInOrder(s[1..], p, f, rest, idx')
  {
    KeptHead(s, p, f, r, idx);
    var d := if p(s[0]) then 1 else 0;
    rest := r[d..];
    idx' := Unshift(idx, d);
    KeptTail(s, p, f, r, idx, d, rest, idx');
    if d == 1 {
      assert r == [r[0]] + r[1..];
    } else {
      assert r == r[0..];
    }
  }

  lemma KeptTail<T, U>(s: seq<T>, p: T -> bool, f: T -> U, r: seq<U>, idx: seq<nat>,
                       d: nat, rest: seq<U>, idx': seq<nat>)
    requires s != [] && KeptInOrder(s, p, f, r, idx)
    requires d == (if p(s[0]) then 1 else 0) && d <= |idx|
    requires forall k :: d <= k < |idx| ==> idx[k] > 0
    requires rest == r[d..]
    requires |idx'| == |idx| - d && forall k :: 0 <= k < |idx'| ==> idx'[k] + 1 == idx[k + d]
    ensures KeptInOrder(s[1..], p, f, rest, idx')
  {
    forall k | 0 <= k < |idx'|
      ensures idx'[k] < |s[1..]| && p(s[1..][idx'[k]]) && rest[k] == f(s[1..][idx'[k]])
    {
      assert s[1..][idx'[k]] == s[idx[k + d]];
    }
    forall k, l | 0 <= k < l < |idx'| ensures idx'[k] < idx'[l] {
      assert idx[k + d] < idx[l + d];
    }
    KeptTailComplete(s, p, idx, d, idx');
  }

  lemma KeptTailComplete<T>(s: seq<T>, p: T -> bool, idx: seq<nat>, d: nat, idx': seq<nat>)
    requires s != [] && d == (if p(s[0]) then 1 else 0) && d <= |idx|
    requires forall i :: 0 <= i < |s| && p(s[i]) ==> i in idx
    requires d == 1 ==> idx[0] == 0
    requires |idx'| == |idx| - d && forall k :: 0 <= k < |idx'| ==> idx'[k] + 1 == idx[k + d]
    ensures forall i :: 0 <= i < |s[1..]| && p(s[1..][i]) ==> i in idx'
  {
    forall i | 0 <= i < |s[1..]| && p(s[1..][i]) ensures i in idx' {
      assert s[1..][i] == s[i + 1];
      var j :| 0 <= j < |idx| && idx[j] == i + 1;
      assert d <= j;
      assert idx'[j - d] == i;
    }
  }

  /** Every kept position lies inside the input. */
  lemma KeptWithin<T, U>(s: seq<T>, p: T -> bool, f: T -> U, r: seq<U>, idx: seq<nat>)
    requires KeptInOrder(s, p, f, r, idx)
    ensures idx != [] ==> idx[0] < |s|
  {
  }

  /** The positions determine the list: two lists kept in order from the same input are equal. */
  lemma {:induction false} KeptInOrderUnique<T, U>(s: seq<T>, p: T -> bool, f: T -> U,
                                                  r1: seq<U>, idx1: seq<nat>, r2: seq<U>, idx2: seq<nat>)
    requires KeptInOrder(s, p, f, r1, idx1) && KeptInOrder(s, p, f, r2, idx2)
    ensures r1 == r2
    decreases |s|
  {
    if s == [] {
      KeptWithin(s, p, f, r1, idx1);
      KeptWithin(s, p, f, r2, idx2);
    } else {
      var rest1, i1 := KeptUncons(s, p, f, r1, idx1);
      var rest2, i2 := KeptUncons(s, p, f, r2, idx2);
      KeptInOrderUnique(s[1..], p, f, rest1, i1, rest2, i2);
    }
  }

  // ---------------------------------------------------------------------------
  // Sums of lengths

  function Sum(xs: seq<nat>): nat {
    if xs == [] then 0 else xs[0] + Sum(xs[1..])
  }

  /** `[xs[i] for i in picks]` */
  function Pick(xs: seq<nat>, picks: seq<nat>): (r: seq<nat>)
    requires forall k :: 0 <= k < |picks| ==> picks[k] < |xs|
    ensures |r| == |picks|
  {
    if picks == [] then [] else [xs[picks[0]]] + Pick(xs, picks[1..])
  }

  /** Emptying one entry takes its value off the sum. */
  lemma {:induction false} SumZeroAt(xs: seq<nat>, m: nat)
    requires m < |xs|
    ensures Sum(xs[m := 0]) + xs[m] == Sum(xs)
    decreases |xs|
  {
    if m > 0 {
      assert xs[m := 0][1..] == xs[1..][m - 1 := 0];
      SumZeroAt(xs[1..], m - 1);
    } else {
      assert xs[0 := 0][1..] == xs[1..];
    }
  }

  /** Entries picked at distinct positions sum to no more than the whole. */
  lemma {:induction false} SumPicked(xs: seq<nat>, picks: seq<nat>)
    requires forall k :: 0 <= k < |picks| ==> picks[k] < |xs|
    requires forall k, l :: 0 <= k < l < |picks| ==> picks[k] != picks[l]
    ensures Sum(Pick(xs, picks)) <= Sum(xs)
    decreases |picks|
  {
    if picks != [] {
      var m := picks[0];
      var ys := xs[m := 0];
      SumPicked(ys, picks[1..]);
      SamePicks(xs, ys, picks[1..], m);
      SumZeroAt(xs, m);
    }
  }

  lemma {:induction false} SamePicks(xs: seq<nat>, ys: seq<nat>, picks: seq<nat>, m: nat)
    requires m < |xs| && ys == xs[m := 0]
    requires forall k :: 0 <= k < |picks| ==> picks[k] < |xs| && picks[k] != m
    ensures Pick(xs, picks) == Pick(ys, picks)
    decreases |picks|
  {
    if picks != [] {
      SamePicks(xs, ys, picks[1..], m);
    }
  }
}
