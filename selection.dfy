/** The subscribers' in-place selection (cmd/subscriber/main.go, and the
    identical copies in cmd/kafka_sub/main.go and cmd/mqtt_sub/main.go):
    Lomuto `partition`, the iterative `quickselect` that narrows [l, r]
    around the wanted index, and `quantile`, which selects and then reads
    one element. Samples are modelled as reals (float64 without NaN). */
module Selection {

  // ---------------------------------------------------------------------
  // Shapes of a slice.

  /** Outside [l, r], `s` and `t` hold the same elements. */
  predicate SameOutside(s: seq<real>, t: seq<real>, l: int, r: int)
  {
    |s| == |t| && forall x :: 0 <= x < |s| && (x < l || r < x) ==> s[x] == t[x]
  }

  /** `s[p]` is a pivot for [l, r]: smaller elements before it, the others
      after it. */
  predicate PivotAt(s: seq<real>, l: int, r: int, p: int)
  {
    0 <= l <= p <= r < |s|
    && (forall x :: l <= x < p ==> s[x] < s[p])
    && (forall x :: p < x <= r ==> s[p] <= s[x])
  }

  /** No element before `l` exceeds an element from `l` on. */
  predicate LowSettled(s: seq<real>, l: int)
  {
    forall x, y :: 0 <= x < l <= y < |s| ==> s[x] <= s[y]
  }

  /** No element up to `r` exceeds an element after `r`. */
  predicate HighSettled(s: seq<real>, r: int)
  {
    forall x, y :: 0 <= x <= r < y < |s| ==> s[x] <= s[y]
  }

  /** `s[k]` sits where it would in sorted order: nothing before it is
      larger and nothing after it is smaller. */
  predicate SplitAt(s: seq<real>, k: int)
  {
    0 <= k < |s|
    && (forall j :: 0 <= j < k ==> s[j] <= s[k])
    && (forall j :: k < j < |s| ==> s[k] <= s[j])
  }

  // ---------------------------------------------------------------------
  // Permutations.

  /** Exchanging two elements permutes the slice. */
  lemma SwapPerm(s: seq<real>, i: int, j: int)
    requires 0 <= i < |s| && 0 <= j < |s|
    ensures multiset(s[i := s[j]][j := s[i]]) == multiset(s)
  {
  }

  /** A permutation that keeps everything outside [l, r] in place permutes
      the segment [l, r]. */
  lemma SegmentPerm(s: seq<real>, t: seq<real>, l: int, r: int)
    requires 0 <= l <= r < |s| && SameOutside(s, t, l, r) && multiset(s) == multiset(t)
    ensures multiset(s[l..r + 1]) == multiset(t[l..r + 1])
  {
    ThreeParts(s, l, r);
    ThreeParts(t, l, r);
    assert s[..l] == t[..l] && s[r + 1..] == t[r + 1..];
    var ms, mt, m := multiset(s), multiset(t), multiset(s[l..r + 1]);
    forall x ensures m[x] == multiset(t[l..r + 1])[x] {
      assert ms[x] == mt[x];
    }
  }

  lemma ThreeParts(s: seq<real>, l: int, r: int)
    requires 0 <= l <= r < |s|
    ensures multiset(s) == multiset(s[..l]) + multiset(s[l..r + 1]) + multiset(s[r + 1..])
  {
    assert s == s[..l] + s[l..r + 1] + s[r + 1..];
  }

  /** Every element the segment [l, r] of `t` holds was in the segment of `s`. */
  lemma FromSegment(s: seq<real>, t: seq<real>, l: int, r: int, y: int)
    requires 0 <= l <= y <= r < |s| && |t| == |s| && multiset(s[l..r + 1]) == multiset(t[l..r + 1])
    ensures exists x :: l <= x <= r && s[x] == t[y]
  {
    assert t[l..r + 1][y - l] == t[y];
    assert t[y] in multiset(s[l..r + 1]);
    var x' :| 0 <= x' < |s[l..r + 1]| && s[l..r + 1][x'] == t[y];
    assert s[l + x'] == t[y];
  }

  // ---------------------------------------------------------------------
  // partition(a, l, r)

  /** The partition loop's invariant: pivot `p` parked at `r`, the
      scanned part [l, j) split at `i` into smaller elements and the others,
      and `s` a permutation of `s0` that moved nothing outside [l, r]. */
  predicate Scanned(s: seq<real>, s0: seq<real>, l: int, r: int, i: int, j: int, p: real)
  {
    0 <= l <= i <= j <= r < |s| && s[r] == p
    && (forall x :: l <= x < i ==> s[x] < p)
    && (forall x :: i <= x < j ==> p <= s[x])
    && multiset(s) == multiset(s0) && SameOutside(s, s0, l, r)
  }

  /** A smaller element at `j` is swapped down to `i`. */
  lemma ScanSmaller(s: seq<real>, s0: seq<real>, l: int, r: int, i: int, j: int, p: real)
    requires Scanned(s, s0, l, r, i, j, p) && j < r && s[j] < p
    ensures Scanned(s[i := s[j]][j := s[i]], s0, l, r, i + 1, j + 1, p)
  {
    var t := s[i := s[j]][j := s[i]];
    SwapPerm(s, i, j);
    forall x | l <= x < i + 1 ensures t[x] < p {
      if x == i {
        assert t[x] == s[j];
      }
    }
    forall x | i + 1 <= x < j + 1 ensures p <= t[x] {
      if x == j {
        assert t[x] == s[i];
      }
    }
    assert t[r] == p;
  }

  /** Any other element at `j` stays. */
  lemma ScanOther(s: seq<real>, s0: seq<real>, l: int, r: int, i: int, j: int, p: real)
    requires Scanned(s, s0, l, r, i, j, p) && j < r && !(s[j] < p)
    ensures Scanned(s, s0, l, r, i, j + 1, p)
  {
  }

  /** Swapping the pivot into place at `i` ends the partition. */
  lemma ScanDone(s: seq<real>, s0: seq<real>, l: int, r: int, i: int, p: real)
    requires Scanned(s, s0, l, r, i, r, p)
    ensures var t := s[i := s[r]][r := s[i]];
      PivotAt(t, l, r, i) && t[i] == p && multiset(t) == multiset(s0) && SameOutside(t, s0, l, r)
  {
    SwapPerm(s, i, r);
  }

  /** Lomuto partition of `a[l..r]` around the pivot `a[r]`: returns the
      pivot's final index `i`, with the smaller elements before it and the
      others after it. Nothing outside [l, r] moves. */
  method Partition(a: array<real>, l: int, r: int) returns (i: int)
    requires 0 <= l <= r < a.Length
    modifies a
    ensures PivotAt(a[..], l, r, i) && a[i] == old(a[r])
    ensures multiset(a[..]) == multiset(old(a[..]))
    ensures SameOutside(a[..], old(a[..]), l, r)
  {
    var p := a[r];
    i := l;
    var j := l;
    while j < r
      invariant Scanned(a[..], old(a[..]), l, r, i, j, p)
      decreases r - j
    {
      ghost var s := a[..];
      if a[j] < p {
        ScanSmaller(s, old(a[..]), l, r, i, j, p);
        a[i], a[j] := a[j], a[i];
        assert a[..] == s[i := s[j]][j := s[i]];
        i := i + 1;
      } else {
        ScanOther(s, old(a[..]), l, r, i, j, p);
      }
      j := j + 1;
    }
    ghost var s := a[..];
    ScanDone(s, old(a[..]), l, r, i, p);
    a[i], a[r] := a[r], a[i];
    assert a[..] == s[i := s[r]][r := s[i]];
  }

  // ---------------------------------------------------------------------
  // quickselect(a, k)

  /** What partitioning [l, r] around `p` does to the bounds the search
      keeps: both settled regions stay settled, and each side of the pivot
      becomes settled against the other. */
  lemma SettledStep(s0: seq<real>, s: seq<real>, l: int, r: int, p: int)
    requires LowSettled(s0, l) && HighSettled(s0, r)
    requires PivotAt(s, l, r, p) && SameOutside(s, s0, l, r)
    requires multiset(s[l..r + 1]) == multiset(s0[l..r + 1])
    ensures LowSettled(s, l) && HighSettled(s, r)
    ensures LowSettled(s, p + 1) && HighSettled(s, p - 1)
  {
    forall x, y | 0 <= x < l <= y < |s| ensures s[x] <= s[y] {
      if y <= r {
        FromSegment(s0, s, l, r, y);
      }
    }
    forall x, y | 0 <= x <= r < y < |s| ensures s[x] <= s[y] {
      if l <= x {
        FromSegment(s0, s, l, r, x);
      }
    }
    forall x, y | 0 <= x < p + 1 <= y < |s| ensures s[x] <= s[y] {
      if x < l {
      } else if r < y {
      } else if x < p {
        assert s[x] < s[p];
      }
    }
    forall x, y | 0 <= x <= p - 1 < y < |s| ensures s[x] <= s[y] {
      if x < l {
      } else if r < y {
      } else if p < y {
        assert s[p] <= s[y];
      }
    }
  }

  /** When the search window has closed on `k`, `k` is split. */
  lemma SettledSplit(s: seq<real>, k: int)
    requires 0 <= k < |s| && LowSettled(s, k) && HighSettled(s, k)
    ensures SplitAt(s, k)
  {
  }

  /** The pivot the search stops at is split. */
  lemma PivotSplit(s: seq<real>, l: int, r: int, p: int)
    requires LowSettled(s, l) && HighSettled(s, r) && PivotAt(s, l, r, p)
    ensures SplitAt(s, p)
  {
  }

  /** `quickselect`: rearranges `a` so that, for an index `k` of `a`, `a[k]`
      is the element sorting would put there. An index outside `a` only
      permutes. */
  method Quickselect(a: array<real>, k: int)
    modifies a
    ensures multiset(a[..]) == multiset(old(a[..]))
    ensures 0 <= k < a.Length ==> SplitAt(a[..], k)
  {
    var l, r := 0, a.Length - 1;
    while l < r
      invariant 0 <= l && r < a.Length
      invariant 0 <= k < a.Length ==> l <= k <= r
      invariant LowSettled(a[..], l) && HighSettled(a[..], r)
      invariant multiset(a[..]) == multiset(old(a[..]))
      decreases r - l
    {
      ghost var s0 := a[..];
      var p := Partition(a, l, r);
      SegmentPerm(a[..], s0, l, r);
      SettledStep(s0, a[..], l, r, p);
      if k == p {
        PivotSplit(a[..], l, r, p);
        return;
      }
      if k < p {
        r := p - 1;
      } else {
        l := p + 1;
      }
    }
    if 0 <= k < a.Length {
      SettledSplit(a[..], k);
    }
  }

  // ---------------------------------------------------------------------
  // Rank of an element.

  /** How many elements of `s` are smaller than `v`. */
  function Less(s: seq<real>, v: real): (n: nat)
    ensures n <= |s|
  {
    if s == [] then 0 else (if s[0] < v then 1 else 0) + Less(s[1..], v)
  }

  /** How many elements of `s` are at most `v`. */
  function AtMost(s: seq<real>, v: real): (n: nat)
    ensures n <= |s|
  {
    if s == [] then 0 else (if s[0] <= v then 1 else 0) + AtMost(s[1..], v)
  }

  lemma {:induction false} CountAppend(s: seq<real>, t: seq<real>, v: real)
    ensures Less(s + t, v) == Less(s, v) + Less(t, v)
    ensures AtMost(s + t, v) == AtMost(s, v) + AtMost(t, v)
  {
    if s == [] {
      assert s + t == t;
    } else {
      assert (s + t)[1..] == s[1..] + t;
      CountAppend(s[1..], t, v);
    }
  }

  /** Taking out element `i` leaves the other elements. */
  lemma MultisetRemove(t: seq<real>, i: int)
    requires 0 <= i < |t|
    ensures multiset(t[..i] + t[i + 1..]) == multiset(t) - multiset{t[i]}
  {
    assert t == t[..i] + [t[i]] + t[i + 1..];
  }

  /** Taking out element `i` takes it out of the counts. */
  lemma CountRemove(t: seq<real>, i: int, v: real)
    requires 0 <= i < |t|
    ensures Less(t, v) == Less(t[..i] + t[i + 1..], v) + (if t[i] < v then 1 else 0)
    ensures AtMost(t, v) == AtMost(t[..i] + t[i + 1..], v) + (if t[i] <= v then 1 else 0)
  {
    assert t == t[..i] + ([t[i]] + t[i + 1..]);
    CountAppend(t[..i], [t[i]] + t[i + 1..], v);
    CountAppend([t[i]], t[i + 1..], v);
    CountAppend(t[..i], t[i + 1..], v);
  }

  /** The counts depend only on the multiset of elements. */
  lemma {:induction false} CountPerm(s: seq<real>, t: seq<real>, v: real)
    requires multiset(s) == multiset(t)
    ensures Less(s, v) == Less(t, v) && AtMost(s, v) == AtMost(t, v)
    decreases |s|
  {
    if s == [] {
      assert |t| == |multiset(t)| == 0;
    } else {
      var x := s[0];
      assert x in multiset(s);
      var i :| 0 <= i < |t| && t[i] == x;
      MultisetRemove(t, i);
      MultisetRemove(s, 0);
      assert s[..0] + s[1..] == s[1..];
      CountPerm(s[1..], t[..i] + t[i + 1..], v);
      CountRemove(t, i, v);
    }
  }

  /** Every element is at least `v`: none is smaller. */
  lemma {:induction false} NoneLess(s: seq<real>, v: real)
    requires forall j :: 0 <= j < |s| ==> v <= s[j]
    ensures Less(s, v) == 0
  {
    if s != [] {
      NoneLess(s[1..], v);
    }
  }

  /** Every element is at most `v`: all are counted. */
  lemma {:induction false} AllAtMost(s: seq<real>, v: real)
    requires forall j :: 0 <= j < |s| ==> s[j] <= v
    ensures AtMost(s, v) == |s|
  {
    if s != [] {
      AllAtMost(s[1..], v);
    }
  }

  /** A split element has rank `k`: at most `k` elements are smaller and
      more than `k` are at most it. */
  lemma SplitRank(s: seq<real>, k: int)
    requires SplitAt(s, k)
    ensures Less(s, s[k]) <= k < AtMost(s, s[k])
  {
    var v := s[k];
    assert s == s[..k] + s[k..];
    CountAppend(s[..k], s[k..], v);
    NoneLess(s[k..], v);
    assert s == s[..k + 1] + s[k + 1..];
    CountAppend(s[..k + 1], s[k + 1..], v);
    AllAtMost(s[..k + 1], v);
  }

  // ---------------------------------------------------------------------
  // quantile(x, q)

  /** `quantile` once its index `k` has been worked out from `q`: 0 for no
      samples, otherwise the element of rank `k` among the samples, which
      are left permuted. */
  method Quantile(a: array<real>, k: int) returns (v: real)
    requires a.Length == 0 || 0 <= k < a.Length
    modifies a
    ensures multiset(a[..]) == multiset(old(a[..]))
    ensures a.Length == 0 ==> v == 0.0
    ensures a.Length > 0 ==> v in multiset(old(a[..]))
    ensures a.Length > 0 ==> Less(old(a[..]), v) <= k < AtMost(old(a[..]), v)
  {
    if a.Length == 0 {
      return 0.0;
    }
    Quickselect(a, k);
    v := a[k];
    SplitRank(a[..], k);
    CountPerm(a[..], old(a[..]), v);
  }
}
