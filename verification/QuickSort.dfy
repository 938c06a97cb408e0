/**
 The kernel's `qsort`: a quicksort without recursion, with a median-of-three pivot, insertion
 sort below nine elements and a stack of 64 slots that is never checked for overflow.
 */
module QuickSort {
  import opened Words
  import opened Bits

  const STACK_SLOTS := 64
  const MAX_ELEMENTS := 2 * TWO32
  const INSERTION_MAX := 8

  /** What `qsort` may assume of its comparison: a total preorder, reported with consistent signs. */
  ghost predicate TotalPreorder<T(!new)>(cmp: (T, T) -> int) {
    && (forall x, y :: cmp(x, y) < 0 <==> cmp(y, x) > 0)
    && (forall x, y, z :: cmp(x, y) <= 0 && cmp(y, z) <= 0 ==> cmp(x, z) <= 0)
  }

  /** The elements `lo .. hi` are in order. */
  ghost predicate Sorted<T>(cmp: (T, T) -> int, s: seq<T>, lo: nat, hi: nat)
    requires hi <= |s|
  {
    forall p, q :: lo <= p < q < hi ==> cmp(s[p], s[q]) <= 0
  }

  /** `t` is `s` with the elements `lo .. hi` permuted. */
  ghost predicate Permuted<T>(s: seq<T>, t: seq<T>, lo: nat, hi: nat) {
    && lo <= hi <= |s| == |t|
    && s[..lo] == t[..lo]
    && s[hi..] == t[hi..]
    && multiset(s[lo..hi]) == multiset(t[lo..hi])
  }

  function Swapped<T>(s: seq<T>, i: nat, j: nat): seq<T>
    requires i < |s| && j < |s|
  {
    s[i := s[j]][j := s[i]]
  }

  // ----- permutation lemmas -----

  lemma PermutedSelf<T>(s: seq<T>, lo: nat, hi: nat)
    requires lo <= hi <= |s|
    ensures Permuted(s, s, lo, hi)
  {
  }

  lemma SwapPermutes<T>(s: seq<T>, t: seq<T>, i: nat, j: nat, lo: nat, hi: nat)
    requires Permuted(s, t, lo, hi) && lo <= i < hi && lo <= j < hi
    ensures Permuted(s, Swapped(t, i, j), lo, hi)
  {
    var u := Swapped(t, i, j);
    assert u[lo..hi] == Swapped(t[lo..hi], i - lo, j - lo);
    assert u[..lo] == t[..lo] && u[hi..] == t[hi..];
  }

  lemma PermutedOutside<T>(s: seq<T>, t: seq<T>, lo: nat, hi: nat, k: nat)
    requires Permuted(s, t, lo, hi) && k < |s| && (k < lo || hi <= k)
    ensures s[k] == t[k]
  {
    if k < lo {
      assert s[..lo][k] == t[..lo][k];
    } else {
      assert s[hi..][k - hi] == t[hi..][k - hi];
    }
  }

  lemma PermutedInside<T>(s: seq<T>, t: seq<T>, lo: nat, hi: nat, k: nat) returns (m: nat)
    requires Permuted(s, t, lo, hi) && lo <= k < hi
    ensures lo <= m < hi && t[k] == s[m]
  {
    assert t[lo..hi][k - lo] in multiset(s[lo..hi]);
    var m' :| 0 <= m' < hi - lo && s[lo..hi][m'] == t[k];
    m := lo + m';
  }

  lemma PermutedWhole<T>(s: seq<T>, t: seq<T>, lo: nat, hi: nat)
    requires Permuted(s, t, lo, hi)
    ensures multiset(s) == multiset(t)
  {
    assert s == s[..lo] + s[lo..hi] + s[hi..];
    assert t == t[..lo] + t[lo..hi] + t[hi..];
  }

  // ----- the pieces of qsort -----

  method Swap<T>(a: array<T>, i: nat, j: nat)
    requires i < a.Length && j < a.Length
    modifies a
    ensures a[..] == Swapped(old(a[..]), i, j)
  {
    a[i], a[j] := a[j], a[i];
  }

  /** `qsort_insertion` on the `n` elements from `lo`. */
  method Insertion<T(!new)>(a: array<T>, lo: nat, n: nat, cmp: (T, T) -> int)
    requires TotalPreorder(cmp) && n >= 1 && lo + n <= a.Length
    modifies a
    ensures Permuted(old(a[..]), a[..], lo, lo + n)
    ensures Sorted(cmp, a[..], lo, lo + n)
  {
    hide *;
    ghost var s0 := a[..];
    PermutedSelf(s0, lo, lo + n);
    SortedSingle(cmp, s0, lo);
    var i := 1;
    while i < n
      invariant 1 <= i <= n
      invariant Permuted(s0, a[..], lo, lo + n)
      invariant Sorted(cmp, a[..], lo, lo + i)
    {
      Sink(a, lo, i, n, cmp, s0);
      i := i + 1;
    }
  }

  lemma SortedSingle<T>(cmp: (T, T) -> int, s: seq<T>, lo: nat)
    requires lo < |s|
    ensures Sorted(cmp, s, lo, lo + 1)
  {
  }

  /** In order but for the element at `j`, which is not larger than those after it. */
  ghost predicate SortedBut<T>(cmp: (T, T) -> int, s: seq<T>, lo: nat, hi: nat, j: nat)
    requires hi <= |s|
  {
    forall p, q :: lo <= p < q < hi && q != j ==> cmp(s[p], s[q]) <= 0
  }

  /** The inner loop of the insertion sort: element `i` moves down to its place. */
  method Sink<T(!new)>(a: array<T>, lo: nat, i: nat, n: nat, cmp: (T, T) -> int, ghost s0: seq<T>)
    requires TotalPreorder(cmp) && 1 <= i < n && lo + n <= a.Length
    requires Permuted(s0, a[..], lo, lo + n) && Sorted(cmp, a[..], lo, lo + i)
    modifies a
    ensures Permuted(s0, a[..], lo, lo + n) && Sorted(cmp, a[..], lo, lo + i + 1)
  {
    hide *;
    SinkStart(cmp, a[..], lo, i);
    var j := i;
    while j > 0
      invariant 0 <= j <= i
      invariant Permuted(s0, a[..], lo, lo + n)
      invariant SortedBut(cmp, a[..], lo, lo + i + 1, lo + j)
    {
      ghost var s := a[..];
      assert s[lo + j - 1] == a[lo + j - 1] && s[lo + j] == a[lo + j];
      if cmp(a[lo + j - 1], a[lo + j]) <= 0 {
        SinkStop(cmp, s, lo, lo + i + 1, lo + j);
        return;
      }
      SwapPermutes(s0, s, lo + j - 1, lo + j, lo, lo + n);
      SinkStep(cmp, s, lo, lo + i + 1, lo + j);
      Swap(a, lo + j - 1, lo + j);
      j := j - 1;
    }
    SinkEnd(cmp, a[..], lo, lo + i + 1);
  }

  lemma SinkStart<T>(cmp: (T, T) -> int, s: seq<T>, lo: nat, i: nat)
    requires lo + i < |s| && Sorted(cmp, s, lo, lo + i)
    ensures SortedBut(cmp, s, lo, lo + i + 1, lo + i)
  {
  }

  lemma SinkStep<T(!new)>(cmp: (T, T) -> int, s: seq<T>, lo: nat, hi: nat, j: nat)
    requires TotalPreorder(cmp) && lo < j < hi <= |s| && SortedBut(cmp, s, lo, hi, j)
    requires cmp(s[j - 1], s[j]) > 0
    ensures SortedBut(cmp, Swapped(s, j - 1, j), lo, hi, j - 1)
  {
    assert cmp(s[j], s[j - 1]) <= 0;
  }

  lemma SinkStop<T(!new)>(cmp: (T, T) -> int, s: seq<T>, lo: nat, hi: nat, j: nat)
    requires TotalPreorder(cmp) && lo < j < hi <= |s| && SortedBut(cmp, s, lo, hi, j)
    requires cmp(s[j - 1], s[j]) <= 0
    ensures Sorted(cmp, s, lo, hi)
  {
    forall p | lo <= p < j ensures cmp(s[p], s[j]) <= 0 {
      if p < j - 1 {
        assert cmp(s[p], s[j - 1]) <= 0;
      }
    }
  }

  lemma SinkEnd<T>(cmp: (T, T) -> int, s: seq<T>, lo: nat, hi: nat)
    requires lo < hi <= |s| && SortedBut(cmp, s, lo, hi, lo)
    ensures Sorted(cmp, s, lo, hi)
  {
  }

  // ----- partition -----

  /** The elements `lo .. hi` are not above `x`, or not below it. */
  ghost predicate AllAtMost<T>(cmp: (T, T) -> int, s: seq<T>, lo: nat, hi: nat, x: T)
    requires hi <= |s|
  {
    forall p :: lo <= p < hi ==> cmp(s[p], x) <= 0
  }

  ghost predicate AllAtLeast<T>(cmp: (T, T) -> int, s: seq<T>, lo: nat, hi: nat, x: T)
    requires hi <= |s|
  {
    forall p :: lo <= p < hi ==> cmp(x, s[p]) <= 0
  }

  /** Between rounds of the two scans, with the pivot parked at `right - 1`. */
  ghost predicate Scanning<T>(cmp: (T, T) -> int, s: seq<T>, left: nat, right: nat, i: nat, j: nat) {
    && left <= i < j < right < |s|
    && AllAtMost(cmp, s, left, i + 1, s[right - 1])
    && AllAtLeast(cmp, s, j, right + 1, s[right - 1])
  }

  /** Both scans have stopped, at `i` and `j`; `j0` is where the second one started. */
  ghost predicate Stopped<T>(cmp: (T, T) -> int, s: seq<T>, left: nat, right: nat, i: nat, j: nat, j0: nat) {
    && left < i <= j0 < right < |s| && left <= j < j0
    && AllAtMost(cmp, s, left, i, s[right - 1])
    && AllAtLeast(cmp, s, j + 1, right + 1, s[right - 1])
    && cmp(s[right - 1], s[i]) <= 0
    && cmp(s[j], s[right - 1]) <= 0
  }

  /** Position `i` splits the range. */
  ghost predicate SplitAt<T>(cmp: (T, T) -> int, s: seq<T>, left: nat, right: nat, i: nat) {
    && left < i < right < |s|
    && AllAtMost(cmp, s, left, i, s[i])
    && AllAtLeast(cmp, s, i + 1, right + 1, s[i])
  }

  /** `do i++ while (a[i] < pivot)`: the element at `j` stops it. */
  method ScanUp<T(!new)>(a: array<T>, ghost left: nat, right: nat, i0: nat, ghost j: nat, cmp: (T, T) -> int) returns (i: nat)
    requires TotalPreorder(cmp) && right < a.Length && Scanning(cmp, a[..], left, right, i0, j)
    ensures i0 < i <= j && cmp(a[right - 1], a[i]) <= 0
    ensures AllAtMost(cmp, a[..], left, i, a[right - 1])
  {
    i := i0 + 1;
    while cmp(a[i], a[right - 1]) < 0
      invariant i0 < i <= j
      invariant AllAtMost(cmp, a[..], left, i, a[right - 1])
      decreases j - i
    {
      assert cmp(a[right - 1], a[j]) <= 0;
      i := i + 1;
    }
  }

  /** `do j-- while (a[j] > pivot)`: the element at `i0` stops it. */
  method ScanDown<T(!new)>(a: array<T>, ghost left: nat, right: nat, ghost i0: nat, j0: nat, cmp: (T, T) -> int) returns (j: nat)
    requires TotalPreorder(cmp) && right < a.Length && Scanning(cmp, a[..], left, right, i0, j0)
    ensures i0 <= j < j0 && cmp(a[j], a[right - 1]) <= 0
    ensures AllAtLeast(cmp, a[..], j + 1, right + 1, a[right - 1])
  {
    j := j0 - 1;
    while cmp(a[j], a[right - 1]) > 0
      invariant i0 <= j < j0
      invariant AllAtLeast(cmp, a[..], j + 1, right + 1, a[right - 1])
      decreases j
    {
      assert cmp(a[i0], a[right - 1]) <= 0;
      j := j - 1;
    }
  }

  lemma SwapStopped<T>(cmp: (T, T) -> int, s: seq<T>, left: nat, right: nat, i: nat, j: nat, j0: nat)
    requires Stopped(cmp, s, left, right, i, j, j0) && i < j
    ensures Scanning(cmp, Swapped(s, i, j), left, right, i, j)
  {
  }

  lemma SwapPivot<T(!new)>(cmp: (T, T) -> int, s: seq<T>, left: nat, right: nat, i: nat, j: nat, j0: nat)
    requires TotalPreorder(cmp) && Stopped(cmp, s, left, right, i, j, j0) && i >= j
    ensures SplitAt(cmp, Swapped(s, i, right - 1), left, right, i)
  {
    var t := Swapped(s, i, right - 1);
    forall p | i < p <= right ensures cmp(t[i], t[p]) <= 0 {
      if p == right - 1 {
        assert t[p] == s[i];
      } else {
        assert t[p] == s[p];
      }
    }
  }

  /** The three compare-and-swap steps leave the median in the middle; it is then parked at `right - 1`. */
  method MedianOfThree<T(!new)>(a: array<T>, left: nat, right: nat, cmp: (T, T) -> int)
    requires TotalPreorder(cmp) && left + INSERTION_MAX <= right < a.Length
    modifies a
    ensures Permuted(old(a[..]), a[..], left, right + 1)
    ensures Scanning(cmp, a[..], left, right, left, right - 1)
  {
    var mid := left + (right - left) / 2;
    ghost var s0 := a[..];
    Order(a, left, mid, left, right + 1, cmp, s0);
    ghost var s1 := a[..];
    Order(a, left, right, left, right + 1, cmp, s0);
    ghost var s2 := a[..];
    Order(a, mid, right, left, right + 1, cmp, s0);
    ghost var s3 := a[..];
    MedianOrdered(cmp, s1, s2, s3, left, mid, right);
    Swap(a, mid, right - 1);
    SwapPermutes(s0, s3, mid, right - 1, left, right + 1);
    assert a[..] == Swapped(s3, mid, right - 1);
    ParkedPivot(cmp, s3, left, mid, right);
  }

  /** `if (cmp(x, y) > 0) swap(x, y)` */
  method Order<T(!new)>(a: array<T>, i: nat, j: nat, lo: nat, hi: nat, cmp: (T, T) -> int, ghost s0: seq<T>)
    requires TotalPreorder(cmp) && lo <= i < j < hi <= a.Length
    requires s0 == a[..] || Permuted(s0, a[..], lo, hi)
    modifies a
    ensures Permuted(s0, a[..], lo, hi)
    ensures a[..] == if cmp(old(a[i]), old(a[j])) > 0 then Swapped(old(a[..]), i, j) else old(a[..])
    ensures cmp(a[i], a[j]) <= 0
  {
    ghost var s := a[..];
    PermutedSelf(s, lo, hi);
    if cmp(a[i], a[j]) > 0 {
      SwapPermutes(s0, s, i, j, lo, hi);
      Swap(a, i, j);
    }
  }

  lemma MedianOrdered<T(!new)>(cmp: (T, T) -> int, s1: seq<T>, s2: seq<T>, s3: seq<T>, l: nat, m: nat, r: nat)
    requires TotalPreorder(cmp) && l < m < r < |s1|
    requires cmp(s1[l], s1[m]) <= 0
    requires s2 == if cmp(s1[l], s1[r]) > 0 then Swapped(s1, l, r) else s1
    requires s3 == if cmp(s2[m], s2[r]) > 0 then Swapped(s2, m, r) else s2
    ensures cmp(s3[l], s3[m]) <= 0 && cmp(s3[m], s3[r]) <= 0
  {
  }

  lemma ParkedPivot<T(!new)>(cmp: (T, T) -> int, s: seq<T>, l: nat, m: nat, r: nat)
    requires TotalPreorder(cmp) && l < m < r - 1 && r < |s|
    requires cmp(s[l], s[m]) <= 0 && cmp(s[m], s[r]) <= 0
    ensures Scanning(cmp, Swapped(s, m, r - 1), l, r, l, r - 1)
  {
  }

  /** One partitioning pass; the pivot ends at the returned position, strictly inside the range. */
  method Partition<T(!new)>(a: array<T>, left: nat, right: nat, cmp: (T, T) -> int) returns (i: nat)
    requires TotalPreorder(cmp) && left + INSERTION_MAX <= right < a.Length
    modifies a
    ensures left < i < right
    ensures Permuted(old(a[..]), a[..], left, right + 1)
    ensures SplitAt(cmp, a[..], left, right, i)
  {
    hide *;
    ghost var s0 := a[..];
    MedianOfThree(a, left, right, cmp);
    i := left;
    var j := right - 1;
    while true
      invariant left <= i < j < right
      invariant Permuted(s0, a[..], left, right + 1)
      invariant Scanning(cmp, a[..], left, right, i, j)
      decreases j
    {
      ghost var s, i0, j0 := a[..], i, j;
      i := ScanUp(a, left, right, i, j, cmp);
      j := ScanDown(a, left, right, i0, j, cmp);
      ScansStopped(cmp, s, left, right, i, j, j0);
      if i >= j {
        SwapPivot(cmp, s, left, right, i, j, j0);
        SwapPermutes(s0, s, i, right - 1, left, right + 1);
        break;
      }
      SwapStopped(cmp, s, left, right, i, j, j0);
      SwapPermutes(s0, s, i, j, left, right + 1);
      Swap(a, i, j);
    }
    Swap(a, i, right - 1);
  }

  lemma ScansStopped<T>(cmp: (T, T) -> int, s: seq<T>, left: nat, right: nat, i: nat, j: nat, j0: nat)
    requires left < i <= j0 < right < |s| && left <= j < j0
    requires AllAtMost(cmp, s, left, i, s[right - 1])
    requires AllAtLeast(cmp, s, j + 1, right + 1, s[right - 1])
    requires cmp(s[right - 1], s[i]) <= 0 && cmp(s[j], s[right - 1]) <= 0
    ensures Stopped(cmp, s, left, right, i, j, j0)
  {
  }

  // ----- the pending ranges -----

  datatype Range = Range(left: nat, right: nat) {
    function Size(): int {
      right - left + 1
    }
  }

  /** `p` and `q` lie in one pending range. */
  ghost predicate Together(pend: seq<Range>, p: nat, q: nat) {
    exists r :: 0 <= r < |pend| && pend[r].left <= p && q <= pend[r].right
  }

  ghost predicate Disjoint(x: Range, y: Range) {
    x.right < y.left || y.right < x.left
  }

  /** Pending ranges are disjoint parts of the array, and each two elements are in order or await the same range. */
  ghost predicate Pending<T>(cmp: (T, T) -> int, s: seq<T>, pend: seq<Range>) {
    && (forall r :: 0 <= r < |pend| ==> pend[r].left < pend[r].right < |s|)
    && (forall r, r' :: 0 <= r < r' < |pend| ==> Disjoint(pend[r], pend[r']))
    && (forall p, q :: 0 <= p < q < |s| ==> cmp(s[p], s[q]) <= 0 || Together(pend, p, q))
  }

  /** At depth `r` of the stack a range has at most `n / 2^r` elements. */
  ghost predicate Halving(pend: seq<Range>, n: nat) {
    forall r :: 0 <= r < |pend| ==> pend[r].Size() * Pow2(r) <= n
  }

  /** The ranges that replace one popped range: inside it, disjoint, the second at most half of it. */
  ghost predicate Parts(parts: seq<Range>, whole: Range) {
    && |parts| <= 2
    && (forall r :: 0 <= r < |parts| ==>
          whole.left <= parts[r].left < parts[r].right <= whole.right && parts[r].Size() < whole.Size())
    && (|parts| == 2 ==> Disjoint(parts[0], parts[1]) && 2 * parts[1].Size() <= whole.Size()
                         && parts[0].Size() + parts[1].Size() < whole.Size())
  }

  /** Two elements of the popped range are in order or await the same part. */
  ghost predicate OrderedBut<T>(cmp: (T, T) -> int, s: seq<T>, whole: Range, parts: seq<Range>)
    requires whole.right < |s|
  {
    forall p, q :: whole.left <= p < q <= whole.right ==> cmp(s[p], s[q]) <= 0 || Together(parts, p, q)
  }

  lemma ReplaceRange<T>(cmp: (T, T) -> int, s: seq<T>, t: seq<T>, pend: seq<Range>, whole: Range, parts: seq<Range>)
    requires Pending(cmp, s, pend + [whole])
    requires Permuted(s, t, whole.left, whole.right + 1)
    requires Parts(parts, whole) && OrderedBut(cmp, t, whole, parts)
    ensures Pending(cmp, t, pend + parts)
  {
    var all, next := pend + [whole], pend + parts;
    assert all[|pend|] == whole;
    forall r | 0 <= r < |next| ensures next[r].left < next[r].right < |t| {
      if r < |pend| {
        assert all[r] == next[r];
      }
    }
    forall r, r' | 0 <= r < r' < |next| ensures Disjoint(next[r], next[r']) {
      if r' < |pend| {
        assert all[r] == next[r] && all[r'] == next[r'];
      } else if r < |pend| {
        assert Disjoint(all[r], all[|pend|]);
      }
    }
    forall p, q | 0 <= p < q < |t| ensures cmp(t[p], t[q]) <= 0 || Together(next, p, q) {
      ReplacedPair(cmp, s, t, pend, whole, parts, p, q);
    }
  }

  lemma ReplacedPair<T>(cmp: (T, T) -> int, s: seq<T>, t: seq<T>, pend: seq<Range>, whole: Range,
                        parts: seq<Range>, p: nat, q: nat)
    requires Pending(cmp, s, pend + [whole])
    requires whole.left <= whole.right && Permuted(s, t, whole.left, whole.right + 1)
    requires OrderedBut(cmp, t, whole, parts)
    requires p < q < |t|
    ensures cmp(t[p], t[q]) <= 0 || Together(pend + parts, p, q)
  {
    if whole.left <= p && q <= whole.right {
      if cmp(t[p], t[q]) > 0 {
        TogetherRight(pend, parts, p, q);
      }
    } else {
      var p' := SourceOf(s, t, whole, p);
      var q' := SourceOf(s, t, whole, q);
      if cmp(t[p], t[q]) > 0 {
        NotInWhole(cmp, s, pend, whole, p, q, p', q');
        TogetherLeft(pend, parts, p, q);
      }
    }
  }

  /** Where an element of the permuted array came from. */
  lemma SourceOf<T>(s: seq<T>, t: seq<T>, whole: Range, p: nat) returns (p': nat)
    requires whole.left <= whole.right && Permuted(s, t, whole.left, whole.right + 1) && p < |t|
    ensures p' < |s| && t[p] == s[p']
    ensures if whole.left <= p <= whole.right then whole.left <= p' <= whole.right else p' == p
  {
    if whole.left <= p <= whole.right {
      p' := PermutedInside(s, t, whole.left, whole.right + 1, p);
    } else {
      PermutedOutside(s, t, whole.left, whole.right + 1, p);
      p' := p;
    }
  }

  /** An unordered pair that is not inside the popped range awaits some other range. */
  lemma NotInWhole<T>(cmp: (T, T) -> int, s: seq<T>, pend: seq<Range>, whole: Range, p: nat, q: nat, p': nat, q': nat)
    requires Pending(cmp, s, pend + [whole])
    requires p < q < |s| && !(whole.left <= p && q <= whole.right)
    requires if whole.left <= p <= whole.right then whole.left <= p' <= whole.right else p' == p
    requires if whole.left <= q <= whole.right then whole.left <= q' <= whole.right else q' == q
    requires p' < |s| && q' < |s| && cmp(s[p'], s[q']) > 0
    ensures Together(pend, p, q)
  {
    var all := pend + [whole];
    assert p' < q';
    assert Together(all, p', q');
    var r :| 0 <= r < |all| && all[r].left <= p' && q' <= all[r].right;
    if r < |pend| {
      assert Disjoint(all[r], all[|pend|]);
      assert pend[r].left <= p && q <= pend[r].right;
    }
  }

  lemma TogetherLeft(pend: seq<Range>, parts: seq<Range>, p: nat, q: nat)
    requires Together(pend, p, q)
    ensures Together(pend + parts, p, q)
  {
    var r :| 0 <= r < |pend| && pend[r].left <= p && q <= pend[r].right;
    assert (pend + parts)[r] == pend[r];
  }

  lemma TogetherRight(pend: seq<Range>, parts: seq<Range>, p: nat, q: nat)
    requires Together(parts, p, q)
    ensures Together(pend + parts, p, q)
  {
    var r :| 0 <= r < |parts| && parts[r].left <= p && q <= parts[r].right;
    assert (pend + parts)[|pend| + r] == parts[r];
  }

  lemma HalvingReplace(pend: seq<Range>, whole: Range, parts: seq<Range>, n: nat)
    requires Halving(pend + [whole], n) && Parts(parts, whole)
    ensures Halving(pend + parts, n)
  {
    var all, next, d := pend + [whole], pend + parts, |pend|;
    assert all[d] == whole;
    forall r | 0 <= r < |next| ensures next[r].Size() * Pow2(r) <= n {
      if r < d {
        assert all[r] == next[r];
      } else if r == d {
        Times(parts[0].Size(), whole.Size(), Pow2(d));
      } else {
        Times(2 * parts[1].Size(), whole.Size(), Pow2(d));
        assert parts[1].Size() * Pow2(d + 1) == 2 * parts[1].Size() * Pow2(d);
      }
    }
  }

  /** Fewer than `2^33` elements never need more than 32 ranges, which is all of the 64 slots. */
  lemma StackBound(pend: seq<Range>, n: nat)
    requires Halving(pend, n) && n < MAX_ELEMENTS
    requires forall r :: 0 <= r < |pend| ==> pend[r].left < pend[r].right
    ensures 2 * |pend| <= STACK_SLOTS == 64
  {
    if |pend| > 32 {
      assert pend[32].Size() * Pow2(32) <= n;
      Times(2, pend[32].Size(), Pow2(32));
      Pow2Values();
    }
  }

  ghost function Total(pend: seq<Range>): nat
    requires forall r :: 0 <= r < |pend| ==> pend[r].left < pend[r].right
  {
    if pend == [] then 0 else Total(pend[..|pend| - 1]) + pend[|pend| - 1].Size()
  }

  lemma TotalShrinks(pend: seq<Range>, whole: Range, parts: seq<Range>)
    requires forall r :: 0 <= r < |pend + [whole]| ==> (pend + [whole])[r].left < (pend + [whole])[r].right
    requires forall r :: 0 <= r < |pend + parts| ==> (pend + parts)[r].left < (pend + parts)[r].right
    requires Parts(parts, whole)
    ensures Total(pend + parts) < Total(pend + [whole])
  {
    assert forall r :: 0 <= r < |pend| ==> pend[r] == (pend + [whole])[r];
    assert (pend + [whole])[..|pend|] == pend;
    var next := pend + parts;
    if |parts| == 0 {
      assert next == pend;
    } else if |parts| == 1 {
      assert next[..|pend|] == pend;
    } else {
      assert next[..|pend| + 1] == pend + parts[..1];
      assert (pend + parts[..1])[..|pend|] == pend;
    }
  }

  lemma SortedParts<T>(cmp: (T, T) -> int, s: seq<T>, whole: Range)
    requires whole.left < whole.right < |s| && Sorted(cmp, s, whole.left, whole.right + 1)
    ensures Parts([], whole) && OrderedBut(cmp, s, whole, [])
  {
  }

  /** The two sides of the pivot, larger first, each left out when it has fewer than two elements. */
  function Sides(left: nat, right: nat, i: nat): seq<Range>
    requires left < i < right
  {
    var below := if left < i - 1 then [Range(left, i - 1)] else [];
    var above := if i + 1 < right then [Range(i + 1, right)] else [];
    if i - left > right - i then below + above else above + below
  }

  lemma SidesAreParts<T(!new)>(cmp: (T, T) -> int, s: seq<T>, left: nat, right: nat, i: nat)
    requires TotalPreorder(cmp) && SplitAt(cmp, s, left, right, i)
    ensures Parts(Sides(left, right, i), Range(left, right))
    ensures OrderedBut(cmp, s, Range(left, right), Sides(left, right, i))
  {
    var parts := Sides(left, right, i);
    forall p, q | left <= p < q <= right ensures cmp(s[p], s[q]) <= 0 || Together(parts, p, q) {
      if q < i {
        var r := if i - left > right - i then 0 else |parts| - 1;
        assert parts[r].left <= p && q <= parts[r].right;
      } else if p > i {
        var r := if i - left > right - i then |parts| - 1 else 0;
        assert parts[r].left <= p && q <= parts[r].right;
      } else {
        assert p < i ==> cmp(s[p], s[i]) <= 0;
        assert q > i ==> cmp(s[i], s[q]) <= 0;
      }
    }
  }

  // ----- qsort -----

  /** The stack array holds the pending ranges, two slots each. */
  ghost predicate Holds(stack: seq<nat>, top: nat, pend: seq<Range>) {
    && |stack| == STACK_SLOTS && top == 2 * |pend| <= STACK_SLOTS
    && forall r :: 0 <= r < |pend| ==> stack[2 * r] == pend[r].left && stack[2 * r + 1] == pend[r].right
  }

  method PushRange(stack: array<nat>, top: nat, r: Range, ghost pend: seq<Range>) returns (top': nat)
    requires Holds(stack[..], top, pend) && top + 2 <= STACK_SLOTS
    modifies stack
    ensures Holds(stack[..], top', pend + [r])
  {
    stack[top] := r.left;
    stack[top + 1] := r.right;
    top' := top + 2;
  }

  /** Pushing both sides, as the end of the loop body does. */
  method PushSides(stack: array<nat>, top: nat, left: nat, right: nat, i: nat, ghost pend: seq<Range>) returns (top': nat)
    requires left < i < right
    requires Holds(stack[..], top, pend) && top + 2 * |Sides(left, right, i)| <= STACK_SLOTS
    modifies stack
    ensures Holds(stack[..], top', pend + Sides(left, right, i))
  {
    top' := top;
    ghost var now := pend;
    if i - left > right - i {
      if left < i - 1 {
        top' := PushRange(stack, top', Range(left, i - 1), now);
        now := now + [Range(left, i - 1)];
      }
      if i + 1 < right {
        top' := PushRange(stack, top', Range(i + 1, right), now);
        now := now + [Range(i + 1, right)];
      }
    } else {
      if i + 1 < right {
        top' := PushRange(stack, top', Range(i + 1, right), now);
        now := now + [Range(i + 1, right)];
      }
      if left < i - 1 {
        top' := PushRange(stack, top', Range(left, i - 1), now);
        now := now + [Range(left, i - 1)];
      }
    }
    assert now == pend + Sides(left, right, i);
  }

  lemma PopRange(stack: seq<nat>, top: nat, pend: seq<Range>) returns (rest: seq<Range>, whole: Range)
    requires Holds(stack, top, pend) && top != 0
    ensures pend == rest + [whole] && 2 <= top <= STACK_SLOTS == |stack|
    ensures whole == Range(stack[top - 2], stack[top - 1])
    ensures Holds(stack, top - 2, rest)
  {
    var d := |pend| - 1;
    rest, whole := pend[..d], pend[d];
    assert stack[2 * d] == pend[d].left;
  }

  /** What the loop of `qsort` keeps. */
  ghost predicate Sorting<T>(cmp: (T, T) -> int, s0: seq<T>, s: seq<T>, pend: seq<Range>) {
    && |s| == |s0| < MAX_ELEMENTS && multiset(s) == multiset(s0)
    && Pending(cmp, s, pend) && Halving(pend, |s0|)
  }

  lemma SortingStart<T>(cmp: (T, T) -> int, s: seq<T>)
    requires 2 <= |s| < MAX_ELEMENTS
    ensures Sorting(cmp, s, s, [Range(0, |s| - 1)])
  {
    assert Pow2(0) == 1;
    var pend := [Range(0, |s| - 1)];
    forall p, q | 0 <= p < q < |s| ensures Together(pend, p, q) {
      assert pend[0].left <= p && q <= pend[0].right;
    }
  }

  lemma SortingBounds<T>(cmp: (T, T) -> int, s0: seq<T>, s: seq<T>, pend: seq<Range>, whole: Range)
    requires Sorting(cmp, s0, s, pend + [whole])
    ensures whole.left < whole.right < |s|
    ensures forall r :: 0 <= r < |pend + [whole]| ==> (pend + [whole])[r].left < (pend + [whole])[r].right
  {
    assert (pend + [whole])[|pend|] == whole;
  }

  /** One round: the popped range is permuted and replaced by its parts. */
  lemma SortingStep<T>(cmp: (T, T) -> int, s0: seq<T>, s: seq<T>, t: seq<T>, pend: seq<Range>, whole: Range,
                       parts: seq<Range>)
    requires Sorting(cmp, s0, s, pend + [whole])
    requires Permuted(s, t, whole.left, whole.right + 1)
    requires Parts(parts, whole) && OrderedBut(cmp, t, whole, parts)
    ensures Sorting(cmp, s0, t, pend + parts)
    ensures 2 * |pend + parts| <= STACK_SLOTS
    ensures forall r :: 0 <= r < |pend + [whole]| ==> (pend + [whole])[r].left < (pend + [whole])[r].right
    ensures forall r :: 0 <= r < |pend + parts| ==> (pend + parts)[r].left < (pend + parts)[r].right
    ensures Total(pend + parts) < Total(pend + [whole])
  {
    PermutedWhole(s, t, whole.left, whole.right + 1);
    ReplaceRange(cmp, s, t, pend, whole, parts);
    HalvingReplace(pend, whole, parts, |s0|);
    StackBound(pend + parts, |s0|);
    TotalShrinks(pend, whole, parts);
  }

  lemma SortingDone<T>(cmp: (T, T) -> int, s0: seq<T>, s: seq<T>)
    requires Sorting(cmp, s0, s, [])
    ensures Sorted(cmp, s, 0, |s|) && multiset(s) == multiset(s0)
  {
    forall p, q | 0 <= p < q < |s| ensures cmp(s[p], s[q]) <= 0 {
      assert !Together([], p, q);
    }
  }

  /** Work on the popped range, then push what is left of it. */
  method SortRange<T(!new)>(a: array<T>, left: nat, right: nat, stack: array<nat>, top: nat, cmp: (T, T) -> int,
                            ghost s0: seq<T>, ghost rest: seq<Range>)
    returns (top': nat, ghost parts: seq<Range>)
    requires TotalPreorder(cmp)
    requires Sorting(cmp, s0, a[..], rest + [Range(left, right)])
    requires Holds(stack[..], top, rest) && (a as object) != stack
    modifies a, stack
    ensures Permuted(old(a[..]), a[..], left, right + 1)
    ensures Parts(parts, Range(left, right)) && right < a.Length && OrderedBut(cmp, a[..], Range(left, right), parts)
    ensures Holds(stack[..], top', rest + parts)
  {
    hide *;
    ghost var whole := Range(left, right);
    SortingBounds(cmp, s0, a[..], rest, whole);
    ghost var s := a[..];
    if right - left + 1 <= INSERTION_MAX {
      Insertion(a, left, right - left + 1, cmp);
      SortedParts(cmp, a[..], whole);
      parts := [];
      assert rest + parts == rest;
      return top, parts;
    }
    var i := Partition(a, left, right, cmp);
    SidesAreParts(cmp, a[..], left, right, i);
    parts := Sides(left, right, i);
    SortingStep(cmp, s0, s, a[..], rest, whole, parts);
    HoldsTop(stack[..], top, rest);
    top' := PushSides(stack, top, left, right, i, rest);
  }

  lemma HoldsTop(stack: seq<nat>, top: nat, pend: seq<Range>)
    requires Holds(stack, top, pend)
    ensures top == 2 * |pend|
  {
  }

  /**
   `qsort`. Fewer than `2^33` elements are more than a 32-bit `size_t` can count. The stack never
   overflows, although the code does not check it.
   */
  method Sort<T(!new)>(a: array<T>, cmp: (T, T) -> int)
    requires TotalPreorder(cmp) && a.Length < MAX_ELEMENTS
    modifies a
    ensures Sorted(cmp, a[..], 0, a.Length)
    ensures multiset(a[..]) == multiset(old(a[..]))
  {
    hide *;
    ghost var s0 := a[..];
    if a.Length < 2 {
      SortedTrivial(cmp, s0);
      return;
    }
    StackSlots();
    var stack := new nat[STACK_SLOTS](_ => 0);
    SortingStart(cmp, s0);
    HoldsNone(stack[..]);
    var top := PushRange(stack, 0, Range(0, a.Length - 1), []);
    ghost var pend := [Range(0, a.Length - 1)];
    assert [] + pend == pend;
    while top != 0
      invariant fresh(stack) && stack.Length == STACK_SLOTS
      invariant Holds(stack[..], top, pend)
      invariant Sorting(cmp, s0, a[..], pend)
      decreases PendingTotal(pend)
    {
      ghost var rest, whole := PopRange(stack[..], top, pend);
      var right := stack[top - 1];
      var left := stack[top - 2];
      ghost var s := a[..];
      ghost var parts;
      top, parts := SortRange(a, left, right, stack, top - 2, cmp, s0, rest);
      SortingStep(cmp, s0, s, a[..], rest, whole, parts);
      PendingTotalIs(rest + parts);
      PendingTotalIs(rest + [whole]);
      pend := rest + parts;
    }
    HoldsTop(stack[..], top, pend);
    SortingDone(cmp, s0, a[..]);
  }

  ghost function PendingTotal(pend: seq<Range>): nat {
    if forall r :: 0 <= r < |pend| ==> pend[r].left < pend[r].right then Total(pend) else 0
  }

  lemma PendingTotalIs(pend: seq<Range>)
    requires forall r :: 0 <= r < |pend| ==> pend[r].left < pend[r].right
    ensures PendingTotal(pend) == Total(pend)
  {
  }

  lemma SortedTrivial<T>(cmp: (T, T) -> int, s: seq<T>)
    requires |s| < 2
    ensures Sorted(cmp, s, 0, |s|)
  {
  }

  lemma StackSlots()
    ensures STACK_SLOTS == 64
  {
  }

  lemma HoldsNone(stack: seq<nat>)
    requires |stack| == STACK_SLOTS
    ensures Holds(stack, 0, [])
  {
  }
}
