/** Permutations of a range of a sequence, and orders given by a three-way comparison. */
module Ranges {

  /** `t` is `s` with the elements from `lo` to `hi` permuted. */
  ghost predicate Perm<T>(s: seq<T>, t: seq<T>, lo: nat, hi: nat) {
    && |s| == |t| && lo <= hi <= |s|
    && s[..lo] == t[..lo] && s[hi..] == t[hi..] && multiset(s[lo..hi]) == multiset(t[lo..hi])
  }

  lemma PermRefl<T>(s: seq<T>, lo: nat, hi: nat)
    requires lo <= hi <= |s|
    ensures Perm(s, s, lo, hi)
  {
  }

  lemma PermTrans<T>(s: seq<T>, t: seq<T>, u: seq<T>, lo: nat, hi: nat)
    requires Perm(s, t, lo, hi) && Perm(t, u, lo, hi)
    ensures Perm(s, u, lo, hi)
  {
  }

  lemma PermWiden<T>(s: seq<T>, t: seq<T>, i: nat, j: nat, lo: nat, hi: nat)
    requires Perm(s, t, i, j) && lo <= i && j <= hi <= |s|
    ensures Perm(s, t, lo, hi)
  {
    Pieces(s, lo, i, j, hi);
    Pieces(t, lo, i, j, hi);
  }

  lemma Pieces<T>(s: seq<T>, lo: nat, i: nat, j: nat, hi: nat)
    requires lo <= i <= j <= hi <= |s|
    ensures s[..lo] == s[..i][..lo] && s[hi..] == s[j..][hi - j..]
    ensures s[lo..hi] == s[..i][lo..] + s[i..j] + s[j..][..hi - j]
  {
    var x, y := s[hi..], s[j..][hi - j..];
    assert |x| == |y|;
    forall k | 0 <= k < |x| ensures x[k] == y[k] { }
  }

  function Swapped<T>(s: seq<T>, i: nat, j: nat): (t: seq<T>)
    requires i < |s| && j < |s|
    ensures |t| == |s|
  {
    s[i := s[j]][j := s[i]]
  }

  lemma SwapPerm<T>(s: seq<T>, i: nat, j: nat, lo: nat, hi: nat)
    requires lo <= i < hi <= |s| && lo <= j < hi
    ensures Perm(s, Swapped(s, i, j), lo, hi)
  {
    var t := Swapped(s, i, j);
    assert t[lo..hi] == Swapped(s[lo..hi], i - lo, j - lo);
    SwapMultiset(s[lo..hi], i - lo, j - lo);
  }

  lemma SwapLeaves<T>(s: seq<T>, i: nat, j: nat, k: nat)
    requires i < |s| && j < |s| && k < |s| && k != i && k != j
    ensures Swapped(s, i, j)[k] == s[k]
  {
  }

  lemma SwapMultiset<T>(s: seq<T>, i: nat, j: nat)
    requires i < |s| && j < |s|
    ensures multiset(Swapped(s, i, j)) == multiset(s)
  {
  }

  /** Every element of the permuted range was in the range before. */
  lemma PermElement<T>(s: seq<T>, t: seq<T>, lo: nat, hi: nat, j: nat) returns (i: nat)
    requires Perm(s, t, lo, hi) && lo <= j < hi
    ensures lo <= i < hi && s[i] == t[j]
  {
    assert t[lo..hi][j - lo] == t[j];
    assert t[j] in multiset(t[lo..hi]);
    assert t[j] in s[lo..hi];
    var k :| 0 <= k < hi - lo && s[lo..hi][k] == t[j];
    i := lo + k;
  }

  lemma PermOutside<T>(s: seq<T>, t: seq<T>, lo: nat, hi: nat, j: nat)
    requires Perm(s, t, lo, hi) && (j < lo || hi <= j < |s|)
    ensures |s| == |t| && s[j] == t[j]
  {
    if j < lo { assert s[..lo][j] == t[..lo][j]; } else { assert s[hi..][j - hi] == t[hi..][j - hi]; }
  }

  // ----------------------------------------------------------------------------- comparisons

  /** A total preorder, as a comparison function. */
  ghost predicate Preorder<T(!new)>(cmp: (T, T) -> int) {
    && (forall x, y :: cmp(x, y) < 0 <==> cmp(y, x) > 0)
    && (forall x, y, z :: cmp(x, y) <= 0 && cmp(y, z) <= 0 ==> cmp(x, z) <= 0)
  }

  lemma Trans<T(!new)>(cmp: (T, T) -> int, x: T, y: T, z: T)
    requires Preorder(cmp)
    ensures cmp(x, y) <= 0 && cmp(y, z) <= 0 ==> cmp(x, z) <= 0
    ensures cmp(x, y) < 0 && cmp(y, z) <= 0 ==> cmp(x, z) < 0
    ensures cmp(x, y) <= 0 && cmp(y, z) < 0 ==> cmp(x, z) < 0
    ensures cmp(x, y) < 0 <==> cmp(y, x) > 0
    ensures cmp(x, y) == 0 <==> cmp(y, x) == 0
  {
    assert cmp(x, z) >= 0 ==> cmp(z, x) <= 0;
  }
}

/** `pqsort`: quicksort with the three-way partition of Bentley and McIlroy, which skips
    sub-ranges that do not meet the window of interest. */
module PqSort {
  import opened Ranges

  /** Within `lo..hi`, any two elements that have a window position between them (or are at one)
      are in order.  Outside the window nothing is said about neighbours. */
  ghost predicate Windowed<T(!new)>(s: seq<T>, cmp: (T, T) -> int, lo: nat, hi: nat, l: nat, r: nat)
    requires hi <= |s|
  {
    forall i, j :: lo <= i < j < hi && i <= r && l <= j ==> cmp(s[i], s[j]) <= 0
  }

  /** All elements from `lo` to `hi` compare to `v` as `sign` says. */
  ghost predicate Signed<T(!new)>(s: seq<T>, cmp: (T, T) -> int, lo: nat, hi: nat, v: T, sign: int)
    requires hi <= |s|
  {
    forall i :: lo <= i < hi ==> Tells(cmp(s[i], v), sign)
  }

  predicate Tells(c: int, sign: int) {
    if sign < 0 then c < 0 else if sign > 0 then c > 0 else c == 0
  }

  lemma SignedPerm<T(!new)>(s: seq<T>, t: seq<T>, cmp: (T, T) -> int, lo: nat, hi: nat, v: T, sign: int)
    requires Perm(s, t, lo, hi) && hi <= |s| == |t| && Signed(s, cmp, lo, hi, v, sign)
    ensures Signed(t, cmp, lo, hi, v, sign)
  {
    hide Perm;
    PermLength(s, t, lo, hi);
    forall j | lo <= j < hi ensures Tells(cmp(t[j], v), sign) {
      var i := PermElement(s, t, lo, hi, j);
    }
  }

  lemma PermLength<T>(s: seq<T>, t: seq<T>, lo: nat, hi: nat)
    requires Perm(s, t, lo, hi)
    ensures |t| == |s| && lo <= hi <= |s|
  {
  }

  /** The same elements, in another sequence that agrees on the range. */
  lemma SignedKept<T(!new)>(s: seq<T>, t: seq<T>, cmp: (T, T) -> int, lo: nat, hi: nat, v: T, sign: int)
    requires hi <= |s| == |t| && Signed(s, cmp, lo, hi, v, sign) && forall i :: lo <= i < hi ==> s[i] == t[i]
    ensures Signed(t, cmp, lo, hi, v, sign)
  {
  }

  // --------------------------------------------------------------------------- array steps

  method Swap<T>(a: array<T>, i: nat, j: nat)
    requires i < a.Length && j < a.Length
    modifies a
    ensures a[..] == Swapped(old(a[..]), i, j)
  {
    a[i], a[j] := a[j], a[i];
  }

  /** The blocks of `n` elements at `i` and `j` exchanged. */
  function Exchanged<T>(s: seq<T>, i: nat, j: nat, n: nat): (t: seq<T>)
    requires i + n <= j && j + n <= |s|
    ensures |t| == |s|
  {
    s[..i] + s[j..j + n] + s[i + n..j] + s[i..i + n] + s[j + n..]
  }

  lemma ExchangedAt<T>(s: seq<T>, i: nat, j: nat, n: nat, x: nat)
    requires i + n <= j && j + n <= |s| && x < |s|
    ensures Exchanged(s, i, j, n)[x] == if i <= x < i + n then s[x + (j - i)]
            else if j <= x < j + n then s[x - (j - i)] else s[x]
  {
  }

  lemma ExchangeNone<T>(s: seq<T>, i: nat, j: nat)
    requires i <= j <= |s|
    ensures Exchanged(s, i, j, 0) == s
  {
  }

  lemma ExchangeOneMore<T>(s: seq<T>, i: nat, j: nat, k: nat)
    requires i + k + 1 <= j && j + k + 1 <= |s|
    ensures Swapped(Exchanged(s, i, j, k), i + k, j + k) == Exchanged(s, i, j, k + 1)
  {
    hide Exchanged;
    var t, u := Swapped(Exchanged(s, i, j, k), i + k, j + k), Exchanged(s, i, j, k + 1);
    ExchangedAt(s, i, j, k, i + k);
    ExchangedAt(s, i, j, k, j + k);
    forall x | 0 <= x < |s| ensures t[x] == u[x] {
      ExchangedAt(s, i, j, k, x);
      ExchangedAt(s, i, j, k + 1, x);
    }
  }

  /** `vecswap`. */
  method VecSwap<T>(a: array<T>, i: nat, j: nat, n: nat, ghost lo: nat, ghost hi: nat)
    requires lo <= i && i + n <= j && j + n <= hi <= a.Length
    modifies a
    ensures a[..] == Exchanged(old(a[..]), i, j, n)
    ensures Perm(old(a[..]), a[..], lo, hi)
  {
    hide Perm, Swapped, Exchanged;
    ghost var s := a[..];
    PermRefl(s, lo, hi);
    ExchangeNone(s, i, j);
    var k := 0;
    while k < n
      invariant 0 <= k <= n
      invariant a[..] == Exchanged(s, i, j, k) && Perm(s, a[..], lo, hi)
    {
      ghost var t := a[..];
      ExchangeOneMore(s, i, j, k);
      SwapPerm(t, i + k, j + k, lo, hi);
      Swap(a, i + k, j + k);
      PermTrans(s, t, a[..], lo, hi);
      k := k + 1;
    }
  }

  /** `med3`: the index, among the three, of a median element. */
  function Med3<T(!new)>(s: seq<T>, cmp: (T, T) -> int, a: nat, b: nat, c: nat): (m: nat)
    requires a < |s| && b < |s| && c < |s|
    ensures m == a || m == b || m == c
  {
    if cmp(s[a], s[b]) < 0
    then (if cmp(s[b], s[c]) < 0 then b else if cmp(s[a], s[c]) < 0 then c else a)
    else (if cmp(s[b], s[c]) > 0 then b else if cmp(s[a], s[c]) < 0 then a else c)
  }

  /** `m` is one of the three places, and its element has the other two on either side. */
  ghost predicate Median<T(!new)>(s: seq<T>, cmp: (T, T) -> int, a: nat, b: nat, c: nat, m: nat)
    requires a < |s| && b < |s| && c < |s|
  {
    (m == a && Between(s, cmp, b, a, c)) || (m == b && Between(s, cmp, a, b, c)) || (m == c && Between(s, cmp, a, c, b))
  }

  predicate Between<T(!new)>(s: seq<T>, cmp: (T, T) -> int, x: nat, m: nat, y: nat)
    requires x < |s| && m < |s| && y < |s|
  {
    (cmp(s[x], s[m]) <= 0 && cmp(s[m], s[y]) <= 0) || (cmp(s[y], s[m]) <= 0 && cmp(s[m], s[x]) <= 0)
  }

  lemma Med3IsMedian<T(!new)>(s: seq<T>, cmp: (T, T) -> int, a: nat, b: nat, c: nat)
    requires a < |s| && b < |s| && c < |s| && Preorder(cmp)
    ensures Median(s, cmp, a, b, c, Med3(s, cmp, a, b, c))
  {
    hide Preorder;
    Trans(cmp, s[a], s[b], s[c]);
    Trans(cmp, s[b], s[c], s[a]);
    Trans(cmp, s[c], s[a], s[b]);
  }

  /** A median of three of the nine places, three by three. */
  ghost predicate Ninther<T(!new)>(s: seq<T>, cmp: (T, T) -> int, lo: nat, mid: nat, last: nat, d: nat, m: nat)
    requires lo + 2 * d < |s| && d <= mid && mid + d < |s| && 2 * d <= last < |s|
  {
    exists pl: nat, pm: nat, pn: nat :: pl < |s| && pm < |s| && pn < |s|
      && Median(s, cmp, lo, lo + d, lo + 2 * d, pl) && Median(s, cmp, mid - d, mid, mid + d, pm)
      && Median(s, cmp, last - 2 * d, last - d, last, pn) && Median(s, cmp, pl, pm, pn, m)
  }

  /** The pivot: the middle element, the median of three, or the pseudo-median of nine. */
  method ChoosePivot<T(!new)>(a: array<T>, cmp: (T, T) -> int, lo: nat, hi: nat) returns (pm: nat)
    requires lo + 7 <= hi <= a.Length && Preorder(cmp)
    ensures lo <= pm < hi
    ensures hi - lo == 7 ==> pm == lo + 3
    ensures 7 < hi - lo <= 40 ==> Median(a[..], cmp, lo, lo + (hi - lo) / 2, hi - 1, pm)
    ensures 40 < hi - lo ==> Ninther(a[..], cmp, lo, lo + (hi - lo) / 2, hi - 1, (hi - lo) / 8, pm)
  {
    hide Preorder, Median, Med3, Ninther;
    var n := hi - lo;
    pm := lo + n / 2;
    if n > 40 {
      pm := OfNine(a, cmp, lo, pm, hi - 1, n / 8);
    } else if n > 7 {
      Med3IsMedian(a[..], cmp, lo, pm, hi - 1);
      pm := Med3(a[..], cmp, lo, pm, hi - 1);
    }
  }

  method OfNine<T(!new)>(a: array<T>, cmp: (T, T) -> int, lo: nat, mid: nat, last: nat, d: nat) returns (m: nat)
    requires Preorder(cmp) && lo + 2 * d <= mid && mid + 2 * d <= last < a.Length
    ensures lo <= m <= last && Ninther(a[..], cmp, lo, mid, last, d, m)
  {
    hide Preorder, Median, Med3;
    ghost var s := a[..];
    Med3IsMedian(s, cmp, lo, lo + d, lo + 2 * d);
    Med3IsMedian(s, cmp, mid - d, mid, mid + d);
    Med3IsMedian(s, cmp, last - 2 * d, last - d, last);
    var pl := Med3(a[..], cmp, lo, lo + d, lo + 2 * d);
    var pm := Med3(a[..], cmp, mid - d, mid, mid + d);
    var pn := Med3(a[..], cmp, last - 2 * d, last - d, last);
    Med3IsMedian(s, cmp, pl, pm, pn);
    m := Med3(a[..], cmp, pl, pm, pn);
  }

  // ------------------------------------------------------------------------- insertion sort

  /** `lo..end` is in order, except that the element at `hole` may be too small. */
  ghost predicate SortedBut<T(!new)>(s: seq<T>, cmp: (T, T) -> int, lo: nat, end: nat, hole: nat)
    requires end <= |s|
  {
    forall i, j :: lo <= i < j < end && j != hole ==> cmp(s[i], s[j]) <= 0
  }

  lemma SwapDown<T(!new)>(s: seq<T>, cmp: (T, T) -> int, lo: nat, end: nat, hole: nat)
    requires lo < hole < end <= |s| && SortedBut(s, cmp, lo, end, hole) && cmp(s[hole - 1], s[hole]) > 0
             && Preorder(cmp)
    ensures SortedBut(Swapped(s, hole, hole - 1), cmp, lo, end, hole - 1)
  {
    hide Preorder;
    var t := Swapped(s, hole, hole - 1);
    forall i, j | lo <= i < j < end && j != hole - 1 ensures cmp(t[i], t[j]) <= 0 {
      Trans(cmp, s[hole - 1], s[hole], s[hole]);
      Trans(cmp, s[hole], s[hole - 1], s[j]);
    }
  }

  /** One element is in order, and one more may be out of place. */
  lemma SortedOpens<T(!new)>(s: seq<T>, cmp: (T, T) -> int, lo: nat, end: nat)
    requires lo <= end <= |s|
    ensures end <= lo + 1 ==> SortedBut(s, cmp, lo, end, end)
    ensures end < |s| && SortedBut(s, cmp, lo, end, end) ==> SortedBut(s, cmp, lo, end + 1, end)
  {
  }

  lemma HoleFilled<T(!new)>(s: seq<T>, cmp: (T, T) -> int, lo: nat, end: nat, hole: nat)
    requires lo <= hole < end <= |s| && SortedBut(s, cmp, lo, end, hole) && Preorder(cmp)
    requires hole > lo ==> cmp(s[hole - 1], s[hole]) <= 0
    ensures SortedBut(s, cmp, lo, end, end)
  {
    hide Preorder;
    forall i, j | lo <= i < j < end ensures cmp(s[i], s[j]) <= 0 {
      if j == hole && i < hole - 1 { Trans(cmp, s[i], s[hole - 1], s[hole]); }
    }
  }

  /** The inner loop: the element at `pm` sinks into the sorted elements before it. */
  method Sink<T(!new)>(a: array<T>, cmp: (T, T) -> int, lo: nat, pm: nat, ghost hi: nat)
    requires lo <= pm < hi <= a.Length && Preorder(cmp) && SortedBut(a[..], cmp, lo, pm + 1, pm)
    modifies a
    ensures Perm(old(a[..]), a[..], lo, hi) && SortedBut(a[..], cmp, lo, pm + 1, pm + 1)
  {
    hide Preorder, Perm, SortedBut, Swapped;
    ghost var s0 := a[..];
    PermRefl(s0, lo, hi);
    var pl := pm;
    while pl > lo && cmp(a[pl - 1], a[pl]) > 0
      invariant lo <= pl <= pm
      invariant Perm(s0, a[..], lo, hi) && SortedBut(a[..], cmp, lo, pm + 1, pl)
    {
      ghost var s := a[..];
      SwapDown(s, cmp, lo, pm + 1, pl);
      SwapPerm(s, pl, pl - 1, lo, hi);
      Swap(a, pl, pl - 1);
      PermTrans(s0, s, a[..], lo, hi);
      pl := pl - 1;
    }
    HoleFilled(a[..], cmp, lo, pm + 1, pl);
  }

  /** The case of fewer than seven elements (lines 113-119). */
  method InsertionSort<T(!new)>(a: array<T>, cmp: (T, T) -> int, lo: nat, hi: nat)
    requires lo <= hi <= a.Length && Preorder(cmp)
    modifies a
    ensures Perm(old(a[..]), a[..], lo, hi) && SortedBut(a[..], cmp, lo, hi, hi)
  {
    hide Preorder, Perm, SortedBut;
    ghost var s0 := a[..];
    PermRefl(s0, lo, hi);
    SortedOpens(s0, cmp, lo, lo);
    if lo == hi { return; }
    var pm := lo + 1;
    SortedOpens(s0, cmp, lo, pm);
    while pm < hi
      invariant lo < pm <= hi
      invariant Perm(s0, a[..], lo, hi) && SortedBut(a[..], cmp, lo, pm, pm)
    {
      ghost var s := a[..];
      SortedOpens(s, cmp, lo, pm);
      Sink(a, cmp, lo, pm, hi);
      PermTrans(s0, s, a[..], lo, hi);
      pm := pm + 1;
    }
  }

  // ------------------------------------------------------------------------------ partition

  /** The scan: elements equal to the pivot `v` are collected at both ends, smaller ones after
      the left ones and greater ones before the right ones; `pb..pc` is still to be looked at
      (`pc` and `pd` are one past the pointers of that name). */
  ghost predicate Parted<T(!new)>(s: seq<T>, cmp: (T, T) -> int, v: T, lo: nat, pa: nat, pb: nat, pc: nat, pd: nat,
                                  hi: nat) {
    && lo < pa <= pb <= pc <= pd <= hi <= |s| && s[lo] == v
    && Signed(s, cmp, lo, pa, v, 0) && Signed(s, cmp, pa, pb, v, -1)
    && Signed(s, cmp, pc, pd, v, 1) && Signed(s, cmp, pd, hi, v, 0)
  }

  lemma PartedStart<T(!new)>(s: seq<T>, cmp: (T, T) -> int, lo: nat, hi: nat)
    requires lo < hi <= |s| && Preorder(cmp)
    ensures Parted(s, cmp, s[lo], lo, lo + 1, lo + 1, hi, hi, hi)
  {
    hide Preorder;
    Trans(cmp, s[lo], s[lo], s[lo]);
  }

  lemma PartedFacts<T(!new)>(s: seq<T>, cmp: (T, T) -> int, v: T, lo: nat, pa: nat, pb: nat, pc: nat, pd: nat, hi: nat)
    requires Parted(s, cmp, v, lo, pa, pb, pc, pd, hi)
    ensures lo < pa <= pb <= pc <= pd <= hi <= |s| && s[lo] == v
  {
  }

  lemma ScanUp<T(!new)>(s: seq<T>, cmp: (T, T) -> int, v: T, lo: nat, pa: nat, pb: nat, pc: nat, pd: nat, hi: nat)
    requires Parted(s, cmp, v, lo, pa, pb, pc, pd, hi) && pb < pc
    ensures cmp(s[pb], v) < 0 ==> Parted(s, cmp, v, lo, pa, pb + 1, pc, pd, hi)
    ensures cmp(s[pb], v) == 0 ==> Parted(Swapped(s, pa, pb), cmp, v, lo, pa + 1, pb + 1, pc, pd, hi)
  {
  }

  lemma ScanDown<T(!new)>(s: seq<T>, cmp: (T, T) -> int, v: T, lo: nat, pa: nat, pb: nat, pc: nat, pd: nat, hi: nat)
    requires Parted(s, cmp, v, lo, pa, pb, pc, pd, hi) && pb < pc
    ensures cmp(s[pc - 1], v) > 0 ==> Parted(s, cmp, v, lo, pa, pb, pc - 1, pd, hi)
    ensures cmp(s[pc - 1], v) == 0 ==> Parted(Swapped(s, pc - 1, pd - 1), cmp, v, lo, pa, pb, pc - 1, pd - 1, hi)
  {
  }

  lemma Cross<T(!new)>(s: seq<T>, cmp: (T, T) -> int, v: T, lo: nat, pa: nat, pb: nat, pc: nat, pd: nat, hi: nat)
    requires Parted(s, cmp, v, lo, pa, pb, pc, pd, hi) && pb < pc && cmp(s[pb], v) > 0 && cmp(s[pc - 1], v) < 0
    ensures pb + 1 < pc && Parted(Swapped(s, pb, pc - 1), cmp, v, lo, pa, pb + 1, pc - 1, pd, hi)
  {
  }

  /** The loop that moves `pb` up (lines 137-143). */
  method MoveUp<T(!new)>(a: array<T>, cmp: (T, T) -> int, lo: nat, pa0: nat, pb0: nat, pc: nat, ghost pd: nat,
                         ghost hi: nat)
    returns (pa: nat, pb: nat)
    requires hi <= a.Length && lo < a.Length && Parted(a[..], cmp, a[lo], lo, pa0, pb0, pc, pd, hi)
    modifies a
    ensures a[lo] == old(a[lo]) && Parted(a[..], cmp, a[lo], lo, pa, pb, pc, pd, hi) && Perm(old(a[..]), a[..], lo, hi)
    ensures pb0 <= pb <= pc <= a.Length && (pb < pc ==> cmp(a[pb], a[lo]) > 0)
  {
    hide Parted, Perm, Swapped;
    pa, pb := pa0, pb0;
    ghost var s0, v := a[..], a[lo];
    PartedFacts(s0, cmp, v, lo, pa, pb, pc, pd, hi);
    PermRefl(s0, lo, hi);
    while pb < pc && cmp(a[pb], a[lo]) <= 0
      invariant pb0 <= pb <= pc <= hi && lo < pa <= pb && a[lo] == v
      invariant Parted(a[..], cmp, v, lo, pa, pb, pc, pd, hi) && Perm(s0, a[..], lo, hi)
    {
      ghost var s := a[..];
      ScanUp(s, cmp, v, lo, pa, pb, pc, pd, hi);
      if cmp(a[pb], a[lo]) == 0 {
        SwapPerm(s, pa, pb, lo, hi);
        Swap(a, pa, pb);
        PermTrans(s0, s, a[..], lo, hi);
        pa := pa + 1;
      }
      pb := pb + 1;
      PartedFacts(a[..], cmp, v, lo, pa, pb, pc, pd, hi);
    }
  }

  /** The loop that moves `pc` down (lines 144-150). */
  method MoveDown<T(!new)>(a: array<T>, cmp: (T, T) -> int, lo: nat, ghost pa: nat, pb: nat, pc0: nat, pd0: nat,
                           ghost hi: nat)
    returns (pc: nat, pd: nat)
    requires hi <= a.Length && lo < a.Length && Parted(a[..], cmp, a[lo], lo, pa, pb, pc0, pd0, hi)
    modifies a
    ensures a[lo] == old(a[lo]) && Parted(a[..], cmp, a[lo], lo, pa, pb, pc, pd, hi) && Perm(old(a[..]), a[..], lo, hi)
    ensures pb <= pc <= pc0 && pc <= a.Length && (pb < pc ==> cmp(a[pc - 1], a[lo]) < 0)
    ensures pb < pc ==> a[pb] == old(a[pb])
  {
    hide Parted, Perm, Swapped;
    pc, pd := pc0, pd0;
    ghost var s0, v := a[..], a[lo];
    PartedFacts(s0, cmp, v, lo, pa, pb, pc, pd, hi);
    PermRefl(s0, lo, hi);
    while pb < pc && cmp(a[pc - 1], a[lo]) >= 0
      invariant pb <= pc <= pc0 && pc <= hi && a[lo] == v && (pb < pc ==> a[pb] == s0[pb])
      invariant Parted(a[..], cmp, v, lo, pa, pb, pc, pd, hi) && Perm(s0, a[..], lo, hi)
    {
      ghost var s := a[..];
      pd := OneDown(a, cmp, lo, pa, pb, pc, pd, hi);
      PermTrans(s0, s, a[..], lo, hi);
      pc := pc - 1;
    }
  }

  /** One turn of that loop, at the element before `pc`. */
  method OneDown<T(!new)>(a: array<T>, cmp: (T, T) -> int, lo: nat, ghost pa: nat, ghost pb: nat, pc: nat, pd0: nat,
                          ghost hi: nat)
    returns (pd: nat)
    requires hi <= a.Length && lo < a.Length && Parted(a[..], cmp, a[lo], lo, pa, pb, pc, pd0, hi)
    requires pb < pc <= a.Length && cmp(a[pc - 1], a[lo]) >= 0
    modifies a
    ensures a[lo] == old(a[lo]) && Parted(a[..], cmp, a[lo], lo, pa, pb, pc - 1, pd, hi)
            && Perm(old(a[..]), a[..], lo, hi)
    ensures pb < pc - 1 ==> a[pb] == old(a[pb])
  {
    hide Parted, Perm, Swapped;
    ghost var s, v := a[..], a[lo];
    pd := pd0;
    PartedFacts(s, cmp, v, lo, pa, pb, pc, pd, hi);
    ScanDown(s, cmp, v, lo, pa, pb, pc, pd, hi);
    if cmp(a[pc - 1], a[lo]) == 0 {
      SwapPerm(s, pc - 1, pd - 1, lo, hi);
      if pb < pc - 1 { SwapLeaves(s, pc - 1, pd - 1, pb); }
      Swap(a, pc - 1, pd - 1);
      pd := pd - 1;
    } else {
      PermRefl(s, lo, hi);
    }
    PartedFacts(a[..], cmp, v, lo, pa, pb, pc - 1, pd, hi);
  }

  /** The loop of lines 136-156: everything but the pivot is looked at. */
  method Scan<T(!new)>(a: array<T>, cmp: (T, T) -> int, lo: nat, hi: nat) returns (pa: nat, pb: nat, pd: nat)
    requires lo < hi <= a.Length && Preorder(cmp)
    modifies a
    ensures a[lo] == old(a[lo]) && Parted(a[..], cmp, a[lo], lo, pa, pb, pb, pd, hi) && Perm(old(a[..]), a[..], lo, hi)
  {
    hide Parted, Perm, Swapped, Preorder;
    ghost var s0, v := a[..], a[lo];
    pa, pb := lo + 1, lo + 1;
    var pc := hi;
    pd := hi;
    PartedStart(s0, cmp, lo, hi);
    PermRefl(s0, lo, hi);
    while true
      invariant pb <= pc <= hi && a[lo] == v
      invariant Parted(a[..], cmp, v, lo, pa, pb, pc, pd, hi) && Perm(s0, a[..], lo, hi)
      decreases pc - pb
    {
      ghost var s1, width := a[..], pc - pb;
      pa, pb := MoveUp(a, cmp, lo, pa, pb, pc, pd, hi);
      ghost var s2 := a[..];
      PermTrans(s0, s1, s2, lo, hi);
      pc, pd := MoveDown(a, cmp, lo, pa, pb, pc, pd, hi);
      ghost var s3 := a[..];
      PermTrans(s0, s2, s3, lo, hi);
      PartedFacts(s3, cmp, v, lo, pa, pb, pc, pd, hi);
      if pb == pc { break; }
      Cross(s3, cmp, v, lo, pa, pb, pc, pd, hi);
      SwapPerm(s3, pb, pc - 1, lo, hi);
      Swap(a, pb, pc - 1);
      PermTrans(s0, s3, a[..], lo, hi);
      pb, pc := pb + 1, pc - 1;
      PartedFacts(a[..], cmp, v, lo, pa, pb, pc, pd, hi);
    }
  }

  /** What is below the pivot, what ties with it, and what is above it. */
  ghost predicate Split<T(!new)>(s: seq<T>, cmp: (T, T) -> int, v: T, lo: nat, lt: nat, gt: nat, hi: nat) {
    && lo <= lt < gt <= hi <= |s|
    && Signed(s, cmp, lo, lt, v, -1) && Signed(s, cmp, lt, gt, v, 0) && Signed(s, cmp, gt, hi, v, 1)
  }

  function Min(x: nat, y: nat): nat { if x < y then x else y }

  /** Exchanging the shorter of two neighbouring blocks with the far end of the other one
      exchanges the blocks' places. */
  lemma BlocksTurned<T(!new)>(s: seq<T>, cmp: (T, T) -> int, v: T, i: nat, m: nat, j: nat, x: int, y: int)
    requires i <= m <= j <= |s| && Signed(s, cmp, i, m, v, x) && Signed(s, cmp, m, j, v, y)
    ensures var r := Min(m - i, j - m);
            var t := Exchanged(s, i, j - r, r);
            Signed(t, cmp, i, i + (j - m), v, y) && Signed(t, cmp, i + (j - m), j, v, x)
            && forall k :: 0 <= k < i || j <= k < |s| ==> t[k] == s[k]
  {
    hide Exchanged;
    var r := Min(m - i, j - m);
    var t := Exchanged(s, i, j - r, r);
    forall k | i <= k < i + (j - m) ensures Tells(cmp(t[k], v), y) {
      ExchangedAt(s, i, j - r, r, k);
    }
    forall k | i + (j - m) <= k < j ensures Tells(cmp(t[k], v), x) {
      ExchangedAt(s, i, j - r, r, k);
    }
    forall k | 0 <= k < i || j <= k < |s| ensures t[k] == s[k] {
      ExchangedAt(s, i, j - r, r, k);
    }
  }

  /** One round of `_pqsort` up to line 162: choose a pivot, scan, and bring the ties to the middle. */
  method Partition<T(!new)>(a: array<T>, cmp: (T, T) -> int, lo: nat, hi: nat) returns (lt: nat, gt: nat, ghost v: T)
    requires lo + 7 <= hi <= a.Length && Preorder(cmp)
    modifies a
    ensures Split(a[..], cmp, v, lo, lt, gt, hi) && Perm(old(a[..]), a[..], lo, hi)
  {
    hide Parted, Perm, Swapped, Preorder, Exchanged, Split, Signed;
    ghost var s0 := a[..];
    var pm := ChoosePivot(a, cmp, lo, hi);
    SwapPerm(s0, lo, pm, lo, hi);
    Swap(a, lo, pm);
    ghost var s1 := a[..];
    var pa, pb, pd := Scan(a, cmp, lo, hi);
    ghost var s2 := a[..];
    v := a[lo];
    PermTrans(s0, s1, s2, lo, hi);
    PartedFacts(s2, cmp, v, lo, pa, pb, pb, pd, hi);
    var r := Min(pa - lo, pb - pa);
    VecSwap(a, lo, pb - r, r, lo, hi);
    ghost var s3 := a[..];
    PermTrans(s0, s2, s3, lo, hi);
    r := Min(pd - pb, hi - pd);
    VecSwap(a, pb, hi - r, r, lo, hi);
    PermTrans(s0, s3, a[..], lo, hi);
    lt, gt := lo + (pb - pa), hi - (pd - pb);
    Turned(s2, s3, a[..], cmp, v, lo, pa, pb, pd, hi);
  }

  lemma Turned<T(!new)>(s: seq<T>, t: seq<T>, u: seq<T>, cmp: (T, T) -> int, v: T, lo: nat, pa: nat, pb: nat,
                        pd: nat, hi: nat)
    requires Parted(s, cmp, v, lo, pa, pb, pb, pd, hi)
    requires var r := Min(pa - lo, pb - pa); t == Exchanged(s, lo, pb - r, r)
    requires var r := Min(pd - pb, hi - pd); u == Exchanged(t, pb, hi - r, r)
    ensures Split(u, cmp, v, lo, lo + (pb - pa), hi - (pd - pb), hi)
  {
    hide Exchanged, Signed;
    BlocksTurned(s, cmp, v, lo, pa, pb, 0, -1);
    SignedKept(s, t, cmp, pb, pd, v, 1);
    SignedKept(s, t, cmp, pd, hi, v, 0);
    BlocksTurned(t, cmp, v, pb, pd, hi, 1, 0);
    SignedKept(t, u, cmp, lo, lo + (pb - pa), v, -1);
    SignedKept(t, u, cmp, lo + (pb - pa), pb, v, 0);
    SignedJoin(u, cmp, lo + (pb - pa), pb, hi - (pd - pb), v, 0);
  }

  lemma SignedJoin<T(!new)>(s: seq<T>, cmp: (T, T) -> int, i: nat, m: nat, j: nat, v: T, sign: int)
    requires i <= m <= j <= |s| && Signed(s, cmp, i, m, v, sign) && Signed(s, cmp, m, j, v, sign)
    ensures Signed(s, cmp, i, j, v, sign)
  {
  }

  // ------------------------------------------------------------------------- the whole sort

  /** No element from `lo` to `mid` is greater than one from `mid` to `hi`. */
  ghost predicate Below<T(!new)>(s: seq<T>, cmp: (T, T) -> int, lo: nat, mid: nat, hi: nat)
    requires hi <= |s|
  {
    forall i, j :: lo <= i < mid && mid <= j < hi ==> cmp(s[i], s[j]) <= 0
  }

  lemma BelowNone<T(!new)>(s: seq<T>, cmp: (T, T) -> int, lo: nat, hi: nat)
    requires hi <= |s|
    ensures Below(s, cmp, lo, lo, hi)
  {
  }

  lemma BelowPerm<T(!new)>(s: seq<T>, t: seq<T>, cmp: (T, T) -> int, lo: nat, mid: nat, hi: nat)
    requires hi <= |s| && Below(s, cmp, lo, mid, hi) && Perm(s, t, mid, hi)
    ensures |t| == |s| && Below(t, cmp, lo, mid, hi)
  {
    hide Perm;
    PermLength(s, t, mid, hi);
    forall i, j | lo <= i < mid && mid <= j < hi ensures cmp(t[i], t[j]) <= 0 {
      PermOutside(s, t, mid, hi, i);
      var k := PermElement(s, t, mid, hi, j);
    }
  }

  lemma WindowedKept<T(!new)>(s: seq<T>, t: seq<T>, cmp: (T, T) -> int, lo: nat, mid: nat, hi: nat, l: nat, r: nat)
    requires mid <= |s| && Windowed(s, cmp, lo, mid, l, r) && Perm(s, t, mid, hi)
    ensures |t| == |s| && Windowed(t, cmp, lo, mid, l, r)
  {
    hide Perm;
    PermLength(s, t, mid, hi);
    forall i, j | lo <= i < j < mid && i <= r && l <= j ensures cmp(t[i], t[j]) <= 0 {
      PermOutside(s, t, mid, hi, i);
      PermOutside(s, t, mid, hi, j);
    }
  }

  /** Two finished neighbours, the first below the second, are finished together. */
  lemma WindowedJoin<T(!new)>(s: seq<T>, cmp: (T, T) -> int, lo: nat, mid: nat, hi: nat, l: nat, r: nat)
    requires lo <= mid <= hi <= |s| && Below(s, cmp, lo, mid, hi)
    requires Windowed(s, cmp, lo, mid, l, r) && Windowed(s, cmp, mid, hi, l, r)
    ensures Windowed(s, cmp, lo, hi, l, r)
  {
  }

  lemma BelowMove<T(!new)>(s: seq<T>, cmp: (T, T) -> int, lo: nat, mid: nat, cut: nat, hi: nat)
    requires lo <= mid <= cut <= hi <= |s| && Below(s, cmp, lo, mid, hi)
    ensures Below(s, cmp, lo, mid, cut)
    ensures Below(s, cmp, mid, cut, hi) ==> Below(s, cmp, lo, cut, hi)
  {
  }

  /** What the partition gives is in order around both cuts, and the ties are in order. */
  lemma SplitOrders<T(!new)>(s: seq<T>, cmp: (T, T) -> int, v: T, lo: nat, lt: nat, gt: nat, hi: nat, l: nat, r: nat)
    requires Split(s, cmp, v, lo, lt, gt, hi) && Preorder(cmp)
    ensures lo <= lt < gt <= hi <= |s|
    ensures Below(s, cmp, lo, lt, gt) && Windowed(s, cmp, lt, gt, l, r) && Below(s, cmp, lo, gt, hi)
  {
    hide Preorder;
    forall i, j | lo <= i < j < hi && (i < lt <= j || i < gt <= j || lt <= i < j < gt) ensures cmp(s[i], s[j]) <= 0 {
      Trans(cmp, s[i], v, s[j]);
      Trans(cmp, v, s[j], v);
    }
  }

  /** Sorting what is below the pivot keeps the split. */
  lemma SplitPerm<T(!new)>(s: seq<T>, t: seq<T>, cmp: (T, T) -> int, v: T, lo: nat, lt: nat, gt: nat, hi: nat)
    requires Split(s, cmp, v, lo, lt, gt, hi) && Perm(s, t, lo, lt)
    ensures Split(t, cmp, v, lo, lt, gt, hi)
  {
    hide Perm, Signed;
    PermLength(s, t, lo, lt);
    SignedPerm(s, t, cmp, lo, lt, v, -1);
    forall i | lt <= i < hi ensures s[i] == t[i] { PermOutside(s, t, lo, lt, i); }
    SignedKept(s, t, cmp, lt, gt, v, 0);
    SignedKept(s, t, cmp, gt, hi, v, 1);
  }

  lemma SplitFacts<T(!new)>(s: seq<T>, cmp: (T, T) -> int, v: T, lo: nat, lt: nat, gt: nat, hi: nat)
    requires Split(s, cmp, v, lo, lt, gt, hi)
    ensures lo <= lt < gt <= hi <= |s|
  {
  }

  /** One round: from `lo` on the elements were permuted, split, and the low part was finished. */
  lemma RoundDone<T(!new)>(s: seq<T>, t: seq<T>, cmp: (T, T) -> int, v: T, start: nat, lo: nat, lt: nat, gt: nat,
                           hi: nat, l: nat, r: nat)
    requires start <= lo <= hi <= |s| && Preorder(cmp)
    requires Windowed(s, cmp, start, lo, l, r) && Below(s, cmp, start, lo, hi) && Perm(s, t, lo, hi)
    requires Split(t, cmp, v, lo, lt, gt, hi) && lt <= |t| && Windowed(t, cmp, lo, lt, l, r)
    ensures hi <= |t| && start <= gt <= hi && Windowed(t, cmp, start, gt, l, r) && Below(t, cmp, start, gt, hi)
  {
    hide Preorder, Perm, Windowed, Below, Split;
    SplitOrders(t, cmp, v, lo, lt, gt, hi, l, r);
    WindowedKept(s, t, cmp, start, lo, hi, l, r);
    BelowPerm(s, t, cmp, start, lo, hi);
    WindowedJoin(t, cmp, lo, lt, gt, l, r);
    BelowMove(t, cmp, start, lo, gt, hi);
    WindowedJoin(t, cmp, start, lo, gt, l, r);
  }

  /** A part of at most one element needs no work, nor does one that misses the window. */
  lemma NoWork<T(!new)>(s: seq<T>, cmp: (T, T) -> int, lo: nat, hi: nat, l: nat, r: nat)
    requires hi <= |s| && (hi <= lo + 1 || Missed(lo, hi, l, r))
    ensures Windowed(s, cmp, lo, hi, l, r)
  {
  }

  lemma SortedIsWindowed<T(!new)>(s: seq<T>, cmp: (T, T) -> int, lo: nat, hi: nat, l: nat, r: nat)
    requires hi <= |s| && SortedBut(s, cmp, lo, hi, hi)
    ensures Windowed(s, cmp, lo, hi, l, r)
  {
  }

  /** The window, by element numbers, misses the part. */
  predicate Missed(lo: nat, hi: nat, l: nat, r: nat) {
    (l < lo && r < lo) || (l >= hi && r >= hi)
  }

  /** The test of lines 165-166 and 178-179, on the addresses of the first and last bytes of the
      window and of the part. */
  predicate Outside(lrange: int, rrange: int, left: int, right: int) {
    (lrange < left && rrange < left) || (lrange > right && rrange > right)
  }

  lemma MissedByAddress(es: nat, lo: nat, hi: nat, l: nat, r: nat)
    requires es > 0
    ensures Outside(l * es, (r + 1) * es - 1, lo * es, hi * es - 1) <==> Missed(lo, hi, l, r)
  {
    Scaled(es, l, lo);
    Scaled(es, r + 1, lo);
    Scaled(es, hi, l);
    Scaled(es, hi, r + 1);
  }

  /** A multiple of `es`, and the byte before one, on either side of another multiple. */
  lemma Scaled(es: nat, x: nat, y: nat)
    requires es > 0
    ensures x * es < y * es <==> x < y
    ensures x * es - 1 < y * es <==> x <= y
    ensures x * es - 1 < y * es - 1 <==> x < y
  {
    if x < y { OneApart(es, x, y); }
    if y < x { OneApart(es, y, x); }
  }

  lemma {:induction false} OneApart(es: nat, x: nat, y: nat)
    requires x < y
    ensures x * es + es <= y * es
    decreases y
  {
    assert (y - 1) * es + es == y * es;
    if x < y - 1 { OneApart(es, x, y - 1); }
  }

  /** `_pqsort`: the low part by recursion, the high part by going round again.  The window from
      `l` to `r` is given by the addresses of its first and last bytes, counted from the array's;
      an element has `es` bytes. */
  method SortRange<T(!new)>(a: array<T>, es: nat, cmp: (T, T) -> int, start: nat, hi: nat,
                            lrange: int, rrange: int, ghost l: nat, ghost r: nat)
    requires start <= hi <= a.Length && Preorder(cmp)
    requires es > 0 && lrange == l * es && rrange == (r + 1) * es - 1
    modifies a
    ensures Perm(old(a[..]), a[..], start, hi)
    ensures Windowed(a[..], cmp, start, hi, l, r)
    decreases hi - start
  {
    hide Preorder, Perm, Windowed, Below, Split, Missed, Outside;
    ghost var s0 := a[..];
    var lo := start;
    PermRefl(s0, start, hi);
    NoWork(s0, cmp, start, lo, l, r);
    BelowNone(s0, cmp, start, hi);
    while true
      invariant start <= lo <= hi && Perm(s0, a[..], start, hi)
      invariant Windowed(a[..], cmp, start, lo, l, r) && Below(a[..], cmp, start, lo, hi)
      decreases hi - lo
    {
      ghost var s := a[..];
      if hi - lo < 7 {
        InsertionSort(a, cmp, lo, hi);
        SortedIsWindowed(a[..], cmp, lo, hi, l, r);
        WindowedKept(s, a[..], cmp, start, lo, hi, l, r);
        BelowPerm(s, a[..], cmp, start, lo, hi);
        PermWiden(s, a[..], lo, hi, start, hi);
        PermTrans(s0, s, a[..], start, hi);
        break;
      }
      ghost var v;
      var lt, gt;
      lt, gt, v := Partition(a, cmp, lo, hi);
      ghost var t := a[..];
      SplitFacts(t, cmp, v, lo, lt, gt, hi);
      PermRefl(t, lo, lt);
      MissedByAddress(es, lo, lt, l, r);
      if lt - lo > 1 && !Outside(lrange, rrange, lo * es, lt * es - 1) {
        SortRange(a, es, cmp, lo, lt, lrange, rrange, l, r);
      } else {
        NoWork(t, cmp, lo, lt, l, r);
      }
      ghost var u := a[..];
      SplitPerm(t, u, cmp, v, lo, lt, gt, hi);
      PermWiden(t, u, lo, lt, lo, hi);
      PermTrans(s, t, u, lo, hi);
      RoundDone(s, u, cmp, v, start, lo, lt, gt, hi, l, r);
      PermWiden(s, u, lo, hi, start, hi);
      PermTrans(s0, s, u, start, hi);
      lo := gt;
      MissedByAddress(es, lo, hi, l, r);
      if hi - lo <= 1 || Outside(lrange, rrange, lo * es, hi * es - 1) {
        NoWork(u, cmp, lo, hi, l, r);
        break;
      }
    }
    WindowedJoin(a[..], cmp, start, lo, hi, l, r);
  }

  /** `pqsort`: the elements from `l` to `r` are in order, none before them is greater than
      any of them or of those after them, and none after them is less. */
  method Pqsort<T(!new)>(a: array<T>, es: nat, cmp: (T, T) -> int, l: nat, r: nat)
    requires Preorder(cmp) && es > 0
    modifies a
    ensures multiset(a[..]) == multiset(old(a[..]))
    ensures Windowed(a[..], cmp, 0, a.Length, l, r)
    ensures forall i, j :: l <= i < j <= r && j < a.Length ==> cmp(a[i], a[j]) <= 0
    ensures forall i, j :: 0 <= i < l <= j <= r && j < a.Length ==> cmp(a[i], a[j]) <= 0
    ensures forall i, j :: l <= i <= r < j < a.Length ==> cmp(a[i], a[j]) <= 0
  {
    SortRange(a, es, cmp, 0, a.Length, l * es, (r + 1) * es - 1, l, r);
    assert a[..] == a[0..a.Length] && old(a[..]) == old(a[0..a.Length]);
  }

  // ------------------------------------------------- the window is that of a complete sort

  ghost function Count<T>(s: seq<T>, p: T -> bool): nat {
    if s == [] then 0 else (if p(s[0]) then 1 else 0) + Count(s[1..], p)
  }

  lemma {:induction false} CountAppend<T>(s: seq<T>, t: seq<T>, p: T -> bool)
    ensures Count(s + t, p) == Count(s, p) + Count(t, p)
  {
    if s == [] {
      assert s + t == t;
    } else {
      assert (s + t)[1..] == s[1..] + t;
      CountAppend(s[1..], t, p);
    }
  }

  lemma {:induction false} CountSame<T>(s: seq<T>, t: seq<T>, p: T -> bool)
    requires multiset(s) == multiset(t)
    ensures Count(s, p) == Count(t, p)
  {
    if s == [] {
      assert |multiset(t)| == 0;
    } else {
      assert s[0] in multiset(t);
      var i :| 0 <= i < |t| && t[i] == s[0];
      var u := t[..i] + t[i + 1..];
      assert t == t[..i] + ([t[i]] + t[i + 1..]);
      CountAppend(t[..i], [t[i]] + t[i + 1..], p);
      CountAppend([t[i]], t[i + 1..], p);
      CountAppend(t[..i], t[i + 1..], p);
      assert s == [s[0]] + s[1..];
      assert multiset(s[1..]) == multiset(s) - multiset{s[0]} == multiset(u);
      CountSame(s[1..], u, p);
    }
  }

  lemma {:induction false} CountRange<T>(s: seq<T>, p: T -> bool)
    ensures Count(s, p) <= |s|
    ensures (forall i :: 0 <= i < |s| ==> p(s[i])) ==> Count(s, p) == |s|
    ensures (forall i :: 0 <= i < |s| ==> !p(s[i])) ==> Count(s, p) == 0
  {
    if s != [] { CountRange(s[1..], p); }
  }

  /** The element at `k` has none greater before it and none less after it. */
  ghost predicate InPlace<T(!new)>(s: seq<T>, cmp: (T, T) -> int, k: nat)
    requires k < |s|
  {
    && (forall i :: 0 <= i < k ==> cmp(s[i], s[k]) <= 0)
    && (forall i :: k < i < |s| ==> cmp(s[k], s[i]) <= 0)
  }

  lemma RankBounds<T(!new)>(s: seq<T>, cmp: (T, T) -> int, k: nat, below: T -> bool, upTo: T -> bool)
    requires k < |s| && InPlace(s, cmp, k) && Preorder(cmp)
    requires forall x :: below(x) ==> cmp(x, s[k]) < 0
    requires forall x :: cmp(x, s[k]) <= 0 ==> upTo(x)
    ensures Count(s, below) <= k < Count(s, upTo)
  {
    hide Preorder, Count;
    assert s == s[..k] + s[k..] && s == s[..k + 1] + s[k + 1..];
    CountAppend(s[..k], s[k..], below);
    CountAppend(s[..k + 1], s[k + 1..], upTo);
    CountRange(s[..k], below);
    var tail := s[k..];
    forall i | 0 <= i < |tail| ensures !below(tail[i]) {
      Trans(cmp, s[k], s[k + i], s[k]);
      Trans(cmp, s[k], s[k], s[k]);
    }
    CountRange(tail, below);
    var head := s[..k + 1];
    forall i | 0 <= i < |head| ensures upTo(head[i]) { Trans(cmp, s[k], s[k], s[k]); }
    CountRange(head, upTo);
  }

  /** Two arrangements of the same elements, each in place at `k`, hold equivalent elements there. */
  lemma NotLess<T(!new)>(s: seq<T>, t: seq<T>, cmp: (T, T) -> int, k: nat)
    requires multiset(s) == multiset(t) && k < |s| == |t| && Preorder(cmp)
    requires InPlace(s, cmp, k) && InPlace(t, cmp, k)
    ensures cmp(s[k], t[k]) >= 0
  {
    if cmp(s[k], t[k]) < 0 {
      var below := (x: T) => cmp(x, t[k]) < 0;
      forall x | cmp(x, s[k]) <= 0 ensures below(x) { Trans(cmp, x, s[k], t[k]); }
      RankBounds(s, cmp, k, x => cmp(x, s[k]) < 0, below);
      RankBounds(t, cmp, k, below, x => cmp(x, t[k]) <= 0);
      CountSame(s, t, below);
      assert false;
    }
  }

  /** What `pqsort` leaves in the window is, place by place, what sorting everything would. */
  lemma WindowIsThatOfFullSort<T(!new)>(s: seq<T>, t: seq<T>, cmp: (T, T) -> int, l: nat, r: nat, k: nat)
    requires multiset(s) == multiset(t) && Preorder(cmp) && l <= k <= r && k < |s|
    requires Windowed(s, cmp, 0, |s|, l, r)
    requires forall i, j :: 0 <= i < j < |t| ==> cmp(t[i], t[j]) <= 0
    ensures |s| == |t| && cmp(s[k], t[k]) == 0
  {
    assert |s| == |multiset(s)| == |t|;
    NotLess(s, t, cmp, k);
    NotLess(t, s, cmp, k);
    Trans(cmp, s[k], t[k], s[k]);
  }
}
