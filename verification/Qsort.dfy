/** `qsort`: Bentley and McIlroy's quick sort with fat partitioning. Elements equal to the pivot
    are gathered at both ends, moved to the middle, and left out of the two remaining parts. */
module Qsort {

  /** What a comparison function has to be: the sign flips with the arguments, and "not greater" is
      transitive. Elements can compare equal without being the same. */
  ghost predicate Ordering<T(!new)>(cmp: (T, T) -> int) {
    && (forall x, y :: cmp(x, y) < 0 <==> cmp(y, x) > 0)
    && (forall x, y, z :: cmp(x, y) <= 0 && cmp(y, z) <= 0 ==> cmp(x, z) <= 0)
  }

  lemma Flip<T(!new)>(cmp: (T, T) -> int, x: T, y: T)
    requires Ordering(cmp)
    ensures cmp(x, y) > 0 <==> cmp(y, x) < 0
    ensures cmp(x, y) == 0 <==> cmp(y, x) == 0
  {
  }

  lemma Trans<T(!new)>(cmp: (T, T) -> int, x: T, y: T, z: T)
    requires Ordering(cmp) && cmp(x, y) <= 0 && cmp(y, z) <= 0
    ensures cmp(x, z) <= 0
  {
  }

  ghost predicate Sorted<T>(s: seq<T>, lo: nat, hi: nat, cmp: (T, T) -> int)
    requires lo <= hi <= |s|
  {
    forall i, j :: lo <= i < j < hi ==> cmp(s[i], s[j]) <= 0
  }

  /** Only the part from `lo` to `hi` changed, and it was only rearranged. */
  ghost predicate Rearranged<T>(s: seq<T>, t: seq<T>, lo: nat, hi: nat)
    requires lo <= hi <= |s|
  {
    && |t| == |s| && multiset(t[lo..hi]) == multiset(s[lo..hi])
    && (forall i :: 0 <= i < |s| && !(lo <= i < hi) ==> t[i] == s[i])
  }

  lemma Pieces<T>(s: seq<T>, lo: nat, mid: nat, end: nat, hi: nat)
    requires lo <= mid <= end <= hi <= |s|
    ensures multiset(s[lo..hi]) == multiset(s[lo..mid]) + multiset(s[mid..end]) + multiset(s[end..hi])
  {
    assert s[lo..hi] == s[lo..mid] + s[mid..end] + s[end..hi];
  }

  lemma SamePiece<T>(s: seq<T>, t: seq<T>, lo: nat, hi: nat)
    requires lo <= hi <= |s| == |t| && forall i :: lo <= i < hi ==> s[i] == t[i]
    ensures s[lo..hi] == t[lo..hi]
  {
  }

  /** Rearranging twice, the second time a smaller part. */
  lemma Again<T>(s: seq<T>, t: seq<T>, u: seq<T>, lo: nat, mid: nat, end: nat, hi: nat)
    requires lo <= mid <= end <= hi <= |s| && Rearranged(s, t, lo, hi) && Rearranged(t, u, mid, end)
    ensures Rearranged(s, u, lo, hi)
  {
    Pieces(t, lo, mid, end, hi);
    Pieces(u, lo, mid, end, hi);
    SamePiece(t, u, lo, mid);
    SamePiece(t, u, end, hi);
  }

  lemma SwapMultiset<T>(s: seq<T>, t: seq<T>, i: nat, j: nat, lo: nat, hi: nat)
    requires lo <= i < hi && lo <= j < hi <= |s| == |t| && t[i] == s[j] && t[j] == s[i]
    requires forall k :: 0 <= k < |s| && k != i && k != j ==> t[k] == s[k]
    ensures multiset(t[lo..hi]) == multiset(s[lo..hi])
  {
    var u := s[lo..hi];
    assert t[lo..hi] == u[i - lo := u[j - lo]][j - lo := u[i - lo]];
  }

  method Swap<T>(a: array<T>, i: nat, j: nat, ghost lo: nat, ghost hi: nat)
    requires lo <= i < hi && lo <= j < hi <= a.Length
    modifies a
    ensures a[i] == old(a[j]) && a[j] == old(a[i])
    ensures forall k :: 0 <= k < a.Length && k != i && k != j ==> a[k] == old(a[k])
    ensures multiset(a[lo..hi]) == multiset(old(a[lo..hi]))
  {
    a[i], a[j] := a[j], a[i];
    SwapMultiset(old(a[..]), a[..], i, j, lo, hi);
    assert old(a[..])[lo..hi] == old(a[lo..hi]) && a[..][lo..hi] == a[lo..hi];
  }

  /** `n` elements from `i` on change places with those from `j` on. */
  method VecSwap<T>(a: array<T>, i: nat, j: nat, n: nat, ghost lo: nat, ghost hi: nat)
    requires lo <= i && i + n <= j && j + n <= hi <= a.Length
    modifies a
    ensures forall k :: i <= k < i + n ==> a[k] == old(a[j + k - i])
    ensures forall k :: j <= k < j + n ==> a[k] == old(a[i + k - j])
    ensures forall k :: 0 <= k < a.Length && !(i <= k < i + n) && !(j <= k < j + n) ==> a[k] == old(a[k])
    ensures multiset(a[lo..hi]) == multiset(old(a[lo..hi]))
  {
    var m := 0;
    while m < n
      invariant 0 <= m <= n
      invariant forall k :: i <= k < i + m ==> a[k] == old(a[j + k - i])
      invariant forall k :: j <= k < j + m ==> a[k] == old(a[i + k - j])
      invariant forall k :: 0 <= k < a.Length && !(i <= k < i + m) && !(j <= k < j + m) ==> a[k] == old(a[k])
      invariant multiset(a[lo..hi]) == multiset(old(a[lo..hi]))
    {
      Swap(a, i + m, j + m, lo, hi);
      m := m + 1;
    }
  }

  /** One of three positions, whose element is neither below nor above both others. */
  function Med3<T>(s: seq<T>, a: nat, b: nat, c: nat, cmp: (T, T) -> int): (m: nat)
    requires a < |s| && b < |s| && c < |s|
    ensures m == a || m == b || m == c
  {
    if cmp(s[a], s[b]) < 0 then
      if cmp(s[b], s[c]) < 0 then b else if cmp(s[a], s[c]) < 0 then c else a
    else
      if cmp(s[b], s[c]) > 0 then b else if cmp(s[a], s[c]) < 0 then a else c
  }

  lemma Med3IsMedian<T(!new)>(s: seq<T>, a: nat, b: nat, c: nat, cmp: (T, T) -> int)
    requires a < |s| && b < |s| && c < |s| && Ordering(cmp)
    ensures var x := s[Med3(s, a, b, c, cmp)];
            && (cmp(s[a], x) <= 0 || cmp(s[b], x) <= 0) && (cmp(s[b], x) <= 0 || cmp(s[c], x) <= 0)
            && (cmp(s[a], x) <= 0 || cmp(s[c], x) <= 0) && (cmp(x, s[a]) <= 0 || cmp(x, s[b]) <= 0)
            && (cmp(x, s[b]) <= 0 || cmp(x, s[c]) <= 0) && (cmp(x, s[a]) <= 0 || cmp(x, s[c]) <= 0)
  {
  }

  method InsertionSort<T(!new)>(a: array<T>, lo: nat, n: nat, cmp: (T, T) -> int)
    requires lo + n <= a.Length && Ordering(cmp)
    modifies a
    ensures Sorted(a[..], lo, lo + n, cmp) && Rearranged(old(a[..]), a[..], lo, lo + n)
  {
    hide *;
    ghost var s := a[..];
    Start(s, lo, lo + n, cmp);
    Few(s, lo, cmp);
    var pm := lo + 1;
    while pm < lo + n
      invariant lo + 1 <= pm && (pm <= lo + n || n == 0)
      invariant n > 0 ==> Sorted(a[..], lo, pm, cmp)
      invariant Rearranged(s, a[..], lo, lo + n)
    {
      ghost var t := a[..];
      Insert(a, lo, pm, lo + n, cmp);
      Again(s, t, a[..], lo, lo, lo + n, lo + n);
      pm := pm + 1;
    }
    Few(a[..], lo, cmp);
  }

  lemma Few<T>(s: seq<T>, lo: nat, cmp: (T, T) -> int)
    ensures lo <= |s| ==> Sorted(s, lo, lo, cmp)
    ensures lo < |s| ==> Sorted(s, lo, lo + 1, cmp)
  {
  }

  /** The element at `pm` sinks into the sorted part before it. */
  method Insert<T(!new)>(a: array<T>, lo: nat, pm: nat, ghost hi: nat, cmp: (T, T) -> int)
    requires lo < pm < hi <= a.Length && Ordering(cmp) && Sorted(a[..], lo, pm, cmp)
    modifies a
    ensures Sorted(a[..], lo, pm + 1, cmp)
    ensures Rearranged(old(a[..]), a[..], lo, hi)
  {
    hide Ordering;
    var pl := pm;
    while pl > lo && cmp(a[pl - 1], a[pl]) > 0
      invariant lo <= pl <= pm
      invariant multiset(a[lo..hi]) == multiset(old(a[lo..hi]))
      invariant forall k :: 0 <= k < a.Length && !(lo <= k <= pm) ==> a[k] == old(a[k])
      invariant forall i, j :: lo <= i < j <= pm && j != pl ==> cmp(a[i], a[j]) <= 0
    {
      Flip(cmp, a[pl - 1], a[pl]);
      Swap(a, pl, pl - 1, lo, hi);
      pl := pl - 1;
    }
    forall i | lo <= i < pl
      ensures cmp(a[i], a[pl]) <= 0
    {
      if i < pl - 1 { Trans(cmp, a[i], a[pl - 1], a[pl]); }
    }
  }

  /** During partitioning, with pivot `p`: equal up to `pa`, below up to `pb`, above after `pc`, equal after `pd`. */
  ghost predicate Parted<T>(a: array<T>, lo: nat, pa: int, pb: int, pc: int, pd: int, hi: nat, p: T, cmp: (T, T) -> int)
    requires hi <= a.Length
    reads a
  {
    && lo < pa <= pb <= pc + 1 && pc <= pd < hi
    && (forall k :: lo <= k < pa ==> cmp(a[k], p) == 0)
    && (forall k :: pa <= k < pb ==> cmp(a[k], p) < 0)
    && (forall k :: pc < k <= pd ==> cmp(a[k], p) > 0)
    && (forall k :: pd < k < hi ==> cmp(a[k], p) == 0)
  }

  method ScanUp<T(!new)>(a: array<T>, lo: nat, pa0: int, pb0: int, pc: int, ghost pd: int, ghost hi: nat,
                         ghost p: T, cmp: (T, T) -> int, swapped0: bool)
    returns (pa: int, pb: int, swapped: bool)
    requires hi <= a.Length && Parted(a, lo, pa0, pb0, pc, pd, hi, p, cmp) && a[lo] == p
    modifies a
    ensures Parted(a, lo, pa, pb, pc, pd, hi, p, cmp) && pb0 <= pb && a[lo] == p
    ensures pb <= pc ==> cmp(a[pb], p) > 0
    ensures Rearranged(old(a[..]), a[..], lo, hi)
  {
    pa, pb, swapped := pa0, pb0, swapped0;
    while pb <= pc && cmp(a[pb], a[lo]) <= 0
      invariant Parted(a, lo, pa, pb, pc, pd, hi, p, cmp) && pb0 <= pb && a[lo] == p
      invariant Rearranged(old(a[..]), a[..], lo, hi)
    {
      if cmp(a[pb], a[lo]) == 0 {
        swapped := true;
        Swap(a, pa, pb, lo, hi);
        pa := pa + 1;
      }
      pb := pb + 1;
    }
  }

  method ScanDown<T(!new)>(a: array<T>, lo: nat, ghost pa: int, pb: int, pc0: int, pd0: int, ghost hi: nat,
                           ghost p: T, cmp: (T, T) -> int, swapped0: bool)
    returns (pc: int, pd: int, swapped: bool)
    requires hi <= a.Length && Parted(a, lo, pa, pb, pc0, pd0, hi, p, cmp) && a[lo] == p
    requires pb <= pc0 ==> cmp(a[pb], p) > 0
    modifies a
    ensures Parted(a, lo, pa, pb, pc, pd, hi, p, cmp) && pc <= pc0 && a[lo] == p
    ensures pb <= pc ==> cmp(a[pc], p) < 0 && cmp(a[pb], p) > 0
    ensures Rearranged(old(a[..]), a[..], lo, hi)
  {
    pc, pd, swapped := pc0, pd0, swapped0;
    while pb <= pc && cmp(a[pc], a[lo]) >= 0
      invariant Parted(a, lo, pa, pb, pc, pd, hi, p, cmp) && pc <= pc0 && a[lo] == p
      invariant pb <= pc ==> cmp(a[pb], p) > 0
      invariant Rearranged(old(a[..]), a[..], lo, hi)
    {
      if cmp(a[pc], a[lo]) == 0 {
        swapped := true;
        Swap(a, pc, pd, lo, hi);
        pd := pd - 1;
      }
      pc := pc - 1;
    }
  }

  method Scans<T(!new)>(a: array<T>, lo: nat, pa0: int, pb0: int, pc0: int, pd0: int, ghost hi: nat,
                        ghost p: T, cmp: (T, T) -> int, swapped0: bool)
    returns (pa: int, pb: int, pc: int, pd: int, swapped: bool)
    requires hi <= a.Length && Parted(a, lo, pa0, pb0, pc0, pd0, hi, p, cmp) && a[lo] == p
    modifies a
    ensures Parted(a, lo, pa, pb, pc, pd, hi, p, cmp) && pb0 <= pb && pc <= pc0 && a[lo] == p
    ensures pb <= pc ==> cmp(a[pc], p) < 0 && cmp(a[pb], p) > 0
    ensures Rearranged(old(a[..]), a[..], lo, hi)
  {
    hide *;
    Bounds(a, lo, pa0, pb0, pc0, pd0, hi, p, cmp);
    ghost var s := a[..];
    pa, pb, swapped := ScanUp(a, lo, pa0, pb0, pc0, pd0, hi, p, cmp, swapped0);
    Bounds(a, lo, pa, pb, pc0, pd0, hi, p, cmp);
    ghost var t := a[..];
    pc, pd, swapped := ScanDown(a, lo, pa, pb, pc0, pd0, hi, p, cmp, swapped);
    Again(s, t, a[..], lo, lo, hi, hi);
    Bounds(a, lo, pa, pb, pc, pd, hi, p, cmp);
  }

  /** Both scans stopped on elements of the wrong side: these change places. */
  method Exchange<T(!new)>(a: array<T>, lo: nat, ghost pa: int, pb: int, pc: int, ghost pd: int, ghost hi: nat,
                           ghost p: T, ghost cmp: (T, T) -> int)
    requires hi <= a.Length && Parted(a, lo, pa, pb, pc, pd, hi, p, cmp) && a[lo] == p
    requires pb <= pc && cmp(a[pc], p) < 0 && cmp(a[pb], p) > 0
    modifies a
    ensures Parted(a, lo, pa, pb + 1, pc - 1, pd, hi, p, cmp) && a[lo] == p
    ensures Rearranged(old(a[..]), a[..], lo, hi)
  {
    Swap(a, pb, pc, lo, hi);
  }

  lemma Bounds<T>(a: array<T>, lo: nat, pa: int, pb: int, pc: int, pd: int, hi: nat, p: T, cmp: (T, T) -> int)
    requires hi <= a.Length && Parted(a, lo, pa, pb, pc, pd, hi, p, cmp)
    ensures lo < pa <= pb <= pc + 1 && pc <= pd < hi
  {
  }

  method Pass<T(!new)>(a: array<T>, lo: nat, pa0: int, pb0: int, pc0: int, pd0: int, ghost hi: nat,
                       ghost p: T, cmp: (T, T) -> int, swapped0: bool)
    returns (pa: int, pb: int, pc: int, pd: int, swapped: bool)
    requires hi <= a.Length && Parted(a, lo, pa0, pb0, pc0, pd0, hi, p, cmp) && a[lo] == p && pb0 <= pc0
    modifies a
    ensures Parted(a, lo, pa, pb, pc, pd, hi, p, cmp) && a[lo] == p
    ensures pc - pb < pc0 - pb0 && pb <= pc + 1
    ensures Rearranged(old(a[..]), a[..], lo, hi)
  {
    hide *;
    Bounds(a, lo, pa0, pb0, pc0, pd0, hi, p, cmp);
    ghost var s := a[..];
    pa, pb, pc, pd, swapped := Scans(a, lo, pa0, pb0, pc0, pd0, hi, p, cmp, swapped0);
    Bounds(a, lo, pa, pb, pc, pd, hi, p, cmp);
    if pb <= pc {
      ghost var t := a[..];
      Exchange(a, lo, pa, pb, pc, pd, hi, p, cmp);
      Again(s, t, a[..], lo, lo, hi, hi);
      swapped := true;
      pb, pc := pb + 1, pc - 1;
      Bounds(a, lo, pa, pb, pc, pd, hi, p, cmp);
    }
  }

  lemma PartedStart<T(!new)>(a: array<T>, lo: nat, n: nat, cmp: (T, T) -> int)
    requires n > 0 && lo + n <= a.Length && Ordering(cmp)
    ensures Parted(a, lo, lo + 1, lo + 1, lo + n - 1, lo + n - 1, lo + n, a[lo], cmp)
  {
    hide Ordering;
    Flip(cmp, a[lo], a[lo]);
  }

  /** Around the element at `lo`; `swapped` says whether anything was exchanged. */
  method Partition<T(!new)>(a: array<T>, lo: nat, n: nat, cmp: (T, T) -> int)
    returns (pa: int, pb: int, pc: int, pd: int, swapped: bool)
    requires n > 0 && lo + n <= a.Length && Ordering(cmp)
    modifies a
    ensures pb == pc + 1 && Parted(a, lo, pa, pb, pc, pd, lo + n, old(a[lo]), cmp)
    ensures Rearranged(old(a[..]), a[..], lo, lo + n)
  {
    hide *;
    ghost var p, s := a[lo], a[..];
    PartedStart(a, lo, n, cmp);
    Start(s, lo, lo + n, cmp);
    pa, pb, pc, pd, swapped := lo + 1, lo + 1, lo + n - 1, lo + n - 1, false;
    while pb <= pc
      invariant Parted(a, lo, pa, pb, pc, pd, lo + n, p, cmp) && a[lo] == p && pb <= pc + 1
      invariant Rearranged(s, a[..], lo, lo + n)
    {
      ghost var t := a[..];
      pa, pb, pc, pd, swapped := Pass(a, lo, pa, pb, pc, pd, lo + n, p, cmp, swapped);
      Again(s, t, a[..], lo, lo, lo + n, lo + n);
    }
  }

  /** Three ways: `l` elements below the pivot, then those equal to it, then `r` elements above. */
  ghost predicate Split<T>(s: seq<T>, lo: nat, l: nat, r: nat, hi: nat, p: T, cmp: (T, T) -> int)
    requires hi <= |s|
  {
    && lo + l + r < hi
    && (forall k :: lo <= k < lo + l ==> cmp(s[k], p) < 0)
    && (forall k :: lo + l <= k < hi - r ==> cmp(s[k], p) == 0)
    && (forall k :: hi - r <= k < hi ==> cmp(s[k], p) > 0)
  }

  /** The equal elements of both ends move to the middle. */
  method Gather<T(!new)>(a: array<T>, lo: nat, pa: int, pb: int, pc: int, pd: int, hi: nat, ghost p: T,
                         ghost cmp: (T, T) -> int)
    requires hi <= a.Length && pb == pc + 1 && Parted(a, lo, pa, pb, pc, pd, hi, p, cmp)
    modifies a
    ensures Split(a[..], lo, pb - pa, pd - pc, hi, p, cmp)
    ensures Rearranged(old(a[..]), a[..], lo, hi)
  {
    var l := if pa - lo <= pb - pa then pa - lo else pb - pa;
    VecSwap(a, lo, pb - l, l, lo, hi);
    var r := if pd - pc <= hi - pd - 1 then pd - pc else hi - pd - 1;
    GatherRight(a, lo, pb - pa, pb, pd - pc, r, hi, p, cmp);
  }

  method GatherRight<T(!new)>(a: array<T>, ghost lo: nat, ghost l: nat, pb: nat, ghost n: nat, r: nat, hi: nat,
                              ghost p: T, ghost cmp: (T, T) -> int)
    requires lo + l < pb && pb + n <= hi <= a.Length && r == (if n <= hi - pb - n then n else hi - pb - n)
    requires forall k :: lo <= k < lo + l ==> cmp(a[k], p) < 0
    requires forall k :: lo + l <= k < pb ==> cmp(a[k], p) == 0
    requires forall k :: pb <= k < pb + n ==> cmp(a[k], p) > 0
    requires forall k :: pb + n <= k < hi ==> cmp(a[k], p) == 0
    modifies a
    ensures Split(a[..], lo, l, n, hi, p, cmp)
    ensures Rearranged(old(a[..]), a[..], lo, hi)
  {
    VecSwap(a, pb, hi - r, r, lo, hi);
  }

  /** The middle position, of three when there are more than seven elements, of nine when more than forty. */
  function PivotAt<T>(s: seq<T>, lo: nat, n: nat, cmp: (T, T) -> int): (m: nat)
    requires n >= 7 && lo + n <= |s|
    ensures lo <= m < lo + n
  {
    var mid, end := lo + n / 2, lo + n - 1;
    if n == 7 then mid
    else if n <= 40 then Med3(s, lo, mid, end, cmp)
    else
      var d := n / 8;
      Med3(s, Med3(s, lo, lo + d, lo + 2 * d, cmp), Med3(s, mid - d, mid, mid + d, cmp),
           Med3(s, end - 2 * d, end - d, end, cmp), cmp)
  }

  method PivotFirst<T(!new)>(a: array<T>, lo: nat, n: nat, cmp: (T, T) -> int)
    requires n >= 7 && lo + n <= a.Length
    modifies a
    ensures a[lo] == old(a[PivotAt(a[..], lo, n, cmp)])
    ensures Rearranged(old(a[..]), a[..], lo, lo + n)
  {
    hide PivotAt;
    var pm := PivotAt(a[..], lo, n, cmp);
    Swap(a, lo, pm, lo, lo + n);
  }

  /** Nothing before `mid` is above anything from `mid` on. */
  ghost predicate Below<T>(s: seq<T>, lo: nat, mid: nat, hi: nat, cmp: (T, T) -> int)
    requires lo <= mid <= hi <= |s|
  {
    forall i, j :: lo <= i < mid <= j < hi ==> cmp(s[i], s[j]) <= 0
  }

  /** An element of a rearranged sequence was there before. */
  lemma Origin<T>(s: seq<T>, t: seq<T>, k: nat) returns (m: nat)
    requires multiset(s) == multiset(t) && k < |t|
    ensures m < |s| && t[k] == s[m]
  {
    assert t[k] in multiset(t);
    assert t[k] in s;
    m :| m < |s| && s[m] == t[k];
  }

  /** Rearranging the left part does not disturb a split. */
  lemma StillSplit<T>(s: seq<T>, t: seq<T>, lo: nat, l: nat, r: nat, hi: nat, p: T, cmp: (T, T) -> int)
    requires hi <= |s| && Split(s, lo, l, r, hi, p, cmp) && Rearranged(s, t, lo, lo + l)
    ensures Split(t, lo, l, r, hi, p, cmp)
  {
    forall k: nat | lo <= k < lo + l ensures cmp(t[k], p) < 0 {
      var m := Origin(s[lo..lo + l], t[lo..lo + l], k - lo);
    }
  }

  /** A split whose left part is sorted is sorted up to its right part, which lies above. */
  lemma LeftSorted<T(!new)>(s: seq<T>, lo: nat, l: nat, r: nat, hi: nat, p: T, cmp: (T, T) -> int)
    requires Ordering(cmp) && hi <= |s| && Split(s, lo, l, r, hi, p, cmp) && Sorted(s, lo, lo + l, cmp)
    ensures Sorted(s, lo, hi - r, cmp) && Below(s, lo, hi - r, hi, cmp)
  {
    hide Ordering;
    forall i: nat, j: nat | lo <= i < j < hi && i < hi - r && lo + l <= j ensures cmp(s[i], s[j]) <= 0 {
      Flip(cmp, s[j], p);
      Trans(cmp, s[i], p, s[j]);
    }
  }

  /** From `s` to `t`, the part from `lo` to `hi` was rearranged so that it is sorted up to `next`,
      with nothing above what follows. */
  ghost predicate Done<T>(s: seq<T>, t: seq<T>, lo: nat, next: nat, hi: nat, cmp: (T, T) -> int)
    requires lo <= next <= hi <= |s|
  {
    Rearranged(s, t, lo, hi) && Sorted(t, lo, next, cmp) && Below(t, lo, next, hi, cmp)
  }

  /** What was sorted before a part, and not above it, joins what has been sorted inside it. */
  lemma Onward<T>(s: seq<T>, t: seq<T>, u: seq<T>, lo: nat, mid: nat, next: nat, hi: nat, cmp: (T, T) -> int)
    requires lo <= mid <= next <= hi <= |s| == |t|
    requires Done(s, t, lo, mid, hi, cmp) && Done(t, u, mid, next, hi, cmp)
    ensures Done(s, u, lo, next, hi, cmp)
  {
    Again(s, t, u, lo, mid, hi, hi);
    forall i: nat, j: nat | lo <= i < mid <= j < hi ensures cmp(u[i], u[j]) <= 0 {
      var m := Origin(t[mid..hi], u[mid..hi], j - mid);
    }
  }

  /** All is done when at most one element is left. */
  lemma Finished<T>(s: seq<T>, t: seq<T>, lo: nat, next: nat, hi: nat, cmp: (T, T) -> int)
    requires lo <= next <= hi <= |s| && hi <= next + 1 && Done(s, t, lo, next, hi, cmp)
    ensures Rearranged(s, t, lo, hi) && Sorted(t, lo, hi, cmp)
  {
  }

  /** A split whose left part has been sorted is done up to its right part. */
  lemma SplitDone<T(!new)>(s: seq<T>, t: seq<T>, u: seq<T>, lo: nat, l: nat, r: nat, hi: nat, p: T, cmp: (T, T) -> int)
    requires Ordering(cmp) && lo <= hi <= |s| && Rearranged(s, t, lo, hi) && Split(t, lo, l, r, hi, p, cmp)
    requires (u == t && l <= 1) || (Rearranged(t, u, lo, lo + l) && Sorted(u, lo, lo + l, cmp))
    ensures Done(s, u, lo, hi - r, hi, cmp)
  {
    hide Ordering;
    StillSplit(t, u, lo, l, r, hi, p, cmp);
    LeftSorted(u, lo, l, r, hi, p, cmp);
    Again(s, t, u, lo, lo, lo + l, hi);
  }

  lemma SplitSizes<T>(s: seq<T>, lo: nat, l: nat, r: nat, hi: nat, p: T, cmp: (T, T) -> int)
    requires hi <= |s| && Split(s, lo, l, r, hi, p, cmp)
    ensures lo + l + r < hi
  {
  }

  /** The pivot goes to the front, and the others are parted around it. */
  method PartAround<T(!new)>(a: array<T>, lo: nat, n: nat, cmp: (T, T) -> int)
    returns (pa: int, pb: int, pc: int, pd: int, swapped: bool, ghost p: T)
    requires n >= 7 && lo + n <= a.Length && Ordering(cmp)
    modifies a
    ensures p == old(a[PivotAt(a[..], lo, n, cmp)])
    ensures pb == pc + 1 && Parted(a, lo, pa, pb, pc, pd, lo + n, p, cmp)
    ensures Rearranged(old(a[..]), a[..], lo, lo + n)
  {
    hide *;
    ghost var s := a[..];
    PivotFirst(a, lo, n, cmp);
    p := a[lo];
    ghost var t := a[..];
    pa, pb, pc, pd, swapped := Partition(a, lo, n, cmp);
    Again(s, t, a[..], lo, lo, lo + n, lo + n);
  }

  /** Unless nothing had to be exchanged, the elements equal to the pivot are gathered. */
  method Divide<T(!new)>(a: array<T>, lo: nat, n: nat, cmp: (T, T) -> int)
    returns (l: nat, r: nat, swapped: bool, ghost p: T)
    requires n >= 7 && lo + n <= a.Length && Ordering(cmp)
    modifies a
    ensures p == old(a[PivotAt(a[..], lo, n, cmp)])
    ensures Rearranged(old(a[..]), a[..], lo, lo + n)
    ensures swapped ==> Split(a[..], lo, l, r, lo + n, p, cmp) && l + r < n
  {
    hide *;
    ghost var s := a[..];
    var pa, pb, pc, pd;
    pa, pb, pc, pd, swapped, p := PartAround(a, lo, n, cmp);
    Bounds(a, lo, pa, pb, pc, pd, lo + n, p, cmp);
    l, r := pb - pa, pd - pc;
    if swapped {
      ghost var t := a[..];
      Gather(a, lo, pa, pb, pc, pd, lo + n, p, cmp);
      Again(s, t, a[..], lo, lo, lo + n, lo + n);
      SplitSizes(a[..], lo, l, r, lo + n, p, cmp);
    }
  }

  /** One round on more than six elements: `r` of them, at the end, are left to sort. */
  method Round<T(!new)>(a: array<T>, lo: nat, n: nat, cmp: (T, T) -> int) returns (r: nat)
    requires n >= 7 && lo + n <= a.Length && Ordering(cmp)
    modifies a
    ensures r < n && Done(old(a[..]), a[..], lo, lo + n - r, lo + n, cmp)
    decreases n, 0
  {
    hide *;
    ghost var s := a[..];
    var l, m, swapped, p := Divide(a, lo, n, cmp);
    ghost var t := a[..];
    if !swapped {
      InsertionSort(a, lo, n, cmp);
      AllDone(s, t, a[..], lo, lo + n, cmp);
      return 0;
    }
    if l > 1 {
      Sort(a, lo, l, cmp);
    }
    SplitDone(s, t, a[..], lo, l, m, lo + n, p, cmp);
    r := m;
  }

  lemma AllDone<T>(s: seq<T>, t: seq<T>, u: seq<T>, lo: nat, hi: nat, cmp: (T, T) -> int)
    requires lo <= hi <= |s| && Rearranged(s, t, lo, hi) && Rearranged(t, u, lo, hi) && Sorted(u, lo, hi, cmp)
    ensures Done(s, u, lo, hi, hi, cmp)
  {
    Again(s, t, u, lo, lo, hi, hi);
  }

  lemma Start<T>(s: seq<T>, lo: nat, hi: nat, cmp: (T, T) -> int)
    requires lo <= hi <= |s|
    ensures Done(s, s, lo, lo, hi, cmp) && Rearranged(s, s, lo, hi)
  {
  }

  method FinishSmall<T(!new)>(a: array<T>, next: nat, m: nat, ghost s: seq<T>, ghost lo: nat, cmp: (T, T) -> int)
    requires Ordering(cmp) && lo <= next && next + m <= a.Length == |s|
    requires Done(s, a[..], lo, next, next + m, cmp)
    modifies a
    ensures Sorted(a[..], lo, next + m, cmp) && Rearranged(s, a[..], lo, next + m)
  {
    hide *;
    ghost var t := a[..];
    InsertionSort(a, next, m, cmp);
    Start(t, next, next + m, cmp);
    AllDone(t, t, a[..], next, next + m, cmp);
    Onward(s, t, a[..], lo, next, next + m, next + m, cmp);
    Finished(s, a[..], lo, next + m, next + m, cmp);
  }

  /** `qsort`: what follows the equal elements is sorted by another round, not by a call. */
  method Sort<T(!new)>(a: array<T>, lo: nat, n: nat, cmp: (T, T) -> int)
    requires lo + n <= a.Length && Ordering(cmp)
    modifies a
    ensures Sorted(a[..], lo, lo + n, cmp) && Rearranged(old(a[..]), a[..], lo, lo + n)
    decreases n, 1
  {
    hide *;
    ghost var s := a[..];
    Start(s, lo, lo + n, cmp);
    var next, m := lo, n;
    while m >= 7
      invariant lo <= next <= next + m == lo + n
      invariant Done(s, a[..], lo, next, lo + n, cmp)
      decreases m
    {
      ghost var t := a[..];
      var r := Round(a, next, m, cmp);
      Onward(s, t, a[..], lo, next, next + m - r, lo + n, cmp);
      next, m := next + m - r, r;
      if m <= 1 {
        Finished(s, a[..], lo, next, lo + n, cmp);
        return;
      }
    }
    FinishSmall(a, next, m, s, lo, cmp);
  }
}
