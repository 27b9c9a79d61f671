/**
 The in-place sort of the boot C library, Bentley and McIlroy's quicksort with a
 fat pivot, and the binary search that runs on its output.

 A pointer into the caller's buffer is an index into an array of whole elements,
 so an element size of one stands for every element size. The source keeps some
 byte distances in an `int`; `Narrow` is that conversion.
 */
module QuickSort {

  /** The conversion of a pointer difference to a 32-bit `int`. */
  function Narrow(x: int): int {
    (x + 0x8000_0000) % 0x1_0000_0000 - 0x8000_0000
  }

  function Min(x: int, y: int): int {
    if x < y then x else y
  }

  /** What a C comparison function promises: a total preorder given by signs. */
  ghost predicate Comparator<T(!new)>(cmp: (T, T) -> int) {
    && (forall x, y :: cmp(x, y) < 0 <==> cmp(y, x) > 0)
    && (forall x, y, z :: cmp(x, y) <= 0 && cmp(y, z) <= 0 ==> cmp(x, z) <= 0)
  }

  ghost predicate Sorted<T>(s: seq<T>, lo: nat, hi: nat, cmp: (T, T) -> int)
    requires hi <= |s|
  {
    forall i, j :: lo <= i < j < hi ==> cmp(s[i], s[j]) <= 0
  }

  /** Every element of `[lo, mid)` is at most every element of `[mid, hi)`. */
  ghost predicate Below<T>(s: seq<T>, lo: nat, mid: nat, hi: nat, cmp: (T, T) -> int)
    requires hi <= |s|
  {
    forall i, j :: lo <= i < mid <= j < hi ==> cmp(s[i], s[j]) <= 0
  }

  /** `t` rearranges the elements of `s` inside `[lo, hi)` and nothing else. */
  ghost predicate Shuffled<T>(s: seq<T>, t: seq<T>, lo: nat, hi: nat)
    requires lo <= hi <= |s|
  {
    && |t| == |s|
    && t[..lo] == s[..lo]
    && t[hi..] == s[hi..]
    && multiset(t[lo..hi]) == multiset(s[lo..hi])
  }

  lemma ShuffledOutside<T>(s: seq<T>, t: seq<T>, lo: nat, hi: nat)
    requires lo <= hi <= |s|
    requires Shuffled(s, t, lo, hi)
    ensures |t| == |s|
    ensures forall i :: 0 <= i < |s| && !(lo <= i < hi) ==> t[i] == s[i]
  {
    forall i | 0 <= i < |s| && !(lo <= i < hi)
      ensures t[i] == s[i]
    {
      if i < lo {
        assert t[..lo][i] == s[..lo][i];
      } else {
        assert t[hi..][i - hi] == s[hi..][i - hi];
      }
    }
  }

  /** A rearrangement of a part is a rearrangement of anything around it. */
  lemma ShuffledWiden<T>(s: seq<T>, t: seq<T>, lo: nat, hi: nat, lo': nat, hi': nat)
    requires lo' <= lo <= hi <= hi' <= |s|
    requires Shuffled(s, t, lo, hi)
    ensures Shuffled(s, t, lo', hi')
  {
    ShuffledOutside(s, t, lo, hi);
    InThree(s, lo', lo, hi, hi');
    InThree(t, lo', lo, hi, hi');
    SameSlice(s, t, 0, lo');
    SameSlice(s, t, lo', lo);
    SameSlice(s, t, hi, hi');
    SameSlice(s, t, hi', |s|);
  }

  lemma InThree<T>(s: seq<T>, a: nat, b: nat, c: nat, d: nat)
    requires a <= b <= c <= d <= |s|
    ensures multiset(s[a..d]) == multiset(s[a..b]) + multiset(s[b..c]) + multiset(s[c..d])
  {
    assert s[a..d] == s[a..b] + s[b..c] + s[c..d];
  }

  lemma SameSlice<T>(s: seq<T>, t: seq<T>, a: nat, b: nat)
    requires |t| == |s| && a <= b <= |s| && forall i :: a <= i < b ==> t[i] == s[i]
    ensures t[a..b] == s[a..b]
  {
  }

  lemma ShuffledTrans<T>(s: seq<T>, t: seq<T>, u: seq<T>, lo: nat, hi: nat)
    requires lo <= hi <= |s|
    requires Shuffled(s, t, lo, hi) && Shuffled(t, u, lo, hi)
    ensures Shuffled(s, u, lo, hi)
  {
  }

  function Exchanged<T>(s: seq<T>, i: nat, j: nat): (t: seq<T>)
    requires i < |s| && j < |s|
    ensures |t| == |s|
  {
    s[i := s[j]][j := s[i]]
  }

  /** Exchanging two elements is a rearrangement. */
  lemma ExchangeShuffles<T>(s: seq<T>, i: nat, j: nat, lo: nat, hi: nat)
    requires lo <= i < hi <= |s| && lo <= j < hi
    ensures Shuffled(s, Exchanged(s, i, j), lo, hi)
  {
    var t := Exchanged(s, i, j);
    SameSlice(s, t, 0, lo);
    SameSlice(s, t, hi, |s|);
    ExchangedSlice(s, i, j, lo, hi);
    ExchangedBag(s[lo..hi], i - lo, j - lo);
  }

  lemma ExchangedSlice<T>(s: seq<T>, i: nat, j: nat, lo: nat, hi: nat)
    requires lo <= i < hi <= |s| && lo <= j < hi
    ensures Exchanged(s, i, j)[lo..hi] == Exchanged(s[lo..hi], i - lo, j - lo)
  {
  }

  lemma ExchangedBag<T>(s: seq<T>, i: nat, j: nat)
    requires i < |s| && j < |s|
    ensures multiset(Exchanged(s, i, j)) == multiset(s)
  {
  }

  /** What holds of every element of a range holds after a rearrangement of it. */
  lemma ShuffledAll<T>(s: seq<T>, t: seq<T>, lo: nat, hi: nat, p: T -> bool)
    requires lo <= hi <= |s|
    requires Shuffled(s, t, lo, hi)
    requires forall i :: lo <= i < hi ==> p(s[i])
    ensures forall i :: lo <= i < hi ==> p(t[i])
  {
    forall i | lo <= i < hi
      ensures p(t[i])
    {
      assert t[i] == t[lo..hi][i - lo];
      assert t[i] in multiset(t[lo..hi]);
      assert t[i] in s[lo..hi];
      var k :| 0 <= k < hi - lo && s[lo..hi][k] == t[i];
      assert s[lo + k] == t[i];
    }
  }

  lemma BelowAfterRight<T>(s: seq<T>, t: seq<T>, lo: nat, mid: nat, hi: nat, cmp: (T, T) -> int)
    requires lo <= mid <= hi <= |s|
    requires Shuffled(s, t, mid, hi) && Below(s, lo, mid, hi, cmp)
    ensures Below(t, lo, mid, hi, cmp)
  {
    ShuffledOutside(s, t, mid, hi);
    forall i, j | lo <= i < mid <= j < hi
      ensures cmp(t[i], t[j]) <= 0
    {
      ShuffledAll(s, t, mid, hi, y => cmp(s[i], y) <= 0);
    }
  }

  lemma BelowAfterLeft<T>(s: seq<T>, t: seq<T>, lo: nat, mid: nat, hi: nat, cmp: (T, T) -> int)
    requires lo <= mid <= hi <= |s|
    requires Shuffled(s, t, lo, mid) && Below(s, lo, mid, hi, cmp)
    ensures Below(t, lo, mid, hi, cmp)
  {
    ShuffledOutside(s, t, lo, mid);
    forall i, j | lo <= i < mid <= j < hi
      ensures cmp(t[i], t[j]) <= 0
    {
      ShuffledAll(s, t, lo, mid, x => cmp(x, s[j]) <= 0);
    }
  }

  method Swap<T>(a: array<T>, i: nat, j: nat, ghost lo: nat, ghost hi: nat)
    requires lo <= i < hi <= a.Length && lo <= j < hi
    modifies a
    ensures a[..] == Exchanged(old(a[..]), i, j)
    ensures Shuffled(old(a[..]), a[..], lo, hi)
  {
    a[i], a[j] := a[j], a[i];
    ExchangeShuffles(old(a[..]), i, j, lo, hi);
  }

  /** `s` with the blocks of length `n` at `i` and at `j` exchanged. */
  ghost function BlocksSwapped<T>(s: seq<T>, i: nat, j: nat, n: nat): (t: seq<T>)
    requires i + n <= j && j + n <= |s|
    ensures |t| == |s|
  {
    seq(|s|, k requires 0 <= k < |s| =>
      if i <= k < i + n then s[k - i + j] else if j <= k < j + n then s[k - j + i] else s[k])
  }

  lemma NothingSwapped<T>(s: seq<T>, i: nat, j: nat, lo: nat, hi: nat)
    requires i <= j <= |s| && lo <= hi <= |s|
    ensures BlocksSwapped(s, i, j, 0) == s && Shuffled(s, s, lo, hi)
  {
    var t := BlocksSwapped(s, i, j, 0);
    assert forall k :: 0 <= k < |s| ==> t[k] == s[k];
    assert t == s;
  }

  lemma BlocksSwappedStep<T>(s: seq<T>, i: nat, j: nat, n: nat)
    requires i + n < j && j + n < |s|
    ensures BlocksSwapped(s, i, j, n + 1) == Exchanged(BlocksSwapped(s, i, j, n), i + n, j + n)
  {
    var u := BlocksSwapped(s, i, j, n + 1);
    var v := Exchanged(BlocksSwapped(s, i, j, n), i + n, j + n);
    forall k | 0 <= k < |s|
      ensures u[k] == v[k]
    {
    }
    assert u == v;
  }

  /** Exchanges two disjoint blocks one element at a time, as `swapfunc` does. */
  method VecSwap<T>(a: array<T>, i: nat, j: nat, n: nat, ghost lo: nat, ghost hi: nat)
    requires lo <= i && i + n <= j && j + n <= hi <= a.Length
    modifies a
    ensures a[..] == BlocksSwapped(old(a[..]), i, j, n)
    ensures Shuffled(old(a[..]), a[..], lo, hi)
  {
    hide *;
    NothingSwapped(a[..], i, j, lo, hi);
    var c := 0;
    while c < n
      invariant 0 <= c <= n
      invariant a[..] == BlocksSwapped(old(a[..]), i, j, c)
      invariant Shuffled(old(a[..]), a[..], lo, hi)
    {
      ghost var before := a[..];
      BlocksSwappedStep(old(a[..]), i, j, c);
      Swap(a, i + c, j + c, lo, hi);
      ShuffledTrans(old(a[..]), before, a[..], lo, hi);
      c := c + 1;
    }
  }

  /** The two nested loops that sort a short range by exchanging neighbours. */
  method InsertionSort<T(!new)>(a: array<T>, lo: nat, hi: nat, cmp: (T, T) -> int)
    requires lo <= hi <= a.Length
    requires Comparator(cmp)
    modifies a
    ensures Sorted(a[..], lo, hi, cmp)
    ensures Shuffled(old(a[..]), a[..], lo, hi)
  {
    hide Sorted, Below, Shuffled, Comparator;
    NothingDone(a[..], lo, hi, cmp);
    NothingLeft(a[..], lo, lo, Min(lo + 1, hi), cmp);
    var pm := lo + 1;
    while pm < hi
      invariant lo < pm
      invariant pm <= hi || hi == lo
      invariant Sorted(a[..], lo, Min(pm, hi), cmp)
      invariant Shuffled(old(a[..]), a[..], lo, hi)
    {
      ghost var before := a[..];
      SinkLast(a, lo, pm, cmp);
      ShuffledWiden(before, a[..], lo, pm + 1, lo, hi);
      ShuffledTrans(old(a[..]), before, a[..], lo, hi);
      pm := pm + 1;
    }
  }

  /** Sorted except for the element at `pl`, which may belong further left. */
  ghost predicate SortedBut<T>(s: seq<T>, lo: nat, hi: nat, pl: nat, cmp: (T, T) -> int)
    requires hi <= |s|
  {
    && (forall i, j :: lo <= i < j < hi && i != pl && j != pl ==> cmp(s[i], s[j]) <= 0)
    && (forall j :: pl < j < hi ==> cmp(s[pl], s[j]) <= 0)
  }

  /** A rearrangement of `s0` inside `[lo, hi)` that is sorted except at `pl`. */
  ghost predicate Sinking<T>(s0: seq<T>, s: seq<T>, lo: nat, hi: nat, pl: nat, cmp: (T, T) -> int) {
    lo <= pl < hi <= |s| == |s0| && SortedBut(s, lo, hi, pl, cmp) && Shuffled(s0, s, lo, hi)
  }

  /** The inner loop: moves the element at `pm` down to its place. */
  method SinkLast<T(!new)>(a: array<T>, lo: nat, pm: nat, cmp: (T, T) -> int)
    requires lo <= pm < a.Length
    requires Comparator(cmp)
    requires Sorted(a[..], lo, pm, cmp)
    modifies a
    ensures Sorted(a[..], lo, pm + 1, cmp)
    ensures Shuffled(old(a[..]), a[..], lo, pm + 1)
  {
    hide *;
    ghost var s0 := a[..];
    SinkStart(s0, lo, pm, cmp);
    var pl := pm;
    while pl > lo && cmp(a[pl - 1], a[pl]) > 0
      invariant lo <= pl <= pm
      invariant Sinking(s0, a[..], lo, pm + 1, pl, cmp)
    {
      SinkStep(s0, a[..], lo, pm + 1, pl, cmp);
      Swap(a, pl, pl - 1, lo, pm + 1);
      pl := pl - 1;
    }
    SinkDone(s0, a[..], lo, pm + 1, pl, cmp);
  }

  lemma SinkStart<T>(s: seq<T>, lo: nat, pm: nat, cmp: (T, T) -> int)
    requires lo <= pm < |s|
    requires Sorted(s, lo, pm, cmp)
    ensures Sinking(s, s, lo, pm + 1, pm, cmp)
  {
  }

  lemma SortedButStep<T(!new)>(s: seq<T>, lo: nat, hi: nat, pl: nat, cmp: (T, T) -> int)
    requires lo < pl < hi <= |s|
    requires Comparator(cmp)
    requires SortedBut(s, lo, hi, pl, cmp) && cmp(s[pl - 1], s[pl]) > 0
    ensures SortedBut(Exchanged(s, pl, pl - 1), lo, hi, pl - 1, cmp)
  {
  }

  lemma SinkStep<T(!new)>(s0: seq<T>, s: seq<T>, lo: nat, hi: nat, pl: nat, cmp: (T, T) -> int)
    requires Comparator(cmp) && Sinking(s0, s, lo, hi, pl, cmp)
    requires lo < pl < |s| && cmp(s[pl - 1], s[pl]) > 0
    ensures Sinking(s0, Exchanged(s, pl, pl - 1), lo, hi, pl - 1, cmp)
  {
    hide SortedBut, Shuffled, Exchanged, Comparator;
    SortedButStep(s, lo, hi, pl, cmp);
    ExchangeShuffles(s, pl, pl - 1, lo, hi);
    ShuffledTrans(s0, s, Exchanged(s, pl, pl - 1), lo, hi);
  }

  lemma SinkDone<T(!new)>(s0: seq<T>, s: seq<T>, lo: nat, hi: nat, pl: nat, cmp: (T, T) -> int)
    requires Comparator(cmp) && Sinking(s0, s, lo, hi, pl, cmp)
    requires pl < |s| && (pl == lo || cmp(s[pl - 1], s[pl]) <= 0)
    ensures hi <= |s| == |s0| && Sorted(s, lo, hi, cmp) && Shuffled(s0, s, lo, hi)
  {
    hide Shuffled;
  }

  /** `y` lies between `x` and `z` in one order or the other. */
  predicate Median<T>(x: T, y: T, z: T, cmp: (T, T) -> int) {
    (cmp(x, y) <= 0 && cmp(y, z) <= 0) || (cmp(z, y) <= 0 && cmp(y, x) <= 0)
  }

  /** The index of the median of three elements. */
  method Med3<T(!new)>(a: array<T>, i: nat, j: nat, k: nat, cmp: (T, T) -> int) returns (m: nat)
    requires i < a.Length && j < a.Length && k < a.Length
    requires Comparator(cmp)
    ensures || (m == i && Median(a[j], a[i], a[k], cmp))
            || (m == j && Median(a[i], a[j], a[k], cmp))
            || (m == k && Median(a[i], a[k], a[j], cmp))
  {
    m := if cmp(a[i], a[j]) < 0 then
      (if cmp(a[j], a[k]) < 0 then j else if cmp(a[i], a[k]) < 0 then k else i)
    else
      (if cmp(a[j], a[k]) > 0 then j else if cmp(a[i], a[k]) < 0 then i else k);
  }

  /**
   The partition in progress: the pivot `v` sits at `lo`, elements equal to it
   have been gathered at both ends, smaller ones follow on the left, greater ones
   precede on the right, and `[pb, pc]` has not been looked at.
   */
  ghost predicate Fat<T>(s: seq<T>, v: T, lo: nat, pa: nat, pb: nat, pc: nat, pd: nat, hi: nat, cmp: (T, T) -> int) {
    && lo < pa <= pb <= pc + 1 <= pd + 1 <= hi <= |s|
    && s[lo] == v
    && (forall i :: lo <= i < pa ==> cmp(s[i], v) == 0)
    && (forall i :: pa <= i < pb ==> cmp(s[i], v) < 0)
    && (forall i :: pc < i <= pd ==> cmp(s[i], v) > 0)
    && (forall i :: pd < i < hi ==> cmp(s[i], v) == 0)
  }

  lemma FatLeft<T>(s: seq<T>, v: T, lo: nat, pa: nat, pb: nat, pc: nat, pd: nat, hi: nat, cmp: (T, T) -> int)
    requires Fat(s, v, lo, pa, pb, pc, pd, hi, cmp) && pb <= pc
    ensures cmp(s[pb], v) < 0 ==> Fat(s, v, lo, pa, pb + 1, pc, pd, hi, cmp)
    ensures cmp(s[pb], v) == 0 ==> Fat(Exchanged(s, pa, pb), v, lo, pa + 1, pb + 1, pc, pd, hi, cmp)
  {
  }

  lemma FatRight<T>(s: seq<T>, v: T, lo: nat, pa: nat, pb: nat, pc: nat, pd: nat, hi: nat, cmp: (T, T) -> int)
    requires Fat(s, v, lo, pa, pb, pc, pd, hi, cmp) && pb <= pc
    ensures cmp(s[pc], v) > 0 ==> Fat(s, v, lo, pa, pb, pc - 1, pd, hi, cmp)
    ensures cmp(s[pc], v) == 0 ==> Fat(Exchanged(s, pc, pd), v, lo, pa, pb, pc - 1, pd - 1, hi, cmp)
  {
  }

  lemma FatCross<T>(s: seq<T>, v: T, lo: nat, pa: nat, pb: nat, pc: nat, pd: nat, hi: nat, cmp: (T, T) -> int)
    requires Fat(s, v, lo, pa, pb, pc, pd, hi, cmp) && pb < pc
    requires cmp(s[pb], v) > 0 > cmp(s[pc], v)
    ensures Fat(Exchanged(s, pb, pc), v, lo, pa, pb + 1, pc - 1, pd, hi, cmp)
  {
  }

  /** The first inner loop: `pb` moves right past everything that is not greater. */
  method ScanLeft<T(!new)>(a: array<T>, ghost v: T, lo: nat, pa0: nat, pb0: nat, pc: nat, ghost pd: nat, ghost hi: nat,
                           cmp: (T, T) -> int)
    returns (pa: nat, pb: nat, swapped: bool)
    requires Fat(a[..], v, lo, pa0, pb0, pc, pd, hi, cmp)
    modifies a
    ensures Fat(a[..], v, lo, pa, pb, pc, pd, hi, cmp)
    ensures pb <= pc ==> cmp(a[pb], v) > 0
    ensures Shuffled(old(a[..]), a[..], lo, hi)
    ensures pb0 <= pb
  {
    hide *;
    pa, pb, swapped := pa0, pb0, false;
    ghost var s0 := a[..];
    FatBounds(s0, v, lo, pa, pb, pc, pd, hi, cmp);
    ShuffledSelf(s0, lo, hi);
    ghost var s := s0;
    while pb <= pc && cmp(a[pb], a[lo]) <= 0
      invariant pb0 <= pb && lo < pa <= pb <= pc + 1 <= pd + 1 <= hi <= |s| && s[lo] == v && a[..] == s
      invariant Fat(s, v, lo, pa, pb, pc, pd, hi, cmp)
      invariant Shuffled(s0, s, lo, hi)
      decreases pc + 1 - pb
    {
      FatLeft(s, v, lo, pa, pb, pc, pd, hi, cmp);
      if cmp(a[pb], a[lo]) == 0 {
        swapped := true;
        Swap(a, pa, pb, lo, hi);
        ShuffledTrans(s0, s, Exchanged(s, pa, pb), lo, hi);
        s := Exchanged(s, pa, pb);
        pa := pa + 1;
      }
      pb := pb + 1;
      FatBounds(s, v, lo, pa, pb, pc, pd, hi, cmp);
    }
  }

  lemma ShuffledSelf<T>(s: seq<T>, lo: nat, hi: nat)
    requires lo <= hi <= |s|
    ensures Shuffled(s, s, lo, hi)
  {
  }

  /** The second inner loop: `pc` moves left past everything that is not smaller. */
  method ScanRight<T(!new)>(a: array<T>, ghost v: T, lo: nat, ghost pa: nat, pb: nat, pc0: nat, pd0: nat, ghost hi: nat,
                            cmp: (T, T) -> int)
    returns (pc: nat, pd: nat, swapped: bool)
    requires Fat(a[..], v, lo, pa, pb, pc0, pd0, hi, cmp)
    modifies a
    ensures Fat(a[..], v, lo, pa, pb, pc, pd, hi, cmp)
    ensures pb <= pc ==> cmp(a[pc], v) < 0
    ensures pb <= pc ==> a[pb] == old(a[pb])
    ensures Shuffled(old(a[..]), a[..], lo, hi)
    ensures pc <= pc0
  {
    hide *;
    pc, pd, swapped := pc0, pd0, false;
    ghost var s0 := a[..];
    FatBounds(s0, v, lo, pa, pb, pc, pd, hi, cmp);
    ShuffledSelf(s0, lo, hi);
    ghost var s := s0;
    while pb <= pc && cmp(a[pc], a[lo]) >= 0
      invariant pc <= pc0 && lo < pb <= pc + 1 <= pd + 1 <= hi <= |s| && s[lo] == v && a[..] == s
      invariant Fat(s, v, lo, pa, pb, pc, pd, hi, cmp)
      invariant pb <= pc ==> s[pb] == s0[pb]
      invariant Shuffled(s0, s, lo, hi)
      decreases pc + 1 - pb
    {
      FatRight(s, v, lo, pa, pb, pc, pd, hi, cmp);
      ExchangedAt(s, pc, pd);
      if cmp(a[pc], a[lo]) == 0 {
        swapped := true;
        Swap(a, pc, pd, lo, hi);
        ShuffledTrans(s0, s, Exchanged(s, pc, pd), lo, hi);
        s := Exchanged(s, pc, pd);
        pd := pd - 1;
      }
      pc := pc - 1;
      FatBounds(s, v, lo, pa, pb, pc, pd, hi, cmp);
    }
  }

  lemma ExchangedAt<T>(s: seq<T>, i: nat, j: nat)
    requires i < |s| && j < |s|
    ensures forall k :: 0 <= k < |s| && k != i && k != j ==> Exchanged(s, i, j)[k] == s[k]
  {
  }

  /** Both inner loops, one after the other. */
  method Scan<T(!new)>(a: array<T>, ghost v: T, lo: nat, pa0: nat, pb0: nat, pc0: nat, pd0: nat, ghost hi: nat,
                       cmp: (T, T) -> int)
    returns (pa: nat, pb: nat, pc: nat, pd: nat, swapped: bool)
    requires Fat(a[..], v, lo, pa0, pb0, pc0, pd0, hi, cmp)
    modifies a
    ensures Fat(a[..], v, lo, pa, pb, pc, pd, hi, cmp)
    ensures pb <= pc ==> cmp(a[pb], v) > 0 > cmp(a[pc], v)
    ensures pb0 <= pb && pc <= pc0
    ensures Shuffled(old(a[..]), a[..], lo, hi)
  {
    FatBounds(a[..], v, lo, pa0, pb0, pc0, pd0, hi, cmp);
    hide *;
    var sl, sr;
    pa, pb, sl := ScanLeft(a, v, lo, pa0, pb0, pc0, pd0, hi, cmp);
    ghost var s1 := a[..];
    pc, pd, sr := ScanRight(a, v, lo, pa, pb, pc0, pd0, hi, cmp);
    ShuffledTrans(old(a[..]), s1, a[..], lo, hi);
    FatBounds(a[..], v, lo, pa, pb, pc, pd, hi, cmp);
    swapped := sl || sr;
  }

  /** The partition around the pivot that has been moved to the front. */
  method Partition<T(!new)>(a: array<T>, lo: nat, hi: nat, cmp: (T, T) -> int)
    returns (pa: nat, pb: nat, pc: nat, pd: nat, swapped: bool, ghost v: T)
    requires lo + 1 < hi <= a.Length
    requires Comparator(cmp)
    modifies a
    ensures pb == pc + 1 && Fat(a[..], v, lo, pa, pb, pc, pd, hi, cmp)
    ensures Shuffled(old(a[..]), a[..], lo, hi)
  {
    hide *;
    v := a[lo];
    pa, pb, pc, pd, swapped := lo + 1, lo + 1, hi - 1, hi - 1, false;
    PartitionStart(a[..], lo, hi, cmp);
    while true
      invariant Fat(a[..], v, lo, pa, pb, pc, pd, hi, cmp)
      invariant Shuffled(old(a[..]), a[..], lo, hi)
      decreases pc + 1 - pb
    {
      var moved;
      ghost var s0 := a[..];
      pa, pb, pc, pd, moved := Scan(a, v, lo, pa, pb, pc, pd, hi, cmp);
      ghost var s2 := a[..];
      ShuffledTrans(old(a[..]), s0, s2, lo, hi);
      swapped := swapped || moved;
      FatBounds(s2, v, lo, pa, pb, pc, pd, hi, cmp);
      if pb > pc { break; }
      FatCross(s2, v, lo, pa, pb, pc, pd, hi, cmp);
      Swap(a, pb, pc, lo, hi);
      ShuffledTrans(old(a[..]), s2, a[..], lo, hi);
      swapped := true;
      pb, pc := pb + 1, pc - 1;
    }
  }

  lemma FatBounds<T(!new)>(s: seq<T>, v: T, lo: nat, pa: nat, pb: nat, pc: nat, pd: nat, hi: nat, cmp: (T, T) -> int)
    requires Fat(s, v, lo, pa, pb, pc, pd, hi, cmp)
    ensures lo < pa <= pb <= pc + 1 <= pd + 1 <= hi <= |s| && s[lo] == v
    ensures pb <= pc && cmp(s[pb], v) > 0 > cmp(s[pc], v) ==> pb < pc
  {
  }

  lemma PartitionStart<T(!new)>(s: seq<T>, lo: nat, hi: nat, cmp: (T, T) -> int)
    requires lo + 1 < hi <= |s|
    requires Comparator(cmp)
    ensures Fat(s, s[lo], lo, lo + 1, lo + 1, hi - 1, hi - 1, hi, cmp)
    ensures Shuffled(s, s, lo, hi)
  {
    assert cmp(s[lo], s[lo]) < 0 <==> cmp(s[lo], s[lo]) > 0;
  }

  /** A finished partition: smaller in `[lo, left)`, equal in the middle, greater in `[right, hi)`. */
  ghost predicate Parted<T>(s: seq<T>, v: T, lo: nat, left: nat, right: nat, hi: nat, cmp: (T, T) -> int) {
    && lo <= left < right <= hi <= |s|
    && (forall i :: lo <= i < left ==> cmp(s[i], v) < 0)
    && (forall i :: left <= i < right ==> cmp(s[i], v) == 0)
    && (forall i :: right <= i < hi ==> cmp(s[i], v) > 0)
  }

  lemma MinFits(x: nat, y: nat)
    requires x <= 0x7fff_ffff
    ensures Narrow(Min(x, y)) == Min(x, y) && 0 <= Min(x, y) && 2 * Min(x, y) <= x + y
  {
  }

  /** The first block exchange moves the left run of equal elements next to the middle. */
  lemma GatherLeft<T>(s: seq<T>, v: T, lo: nat, pa: nat, pb: nat, pc: nat, pd: nat, hi: nat, cmp: (T, T) -> int)
    requires Fat(s, v, lo, pa, pb, pc, pd, hi, cmp) && pb == pc + 1
    ensures var r := Min(pa - lo, pb - pa);
            var t := BlocksSwapped(s, lo, pb - r, r);
            && (forall i :: lo <= i < lo + (pb - pa) ==> cmp(t[i], v) < 0)
            && (forall i :: lo + (pb - pa) <= i < pb ==> cmp(t[i], v) == 0)
            && (forall i :: pb <= i < hi ==> t[i] == s[i])
  {
  }

  lemma SwappedAt<T>(s: seq<T>, i: nat, j: nat, n: nat, k: nat)
    requires i + n <= j && j + n <= |s| && k < |s|
    ensures BlocksSwapped(s, i, j, n)[k]
            == if i <= k < i + n then s[k - i + j] else if j <= k < j + n then s[k - j + i] else s[k]
  {
  }

  /** What the second exchange puts at `i`: something from the left untouched, or one of the right part. */
  lemma GatherRightAt<T>(s: seq<T>, t: seq<T>, v: T, lo: nat, pa: nat, pb: nat, pc: nat, pd: nat, hi: nat,
                         cmp: (T, T) -> int, i: nat)
    requires Fat(s, v, lo, pa, pb, pc, pd, hi, cmp) && pb == pc + 1 && |t| == |s|
    requires forall k :: pb <= k < hi ==> t[k] == s[k]
    requires pb <= i < hi
    ensures var r := Min(pd - pc, hi - pd - 1);
            var u := BlocksSwapped(t, pb, hi - r, r);
            (i < hi - (pd - pc) ==> cmp(u[i], v) == 0) && (i >= hi - (pd - pc) ==> cmp(u[i], v) > 0)
  {
    hide BlocksSwapped;
    var r := Min(pd - pc, hi - pd - 1);
    SwappedAt(t, pb, hi - r, r, i);
  }

  /** The second does the same on the right, which finishes the partition. */
  lemma GatherRight<T>(s: seq<T>, t: seq<T>, v: T, lo: nat, pa: nat, pb: nat, pc: nat, pd: nat, hi: nat,
                       cmp: (T, T) -> int)
    requires Fat(s, v, lo, pa, pb, pc, pd, hi, cmp) && pb == pc + 1
    requires t == BlocksSwapped(s, lo, pb - Min(pa - lo, pb - pa), Min(pa - lo, pb - pa))
    ensures var r := Min(pd - pc, hi - pd - 1);
            Parted(BlocksSwapped(t, pb, hi - r, r), v, lo, lo + (pb - pa), hi - (pd - pc), hi, cmp)
  {
    hide BlocksSwapped;
    GatherLeft(s, v, lo, pa, pb, pc, pd, hi, cmp);
    var r := Min(pd - pc, hi - pd - 1);
    var u := BlocksSwapped(t, pb, hi - r, r);
    forall i | lo <= i < pb
      ensures u[i] == t[i]
    {
      SwappedAt(t, pb, hi - r, r, i);
    }
    forall i | pb <= i < hi
      ensures i < hi - (pd - pc) ==> cmp(u[i], v) == 0
      ensures i >= hi - (pd - pc) ==> cmp(u[i], v) > 0
    {
      GatherRightAt(s, t, v, lo, pa, pb, pc, pd, hi, cmp, i);
    }
  }

  /** The index of the pivot: the middle, a median of three or a median of nine. */
  method ChoosePivot<T(!new)>(a: array<T>, lo: nat, hi: nat, cmp: (T, T) -> int) returns (pm: nat)
    requires lo + 7 <= hi <= a.Length <= 0x7fff_ffff
    requires Comparator(cmp)
    ensures lo <= pm < hi
  {
    hide *;
    var n := hi - lo;
    NarrowFits(n / 8);
    pm := lo + n / 2;
    if n > 7 {
      var pl, pn := lo, lo + (n - 1);
      if n > 40 {
        var d := Narrow(n / 8);
        pl := Med3(a, pl, pl + d, pl + 2 * d, cmp);
        pm := Med3(a, pm - d, pm, pm + d, cmp);
        pn := Med3(a, pn - 2 * d, pn - d, pn, cmp);
      }
      pm := Med3(a, pl, pm, pn, cmp);
    }
  }

  /** Brings both runs of equal elements to the middle. */
  method Gather<T(!new)>(a: array<T>, ghost v: T, lo: nat, pa: nat, pb: nat, pc: nat, pd: nat, hi: nat,
                         cmp: (T, T) -> int)
    requires a.Length <= 0x7fff_ffff
    requires Fat(a[..], v, lo, pa, pb, pc, pd, hi, cmp) && pb == pc + 1
    modifies a
    ensures Parted(a[..], v, lo, lo + (pb - pa), hi - (pd - pc), hi, cmp)
    ensures Shuffled(old(a[..]), a[..], lo, hi)
  {
    hide *;
    FatBounds(a[..], v, lo, pa, pb, pc, pd, hi, cmp);
    MinFits(pa - lo, pb - pa);
    MinFits(pd - pc, hi - pd - 1);
    var r := Narrow(Min(pa - lo, pb - pa));
    var q := Narrow(Min(pd - pc, hi - pd - 1));
    VecSwap(a, lo, pb - r, r, lo, hi);
    ghost var t := a[..];
    VecSwap(a, pb, hi - q, q, lo, hi);
    GatherRight(old(a[..]), t, v, lo, pa, pb, pc, pd, hi, cmp);
    ShuffledTrans(old(a[..]), t, a[..], lo, hi);
  }

  /**
   One round of the sort on a range of at least seven elements: choose the pivot,
   partition, and either fall back to the insertion sort or leave two ranges to do.
   */
  method Divide<T(!new)>(a: array<T>, lo: nat, hi: nat, cmp: (T, T) -> int)
    returns (done: bool, left: nat, right: nat, ghost v: T)
    requires lo + 7 <= hi <= a.Length <= 0x7fff_ffff
    requires Comparator(cmp)
    modifies a
    ensures Shuffled(old(a[..]), a[..], lo, hi)
    ensures done ==> Sorted(a[..], lo, hi, cmp)
    ensures !done ==> Parted(a[..], v, lo, left, right, hi, cmp)
  {
    hide *;
    var pm := ChoosePivot(a, lo, hi, cmp);
    Swap(a, lo, pm, lo, hi);
    ghost var s1 := a[..];
    var pa, pb, pc, pd, swapped;
    pa, pb, pc, pd, swapped, v := Partition(a, lo, hi, cmp);
    ghost var s2 := a[..];
    ShuffledTrans(old(a[..]), s1, s2, lo, hi);
    FatBounds(s2, v, lo, pa, pb, pc, pd, hi, cmp);
    done, left, right := !swapped, lo + (pb - pa), hi - (pd - pc);
    if done {
      InsertionSort(a, lo, hi, cmp);
    } else {
      Gather(a, v, lo, pa, pb, pc, pd, hi, cmp);
    }
    ShuffledTrans(old(a[..]), s2, a[..], lo, hi);
  }

  /** Two sorted ranges around a middle of equal elements, one below the other. */
  lemma PartedBelow<T(!new)>(s: seq<T>, v: T, lo: nat, left: nat, right: nat, hi: nat, cmp: (T, T) -> int)
    requires Comparator(cmp)
    requires Parted(s, v, lo, left, right, hi, cmp)
    ensures lo <= left < right <= hi <= |s|
    ensures Below(s, lo, left, hi, cmp) && Below(s, lo, right, hi, cmp)
    ensures Sorted(s, left, right, cmp)
  {
    forall i, j | lo <= i < hi && lo <= j < hi && cmp(s[i], v) <= 0 <= cmp(s[j], v)
      ensures cmp(s[i], s[j]) <= 0
    {
      assert cmp(v, s[j]) <= 0;
    }
  }

  /** Sorting the left range of a partition leaves `[lo, right)` sorted and below the rest. */
  lemma LeftDone<T(!new)>(s: seq<T>, t: seq<T>, v: T, lo: nat, left: nat, right: nat, hi: nat, cmp: (T, T) -> int)
    requires Comparator(cmp)
    requires Parted(s, v, lo, left, right, hi, cmp)
    requires Shuffled(s, t, lo, left) && Sorted(t, lo, left, cmp)
    ensures Sorted(t, lo, right, cmp) && Below(t, lo, right, hi, cmp)
    ensures Shuffled(s, t, lo, hi)
  {
    PartedBelow(s, v, lo, left, right, hi, cmp);
    ShuffledOutside(s, t, lo, left);
    BelowAfterLeft(s, t, lo, left, hi, cmp);
    ShuffledWiden(s, t, lo, left, lo, right);
    ShuffledWiden(s, t, lo, left, lo, hi);
    BelowAfterLeft(s, t, lo, right, hi, cmp);
  }

  lemma SortedJoin<T>(s: seq<T>, lo: nat, mid: nat, hi: nat, cmp: (T, T) -> int)
    requires lo <= mid <= hi <= |s|
    requires Sorted(s, lo, mid, cmp) && Sorted(s, mid, hi, cmp) && Below(s, lo, mid, hi, cmp)
    ensures Sorted(s, lo, hi, cmp)
  {
  }

  lemma BelowJoin<T>(s: seq<T>, lo: nat, mid: nat, mid': nat, hi: nat, cmp: (T, T) -> int)
    requires lo <= mid <= mid' <= hi <= |s|
    requires Below(s, lo, mid, hi, cmp) && Below(s, mid, mid', hi, cmp)
    ensures Below(s, lo, mid', hi, cmp)
  {
  }

  /** Work on `[mid, hi)` extends the finished part `[lo, mid)` to `[lo, mid')`. */
  lemma Extend<T>(s: seq<T>, t: seq<T>, lo: nat, mid: nat, mid': nat, hi: nat, cmp: (T, T) -> int)
    requires lo <= mid <= mid' <= hi <= |s|
    requires Sorted(s, lo, mid, cmp) && Below(s, lo, mid, hi, cmp)
    requires Shuffled(s, t, mid, hi) && Sorted(t, mid, mid', cmp) && Below(t, mid, mid', hi, cmp)
    ensures Sorted(t, lo, mid', cmp) && Below(t, lo, mid', hi, cmp)
    ensures Shuffled(s, t, lo, hi)
  {
    ShuffledOutside(s, t, mid, hi);
    ShuffledWiden(s, t, mid, hi, lo, hi);
    BelowAfterRight(s, t, lo, mid, hi, cmp);
    SortedJoin(t, lo, mid, mid', cmp);
    BelowJoin(t, lo, mid, mid', hi, cmp);
  }

  /** What is left to sort has at most one element. */
  lemma NothingLeft<T>(s: seq<T>, lo: nat, mid: nat, hi: nat, cmp: (T, T) -> int)
    requires lo <= mid <= hi <= |s| && hi - mid <= 1
    requires Sorted(s, lo, mid, cmp) && Below(s, lo, mid, hi, cmp)
    ensures Sorted(s, lo, hi, cmp)
  {
  }

  lemma NothingDone<T>(s: seq<T>, lo: nat, hi: nat, cmp: (T, T) -> int)
    requires lo <= hi <= |s|
    ensures Sorted(s, lo, lo, cmp) && Below(s, lo, lo, hi, cmp) && Below(s, lo, hi, hi, cmp) && Shuffled(s, s, lo, hi)
  {
  }

  lemma NarrowFits(x: int)
    requires 0 <= x <= 0x7fff_ffff
    ensures Narrow(x) == x
  {
  }

  /** One pass of the source's `goto loop`: `[mid, hi)` was to be sorted, `[mid', hi)` remains. */
  method SortRound<T(!new)>(a: array<T>, mid: nat, hi: nat, cmp: (T, T) -> int) returns (mid': nat)
    requires mid + 7 <= hi <= a.Length <= 0x7fff_ffff
    requires Comparator(cmp)
    modifies a
    ensures mid < mid' <= hi
    ensures Shuffled(old(a[..]), a[..], mid, hi)
    ensures Sorted(a[..], mid, mid', cmp) && Below(a[..], mid, mid', hi, cmp)
    decreases hi - mid, 0
  {
    hide *;
    var done, left, right;
    ghost var v;
    done, left, right, v := Divide(a, mid, hi, cmp);
    ghost var s := a[..];
    NothingDone(s, mid, hi, cmp);
    if done {
      return hi;
    }
    PartedBelow(s, v, mid, left, right, hi, cmp);
    NarrowFits(left - mid);
    if Narrow(left - mid) > 1 {
      Qsort(a, mid, left, cmp);
    } else {
      NothingDone(s, mid, left, cmp);
      NothingLeft(s, mid, mid, left, cmp);
    }
    LeftDone(s, a[..], v, mid, left, right, hi, cmp);
    ShuffledTrans(old(a[..]), s, a[..], mid, hi);
    mid' := right;
  }

  /**
   The library's `qsort` on `[lo, hi)`: it terminates, the range ends up sorted,
   holds the same elements, and nothing outside it changes.
   */
  method Qsort<T(!new)>(a: array<T>, lo: nat, hi: nat, cmp: (T, T) -> int)
    requires lo <= hi <= a.Length <= 0x7fff_ffff
    requires Comparator(cmp)
    modifies a
    ensures Sorted(a[..], lo, hi, cmp)
    ensures Shuffled(old(a[..]), a[..], lo, hi)
    decreases hi - lo
  {
    hide *;
    var mid := lo;
    NothingDone(a[..], lo, hi, cmp);
    while hi - mid >= 7
      invariant lo <= mid <= hi
      invariant Shuffled(old(a[..]), a[..], lo, hi)
      invariant Sorted(a[..], lo, mid, cmp) && Below(a[..], lo, mid, hi, cmp)
      decreases hi - mid
    {
      ghost var s := a[..];
      var mid' := SortRound(a, mid, hi, cmp);
      Extend(s, a[..], lo, mid, mid', hi, cmp);
      ShuffledTrans(old(a[..]), s, a[..], lo, hi);
      mid := mid';
      NarrowFits(hi - mid);
      if Narrow(hi - mid) <= 1 {
        NothingLeft(a[..], lo, mid, hi, cmp);
        return;
      }
    }
    ghost var s := a[..];
    InsertionSort(a, mid, hi, cmp);
    NothingDone(a[..], mid, hi, cmp);
    Extend(s, a[..], lo, mid, hi, hi, cmp);
    ShuffledTrans(old(a[..]), s, a[..], lo, hi);
  }

  /** The library's `bsearch`, complete on any sorted array. */
  method BSearch<T(!new)>(key: T, a: array<T>, cmp: (T, T) -> int) returns (m: int)
    requires Comparator(cmp)
    requires Sorted(a[..], 0, a.Length, cmp)
    ensures 0 <= m ==> m < a.Length && cmp(key, a[m]) == 0
    ensures m < 0 ==> forall i :: 0 <= i < a.Length ==> cmp(key, a[i]) != 0
  {
    var s, e := 0, a.Length;
    while s < e
      invariant 0 <= s <= e <= a.Length
      invariant forall i :: 0 <= i < s ==> cmp(key, a[i]) > 0
      invariant forall i :: e <= i < a.Length ==> cmp(key, a[i]) < 0
    {
      m := s + (e - s) / 2;
      var ret := cmp(key, a[m]);
      assert forall i :: 0 <= i < a.Length ==> a[..][i] == a[i];
      if ret < 0 {
        SearchBelow(a[..], key, m, cmp);
        e := m;
      } else if ret > 0 {
        SearchAbove(a[..], key, m, cmp);
        s := m + 1;
      } else {
        return;
      }
    }
    return -1;
  }

  lemma SearchBelow<T(!new)>(s: seq<T>, key: T, m: nat, cmp: (T, T) -> int)
    requires Comparator(cmp) && Sorted(s, 0, |s|, cmp)
    requires m < |s| && cmp(key, s[m]) < 0
    ensures forall i :: m <= i < |s| ==> cmp(key, s[i]) < 0
  {
  }

  lemma SearchAbove<T(!new)>(s: seq<T>, key: T, m: nat, cmp: (T, T) -> int)
    requires Comparator(cmp) && Sorted(s, 0, |s|, cmp)
    requires m < |s| && cmp(key, s[m]) > 0
    ensures forall i :: 0 <= i <= m ==> cmp(key, s[i]) > 0
  {
  }

  /** Sorting an array and then searching it finds a key exactly when the array held one. */
  method SortAndSearch<T(!new)>(key: T, a: array<T>, cmp: (T, T) -> int) returns (m: int)
    requires a.Length <= 0x7fff_ffff
    requires Comparator(cmp)
    modifies a
    ensures 0 <= m ==> m < a.Length && cmp(key, a[m]) == 0
    ensures 0 <= m <==> exists x :: x in old(a[..]) && cmp(key, x) == 0
  {
    ghost var s := a[..];
    Qsort(a, 0, a.Length, cmp);
    m := BSearch(key, a, cmp);
    SameMembers(s, a[..]);
    assert 0 <= m ==> a[m] in a[..];
  }

  lemma SameMembers<T>(s: seq<T>, t: seq<T>)
    requires Shuffled(s, t, 0, |s|)
    ensures forall x :: x in s <==> x in t
  {
    assert s[0..|s|] == s && t[0..|s|] == t;
    forall x
      ensures x in s <==> x in t
    {
      assert x in multiset(s) <==> x in multiset(t);
    }
  }
}
