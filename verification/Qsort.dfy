/** qsort of ee/libc/src/qsort.c: Bentley and McIlroy's three-way quicksort, one array slot per element. */
module Qsort {
  type Cmp<!T> = (T, T) -> int

  ghost predicate Le<T>(cmp: Cmp<T>, x: T, y: T) { cmp(x, y) <= 0 }

  ghost predicate Consistent<T>(cmp: Cmp<T>, x: T, y: T) {
    (cmp(x, y) < 0 <==> cmp(y, x) > 0) && (cmp(x, y) > 0 <==> cmp(y, x) < 0)
  }

  ghost predicate Transitive<T>(cmp: Cmp<T>, x: T, y: T, z: T) {
    Le(cmp, x, y) && Le(cmp, y, z) ==> Le(cmp, x, z)
  }

  /** A comparator as section 7.20.5.2 of ISO/IEC 9899:1999 requires it: consistent and transitive. */
  ghost predicate TotalPreorder<T(!new)>(cmp: Cmp<T>) {
    && (forall x, y {:trigger Consistent(cmp, x, y)} :: Consistent(cmp, x, y))
    && (forall x, y, z {:trigger Transitive(cmp, x, y, z)} :: Transitive(cmp, x, y, z))
  }

  ghost predicate Sorted<T>(s: seq<T>, lo: int, hi: int, cmp: Cmp<T>) {
    && 0 <= lo <= hi <= |s|
    && forall i, j {:trigger Le(cmp, s[i], s[j])} :: lo <= i < j < hi ==> Le(cmp, s[i], s[j])
  }

  /** How often `x` occurs in `s[lo..hi]`. */
  ghost function Count<T>(s: seq<T>, lo: int, hi: int, x: T): nat
    requires 0 <= lo <= hi <= |s|
    decreases hi - lo
  {
    if lo == hi then 0 else Count(s, lo, hi - 1, x) + (if s[hi - 1] == x then 1 else 0)
  }

  ghost predicate Kept<T>(s: seq<T>, s': seq<T>, i: int)
    requires |s| == |s'|
  {
    0 <= i < |s| ==> s'[i] == s[i]
  }

  ghost predicate SameCount<T>(s: seq<T>, s': seq<T>, lo: int, hi: int, x: T)
    requires 0 <= lo <= hi <= |s| == |s'|
  {
    Count(s', lo, hi, x) == Count(s, lo, hi, x)
  }

  /** The elements `lo..hi` were permuted and nothing else changed. */
  ghost predicate Shuffled<T(!new)>(s: seq<T>, s': seq<T>, lo: int, hi: int) {
    && 0 <= lo <= hi <= |s| == |s'|
    && (forall i {:trigger Kept(s, s', i)} :: !(lo <= i < hi) ==> Kept(s, s', i))
    && (forall x {:trigger SameCount(s, s', lo, hi, x)} :: SameCount(s, s', lo, hi, x))
  }

  // ---- Permutations ----

  lemma {:induction false} CountIsMultiplicity<T>(s: seq<T>, lo: int, hi: int, x: T)
    requires 0 <= lo <= hi <= |s|
    ensures Count(s, lo, hi, x) == multiset(s[lo..hi])[x]
    decreases hi - lo
  {
    if lo < hi {
      CountIsMultiplicity(s, lo, hi - 1, x);
      assert s[lo..hi] == s[lo..hi - 1] + [s[hi - 1]];
    }
  }

  lemma {:induction false} CountSplit<T>(s: seq<T>, lo: int, mid: int, hi: int, x: T)
    requires 0 <= lo <= mid <= hi <= |s|
    ensures Count(s, lo, hi, x) == Count(s, lo, mid, x) + Count(s, mid, hi, x)
    decreases hi - mid
  {
    if mid < hi { CountSplit(s, lo, mid, hi - 1, x); }
  }

  lemma {:induction false} CountSame<T>(s: seq<T>, s': seq<T>, lo: int, hi: int, x: T)
    requires 0 <= lo <= hi <= |s| == |s'|
    requires forall i {:trigger Kept(s, s', i)} :: lo <= i < hi ==> Kept(s, s', i)
    ensures Count(s', lo, hi, x) == Count(s, lo, hi, x)
    decreases hi - lo
  {
    if lo < hi {
      assert Kept(s, s', hi - 1);
      CountSame(s, s', lo, hi - 1, x);
    }
  }

  lemma {:induction false} CountUpdate<T>(s: seq<T>, i: int, y: T, lo: int, hi: int, x: T)
    requires 0 <= lo <= i < hi <= |s|
    ensures Count(s[i := y], lo, hi, x) + (if s[i] == x then 1 else 0) == Count(s, lo, hi, x) + (if y == x then 1 else 0)
    decreases hi - lo
  {
    if i == hi - 1 {
      CountSame(s, s[i := y], lo, i, x);
    } else {
      CountUpdate(s, i, y, lo, hi - 1, x);
    }
  }

  lemma {:induction false} CountFinds<T>(s: seq<T>, lo: int, hi: int, x: T) returns (i: int)
    requires 0 <= lo <= hi <= |s| && Count(s, lo, hi, x) > 0
    ensures lo <= i < hi && s[i] == x
    decreases hi - lo
  {
    if s[hi - 1] == x {
      i := hi - 1;
    } else {
      i := CountFinds(s, lo, hi - 1, x);
    }
  }

  lemma {:induction false} CountMember<T>(s: seq<T>, lo: int, hi: int, i: int)
    requires 0 <= lo <= i < hi <= |s|
    ensures Count(s, lo, hi, s[i]) > 0
    decreases hi - lo
  {
    if i < hi - 1 { CountMember(s, lo, hi - 1, i); }
  }

  lemma ShuffledWiden<T(!new)>(s: seq<T>, s': seq<T>, lo: int, hi: int, a: int, b: int)
    requires Shuffled(s, s', lo, hi) && 0 <= a <= lo && hi <= b <= |s|
    ensures Shuffled(s, s', a, b)
  {
    forall x ensures SameCount(s, s', a, b, x) {
      CountSplit(s, a, lo, b, x);
      CountSplit(s, lo, hi, b, x);
      CountSplit(s', a, lo, b, x);
      CountSplit(s', lo, hi, b, x);
      CountSame(s, s', a, lo, x);
      CountSame(s, s', hi, b, x);
      assert SameCount(s, s', lo, hi, x);
    }
  }

  lemma ShuffledTwice<T(!new)>(s: seq<T>, t: seq<T>, u: seq<T>, lo: int, hi: int)
    requires Shuffled(s, t, lo, hi) && Shuffled(t, u, lo, hi)
    ensures Shuffled(s, u, lo, hi)
  {
    forall i | !(lo <= i < hi) ensures Kept(s, u, i) {
      assert Kept(s, t, i) && Kept(t, u, i);
    }
    forall x ensures SameCount(s, u, lo, hi, x) {
      assert SameCount(s, t, lo, hi, x) && SameCount(t, u, lo, hi, x);
    }
  }

  /** Every element after a shuffle was there before. */
  lemma ShuffledFrom<T(!new)>(s: seq<T>, s': seq<T>, lo: int, hi: int, i: int) returns (j: int)
    requires Shuffled(s, s', lo, hi) && lo <= i < hi
    ensures lo <= j < hi && s'[i] == s[j]
  {
    CountMember(s', lo, hi, i);
    assert SameCount(s, s', lo, hi, s'[i]);
    j := CountFinds(s, lo, hi, s'[i]);
  }

  /** A shuffle is a permutation in the usual sense. */
  lemma ShuffledIsPermutation<T(!new)>(s: seq<T>, s': seq<T>, lo: int, hi: int)
    requires Shuffled(s, s', lo, hi)
    ensures multiset(s'[lo..hi]) == multiset(s[lo..hi]) && s'[..lo] == s[..lo] && s'[hi..] == s[hi..]
  {
    forall x ensures multiset(s'[lo..hi])[x] == multiset(s[lo..hi])[x] {
      CountIsMultiplicity(s, lo, hi, x);
      CountIsMultiplicity(s', lo, hi, x);
      assert SameCount(s, s', lo, hi, x);
    }
    forall i | 0 <= i < |s| && !(lo <= i < hi) ensures s'[i] == s[i] {
      assert Kept(s, s', i);
    }
  }

  function Swapped<T>(s: seq<T>, i: int, j: int): seq<T>
    requires 0 <= i < |s| && 0 <= j < |s|
  {
    s[i := s[j]][j := s[i]]
  }

  lemma SwappedShuffles<T(!new)>(s: seq<T>, i: int, j: int, lo: int, hi: int)
    requires 0 <= lo <= i < hi <= |s| && lo <= j < hi
    ensures Shuffled(s, Swapped(s, i, j), lo, hi)
  {
    forall x ensures SameCount(s, Swapped(s, i, j), lo, hi, x) {
      CountUpdate(s, i, s[j], lo, hi, x);
      CountUpdate(s[i := s[j]], j, s[i], lo, hi, x);
    }
  }

  method Swap<T(!new)>(arr: array<T>, i: int, j: int, ghost lo: int, ghost hi: int)
    requires 0 <= lo <= i < hi <= arr.Length && lo <= j < hi
    modifies arr
    ensures arr[..] == Swapped(old(arr[..]), i, j)
    ensures Shuffled(old(arr[..]), arr[..], lo, hi)
  {
    SwappedShuffles(arr[..], i, j, lo, hi);
    arr[i], arr[j] := arr[j], arr[i];
    assert arr[..] == Swapped(old(arr[..]), i, j);
  }

  // ---- Insertion sort, lines 95-98 and 142-145 ----

  /** `s[lo..hi]` is sorted once the element at `l`, on its way down, is left out. */
  ghost predicate SortedBut<T>(s: seq<T>, lo: int, hi: int, l: int, cmp: Cmp<T>) {
    && 0 <= lo <= l < hi <= |s|
    && (forall i, j {:trigger Le(cmp, s[i], s[j])} :: lo <= i < j < hi && j != l ==> Le(cmp, s[i], s[j]))
  }

  lemma SortedButStep<T(!new)>(s: seq<T>, lo: int, hi: int, l: int, cmp: Cmp<T>)
    requires TotalPreorder(cmp) && SortedBut(s, lo, hi, l, cmp) && lo < l && cmp(s[l - 1], s[l]) > 0
    ensures SortedBut(Swapped(s, l, l - 1), lo, hi, l - 1, cmp)
  {
    var s' := Swapped(s, l, l - 1);
    forall i, j | lo <= i < j < hi && j != l - 1 ensures Le(cmp, s'[i], s'[j]) {
      if i == l - 1 && j == l {
        assert Consistent(cmp, s[l - 1], s[l]);
      } else {
        var i' := if i == l then l - 1 else if i == l - 1 then l else i;
        var j' := if j == l then l - 1 else j;
        assert Le(cmp, s[i'], s[j']);
      }
    }
  }

  lemma SortedButDone<T(!new)>(s: seq<T>, lo: int, hi: int, l: int, cmp: Cmp<T>)
    requires TotalPreorder(cmp) && SortedBut(s, lo, hi, l, cmp) && (lo == l || cmp(s[l - 1], s[l]) <= 0)
    ensures Sorted(s, lo, hi, cmp)
  {
    forall i, j | lo <= i < j < hi ensures Le(cmp, s[i], s[j]) {
      if j == l && i < l - 1 {
        assert Le(cmp, s[i], s[l - 1]) && Transitive(cmp, s[i], s[l - 1], s[l]);
      }
    }
  }

  /** The inner loop: sinks the element at `pm` into the sorted part below it. */
  method Sink<T(!new)>(arr: array<T>, lo: int, pm: int, cmp: Cmp<T>)
    requires TotalPreorder(cmp) && 0 <= lo <= pm < arr.Length && Sorted(arr[..], lo, pm, cmp)
    modifies arr
    ensures Sorted(arr[..], lo, pm + 1, cmp)
    ensures Shuffled(old(arr[..]), arr[..], lo, pm + 1)
  {
    var pl := pm;
    while pl > lo && cmp(arr[pl - 1], arr[pl]) > 0
      invariant SortedBut(arr[..], lo, pm + 1, pl, cmp)
      invariant Shuffled(old(arr[..]), arr[..], lo, pm + 1)
    {
      SortedButStep(arr[..], lo, pm + 1, pl, cmp);
      ghost var s := arr[..];
      Swap(arr, pl, pl - 1, lo, pm + 1);
      ShuffledTwice(old(arr[..]), s, arr[..], lo, pm + 1);
      pl := pl - 1;
    }
    SortedButDone(arr[..], lo, pm + 1, pl, cmp);
  }

  method InsertionSort<T(!new)>(arr: array<T>, lo: int, n: int, cmp: Cmp<T>)
    requires TotalPreorder(cmp) && 0 <= lo && 0 <= n && lo + n <= arr.Length
    modifies arr
    ensures Sorted(arr[..], lo, lo + n, cmp)
    ensures Shuffled(old(arr[..]), arr[..], lo, lo + n)
  {
    if n == 0 { return; }
    var pm := lo + 1;
    while pm < lo + n
      invariant lo + 1 <= pm <= lo + n
      invariant Sorted(arr[..], lo, pm, cmp)
      invariant Shuffled(old(arr[..]), arr[..], lo, lo + n)
    {
      ghost var s := arr[..];
      Sink(arr, lo, pm, cmp);
      ShuffledWiden(s, arr[..], lo, pm + 1, lo, lo + n);
      ShuffledTwice(old(arr[..]), s, arr[..], lo, lo + n);
      pm := pm + 1;
    }
  }

  // ---- Choosing the pivot, lines 76-83 and 101-112 ----

  /** Index of the median of three elements. */
  function Med3<T>(s: seq<T>, a: int, b: int, c: int, cmp: Cmp<T>): (m: int)
    requires 0 <= a < |s| && 0 <= b < |s| && 0 <= c < |s|
    ensures m == a || m == b || m == c
  {
    if cmp(s[a], s[b]) < 0 then
      if cmp(s[b], s[c]) < 0 then b else if cmp(s[a], s[c]) < 0 then c else a
    else if cmp(s[b], s[c]) > 0 then b
    else if cmp(s[a], s[c]) < 0 then a else c
  }

  ghost predicate Between<T>(s: seq<T>, a: int, b: int, c: int, cmp: Cmp<T>)
    requires 0 <= a < |s| && 0 <= b < |s| && 0 <= c < |s|
  {
    (Le(cmp, s[a], s[b]) && Le(cmp, s[b], s[c])) || (Le(cmp, s[c], s[b]) && Le(cmp, s[b], s[a]))
  }

  /** Element `m` is one of the three and lies between the other two. */
  ghost predicate MedianOf<T>(s: seq<T>, m: int, a: int, b: int, c: int, cmp: Cmp<T>) {
    && 0 <= a < |s| && 0 <= b < |s| && 0 <= c < |s|
    && (|| (m == a && Between(s, b, a, c, cmp))
        || (m == b && Between(s, a, b, c, cmp))
        || (m == c && Between(s, a, c, b, cmp)))
  }

  lemma Med3IsMedian<T(!new)>(s: seq<T>, a: int, b: int, c: int, cmp: Cmp<T>)
    requires 0 <= a < |s| && 0 <= b < |s| && 0 <= c < |s| && TotalPreorder(cmp)
    ensures MedianOf(s, Med3(s, a, b, c, cmp), a, b, c, cmp)
  {
    assert Consistent(cmp, s[a], s[b]) && Consistent(cmp, s[b], s[c]) && Consistent(cmp, s[a], s[c]);
  }

  /** Middle element, median of three, or pseudo-median of nine, by the size of the range. */
  function Pivot<T>(s: seq<T>, lo: int, n: int, cmp: Cmp<T>): (m: int)
    requires 0 <= lo && 7 <= n && lo + n <= |s|
    ensures lo <= m < lo + n
  {
    var pm := lo + n / 2;
    if n == 7 then pm
    else
      var d := n / 8;
      var pn := lo + n - 1;
      var l := if n > 40 then Med3(s, lo, lo + d, lo + 2 * d, cmp) else lo;
      var m := if n > 40 then Med3(s, pm - d, pm, pm + d, cmp) else pm;
      var h := if n > 40 then Med3(s, pn - 2 * d, pn - d, pn, cmp) else pn;
      Med3(s, l, m, h, cmp)
  }

  /** Of 7 elements the pivot is the middle one. */
  lemma PivotOfSeven<T>(s: seq<T>, lo: int, cmp: Cmp<T>)
    requires 0 <= lo && lo + 7 <= |s|
    ensures Pivot(s, lo, 7, cmp) == lo + 3
  {
  }

  /** Of up to 40 elements the pivot is the median of the first, the middle and the last. */
  lemma PivotOfThree<T(!new)>(s: seq<T>, lo: int, n: int, cmp: Cmp<T>)
    requires 0 <= lo && 7 < n <= 40 && lo + n <= |s| && TotalPreorder(cmp)
    ensures MedianOf(s, Pivot(s, lo, n, cmp), lo, lo + n / 2, lo + n - 1, cmp)
  {
    Med3IsMedian(s, lo, lo + n / 2, lo + n - 1, cmp);
  }

  /** Of more elements it is the median of three medians, each of three elements an eighth of the range apart. */
  lemma PivotOfNine<T(!new)>(s: seq<T>, lo: int, n: int, cmp: Cmp<T>, l: int, m: int, h: int)
    requires 0 <= lo && 40 < n && lo + n <= |s| && TotalPreorder(cmp)
    requires l == Med3(s, lo, lo + n / 8, lo + 2 * (n / 8), cmp)
    requires m == Med3(s, lo + n / 2 - n / 8, lo + n / 2, lo + n / 2 + n / 8, cmp)
    requires h == Med3(s, lo + n - 1 - 2 * (n / 8), lo + n - 1 - n / 8, lo + n - 1, cmp)
    ensures MedianOf(s, Pivot(s, lo, n, cmp), l, m, h, cmp)
  {
    assert Pivot(s, lo, n, cmp) == Med3(s, l, m, h, cmp);
    Med3IsMedian(s, l, m, h, cmp);
  }

  // ---- The partition loop, lines 113-140 ----

  ghost predicate EqAt<T>(s: seq<T>, lo: int, i: int, cmp: Cmp<T>) { 0 <= lo < |s| && 0 <= i < |s| && cmp(s[i], s[lo]) == 0 }
  ghost predicate LtAt<T>(s: seq<T>, lo: int, i: int, cmp: Cmp<T>) { 0 <= lo < |s| && 0 <= i < |s| && cmp(s[i], s[lo]) < 0 }
  ghost predicate GtAt<T>(s: seq<T>, lo: int, i: int, cmp: Cmp<T>) { 0 <= lo < |s| && 0 <= i < |s| && cmp(s[i], s[lo]) > 0 }

  /** Equal to the pivot at both ends, smaller from pa, unread between pb and pc, greater up to pd. */
  ghost predicate Parted<T>(s: seq<T>, lo: int, hi: int, pa: int, pb: int, pc: int, pd: int, cmp: Cmp<T>) {
    && 0 <= lo < pa <= pb <= pc + 1 <= pd + 1 <= hi <= |s|
    && (forall i {:trigger EqAt(s, lo, i, cmp)} :: lo < i < pa || pd < i < hi ==> EqAt(s, lo, i, cmp))
    && (forall i {:trigger LtAt(s, lo, i, cmp)} :: pa <= i < pb ==> LtAt(s, lo, i, cmp))
    && (forall i {:trigger GtAt(s, lo, i, cmp)} :: pc < i <= pd ==> GtAt(s, lo, i, cmp))
  }

  lemma LowEqual<T>(s: seq<T>, lo: int, hi: int, pa: int, pb: int, pc: int, pd: int, cmp: Cmp<T>)
    requires Parted(s, lo, hi, pa, pb, pc, pd, cmp) && pb <= pc && cmp(s[pb], s[lo]) == 0
    ensures Parted(Swapped(s, pa, pb), lo, hi, pa + 1, pb + 1, pc, pd, cmp)
  {
    var s' := Swapped(s, pa, pb);
    forall i | lo < i < pa + 1 || pd < i < hi ensures EqAt(s', lo, i, cmp) {
      assert EqAt(s, lo, if i == pa then pb else i, cmp);
    }
    forall i | pa + 1 <= i < pb + 1 ensures LtAt(s', lo, i, cmp) {
      assert LtAt(s, lo, if i == pb then pa else i, cmp);
    }
    forall i | pc < i <= pd ensures GtAt(s', lo, i, cmp) {
      assert GtAt(s, lo, i, cmp);
    }
  }

  lemma HighEqual<T>(s: seq<T>, lo: int, hi: int, pa: int, pb: int, pc: int, pd: int, cmp: Cmp<T>)
    requires Parted(s, lo, hi, pa, pb, pc, pd, cmp) && pb <= pc && cmp(s[pc], s[lo]) == 0
    ensures Parted(Swapped(s, pc, pd), lo, hi, pa, pb, pc - 1, pd - 1, cmp)
  {
    var s' := Swapped(s, pc, pd);
    forall i | lo < i < pa || pd - 1 < i < hi ensures EqAt(s', lo, i, cmp) {
      assert EqAt(s, lo, if i == pd then pc else i, cmp);
    }
    forall i | pa <= i < pb ensures LtAt(s', lo, i, cmp) {
      assert LtAt(s, lo, i, cmp);
    }
    forall i | pc - 1 < i <= pd - 1 ensures GtAt(s', lo, i, cmp) {
      assert GtAt(s, lo, if i == pc then pd else i, cmp);
    }
  }

  lemma Exchange<T>(s: seq<T>, lo: int, hi: int, pa: int, pb: int, pc: int, pd: int, cmp: Cmp<T>)
    requires Parted(s, lo, hi, pa, pb, pc, pd, cmp) && pb < pc && cmp(s[pb], s[lo]) > 0 && cmp(s[pc], s[lo]) < 0
    ensures Parted(Swapped(s, pb, pc), lo, hi, pa, pb + 1, pc - 1, pd, cmp)
  {
    var s' := Swapped(s, pb, pc);
    forall i | lo < i < pa || pd < i < hi ensures EqAt(s', lo, i, cmp) {
      assert EqAt(s, lo, i, cmp);
    }
    forall i | pa <= i < pb + 1 ensures LtAt(s', lo, i, cmp) {
      assert LtAt(s, lo, if i == pb then pc else i, cmp);
    }
    forall i | pc - 1 < i <= pd ensures GtAt(s', lo, i, cmp) {
      assert GtAt(s, lo, if i == pc then pb else i, cmp);
    }
  }

  method ScanLow<T(!new)>(arr: array<T>, lo: int, hi: int, pa0: int, pb0: int, pc: int, pd: int, cmp: Cmp<T>)
    returns (pa: int, pb: int, swapped: bool)
    requires hi <= arr.Length && Parted(arr[..], lo, hi, pa0, pb0, pc, pd, cmp)
    modifies arr
    ensures Parted(arr[..], lo, hi, pa, pb, pc, pd, cmp) && pb0 <= pb
    ensures pb <= pc ==> cmp(arr[pb], arr[lo]) > 0
    ensures (swapped <==> pa != pa0) && (!swapped ==> arr[..] == old(arr[..])) && arr[lo] == old(arr[lo])
    ensures Shuffled(old(arr[..]), arr[..], lo, hi)
  {
    pa, pb, swapped := pa0, pb0, false;
    while pb <= pc && cmp(arr[pb], arr[lo]) <= 0
      invariant Parted(arr[..], lo, hi, pa, pb, pc, pd, cmp) && pb0 <= pb
      invariant pa0 <= pa && (swapped <==> pa != pa0) && (!swapped ==> arr[..] == old(arr[..])) && arr[lo] == old(arr[lo])
      invariant Shuffled(old(arr[..]), arr[..], lo, hi)
      decreases pc - pb
    {
      if cmp(arr[pb], arr[lo]) == 0 {
        swapped := true;
        ghost var s := arr[..];
        LowEqual(s, lo, hi, pa, pb, pc, pd, cmp);
        Swap(arr, pa, pb, lo, hi);
        ShuffledTwice(old(arr[..]), s, arr[..], lo, hi);
        pa := pa + 1;
      }
      pb := pb + 1;
    }
  }

  method ScanHigh<T(!new)>(arr: array<T>, lo: int, hi: int, pa: int, pb: int, pc0: int, pd0: int, cmp: Cmp<T>)
    returns (pc: int, pd: int, swapped: bool)
    requires hi <= arr.Length && Parted(arr[..], lo, hi, pa, pb, pc0, pd0, cmp)
    modifies arr
    ensures Parted(arr[..], lo, hi, pa, pb, pc, pd, cmp) && pc <= pc0
    ensures pb <= pc ==> cmp(arr[pc], arr[lo]) < 0 && arr[pb] == old(arr[pb])
    ensures (swapped <==> pd != pd0) && (!swapped ==> arr[..] == old(arr[..])) && arr[lo] == old(arr[lo])
    ensures Shuffled(old(arr[..]), arr[..], lo, hi)
  {
    pc, pd, swapped := pc0, pd0, false;
    while pb <= pc && cmp(arr[pc], arr[lo]) >= 0
      invariant Parted(arr[..], lo, hi, pa, pb, pc, pd, cmp) && pc <= pc0
      invariant (pb <= pc ==> arr[pb] == old(arr[pb])) && arr[lo] == old(arr[lo])
      invariant pd <= pd0 && (swapped <==> pd != pd0) && (!swapped ==> arr[..] == old(arr[..]))
      invariant Shuffled(old(arr[..]), arr[..], lo, hi)
      decreases pc - pb
    {
      if cmp(arr[pc], arr[lo]) == 0 {
        swapped := true;
        ghost var s := arr[..];
        HighEqual(s, lo, hi, pa, pb, pc, pd, cmp);
        Swap(arr, pc, pd, lo, hi);
        ShuffledTwice(old(arr[..]), s, arr[..], lo, hi);
        pd := pd - 1;
      }
      pc := pc - 1;
    }
  }

  method Partition<T(!new)>(arr: array<T>, lo: int, hi: int, cmp: Cmp<T>)
    returns (pa: int, pb: int, pc: int, pd: int, swapped: bool)
    requires 0 <= lo < hi <= arr.Length
    modifies arr
    ensures Parted(arr[..], lo, hi, pa, pb, pc, pd, cmp) && pb == pc + 1 && arr[lo] == old(arr[lo])
    ensures !swapped ==> arr[..] == old(arr[..]) && pa == lo + 1 && pd == hi - 1
    ensures Shuffled(old(arr[..]), arr[..], lo, hi)
  {
    pa, pb, pc, pd, swapped := lo + 1, lo + 1, hi - 1, hi - 1, false;
    while true
      invariant Parted(arr[..], lo, hi, pa, pb, pc, pd, cmp) && arr[lo] == old(arr[lo])
      invariant !swapped ==> arr[..] == old(arr[..]) && pa == lo + 1 && pd == hi - 1
      invariant Shuffled(old(arr[..]), arr[..], lo, hi)
      decreases pc - pb + 2
    {
      ghost var s := arr[..];
      var low, high;
      pa, pb, low := ScanLow(arr, lo, hi, pa, pb, pc, pd, cmp);
      ShuffledTwice(old(arr[..]), s, arr[..], lo, hi);
      s := arr[..];
      pc, pd, high := ScanHigh(arr, lo, hi, pa, pb, pc, pd, cmp);
      ShuffledTwice(old(arr[..]), s, arr[..], lo, hi);
      swapped := swapped || low || high;
      if pb > pc {
        break;
      }
      s := arr[..];
      Exchange(s, lo, hi, pa, pb, pc, pd, cmp);
      Swap(arr, pb, pc, lo, hi);
      ShuffledTwice(old(arr[..]), s, arr[..], lo, hi);
      swapped := true;
      pb, pc := pb + 1, pc - 1;
    }
  }

  // ---- The vector swaps, lines 149-153 ----

  /** Where element `k` comes from when the blocks of length `n` at `i` and `j` change places. */
  function Source(i: int, j: int, n: int, k: int): int {
    if i <= k < i + n then k - i + j else if j <= k < j + n then k - j + i else k
  }

  /** `s'` is `s` with the disjoint blocks of length `n` at `i` and `j` exchanged. */
  ghost predicate BlocksSwapped<T>(s: seq<T>, s': seq<T>, i: int, j: int, n: int) {
    && |s| == |s'| && 0 <= i && 0 <= n && i + n <= j && j + n <= |s|
    && forall k {:trigger Source(i, j, n, k)} :: 0 <= k < |s| ==> s'[k] == s[Source(i, j, n, k)]
  }

  lemma BlocksSwappedStep<T>(s: seq<T>, s': seq<T>, i: int, j: int, n: int)
    requires BlocksSwapped(s, s', i, j, n) && i + n < j && j + n < |s|
    ensures BlocksSwapped(s, Swapped(s', i + n, j + n), i, j, n + 1)
  {
    var t := Swapped(s', i + n, j + n);
    forall k | 0 <= k < |s| ensures t[k] == s[Source(i, j, n + 1, k)] {
      assert s'[k] == s[Source(i, j, n, k)];
      assert s'[i + n] == s[Source(i, j, n, i + n)] && s'[j + n] == s[Source(i, j, n, j + n)];
    }
  }

  method VecSwap<T(!new)>(arr: array<T>, i: int, j: int, n: int, ghost lo: int, ghost hi: int)
    requires 0 <= lo <= i && 0 <= n && i + n <= j && j + n <= hi <= arr.Length
    modifies arr
    ensures BlocksSwapped(old(arr[..]), arr[..], i, j, n)
    ensures Shuffled(old(arr[..]), arr[..], lo, hi)
  {
    var k := 0;
    while k < n
      invariant 0 <= k <= n
      invariant BlocksSwapped(old(arr[..]), arr[..], i, j, k)
      invariant Shuffled(old(arr[..]), arr[..], lo, hi)
    {
      ghost var s := arr[..];
      BlocksSwappedStep(old(arr[..]), s, i, j, k);
      Swap(arr, i + k, j + k, lo, hi);
      ShuffledTwice(old(arr[..]), s, arr[..], lo, hi);
      k := k + 1;
    }
  }

  /**
   * Two adjacent runs `lo..mid` and `mid..hi` change places when only min(mid - lo, hi - mid) elements at the
   * outer ends are exchanged: element `i` of the result comes from the right run if and only if it lies in the
   * first `hi - mid` places.
   */
  lemma RunsExchanged<T>(s: seq<T>, s': seq<T>, lo: int, mid: int, hi: int, i: int) returns (j: int)
    requires 0 <= lo <= mid <= hi <= |s| && lo <= i < hi
    requires var r := if mid - lo < hi - mid then mid - lo else hi - mid; BlocksSwapped(s, s', lo, hi - r, r)
    ensures lo <= j < hi && s'[i] == s[j]
    ensures i < lo + (hi - mid) <==> mid <= j
  {
    var r := if mid - lo < hi - mid then mid - lo else hi - mid;
    j := Source(lo, hi - r, r, i);
  }

  /** Less, equal, greater: the layout the partition loop and the two vector swaps leave behind. */
  ghost predicate ThreeWay<T>(s: seq<T>, lo: int, m1: int, m2: int, hi: int, x: T, cmp: Cmp<T>) {
    && 0 <= lo <= m1 < m2 <= hi <= |s|
    && (forall i {:trigger s[i]} :: lo <= i < m1 ==> cmp(s[i], x) < 0)
    && (forall i {:trigger s[i]} :: m1 <= i < m2 ==> cmp(s[i], x) == 0)
    && (forall i {:trigger s[i]} :: m2 <= i < hi ==> cmp(s[i], x) > 0)
  }

  lemma VecSwapsThreeWay<T>(s: seq<T>, t: seq<T>, u: seq<T>, lo: int, hi: int, pa: int, pb: int, pc: int, pd: int, cmp: Cmp<T>)
    requires Parted(s, lo, hi, pa, pb, pc, pd, cmp) && pb == pc + 1 && cmp(s[lo], s[lo]) == 0
    requires var r := if pa - lo < pb - pa then pa - lo else pb - pa; BlocksSwapped(s, t, lo, pb - r, r)
    requires var r := if pd - pc < hi - 1 - pd then pd - pc else hi - 1 - pd; BlocksSwapped(t, u, pb, hi - r, r)
    ensures ThreeWay(u, lo, lo + (pb - pa), hi - (pd - pc), hi, s[lo], cmp)
  {
    var r1 := if pa - lo < pb - pa then pa - lo else pb - pa;
    var r2 := if pd - pc < hi - 1 - pd then pd - pc else hi - 1 - pd;
    forall i | lo <= i < pb
      ensures i < lo + (pb - pa) ==> cmp(u[i], s[lo]) < 0
      ensures i >= lo + (pb - pa) ==> cmp(u[i], s[lo]) == 0
    {
      var j := RunsExchanged(s, t, lo, pa, pb, i);
      assert u[i] == t[Source(pb, hi - r2, r2, i)];
      if j >= pa { assert LtAt(s, lo, j, cmp); } else if j > lo { assert EqAt(s, lo, j, cmp); }
    }
    forall i | pb <= i < hi
      ensures i < hi - (pd - pc) ==> cmp(u[i], s[lo]) == 0
      ensures i >= hi - (pd - pc) ==> cmp(u[i], s[lo]) > 0
    {
      var j := RunsExchanged(t, u, pb, pd + 1, hi, i);
      assert t[j] == s[Source(lo, pb - r1, r1, j)];
      if j > pd { assert EqAt(s, lo, j, cmp); } else { assert GtAt(s, lo, j, cmp); }
    }
  }

  method GatherEqual<T(!new)>(arr: array<T>, lo: int, hi: int, pa: int, pb: int, pc: int, pd: int, cmp: Cmp<T>)
    requires TotalPreorder(cmp) && hi <= arr.Length && Parted(arr[..], lo, hi, pa, pb, pc, pd, cmp) && pb == pc + 1
    modifies arr
    ensures Shuffled(old(arr[..]), arr[..], lo, hi)
    ensures ThreeWay(arr[..], lo, lo + (pb - pa), hi - (pd - pc), hi, old(arr[lo]), cmp)
  {
    var r := if pa - lo < pb - pa then pa - lo else pb - pa;
    VecSwap(arr, lo, pb - r, r, lo, hi);
    ghost var t := arr[..];
    r := if pd - pc < hi - 1 - pd then pd - pc else hi - 1 - pd;
    VecSwap(arr, pb, hi - r, r, lo, hi);
    ShuffledTwice(old(arr[..]), t, arr[..], lo, hi);
    assert Consistent(cmp, old(arr[lo]), old(arr[lo]));
    VecSwapsThreeWay(old(arr[..]), t, arr[..], lo, hi, pa, pb, pc, pd, cmp);
  }

  // ---- qsort, lines 87-162 ----

  /** With `x` in front, the elements below it already stand before those above it, and none is equal to it. */
  ghost predicate AlreadySplit<T>(s: seq<T>, lo: int, m: int, hi: int, cmp: Cmp<T>) {
    && 0 <= lo < m <= hi <= |s|
    && (forall i {:trigger s[i]} :: lo < i < m ==> cmp(s[i], s[lo]) < 0)
    && (forall i {:trigger s[i]} :: m <= i < hi ==> cmp(s[i], s[lo]) > 0)
  }

  lemma PartedSplit<T>(s: seq<T>, lo: int, hi: int, pb: int, pc: int, cmp: Cmp<T>)
    requires Parted(s, lo, hi, lo + 1, pb, pc, hi - 1, cmp) && pb == pc + 1
    ensures AlreadySplit(s, lo, pb, hi, cmp)
  {
    forall i | lo < i < pb ensures cmp(s[i], s[lo]) < 0 { assert LtAt(s, lo, i, cmp); }
    forall i | pb <= i < hi ensures cmp(s[i], s[lo]) > 0 { assert GtAt(s, lo, i, cmp); }
  }

  /**
   * One round of the goto loop on at least 7 elements, around the pivot `x`: splits the range three ways, or finds it split
   * two ways already, at `m`, once the pivot is in front, and sorts it by insertion.
   */
  method Round<T(!new)>(arr: array<T>, lo: int, n: int, cmp: Cmp<T>)
    returns (sorted: bool, left: int, right: int, ghost x: T, ghost m: int)
    requires TotalPreorder(cmp) && 0 <= lo && 7 <= n && lo + n <= arr.Length
    modifies arr
    ensures Shuffled(old(arr[..]), arr[..], lo, lo + n)
    ensures var p := Pivot(old(arr[..]), lo, n, cmp);
            x == old(arr[..])[p] && (sorted ==> AlreadySplit(Swapped(old(arr[..]), lo, p), lo, m, lo + n, cmp))
    ensures sorted ==> Sorted(arr[..], lo, lo + n, cmp)
    ensures !sorted ==> 0 <= left && 0 <= right && left + right <= n - 1
                        && ThreeWay(arr[..], lo, lo + left, lo + n - right, lo + n, x, cmp)
  {
    var hi := lo + n;
    left, right := 0, 0;
    Swap(arr, lo, Pivot(arr[..], lo, n, cmp), lo, hi);
    ghost var s := arr[..];
    var pa, pb, pc, pd, swapped := Partition(arr, lo, hi, cmp);
    ShuffledTwice(old(arr[..]), s, arr[..], lo, hi);
    s, x, m := arr[..], arr[lo], pb;
    if !swapped {
      sorted := true;
      PartedSplit(s, lo, hi, pb, pc, cmp);
      InsertionSort(arr, lo, n, cmp);
      ShuffledTwice(old(arr[..]), s, arr[..], lo, hi);
      return;
    }
    sorted, left, right := false, pb - pa, pd - pc;
    GatherEqual(arr, lo, hi, pa, pb, pc, pd, cmp);
    ShuffledTwice(old(arr[..]), s, arr[..], lo, hi);
  }

  /** The body of the goto loop up to the recursive call. */
  method SortOrSplit<T(!new)>(arr: array<T>, lo: int, n: int, cmp: Cmp<T>)
    returns (sorted: bool, left: int, right: int, ghost pivot: seq<T>)
    requires TotalPreorder(cmp) && 0 <= lo && 0 <= n && lo + n <= arr.Length
    modifies arr
    ensures Shuffled(old(arr[..]), arr[..], lo, lo + n)
    ensures sorted ==> Sorted(arr[..], lo, lo + n, cmp)
    ensures !sorted ==> 0 <= left && 0 <= right && left + right <= n - 1
                        && |pivot| == 1 && ThreeWay(arr[..], lo, lo + left, lo + n - right, lo + n, pivot[0], cmp)
  {
    if n < 7 {
      sorted, left, right, pivot := true, 0, 0, [];
      InsertionSort(arr, lo, n, cmp);
    } else {
      ghost var x, m;
      sorted, left, right, x, m := Round(arr, lo, n, cmp);
      pivot := [x];
    }
  }

  /** The part `a..lo` is final: sorted, and nothing in `lo..hi` belongs before it. */
  ghost predicate SortedTo<T>(s: seq<T>, a: int, lo: int, hi: int, cmp: Cmp<T>) {
    && 0 <= a <= lo <= hi <= |s|
    && forall i, j {:trigger Le(cmp, s[i], s[j])} :: a <= i < lo && i < j < hi ==> Le(cmp, s[i], s[j])
  }

  lemma SortedToShuffled<T(!new)>(s: seq<T>, s': seq<T>, a: int, lo: int, hi: int, cmp: Cmp<T>)
    requires SortedTo(s, a, lo, hi, cmp) && Shuffled(s, s', lo, hi)
    ensures SortedTo(s', a, lo, hi, cmp)
  {
    forall i, j | a <= i < lo && i < j < hi ensures Le(cmp, s'[i], s'[j]) {
      assert Kept(s, s', i);
      if j < lo {
        assert Kept(s, s', j) && Le(cmp, s[i], s[j]);
      } else {
        var k := ShuffledFrom(s, s', lo, hi, j);
        assert Le(cmp, s[i], s[k]);
      }
    }
  }

  lemma SortedJoin<T>(s: seq<T>, a: int, lo: int, hi: int, cmp: Cmp<T>)
    requires SortedTo(s, a, lo, hi, cmp) && Sorted(s, lo, hi, cmp)
    ensures Sorted(s, a, hi, cmp)
  {
  }

  /** Everything in a lower class of a three-way split may stand before everything in a higher one. */
  lemma ThreeWayLe<T(!new)>(s: seq<T>, lo: int, m1: int, m2: int, hi: int, x: T, cmp: Cmp<T>, i: int, j: int)
    requires TotalPreorder(cmp) && ThreeWay(s, lo, m1, m2, hi, x, cmp) && lo <= i < m2 && i < j < hi && m1 <= j
    ensures Le(cmp, s[i], s[j])
  {
    assert Le(cmp, s[i], x);
    assert Consistent(cmp, s[j], x) && Le(cmp, x, s[j]);
    assert Transitive(cmp, s[i], x, s[j]);
  }

  /** A split whose left part has been sorted extends the final part up to the right part. */
  lemma SortedToExtends<T(!new)>(u: seq<T>, v: seq<T>, a: int, lo: int, m1: int, m2: int, hi: int, x: T, cmp: Cmp<T>)
    requires TotalPreorder(cmp) && SortedTo(u, a, lo, hi, cmp) && ThreeWay(u, lo, m1, m2, hi, x, cmp)
    requires Shuffled(u, v, lo, m1) && Sorted(v, lo, m1, cmp)
    ensures SortedTo(v, a, m2, hi, cmp)
  {
    ShuffledWiden(u, v, lo, m1, lo, hi);
    SortedToShuffled(u, v, a, lo, hi, cmp);
    forall i, j | lo <= i < m2 && i < j < hi && m1 <= j ensures Le(cmp, v[i], v[j]) {
      assert Kept(u, v, j);
      if i < m1 {
        var k := ShuffledFrom(u, v, lo, m1, i);
        ThreeWayLe(u, lo, m1, m2, hi, x, cmp, k, j);
      } else {
        assert Kept(u, v, i);
        ThreeWayLe(u, lo, m1, m2, hi, x, cmp, i, j);
      }
    }
    forall i, j | a <= i < m2 && i < j < hi ensures Le(cmp, v[i], v[j]) {
    }
  }

  /** Sorts `n` elements starting at `a`: the result is sorted and a permutation, and nothing else moves. */
  method Qsort<T(!new)>(arr: array<T>, a: int, n: int, cmp: Cmp<T>)
    requires TotalPreorder(cmp) && 0 <= a && 0 <= n && a + n <= arr.Length
    modifies arr
    ensures Sorted(arr[..], a, a + n, cmp)
    ensures Shuffled(old(arr[..]), arr[..], a, a + n)
    decreases n
  {
    var hi, lo, len := a + n, a, n;
    while true
      invariant a <= lo && lo + len == hi && 0 <= len <= n
      invariant SortedTo(arr[..], a, lo, hi, cmp)
      invariant Shuffled(old(arr[..]), arr[..], a, hi)
      decreases len
    {
      ghost var s := arr[..];
      var sorted, left, right;
      ghost var pivot;
      sorted, left, right, pivot := SortOrSplit(arr, lo, len, cmp);
      SortedToShuffled(s, arr[..], a, lo, hi, cmp);
      ShuffledWiden(s, arr[..], lo, hi, a, hi);
      ShuffledTwice(old(arr[..]), s, arr[..], a, hi);
      if sorted {
        SortedJoin(arr[..], a, lo, hi, cmp);
        return;
      }
      s := arr[..];
      if left > 1 {
        Qsort(arr, lo, left, cmp);
        ShuffledWiden(s, arr[..], lo, lo + left, a, hi);
        ShuffledTwice(old(arr[..]), s, arr[..], a, hi);
      }
      SortedToExtends(s, arr[..], a, lo, lo + left, hi - right, hi, pivot[0], cmp);
      if right <= 1 {
        return;
      }
      lo, len := hi - right, right;
    }
  }
}
