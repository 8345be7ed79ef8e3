/**
 * The swaps of ee/libc/src/qsort.c on the bytes of the elements: copied a `long` at a time when the array and the element
 * size allow it, a `char` at a time otherwise.
 */
module QsortBytes {
  import opened Arithmetic
  import opened Basics
  import opened Qsort

  /** SWAPINIT, for an array at address `at`, elements of `es` bytes and a `long` of `long` bytes. */
  function SwapType(at: nat, es: nat, long: nat): nat
    requires long > 0
  {
    if at % long != 0 || es % long != 0 then 2 else if es == long then 0 else 1
  }

  /** The blocks of `n` bytes at `i` and `j` lie in an array of `len`, and are one block or do not overlap. */
  predicate Blocks(i: int, j: int, n: int, len: int) {
    0 <= i && 0 <= j && 0 <= n && i + n <= len && j + n <= len && (i == j || i + n <= j || j + n <= i)
  }

  /** `s'` is `s` with the blocks of length `n` at `i` and `j` exchanged. */
  ghost predicate Exchanged<T>(s: seq<T>, s': seq<T>, i: int, j: int, n: int) {
    && |s| == |s'| && Blocks(i, j, n, |s|)
    && forall k {:trigger Source(i, j, n, k)} :: 0 <= k < |s| ==> s'[k] == s[Source(i, j, n, k)]
  }

  /** Exchanging two blocks and then the two that follow them exchanges both together. */
  lemma ExchangedThen<T>(s: seq<T>, t: seq<T>, u: seq<T>, i: nat, j: nat, m: nat, n: nat)
    requires Exchanged(s, t, i, j, m) && Exchanged(t, u, i + m, j + m, n) && Blocks(i, j, m + n, |s|)
    ensures Exchanged(s, u, i, j, m + n)
  {
    forall k | 0 <= k < |s| ensures u[k] == s[Source(i, j, m + n, k)] {
      var l := Source(i + m, j + m, n, k);
      assert u[k] == t[l] && t[l] == s[Source(i, j, m, l)];
    }
  }

  lemma OneExchanged<T>(s: seq<T>, i: nat, j: nat)
    requires i < |s| && j < |s|
    ensures Exchanged(s, Swapped(s, i, j), i, j, 1)
  {
  }

  /** One turn of swapcode: what `pi` and `pj` point at, `size` bytes each, change places. */
  method SwapUnit(arr: array<byte>, i: nat, j: nat, size: nat)
    requires Blocks(i, j, size, arr.Length)
    modifies arr
    ensures Exchanged(old(arr[..]), arr[..], i, j, size)
  {
    ghost var s := arr[..];
    for k := 0 to size
      invariant Exchanged(s, arr[..], i, j, k)
    {
      ghost var t := arr[..];
      OneExchanged(t, i + k, j + k);
      arr[i + k], arr[j + k] := arr[j + k], arr[i + k];
      assert arr[..] == Swapped(t, i + k, j + k);
      ExchangedThen(s, t, arr[..], i, j, k, 1);
    }
  }

  /** The bytes that swapcode exchanges when asked for `n`: whole units, and at least one. */
  function Moved(n: nat, size: nat): nat
    requires size > 0
  {
    (if n / size > 1 then n / size else 1) * size
  }

  /** Exactly `n` bytes are exchanged if and only if `n` is a positive number of units. */
  lemma MovedExact(n: nat, size: nat)
    requires size > 0
    ensures Moved(n, size) == n <==> n > 0 && n % size == 0
  {
    var q := n / size;
    assert n == q * size + n % size;
    if q >= 1 { MulBound(q, size); }
  }

  lemma BlocksPart(i: nat, j: nat, done: nat, size: nat, total: nat, len: nat)
    requires done + size <= total && Blocks(i, j, total, len)
    ensures Blocks(i + done, j + done, size, len) && Blocks(i, j, done + size, len)
  {
  }

  lemma InCount(k: nat, count: nat, es: nat)
    requires k < count
    ensures 0 <= k * es && (k + 1) * es == k * es + es <= count * es
  {
    assert (count - k - 1) * es >= 0;
    assert (count - k - 1) * es == count * es - k * es - es;
  }

  /** swapcode: the loop runs at least once, also when `n` holds no unit. */
  method SwapCode(arr: array<byte>, i: nat, j: nat, n: nat, size: nat)
    requires size > 0 && Blocks(i, j, Moved(n, size), arr.Length)
    modifies arr
    ensures Exchanged(old(arr[..]), arr[..], i, j, Moved(n, size))
  {
    ghost var s, total := arr[..], Moved(n, size);
    ghost var count := if n / size > 1 then n / size else 1;
    ghost var k, done := 0, 0;
    var left, pi, pj := n / size, i, j;
    var again := true;
    while again
      invariant k <= count && again == (k < count) && left == n / size - k
      invariant done == k * size && pi == i + done && pj == j + done
      invariant Exchanged(s, arr[..], i, j, done)
      decreases count - k
    {
      InCount(k, count, size);
      BlocksPart(i, j, done, size, total, arr.Length);
      ghost var t := arr[..];
      SwapUnit(arr, pi, pj, size);
      ExchangedThen(s, t, arr[..], i, j, done, size);
      pi, pj, left := pi + size, pj + size, left - 1;
      k, done := k + 1, done + size;
      again := left > 0;
    }
  }

  lemma MultipleDivides(m: int, es: int, d: int)
    requires d > 0 && es % d == 0
    ensures m * es % d == 0
  {
    var q := es / d;
    assert m * es == m * q * d by { assert es == q * d; }
    MultipleMod(m * q, d);
  }

  /** Whatever the copy unit, the bytes of `m` elements are exchanged exactly. */
  lemma UnitExact(at: nat, es: nat, long: nat, m: nat)
    requires long > 0 && es > 0 && m > 0
    ensures m * es > 0 && Moved(m * es, if SwapType(at, es, long) <= 1 then long else 1) == m * es
  {
    MulBound(m, es);
    if SwapType(at, es, long) <= 1 {
      MultipleDivides(m, es, long);
      MovedExact(m * es, long);
    } else {
      MovedExact(m * es, 1);
    }
  }

  /** swapfunc on `m` elements: exactly their bytes change places. */
  method SwapFunc(arr: array<byte>, i: nat, j: nat, m: nat, at: nat, es: nat, long: nat)
    requires long > 0 && es > 0 && m > 0 && Blocks(i, j, m * es, arr.Length)
    modifies arr
    ensures Exchanged(old(arr[..]), arr[..], i, j, m * es)
  {
    UnitExact(at, es, long, m);
    if SwapType(at, es, long) <= 1 {
      SwapCode(arr, i, j, m * es, long);
    } else {
      SwapCode(arr, i, j, m * es, 1);
    }
  }

  /** The macro `swap`, on one element. */
  method SwapElement(arr: array<byte>, i: nat, j: nat, at: nat, es: nat, long: nat)
    requires long > 0 && es > 0 && Blocks(i, j, es, arr.Length)
    modifies arr
    ensures Exchanged(old(arr[..]), arr[..], i, j, es)
  {
    if SwapType(at, es, long) == 0 {
      SwapUnit(arr, i, j, long);
    } else {
      assert 1 * es == es;
      SwapFunc(arr, i, j, 1, at, es, long);
    }
  }

  // ---- Bytes and elements ----

  lemma SourceScales(i: nat, j: nat, n: nat, k: nat, es: nat, r: nat)
    requires r < es
    ensures Source(i * es, j * es, n * es, k * es + r) == Source(i, j, n, k) * es + r
  {
    RangeScales(i, n, k, es, r);
    RangeScales(j, n, k, es, r);
    assert (k - i + j) * es == k * es - i * es + j * es;
    assert (k - j + i) * es == k * es - j * es + i * es;
  }

  lemma RangeScales(i: nat, n: nat, k: nat, es: nat, r: nat)
    requires r < es
    ensures i * es <= k * es + r < i * es + n * es <==> i <= k < i + n
  {
    assert (k - i) * es == k * es - i * es;
    assert (k - i - n) * es == k * es - i * es - n * es;
    MulBound(k - i, es);
    MulBound(k - i - n, es);
  }

  /** Exchanging the bytes of two blocks of elements exchanges the elements: byte `r` of element `k` is that of its source. */
  lemma ElementsExchanged(s: seq<byte>, s': seq<byte>, i: nat, j: nat, n: nat, es: nat, count: nat, k: nat, r: nat)
    requires |s| == count * es && k < count && i + n <= count && j + n <= count && r < es
    requires Exchanged(s, s', i * es, j * es, n * es)
    ensures var l := Source(i, j, n, k);
            0 <= l < count && 0 <= k * es + r < |s'| && 0 <= l * es + r < |s| && s'[k * es + r] == s[l * es + r]
  {
    var l := Source(i, j, n, k);
    InCount(k, count, es);
    InCount(l, count, es);
    SourceScales(i, j, n, k, es, r);
    ByteFrom(s, s', i * es, j * es, n * es, k * es + r);
  }

  lemma ByteFrom(s: seq<byte>, s': seq<byte>, i: int, j: int, n: int, p: int)
    requires Exchanged(s, s', i, j, n) && 0 <= p < |s|
    ensures 0 <= Source(i, j, n, p) < |s| && s'[p] == s[Source(i, j, n, p)]
  {
  }
}
