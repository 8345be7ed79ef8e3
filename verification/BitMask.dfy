/** Masking with 2^k - 1, as the source picks a bucket or a ring slot. */
module BitMask {
  import opened Arithmetic

  function Pow2(n: nat): (p: int)
    ensures p >= 1
  {
    if n == 0 then 1 else 2 * Pow2(n - 1)
  }

  /** x & y, bit by bit. */
  function BitAnd(x: nat, y: nat): nat {
    if x == 0 || y == 0 then 0
    else 2 * BitAnd(x / 2, y / 2) + (if x % 2 == 1 && y % 2 == 1 then 1 else 0)
  }

  /** x | y, bit by bit. */
  function BitOr(x: nat, y: nat): nat {
    if x == 0 then y else if y == 0 then x
    else 2 * BitOr(x / 2, y / 2) + (if x % 2 == 1 || y % 2 == 1 then 1 else 0)
  }

  lemma {:induction false} AndOrSum(x: nat, y: nat)
    ensures BitAnd(x, y) + BitOr(x, y) == x + y
    decreases x
  {
    if x != 0 && y != 0 { AndOrSum(x / 2, y / 2); }
  }

  lemma {:induction false} AndBound(x: nat, y: nat)
    ensures BitAnd(x, y) <= x && BitAnd(x, y) <= y
    decreases x
  {
    if x != 0 && y != 0 { AndBound(x / 2, y / 2); }
  }

  lemma {:induction false} PowerIsPow2(n: int) returns (k: nat)
    requires PowerOfTwo(n)
    ensures n == Pow2(k)
  {
    if n == 1 {
      k := 0;
    } else {
      k := PowerIsPow2(n / 2);
      k := k + 1;
    }
  }

  /** A number below `a` that shares no bit with a - 1. */
  lemma {:induction false} BitMissing(a: int) returns (x: nat)
    requires a > 1 && !PowerOfTwo(a)
    ensures 0 < x < a && BitAnd(x, a - 1) == 0
  {
    if a % 2 == 1 {
      x := 1;
      assert (a - 1) % 2 == 0;
      assert BitAnd(0, (a - 1) / 2) == 0;
    } else {
      var y := BitMissing(a / 2);
      x := 2 * y;
      AndOdd(2 * y, a / 2);
    }
  }

  lemma AndOdd(x: nat, p: int)
    requires p > 0
    ensures BitAnd(x, 2 * p - 1) == 2 * BitAnd(x / 2, p - 1) + x % 2
  {
    assert (2 * p - 1) / 2 == p - 1 && (2 * p - 1) % 2 == 1;
  }

  lemma {:induction false} MaskIsRemainder(x: nat, k: nat)
    ensures BitAnd(x, Pow2(k) - 1) == x % Pow2(k)
    decreases k
  {
    if k == 0 {
      Quotient(x, 1, x, 0);
    } else {
      AndOdd(x, Pow2(k - 1));
      MaskIsRemainder(x / 2, k - 1);
      HalvesJoin(x, Pow2(k - 1));
    }
  }

  lemma HalvesJoin(x: nat, p: int)
    requires p > 0
    ensures x % (2 * p) == 2 * (x / 2 % p) + x % 2
  {
    var q, r := x / 2 / p, x / 2 % p;
    assert x == 2 * (p * q + r) + x % 2;
    Quotient(x, 2 * p, q, 2 * r + x % 2);
  }
}
