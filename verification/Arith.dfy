/** Division facts the solver does not find for a variable divisor. */
module Arith {
  function Pow2(e: nat): (p: nat)
    ensures p > 0
  {
    if e == 0 then 1 else 2 * Pow2(e - 1)
  }

  /** Bit i of n, from the lowest. */
  function Bit(n: nat, i: nat): (b: nat)
    ensures b < 2
  {
    if i == 0 then n % 2 else Bit(n / 2, i - 1)
  }

  lemma {:induction false} PowersDivide(e: nat, f: nat)
    requires e <= f
    ensures Pow2(f) == Pow2(e) * Pow2(f - e)
    decreases f - e
  {
    if e < f {
      PowersDivide(e + 1, f);
      assert Pow2(e + 1) * Pow2(f - e - 1) == Pow2(e) * (2 * Pow2(f - e - 1));
    }
  }

  lemma {:induction false} MultipleGrows(k: int, n: nat)
    requires k >= 1
    ensures k * n >= n
  {
  }

  /** The only multiple of n strictly between -n and n is zero. */
  lemma {:induction false} SmallMultiple(k: int, n: nat)
    requires k * n < n && 0 < k * n + n
    ensures k == 0
  {
    if k >= 1 {
      MultipleGrows(k, n);
    } else if k <= -1 {
      MultipleGrows(-k, n);
    }
  }

  lemma {:induction false} ModUnique(size: nat, a: int, r: int, k: int)
    requires 0 <= r < size && a == k * size + r
    ensures a % size == r
  {
    var q := a / size;
    assert a == q * size + a % size;
    assert (k - q) * size == a % size - r;
    SmallMultiple(k - q, size);
  }

  /** The remainder of a number that wraps at most once. */
  lemma {:induction false} WrapOnce(n: nat, size: nat)
    requires n < 2 * size
    ensures n % size == if n < size then n else n - size
  {
    if n < size {
      ModUnique(size, n, n, 0);
    } else {
      ModUnique(size, n, n - size, 1);
    }
  }
}
