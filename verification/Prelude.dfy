/** Small vocabulary shared by the models of the kernel's components. */
module Prelude {

  datatype Option<+T> = None | Some(value: T)

  /** Unsigned 64-bit machine words, as naturals. */
  const TWO_64: nat := 0x1_0000_0000_0000_0000

  type U64 = x: nat | x < TWO_64

  const PAGE_SIZE: nat := 4096

  type Byte = x: nat | x < 256

  function Abs(x: int): nat {
    if x < 0 then -x else x
  }

  function Max(x: int, y: int): int {
    if x > y then x else y
  }

  function Min(x: int, y: int): int {
    if x < y then x else y
  }

  function Pow2(n: nat): (p: nat)
    ensures 0 < p
  {
    if n == 0 then 1 else 2 * Pow2(n - 1)
  }

  lemma {:induction false} Pow2Sum(a: nat, b: nat)
    ensures Pow2(a + b) == Pow2(a) * Pow2(b)
  {
    if a > 0 {
      Pow2Sum(a - 1, b);
      assert 2 * (Pow2(a - 1) * Pow2(b)) == (2 * Pow2(a - 1)) * Pow2(b);
    }
  }

  lemma {:induction false} Pow2Grows(a: nat, b: nat)
    requires a <= b
    ensures Pow2(a) <= Pow2(b)
    decreases b - a
  {
    if a < b {
      Pow2Grows(a, b - 1);
    }
  }

  lemma OneMoreTimes(p: nat, a: nat, b: nat)
    requires a < b
    ensures p * a + p <= p * b
  {
    var d: nat := b - a - 1;
    assert p * b == p * a + p + p * d;
  }

  lemma QuotientIsUnique(p: nat, q: nat, r: nat, q': nat, r': nat)
    requires p * q + r == p * q' + r' && r < p && r' < p
    ensures q == q' && r == r'
  {
    if q < q' {
      OneMoreTimes(p, q, q');
    } else if q' < q {
      OneMoreTimes(p, q', q);
    }
  }

  lemma DivisionIsUnique(x: nat, p: nat, q: nat, r: nat)
    requires x == p * q + r && r < p
    ensures x / p == q && x % p == r
  {
    QuotientIsUnique(p, x / p, x % p, q, r);
  }
}
