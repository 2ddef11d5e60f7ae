/** The bits of unsigned words, by their binary expansion. */
module Bits {
  import opened Prelude

  predicate TestBit(word: nat, bit: nat) {
    if bit == 0 then word % 2 == 1 else TestBit(word / 2, bit - 1)
  }

  /** word | (1 << bit) */
  function SetBit(word: nat, bit: nat): nat {
    if bit == 0 then word - word % 2 + 1 else 2 * SetBit(word / 2, bit - 1) + word % 2
  }

  /** word & ~(1 << bit) */
  function ClearBit(word: nat, bit: nat): nat {
    if bit == 0 then word - word % 2 else 2 * ClearBit(word / 2, bit - 1) + word % 2
  }

  lemma {:induction false} TestAfterSet(word: nat, bit: nat, j: nat)
    ensures TestBit(SetBit(word, bit), j) == (j == bit || TestBit(word, j))
  {
    if j != 0 && bit != 0 {
      TestAfterSet(word / 2, bit - 1, j - 1);
    }
  }

  lemma {:induction false} TestAfterClear(word: nat, bit: nat, j: nat)
    ensures TestBit(ClearBit(word, bit), j) == (j != bit && TestBit(word, j))
  {
    if j != 0 && bit != 0 {
      TestAfterClear(word / 2, bit - 1, j - 1);
    }
  }

  /** The word with `n` ones. */
  function Ones(n: nat): nat {
    if n == 0 then 0 else 2 * Ones(n - 1) + 1
  }

  lemma {:induction false} TestOnes(n: nat, j: nat)
    requires j < n
    ensures TestBit(Ones(n), j)
  {
    if j != 0 {
      TestOnes(n - 1, j - 1);
    }
  }

  /** a & b */
  function And(a: nat, b: nat): nat {
    if a == 0 || b == 0 then 0 else 2 * And(a / 2, b / 2) + (a % 2) * (b % 2)
  }

  lemma {:induction false} TestAnd(a: nat, b: nat, j: nat)
    ensures TestBit(And(a, b), j) <==> TestBit(a, j) && TestBit(b, j)
  {
    if a == 0 || b == 0 {
      TestZero(j);
    } else if j > 0 {
      assert And(a, b) / 2 == And(a / 2, b / 2);
      TestAnd(a / 2, b / 2, j - 1);
    }
  }

  lemma {:induction false} TestZero(j: nat)
    ensures !TestBit(0, j)
  {
    if j > 0 {
      TestZero(j - 1);
    }
  }

  /** The number of ones. */
  function PopCount(w: nat): nat {
    if w == 0 then 0 else w % 2 + PopCount(w / 2)
  }

  // ----- Bits and powers of two -----

  /** A number cut after its k lowest bits. */
  lemma {:induction false} TestCut(w: nat, k: nat, high: nat, low: nat, j: nat)
    requires w == Pow2(k) * high + low && low < Pow2(k)
    ensures TestBit(w, j) == if j < k then TestBit(low, j) else TestBit(high, j - k)
  {
    if k > 0 {
      var p := Pow2(k - 1);
      assert Pow2(k) * high == 2 * (p * high);
      if j > 0 {
        TestCut(w / 2, k - 1, high, low / 2, j - 1);
      }
    }
  }

  lemma {:induction false} NoBitsAbove(w: nat, j: nat)
    requires w < Pow2(j)
    ensures !TestBit(w, j)
  {
    if j > 0 {
      NoBitsAbove(w / 2, j - 1);
    }
  }

  /** A number below 2^k is determined by its k bits. */
  lemma {:induction false} BitsDetermine(x: nat, y: nat, k: nat)
    requires x < Pow2(k) && y < Pow2(k) && forall j: nat :: j < k ==> TestBit(x, j) == TestBit(y, j)
    ensures x == y
  {
    if k > 0 {
      forall j: nat | j < k - 1 ensures TestBit(x / 2, j) == TestBit(y / 2, j) {
        assert TestBit(x, j + 1) == TestBit(y, j + 1);
      }
      BitsDetermine(x / 2, y / 2, k - 1);
      assert TestBit(x, 0) == TestBit(y, 0);
    }
  }
}
