/** The bits of numbers: what `|` and shifts do to words, bit by bit. */
module Bits {
  import opened Arith

  /** Bit k of the number n. */
  predicate Bit(n: nat, k: nat) {
    if k == 0 then n % 2 == 1 else Bit(n / 2, k - 1)
  }

  /** w | bit, for a bit that is a power of two. */
  function OrBit(w: nat, bit: nat): nat
    requires bit > 0
  {
    if w / bit % 2 == 1 then w else w + bit
  }

  lemma {:induction false} SmallHasNoBit(n: nat, k: nat)
    requires n <= k
    ensures !Bit(n, k)
  {
    if k > 0 {
      SmallHasNoBit(n / 2, k - 1);
    }
  }

  lemma {:induction false} SomeBit(n: nat) returns (k: nat)
    requires n > 0
    ensures k < n && Bit(n, k)
  {
    if n % 2 == 1 {
      k := 0;
    } else {
      var j := SomeBit(n / 2);
      k := j + 1;
    }
  }

  /** A number shifted up by n bits, and one that fits below it. */
  lemma {:induction false} BitOf(high: nat, low: nat, n: nat, k: nat)
    requires low < Pow(2, n)
    ensures Bit(high * Pow(2, n) + low, k) <==> if k < n then Bit(low, k) else Bit(high, k - n)
    decreases n
  {
    if n > 0 {
      var w := high * Pow(2, n) + low;
      Reassociate(high, 2, Pow(2, n - 1));
      assert w == 2 * (high * Pow(2, n - 1) + low / 2) + low % 2;
      assert w / 2 == high * Pow(2, n - 1) + low / 2 && w % 2 == low % 2;
      if k > 0 {
        BitOf(high, low / 2, n - 1, k - 1);
      }
    }
  }

  /** The sum of words without a common bit is their `|`. */
  lemma {:induction false} SumIsOr(a: nat, b: nat, k: nat)
    requires forall j :: 0 <= j <= k ==> !(Bit(a, j) && Bit(b, j))
    ensures Bit(a + b, k) <==> Bit(a, k) || Bit(b, k)
    decreases k
  {
    assert !(Bit(a, 0) && Bit(b, 0));
    if k > 0 {
      assert (a + b) / 2 == a / 2 + b / 2;
      forall j | 0 <= j <= k - 1 ensures !(Bit(a / 2, j) && Bit(b / 2, j)) {
        assert !(Bit(a, j + 1) && Bit(b, j + 1));
      }
      SumIsOr(a / 2, b / 2, k - 1);
    }
  }

  lemma {:induction false} OrSetsBit(w: nat, n: nat, k: nat)
    ensures Pow(2, n) > 0 && (Bit(OrBit(w, Pow(2, n)), k) <==> Bit(w, k) || k == n)
    decreases n
  {
    if n > 0 {
      OrSetsBit(w / 2, n - 1, if k > 0 then k - 1 else 0);
      OrHigher(w, Pow(2, n - 1));
      hide OrBit;
    }
  }

  lemma OrHigher(w: nat, bit: nat)
    requires bit > 0
    ensures OrBit(w, 2 * bit) / 2 == OrBit(w / 2, bit) && OrBit(w, 2 * bit) % 2 == w % 2
  {
    DivDiv(w, 2, bit);
    var q, high := w / (2 * bit), w / 2;
    assert q == high / bit;
    assert (w + 2 * bit) / 2 == high + bit;
  }
}
