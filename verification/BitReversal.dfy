/** Reading the binary digits of an index backwards. */
module BitReversal {

  function Pow2(n: nat): (r: nat)
    ensures r > 0
  {
    if n == 0 then 1 else 2 * Pow2(n - 1)
  }

  /** The n lowest binary digits of i in reverse order. */
  function Reverse(n: nat, i: nat): nat {
    if n == 0 then 0 else (if i % 2 == 1 then Pow2(n - 1) else 0) + Reverse(n - 1, i / 2)
  }

  lemma {:induction false} ReverseBound(n: nat, i: nat)
    ensures Reverse(n, i) < Pow2(n)
  {
    if n > 0 { ReverseBound(n - 1, i / 2); }
  }

  /** The highest digit becomes the lowest. */
  lemma {:induction false} ReverseHigh(n: nat, lo: nat, high: bool)
    requires lo < Pow2(n)
    ensures Reverse(n + 1, lo + if high then Pow2(n) else 0) == 2 * Reverse(n, lo) + if high then 1 else 0
  {
    if n > 0 {
      ReverseHigh(n - 1, lo / 2, high);
      var i := lo + if high then Pow2(n) else 0;
      assert i % 2 == lo % 2 && i / 2 == lo / 2 + if high then Pow2(n - 1) else 0;
    }
  }

  lemma {:induction false} ReverseInvolution(n: nat, i: nat)
    requires i < Pow2(n)
    ensures Reverse(n, Reverse(n, i)) == i
  {
    if n > 0 {
      ReverseInvolution(n - 1, i / 2);
      ReverseBound(n - 1, i / 2);
      ReverseHigh(n - 1, Reverse(n - 1, i / 2), i % 2 == 1);
    }
  }

  /** The carry loop that adds one to a reversed counter: strip the leading ones
      below m, then set the next digit. */
  function Carry(j: nat, m: nat): nat
    decreases m
  {
    if m >= 2 && j >= m then Carry(j - m, m / 2) else j + m
  }

  /** The carry loop steps from the reversal of i to that of i + 1. */
  lemma {:induction false} CarryReverses(n: nat, i: nat)
    requires i + 1 < Pow2(n)
    ensures Carry(2 * Reverse(n, i), Pow2(n)) == 2 * Reverse(n, i + 1)
  {
    if n > 0 {
      ReverseBound(n - 1, i / 2);
      if i % 2 == 1 {
        CarryReverses(n - 1, i / 2);
        assert (i + 1) / 2 == i / 2 + 1;
      } else {
        assert (i + 1) / 2 == i / 2;
      }
    }
  }

  lemma {:induction false} Pow2Grows(a: nat, b: nat)
    ensures a < b ==> Pow2(a) < Pow2(b)
    ensures a <= b ==> Pow2(a) <= Pow2(b)
  {
    if a < b - 1 { Pow2Grows(a, b - 1); }
  }
}
