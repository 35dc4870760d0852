/** Powers of two and the division that undoes a multiplication. */
module Arithmetic {
  function Pow2(n: nat): (p: nat)
    ensures p > n
  {
    if n == 0 then 1 else 2 * Pow2(n - 1)
  }

  lemma Pow2Values()
    ensures Pow2(0) == 1 && Pow2(1) == 2 && Pow2(2) == 4 && Pow2(3) == 8 && Pow2(4) == 16
    ensures Pow2(5) == 32 && Pow2(6) == 64 && Pow2(7) == 128
    ensures Pow2(9) == 512 && Pow2(10) == 1024 && Pow2(32) == 0x1_0000_0000
  {
    assert Pow2(8) == 256;
    assert Pow2(12) == 4096;
    assert Pow2(16) == 0x1_0000;
    assert Pow2(20) == 0x10_0000;
    assert Pow2(24) == 0x100_0000;
    assert Pow2(28) == 0x1000_0000;
  }

  lemma DivideBack(k: nat, n: nat, r: nat)
    requires r < n
    ensures (k * n + r) / n == k
  {
    var x := k * n + r;
    var d := x / n;
    DivisionOf(x, n);
    MultipleIsFar(d - k, n);
    assert (d - k) * n == d * n - k * n;
  }

  lemma DivisionOf(x: nat, n: nat)
    requires 0 < n
    ensures 0 <= x - (x / n) * n < n
  {
  }

  lemma MultipleIsFar(e: int, n: nat)
    ensures e >= 1 ==> e * n >= n
    ensures e <= -1 ==> e * n + n <= 0
  {
  }
}
