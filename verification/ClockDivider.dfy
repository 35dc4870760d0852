/** The SD host clock: a 10-bit divider chosen as a power of two. A divider N stands for the
    base clock over 2N, and 0 for the base clock itself. */
module ClockDivider {
  import opened Bytes
  import opened Arithmetic

  const FAIL: Word := 0xFFFF_FFFF

  ghost predicate IsPowerOfTwo(n: nat) { exists k: nat :: n == Pow2(k) }

  /** The least exponent whose power of two is not below `t`. */
  function CeilLog(t: nat): (d: nat)
    requires t > 0
    ensures Pow2(d) >= t && (d > 0 ==> Pow2(d - 1) < t)
  {
    CeilLogFrom(t, 0)
  }

  function CeilLogFrom(t: nat, d: nat): (e: nat)
    requires d > 0 ==> Pow2(d - 1) < t
    ensures Pow2(e) >= t && (e > 0 ==> Pow2(e - 1) < t)
    decreases if Pow2(d) < t then t - Pow2(d) else 0
  {
    if Pow2(d) >= t then d else CeilLogFrom(t, d + 1)
  }

  lemma {:induction false} Pow2Rises(a: nat, b: nat)
    requires a < b
    ensures 2 * Pow2(a) <= Pow2(b)
  {
    if a < b - 1 { Pow2Rises(a, b - 1); }
  }

  lemma CeilLogIs(t: nat, d: nat)
    requires t > 0 && Pow2(d) >= t && (d > 0 ==> Pow2(d - 1) < t)
    ensures CeilLog(t) == d
  {
    var e := CeilLog(t);
    if e < d { if e < d - 1 { Pow2Rises(e, d - 1); } }
    if d < e { if d < e - 1 { Pow2Rises(d, e - 1); } }
  }

  /** The quotient the divider is chosen for; a remainder makes it smaller, not larger. */
  function Targetted(base: Word, target: Word): nat
    requires target > 0
  {
    QuotientBounds(base, target, base / target, base % target);
    if target > base then 1
    else if base % target != 0 then base / target - 1
    else base / target
  }

  /** The divider for a quotient. */
  function Divisor(t: nat): (n: nat)
    ensures n < 1024
  {
    if t == 0 then 0x3FF
    else if CeilLog(t) == 0 then 0
    else if CeilLog(t) > 10 then 0x3FF
    else PowersBelow(CeilLog(t) - 1); Pow2(CeilLog(t) - 1)
  }

  lemma PowersBelow(k: nat)
    requires k <= 9
    ensures Pow2(k) < 1024
  {
    if k < 9 { Pow2Rises(k, 9); }
    assert Pow2(9) == 512 by { Pow2Values(); }
  }

  /** What the base clock is divided by. */
  function Factor(n: nat): nat { if n == 0 then 1 else 2 * n }

  /** The divider's place in the register: the low eight bits in bits 8 to 15, the upper two
      in bits 6 and 7. */
  function Packed(n: nat): Word
    requires n < 1024
  {
    n % 256 * 256 + n / 256 * 64
  }

  function Unpacked(w: Word): nat { w / 256 % 256 + w / 64 % 4 * 256 }

  lemma Fields(low: nat, high: nat)
    requires low < 256 && high < 4
    ensures (256 * low + 64 * high) / 256 == low && (256 * low + 64 * high) / 64 == 4 * low + high
  {
  }

  lemma PackedRoundTrip(n: nat)
    requires n < 1024
    ensures Unpacked(Packed(n)) == n
    ensures Packed(n) % 64 == 0 && Packed(n) < 0x1_0000
    ensures forall low: nat, high: nat :: n == 256 * high + low && low < 256 ==> Packed(n) == 256 * low + 64 * high
  {
    var low, high := n % 256, n / 256;
    Fields(low, high);
    assert (4 * low + high) % 4 == high;
  }

  lemma TopBit(t: nat, p: nat)
    requires p > 0 && t < 2 * p
    ensures t / p % 2 == 1 <==> t >= p
  {
    if t < p { assert t / p == 0; } else { assert t / p == 1; }
  }
  /** Scan for the first bit set: its place is the logarithm of a power of two, and one less
      than that of any other number. */
  method RoundUpBit(t: Word) returns (divisor: int)
    ensures divisor == if t == 0 then -1 else CeilLog(t)
  {
    var targetted: nat := t;
    divisor := -1;
    var bit: int := 31;
    Pow2Values();
    while bit >= 0
      invariant -1 <= bit <= 31
      invariant targetted == t < Pow2(bit + 1)
      invariant divisor == -1
      decreases bit
    {
      TopBit(targetted, Pow2(bit));
      if targetted / Pow2(bit) % 2 == 1 {
        divisor := bit;
        targetted := targetted - Pow2(bit);
        if targetted != 0 { divisor := divisor + 1; }
        CeilLogIs(t, divisor);
        return;
      }
      bit := bit - 1;
    }
  }

  lemma QuotientBounds(base: nat, target: nat, q: int, r: int)
    requires base == target * q + r && 0 <= r < target
    ensures 0 <= q <= base && (target <= base ==> q > 0)
  {
    assert (target - 1) * q >= 0;
  }

  method TargettedDivisor(base: Word, target: Word) returns (t: Word)
    requires target > 0
    ensures t == Targetted(base, target)
  {
    QuotientBounds(base, target, base / target, base % target);
    if target > base {
      t := 1;
    } else {
      t := base / target;
      var mod := base % target;
      if mod != 0 { t := t - 1; }
    }
  }

  /** The divided rate does not exceed the target when the quotient is whole and within the
      range; with a remainder it does, unless the power of two chosen for the smaller
      quotient clears the true one. */
  ghost predicate RateFits(base: Word, target: Word)
    requires target > 0
  {
    var q := base / target;
    if target > base then true
    else if base % target == 0 then q <= 2046
    else q == 1 || (q <= 1025 && !IsPowerOfTwo(q - 1) && !IsPowerOfTwo(q)) || 1025 < q < 2046
  }

  /** What the base clock ends up divided by. */
  function Divided(base: Word, target: Word): (k: nat)
    requires target > 0
    ensures k > 0
  {
    Factor(Divisor(Targetted(base, target)))
  }

  lemma FactorOf(t: nat)
    ensures Factor(Divisor(t)) == if 0 < t <= 1024 then Pow2(CeilLog(t)) else 2046
  {
    if t > 0 {
      Pow2Values();
      if CeilLog(t) > 11 { Pow2Rises(10, CeilLog(t) - 1); }
      if 0 < CeilLog(t) < 10 { Pow2Rises(CeilLog(t), 10); }
    }
  }

  /** The power of two for `t` is more than `t + 1` just when neither is a power of two. */
  lemma ClearsIff(t: nat)
    requires t > 0
    ensures Pow2(CeilLog(t)) > t + 1 <==> !IsPowerOfTwo(t) && !IsPowerOfTwo(t + 1)
  {
    var d := CeilLog(t);
    forall k: nat | Pow2(k) == t || Pow2(k) == t + 1 ensures Pow2(d) <= t + 1 {
      if d < k { Pow2Rises(d, k); }
      if k < d - 1 { Pow2Rises(k, d - 1); }
    }
  }

  lemma Scale(c: nat, a: int, b: int)
    requires c > 0 && a <= b
    ensures c * a <= c * b
  {
  }

  lemma Compare(base: nat, target: nat, q: nat, r: nat, k: nat)
    requires base == target * q + r && r < target
    ensures base <= target * k <==> q < k || (q == k && r == 0)
    ensures 2 * q > k || (2 * q == k && r > 0) ==> 2 * base > target * k
    ensures 2 * (q + 1) <= k ==> 2 * base < target * k
  {
    var a, b := target * q, target * k;
    if q < k { Scale(target, q + 1, k); }
    if k < q { Scale(target, k + 1, q); }
    assert target * (2 * q) == 2 * a && target * (2 * q + 2) == 2 * a + 2 * target && target * (k + 1) == b + target;
    if 2 * q > k { Scale(target, k + 1, 2 * q); }
    if 2 * q + 2 <= k { Scale(target, 2 * q + 2, k); }
  }

  /** The clock runs no faster than asked just when the caller could have told so. */
  lemma NoFasterIff(base: Word, target: Word)
    requires target > 0
    ensures base <= target * Divided(base, target) <==> RateFits(base, target)
  {
    var q, r := base / target, base % target;
    QuotientBounds(base, target, q, r);
    var t := Targetted(base, target);
    FactorOf(t);
    Compare(base, target, q, r, Divided(base, target));
    if target <= base && r > 0 && 1 < q { ClearsIff(q - 1); }
  }

  /** It runs at more than half the rate asked for, but for a base clock within twice the
      target and not equal to it, where the largest divider is taken. */
  lemma NotHalvedIff(base: Word, target: Word)
    requires 0 < target <= base
    ensures 2 * base > target * Divided(base, target) <==> base / target > 1 || base % target == 0
  {
    var q, r := base / target, base % target;
    QuotientBounds(base, target, q, r);
    var t := Targetted(base, target);
    FactorOf(t);
    Compare(base, target, q, r, Divided(base, target));
  }

  /** From 50 MHz, a clock of 20 MHz is asked for and 50 MHz are set. */
  lemma FasterThanAsked()
    ensures Targetted(50_000_000, 20_000_000) == 1 && Divided(50_000_000, 20_000_000) == 1
    ensures 50_000_000 > 20_000_000 * Divided(50_000_000, 20_000_000)
  {
    CeilLogIs(1, 0);
  }

  /** From 50 MHz, 40 MHz are asked for and less than 25 kHz set. */
  lemma FarSlowerThanAsked()
    ensures Targetted(50_000_000, 40_000_000) == 0 && Divided(50_000_000, 40_000_000) == 2046
    ensures 2 * 50_000_000 <= 40_000_000 * Divided(50_000_000, 40_000_000)
  {
  }

  /** The divider for a target rate, and what it does to the clock. */
  method EmmcGetClockDivider(base: Word, target: Word, hciVer: nat) returns (ret: Word)
    requires target > 0
    ensures hciVer < 2 ==> ret == FAIL
    ensures hciVer >= 2 ==> ret == Packed(Divisor(Targetted(base, target)))
    ensures hciVer >= 2 ==> (base <= target * Factor(Unpacked(ret)) <==> RateFits(base, target))
    ensures hciVer >= 2 && target <= base ==>
              (2 * base > target * Factor(Unpacked(ret)) <==> base / target > 1 || base % target == 0)
  {
    hide Targetted, Pow2, CeilLog, RateFits, Factor, Unpacked;
    var targetted := TargettedDivisor(base, target);
    if hciVer < 2 { return FAIL; }
    var divisor := RoundUpBit(targetted);
    if divisor == -1 { divisor := 31; }
    if divisor >= 32 { divisor := 31; }
    if divisor != 0 {
      Pow2Values();
      if divisor > 11 { Pow2Rises(10, divisor - 1); }
      divisor := Pow2(divisor - 1);
    }
    if divisor >= 0x400 { divisor := 0x3FF; }
    assert divisor == Divisor(targetted);
    var freqSelect := divisor % 256;
    var upperBits := divisor / 256 % 4;
    ret := freqSelect * 256 + upperBits * 64;
    PackedRoundTrip(divisor);
    NoFasterIff(base, target);
    if target <= base { NotHalvedIff(base, target); }
  }
}
