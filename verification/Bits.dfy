/** Bit operations on non-negative int64 values, written out on `nat`, and the
    power-of-two arithmetic both ring structures rely on. */
module Bits {

  function Pow2(k: nat): (p: nat)
    ensures p >= 1
  {
    if k == 0 then 1 else 2 * Pow2(k - 1)
  }

  /** `a & b` */
  function And(a: nat, b: nat): nat
    decreases a
  {
    if a == 0 then 0 else (if a % 2 == 1 && b % 2 == 1 then 1 else 0) + 2 * And(a / 2, b / 2)
  }

  /** `a | b` */
  function Or(a: nat, b: nat): nat
    decreases a + b
  {
    if a + b == 0 then 0 else (if a % 2 + b % 2 == 0 then 0 else 1) + 2 * Or(a / 2, b / 2)
  }

  /** `a >> k` */
  function Shr(a: nat, k: nat): nat {
    if k == 0 then a else Shr(a / 2, k - 1)
  }

  /** `a << k` */
  function Shl(a: nat, k: nat): nat {
    if k == 0 then a else 2 * Shl(a, k - 1)
  }

  /** powerOfTwo64 for the sizes that reach it (non-negative). */
  predicate IsPowerOfTwo(n: nat) {
    n != 0 && And(n, n - 1) == 0
  }

  ghost predicate PowerOf2(n: nat) {
    exists k: nat :: n == Pow2(k)
  }

  /** roundUpPowerOfTwo64: smear the highest set bit of n-1 downwards, then add one. For 0 that
      is -1, all of whose bits are set. */
  function RoundUp(n: nat): nat {
    if n == 0 then 0 else Cascade(n - 1, 1) + 1
  }

  /** The lines `n |= n >> k` for k, 2k, ... up to 32. */
  function Cascade(x: nat, k: nat): nat
    requires k >= 1
    decreases 33 - k
  {
    if k > 32 then x else Cascade(Smear(x, k), 2 * k)
  }

  /** `x |= x >> k` */
  function Smear(x: nat, k: nat): nat {
    Or(x, Shr(x, k))
  }

  // ----- masks -----

  lemma {:induction false} MaskIsMod(n: nat, k: nat)
    ensures And(n, Pow2(k) - 1) == n % Pow2(k)
    decreases k
  {
    if k == 0 {
      AndZero(n);
    } else {
      MaskIsMod(n / 2, k - 1);
      MaskStep(n, Pow2(k - 1));
    }
  }

  lemma MaskStep(n: nat, m: nat)
    requires m >= 1 && And(n / 2, m - 1) == (n / 2) % m
    ensures And(n, 2 * m - 1) == n % (2 * m)
  {
    var b, h := 2 * m - 1, m - 1;
    AndOdd(n, b, h);
    ModDouble(n, m);
  }

  lemma AndOdd(n: nat, b: nat, h: nat)
    requires b == 2 * h + 1
    ensures And(n, b) == n % 2 + 2 * And(n / 2, h)
  {
  }

  lemma OrOdd(n: nat, b: nat, h: nat)
    requires b == 2 * h + 1
    ensures Or(n, b) == 1 + 2 * Or(n / 2, h)
  {
  }

  lemma {:induction false} AndZero(n: nat)
    ensures And(n, 0) == 0
  {
    if n != 0 { AndZero(n / 2); }
  }

  lemma ModDouble(n: nat, m: nat)
    requires m >= 1
    ensures n % (2 * m) == n % 2 + 2 * ((n / 2) % m)
  {
    var q, r := (n / 2) / m, (n / 2) % m;
    assert n == (2 * m) * q + (n % 2 + 2 * r);
    DivModUnique(n, 2 * m, q, n % 2 + 2 * r);
  }

  lemma DivModUnique(n: nat, d: nat, q: nat, r: nat)
    requires d >= 1 && r < d && n == d * q + r
    ensures n / d == q && n % d == r
  {
    var q', r' := n / d, n % d;
    assert n == d * q' + r';
    if q' > q {
      MulMono(d, q + 1, q');
    } else if q' < q {
      MulMono(d, q' + 1, q);
    }
  }

  lemma MulMono(d: nat, a: nat, b: nat)
    requires a <= b
    ensures d * a <= d * b
  {
  }

  // ----- powers of two -----

  lemma {:induction false} PowerOfTwoTest(n: nat)
    ensures IsPowerOfTwo(n) <==> PowerOf2(n)
  {
    if n == 0 {
    } else if n == 1 {
      assert Pow2(0) == 1;
    } else if n % 2 == 1 {
      // n-1 keeps every bit of n but the last one
      AndSelf(n / 2);
      assert (n - 1) / 2 == n / 2;
      assert And(n, n - 1) > 0;
      forall k: nat ensures n != Pow2(k) {
      }
    } else {
      var h := n / 2;
      PowerOfTwoTest(h);
      assert (n - 1) / 2 == h - 1;
      assert And(n, n - 1) == 2 * And(h, h - 1);
      if PowerOf2(h) {
        var k: nat :| h == Pow2(k);
        assert n == Pow2(k + 1);
      }
      if PowerOf2(n) {
        var k: nat :| n == Pow2(k);
        assert h == Pow2(k - 1);
      }
    }
  }

  lemma {:induction false} AndSelf(n: nat)
    ensures And(n, n) == n
  {
    if n != 0 { AndSelf(n / 2); }
  }

  lemma {:induction false} Pow2Mono(j: nat, k: nat)
    requires j <= k
    ensures Pow2(j) <= Pow2(k)
    decreases k
  {
    if j < k { Pow2Mono(j, k - 1); }
  }

  // ----- the smearing cascade -----

  lemma {:induction false} OrShr(a: nat, b: nat, k: nat)
    ensures Shr(Or(a, b), k) == Or(Shr(a, k), Shr(b, k))
    decreases k
  {
    if k > 0 {
      assert Or(a, b) / 2 == Or(a / 2, b / 2);
      OrShr(a / 2, b / 2, k - 1);
    }
  }

  lemma {:induction false} ShrAdd(a: nat, j: nat, k: nat)
    ensures Shr(Shr(a, j), k) == Shr(a, j + k)
    decreases j
  {
    if j > 0 { ShrAdd(a / 2, j - 1, k); }
  }

  /** Or-ing n ones into a number overwrites its low n bits with ones. */
  lemma {:induction false} OrOnes(x: nat, n: nat)
    ensures Or(x, Pow2(n) - 1) == Shl(Shr(x, n), n) + Pow2(n) - 1
    decreases n
  {
    if n == 0 {
      OrZero(x);
    } else {
      OrOnes(x / 2, n - 1);
      OrOdd(x, Pow2(n) - 1, Pow2(n - 1) - 1);
    }
  }

  lemma {:induction false} ShlOnes(a: nat, b: nat)
    ensures Shl(Pow2(a) - 1, b) + Pow2(b) == Pow2(a + b)
    decreases b
  {
    if b > 0 { ShlOnes(a, b - 1); }
  }

  lemma {:induction false} OrZero(x: nat)
    ensures Or(x, 0) == x
  {
    if x != 0 { OrZero(x / 2); }
  }

  lemma {:induction false} ShrZero(x: nat, k: nat)
    requires x < Pow2(k)
    ensures Shr(x, k) == 0
    decreases k
  {
    if k > 0 { ShrZero(x / 2, k - 1); }
  }

  lemma {:induction false} Pow2Add(j: nat, k: nat)
    ensures Pow2(j + k) == Pow2(j) * Pow2(k)
    decreases j
  {
    if j > 0 {
      Pow2Add(j - 1, k);
      assert 2 * (Pow2(j - 1) * Pow2(k)) == (2 * Pow2(j - 1)) * Pow2(k);
    }
  }

  /** x has len bits and its top `ones` bits are all set. */
  ghost predicate TopOnes(x: nat, len: nat, ones: nat) {
    ones <= len && Shr(x, len - ones) == Pow2(ones) - 1
  }

  /** One step of the cascade doubles the run of ones at the top. */
  lemma SmearHalf(x: nat, len: nat, ones: nat)
    requires TopOnes(x, len, ones) && 2 * ones <= len
    ensures TopOnes(Smear(x, ones), len, 2 * ones)
  {
    hide Or, Shl, Shr, Pow2;
    var k := len - 2 * ones;
    OrShr(x, Shr(x, ones), k);
    ShrAdd(x, ones, k);
    ShrAdd(x, k, ones);
    assert k + ones == len - ones == ones + k;
    OrOnes(Shr(x, k), ones);
    ShlOnes(ones, ones);
  }

  /** ... and when less than half of the number is left, it reaches the bottom. */
  lemma SmearRest(x: nat, len: nat, ones: nat)
    requires TopOnes(x, len, ones) && 2 * ones > len
    ensures TopOnes(Smear(x, ones), len, len)
  {
    hide Or, Shl, Pow2;
    var low := len - ones;
    ShrAdd(x, low, ones - low);
    assert low + (ones - low) == ones;
    ShrOnes(ones, ones - low);
    OrOnes(x, low);
    ShlOnes(ones, low);
  }

  lemma {:induction false} ShrOnes(n: nat, k: nat)
    requires k <= n
    ensures Shr(Pow2(n) - 1, k) == Pow2(n - k) - 1
    decreases k
  {
    if k > 0 {
      var m := Pow2(n - 1);
      assert (2 * m - 1) / 2 == m - 1;
      ShrOnes(n - 1, k - 1);
    }
  }

  /** The number of bits of x. */
  function BitLen(x: nat): nat {
    if x == 0 then 0 else 1 + BitLen(x / 2)
  }

  lemma {:induction false} BitLenTop(x: nat)
    requires x > 0
    ensures TopOnes(x, BitLen(x), 1)
    ensures Pow2(BitLen(x) - 1) <= x < Pow2(BitLen(x))
  {
    if x > 1 {
      BitLenTop(x / 2);
    } else {
      assert BitLen(1) == 1 && Pow2(1) == 2 && Pow2(0) == 1;
    }
  }

  lemma TopStart(x: nat)
    ensures var len := BitLen(x);
      TopOnes(x, len, if 1 <= len then 1 else len) && (len > 0 ==> Pow2(len - 1) <= x) && x < Pow2(len)
  {
    if x > 0 {
      BitLenTop(x);
    } else {
      assert Shr(0, 0) == 0 && Pow2(0) == 1;
    }
  }

  lemma Pow2Less(a: nat, b: nat)
    requires Pow2(a) < Pow2(b)
    ensures a < b
  {
    if b <= a { Pow2Mono(b, a); }
  }

  lemma BitLenBounded(x: nat, k: nat)
    requires x < Pow2(k)
    ensures BitLen(x) <= k
  {
    TopStart(x);
    if x > 0 { Pow2Less(BitLen(x) - 1, k); }
  }

  /** For every size an int64 can round up to, the cascade yields the least power of two that is >= n. */
  lemma RoundUpIsLeast(n: nat)
    requires 1 <= n <= Pow2(62)
    ensures PowerOf2(RoundUp(n)) && n <= RoundUp(n)
    ensures forall p: nat :: PowerOf2(p) && n <= p ==> RoundUp(n) <= p
  {
    hide Cascade, TopOnes, BitLen, Pow2;
    var len := BitLen(n - 1);
    TopStart(n - 1);
    BitLenBounded(n - 1, 62);
    CascadeFills(n - 1, len, 1);
    forall p: nat | PowerOf2(p) && n <= p ensures Pow2(len) <= p {
      NoSmaller(n, len, p);
    }
  }

  lemma NoSmaller(n: nat, len: nat, p: nat)
    requires PowerOf2(p) && n <= p
    requires len > 0 ==> Pow2(len - 1) < n
    ensures Pow2(len) <= p
  {
    var k: nat :| p == Pow2(k);
    if k < len { Pow2Mono(k, len - 1); }
    Pow2Mono(len, k);
  }

  /** The steps left from k on fill every bit below the highest one. */
  lemma {:induction false} CascadeFills(x: nat, len: nat, k: nat)
    requires k in {1, 2, 4, 8, 16, 32, 64} && len <= 62
    requires TopOnes(x, len, if k <= len then k else len)
    ensures Cascade(x, k) == Pow2(len) - 1
    decreases 64 - k
  {
    if k > 32 {
      assert Shr(x, 0) == x;
    } else {
      Widen(x, len, k);
      CascadeFills(Smear(x, k), len, 2 * k);
    }
  }

  /** Smear when the run may already fill the whole number. */
  lemma Widen(x: nat, len: nat, ones: nat)
    requires TopOnes(x, len, if ones <= len then ones else len)
    ensures TopOnes(Smear(x, ones), len, if 2 * ones <= len then 2 * ones else len)
  {
    if 2 * ones <= len {
      SmearHalf(x, len, ones);
    } else if ones <= len {
      SmearRest(x, len, ones);
    } else {
      assert Shr(x, 0) == x;
      Pow2Mono(len, ones);
      ShrZero(x, ones);
      OrZero(x);
    }
  }

  // ----- bit fields of a byte -----

  /** Or joins two numbers that share no bit by adding them. */
  lemma {:induction false} OrAbove(a: nat, b: nat, k: nat)
    requires a < Pow2(k)
    ensures Or(a, Shl(b, k)) == a + Shl(b, k)
    decreases k
  {
    if k == 0 {
      OrZero(b);
      OrSwap(a, b);
    } else {
      OrAbove(a / 2, b, k - 1);
      assert Shl(b, k) / 2 == Shl(b, k - 1);
    }
  }

  lemma {:induction false} OrSwap(a: nat, b: nat)
    ensures Or(a, b) == Or(b, a)
    decreases a + b
  {
    if a + b > 0 { OrSwap(a / 2, b / 2); }
  }

  /** A shifted mask picks out a field. */
  lemma {:induction false} AndAbove(a: nat, m: nat, k: nat)
    ensures Shr(And(a, Shl(m, k)), k) == And(Shr(a, k), m)
    ensures And(a, Shl(m, k)) == Shl(And(Shr(a, k), m), k)
    decreases k
  {
    if k > 0 {
      AndAbove(a / 2, m, k - 1);
      AndDouble(a, Shl(m, k - 1));
    }
  }

  lemma AndDouble(a: nat, b: nat)
    ensures And(a, 2 * b) == 2 * And(a / 2, b)
  {
    assert (2 * b) / 2 == b && (2 * b) % 2 == 0;
    if a == 0 { assert And(0, b) == 0; }
  }

  /** A number cut at bit k. */
  lemma {:induction false} ShrSplit(a: nat, b: nat, k: nat)
    requires a < Pow2(k)
    ensures Shr(a + Shl(b, k), k) == b
    decreases k
  {
    if k > 0 {
      ShrSplit(a / 2, b, k - 1);
      assert (a + Shl(b, k)) / 2 == a / 2 + Shl(b, k - 1);
    }
  }
}
