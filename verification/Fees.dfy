/** Exact rational fees: binary gcd, the tiered reference-script fee and the script fee. */
module Fees {
  import opened Options
  import opened Division
  import opened Saturating

  /** A rational protocol parameter. */
  datatype Ratio = Ratio(numerator: nat, denominator: nat)

  // ----- divisors ------------------------------------------------------------------

  ghost predicate Divides(d: nat, n: nat) {
    exists m: nat :: d * m == n
  }

  ghost predicate Common(d: nat, a: nat, b: nat) {
    Divides(d, a) && Divides(d, b)
  }

  /** A common divisor that every common divisor divides. */
  ghost predicate IsGcd(g: nat, a: nat, b: nat) {
    Common(g, a, b) && forall d :: Common(d, a, b) ==> Divides(d, g)
  }

  ghost predicate SameCommon(a: nat, b: nat, a': nat, b': nat) {
    forall d :: Common(d, a, b) <==> Common(d, a', b')
  }

  lemma DividesIntro(d: nat, m: nat, n: nat)
    requires d * m == n
    ensures Divides(d, n)
  {
  }

  lemma DividesSelf(n: nat)
    ensures Divides(n, n) && Divides(n, 0)
  {
    DividesIntro(n, 1, n);
    DividesIntro(n, 0, 0);
  }

  lemma DividesAdd(d: nat, a: nat, b: nat)
    requires Divides(d, a)
    ensures Divides(d, b) <==> Divides(d, a + b)
  {
    if Divides(d, b) {
      DividesSum(d, a, b);
    }
    if Divides(d, a + b) {
      DividesDifference(d, a, b);
    }
  }

  lemma DividesSum(d: nat, a: nat, b: nat)
    requires Divides(d, a) && Divides(d, b)
    ensures Divides(d, a + b)
  {
    var m: nat :| d * m == a;
    var n: nat :| d * n == b;
    assert d * (m + n) == a + b;
  }

  lemma DividesDifference(d: nat, a: nat, b: nat)
    requires Divides(d, a) && Divides(d, a + b)
    ensures Divides(d, b)
  {
    var m: nat :| d * m == a;
    var n: nat :| d * n == a + b;
    var k := if n < m then 0 else n - m;
    MulMonotone(d, n, m);
    DividesIntro(d, k, b);
  }

  lemma MulMonotone(d: nat, n: nat, m: nat)
    ensures n < m ==> d * n <= d * m
    ensures d * (n - m) == d * n - d * m
  {
  }

  lemma OddTimes(d: nat, m: nat)
    requires d % 2 == 1 && (d * m) % 2 == 0
    ensures m % 2 == 0
  {
    var h := d / 2;
    assert d * m == 2 * (h * m) + m;
  }

  lemma EvenTimes(d: nat, m: nat)
    ensures d % 2 == 0 ==> (d * m) % 2 == 0
  {
    var h := d / 2;
    assert d == 2 * h ==> d * m == 2 * (h * m);
  }

  /** A divisor of an odd number divides 2b exactly when it divides b. */
  lemma OddDivisor(d: nat, a: nat, b: nat)
    requires a % 2 == 1 && Divides(d, a)
    ensures Divides(d, 2 * b) <==> Divides(d, b)
  {
    var m :| d * m == a;
    EvenTimes(d, m);
    OddHalf(d, b);
  }

  lemma OddHalf(d: nat, b: nat)
    requires d % 2 == 1
    ensures Divides(d, 2 * b) <==> Divides(d, b)
  {
    if Divides(d, 2 * b) {
      var n :| d * n == 2 * b;
      OddTimes(d, n);
      assert d * (n / 2) == b;
    }
    if Divides(d, b) {
      var n :| d * n == b;
      assert d * (2 * n) == 2 * b;
    }
  }

  lemma StripEven(a: nat, b: nat)
    requires a % 2 == 1
    ensures SameCommon(a, 2 * b, a, b)
  {
    forall d | Divides(d, a)
      ensures Divides(d, 2 * b) <==> Divides(d, b)
    {
      OddDivisor(d, a, b);
    }
  }

  lemma {:induction false} StripPow2(a: nat, b: nat, k: nat)
    requires a % 2 == 1
    ensures SameCommon(a, b * Pow2(k), a, b)
    decreases k
  {
    if k > 0 {
      StripPow2(a, b, k - 1);
      StripEven(a, b * Pow2(k - 1));
      assert b * Pow2(k) == 2 * (b * Pow2(k - 1));
    }
  }

  lemma Subtract(a: nat, b: nat)
    requires a <= b
    ensures SameCommon(a, b, a, b - a)
  {
    forall d | Divides(d, a)
      ensures Divides(d, b) <==> Divides(d, b - a)
    {
      DividesAdd(d, a, b - a);
    }
  }

  lemma ScaleTwo(g: nat, a: nat, b: nat)
    requires IsGcd(g, a, b)
    ensures IsGcd(2 * g, 2 * a, 2 * b)
  {
    var m :| g * m == a;
    var n :| g * n == b;
    DividesIntro(2 * g, m, 2 * a);
    DividesIntro(2 * g, n, 2 * b);
    forall d: nat | Common(d, 2 * a, 2 * b)
      ensures Divides(d, 2 * g)
    {
      if d % 2 == 1 {
        OddHalf(d, a);
        OddHalf(d, b);
        OddHalf(d, g);
      } else {
        EvenHalf(d / 2, a);
        EvenHalf(d / 2, b);
        assert Common(d / 2, a, b);
        EvenHalf(d / 2, g);
      }
    }
  }

  lemma EvenHalf(e: nat, a: nat)
    ensures Divides(2 * e, 2 * a) <==> Divides(e, a)
  {
    if Divides(e, a) {
      var m :| e * m == a;
      assert (2 * e) * m == 2 * a;
    }
    if Divides(2 * e, 2 * a) {
      var m :| (2 * e) * m == 2 * a;
      assert e * m == a;
    }
  }

  lemma {:induction false} ScalePow2(g: nat, a: nat, b: nat, k: nat)
    requires IsGcd(g, a, b)
    ensures IsGcd(g * Pow2(k), a * Pow2(k), b * Pow2(k))
    decreases k
  {
    hide IsGcd;
    if k > 0 {
      ScalePow2(g, a, b, k - 1);
      ScaleTwo(g * Pow2(k - 1), a * Pow2(k - 1), b * Pow2(k - 1));
      MulTwo(g, Pow2(k - 1));
      MulTwo(a, Pow2(k - 1));
      MulTwo(b, Pow2(k - 1));
    }
  }

  lemma MulTwo(n: nat, p: nat)
    ensures n * (2 * p) == 2 * (n * p)
  {
  }

  lemma {:induction false} PowAdd(n: nat, j: nat, k: nat)
    ensures n * Pow2(j) * Pow2(k) == n * Pow2(j + k)
    decreases k
  {
    if k > 0 {
      PowAdd(n, j, k - 1);
      MulTwo(n * Pow2(j), Pow2(k - 1));
      MulTwo(n, Pow2(j + k - 1));
      assert Pow2(j + k) == 2 * Pow2(j + k - 1);
    }
  }

  lemma GcdSymmetric(g: nat, a: nat, b: nat)
    requires IsGcd(g, a, b)
    ensures IsGcd(g, b, a)
  {
    hide Divides;
    forall d | Common(d, b, a)
      ensures Divides(d, g)
    {
      assert Common(d, a, b);
    }
  }

  lemma SameGcd(g: nat, a: nat, b: nat, a': nat, b': nat)
    requires SameCommon(a, b, a', b')
    requires IsGcd(g, a', b')
    ensures IsGcd(g, a, b)
  {
    hide Divides, Common;
    assert Common(g, a, b);
  }

  /** The gcd of two odd parts, with the powers of two put back. */
  lemma RestoreTwos(g: nat, a: nat, ka: nat, b: nat, kb: nat)
    requires a % 2 == 1 && IsGcd(g, a, b)
    requires ka <= kb
    ensures IsGcd(g * Pow2(ka), a * Pow2(ka), b * Pow2(kb))
  {
    hide IsGcd, SameCommon, Pow2;
    StripPow2(a, b, kb - ka);
    SameGcd(g, a, b * Pow2(kb - ka), a, b);
    ScalePow2(g, a, b * Pow2(kb - ka), ka);
    PowAdd(b, kb - ka, ka);
  }

  /** The odd part of a number, and how many factors of two were taken off. */
  method StripTwos(n: nat) returns (odd: nat, k: nat)
    requires n > 0
    ensures odd % 2 == 1 && n == odd * Pow2(k)
  {
    odd, k := n, 0;
    while odd % 2 == 0
      invariant odd > 0 && n == odd * Pow2(k)
      decreases odd
    {
      assert odd * Pow2(k) == (odd / 2) * (2 * Pow2(k));
      odd, k := odd / 2, k + 1;
    }
  }

  lemma SameTrans(a: nat, b: nat, a': nat, b': nat, a'': nat, b'': nat)
    requires SameCommon(a, b, a', b') && SameCommon(a, b, a'', b'')
    ensures SameCommon(a', b', a'', b'')
  {
    hide Common;
    assert forall d :: Common(d, a, b) <==> Common(d, a', b');
  }

  lemma SameSwap(a: nat, b: nat)
    ensures SameCommon(a, b, b, a)
  {
    hide Divides;
  }

  lemma GcdZero(a: nat)
    ensures IsGcd(a, a, 0) && IsGcd(a, 0, a)
  {
    DividesSelf(a);
  }

  lemma StripShrinks(odd: nat, k: nat)
    ensures odd <= odd * Pow2(k)
  {
    hide Pow2;
  }

  /** The binary gcd. The power of two common to both numbers is the smaller of the two. */
  method BinaryGcd(a0: nat, b0: nat) returns (g: nat)
    ensures IsGcd(g, a0, b0)
    ensures a0 > 0 || b0 > 0 ==> g > 0
  {
    hide IsGcd, SameCommon, Pow2;
    if a0 == 0 {
      GcdZero(b0);
      return b0;
    }
    if b0 == 0 {
      GcdZero(a0);
      return a0;
    }
    var oddA, ka := StripTwos(a0);
    var oddB, kb := StripTwos(b0);
    var shift := if ka < kb then ka else kb;
    var odd := OddGcd(oddA, oddB);
    g := odd * Pow2(shift);
    StripShrinks(odd, shift);
    if ka < kb {
      RestoreTwos(odd, oddA, ka, oddB, kb);
    } else {
      GcdSymmetric(odd, oddA, oddB);
      RestoreTwos(odd, oddB, kb, oddA, ka);
      GcdSymmetric(g, b0, a0);
    }
  }

  /** The subtraction loop, on an odd `a0`. */
  method OddGcd(a0: nat, b0: nat) returns (g: nat)
    requires a0 % 2 == 1 && b0 > 0
    ensures IsGcd(g, a0, b0) && g > 0
  {
    hide IsGcd, SameCommon, Pow2;
    var a, b := a0, b0;
    SameSwap(b, a);
    SameTrans(b, a, a, b, a, b);
    while true
      invariant a % 2 == 1 && b > 0
      invariant SameCommon(a, b, a0, b0)
      decreases a + b
    {
      ghost var b' := b;
      var k;
      b, k := StripTwos(b);
      StripPow2(a, b, k);
      SameTrans(a, b', a, b, a0, b0);
      StripShrinks(b, k);
      if a > b {
        SameSwap(a, b);
        SameTrans(a, b, b, a, a0, b0);
        a, b := b, a;
      }
      Subtract(a, b);
      SameTrans(a, b, a, b - a, a0, b0);
      b := b - a;
      if b == 0 {
        GcdZero(a);
        SameBack(a, 0, a0, b0);
        SameGcd(a, a0, b0, a, 0);
        return a;
      }
    }
  }

  lemma SameBack(a: nat, b: nat, a': nat, b': nat)
    requires SameCommon(a, b, a', b')
    ensures SameCommon(a', b', a, b)
  {
    hide Common;
  }

  // ----- exact rationals as pairs of naturals ---------------------------------------

  /** The pair `num / den` stands for the real number `x`. */
  ghost predicate IsRatio(num: nat, den: nat, x: real) {
    den > 0 && num as real == x * den as real
  }

  lemma {:induction false} MulReal(a: nat, b: nat)
    ensures (a * b) as real == a as real * b as real
    decreases b
  {
    if b == 0 {
    } else {
      MulReal(a, b - 1);
      assert a * b == a * (b - 1) + a;
      assert b as real == (b - 1) as real + 1.0;
      Distribute(a as real, (b - 1) as real);
    }
  }

  lemma Distribute(x: real, y: real)
    ensures x * (y + 1.0) == x * y + x
  {
  }

  lemma RatioAdd(a: nat, b: nat, x: real, c: nat, d: nat, y: real)
    requires IsRatio(a, b, x) && IsRatio(c, d, y)
    ensures IsRatio(a * d + c * b, b * d, x + y)
  {
    MulReal(a, d);
    MulReal(c, b);
    MulReal(b, d);
    AddProducts(x, y, b as real, d as real);
    assert b * d > 0;
  }

  lemma AddProducts(x: real, y: real, b: real, d: real)
    ensures (x * b) * d + (y * d) * b == (x + y) * (b * d)
  {
    assert (y * d) * b == y * (b * d);
    assert (x * b) * d == x * (b * d);
  }

  ghost function Times(n: nat, x: real): real { n as real * x }

  lemma RatioTimes(n: nat, a: nat, b: nat, x: real)
    requires IsRatio(a, b, x)
    ensures IsRatio(n * a, b, Times(n, x))
  {
    MulReal(n, a);
    assert n as real * (x * b as real) == (n as real * x) * b as real;
  }

  lemma RatioReduce(a: nat, b: nat, x: real, g: nat)
    requires IsRatio(a, b, x) && IsGcd(g, a, b)
    ensures g > 0 && IsRatio(a / g, b / g, x)
  {
    var m: nat :| g * m == a;
    var n: nat :| g * n == b;
    assert g > 0 && n > 0;
    Quotient(g, m);
    Quotient(g, n);
    MulReal(g, m);
    MulReal(g, n);
    Cancel(g as real, m as real, n as real, x);
  }

  lemma Quotient(g: nat, m: nat)
    requires g > 0
    ensures (g * m) / g == m
  {
    DivUnique(g * m, g, m, 0);
  }

  lemma Cancel(g: real, m: real, n: real, x: real)
    requires g > 0.0 && g * m == x * (g * n)
    ensures m == x * n
  {
    assert x * (g * n) == g * (x * n);
    assert g * (m - x * n) == 0.0;
  }

  lemma RatioFloor(a: nat, b: nat, x: real)
    requires IsRatio(a, b, x)
    ensures a / b == x.Floor
  {
    var q, r := a / b, a % b;
    assert a == b * q + r;
    MulReal(b, q);
    FloorBetween(q, r as real, b as real, x);
  }

  lemma FloorBetween(q: nat, r: real, b: real, x: real)
    requires b > 0.0 && 0.0 <= r < b && x * b == b * q as real + r
    ensures x.Floor == q
  {
    Fraction(x, q as real, r, b);
  }

  /** A remainder below the divisor leaves a fraction below one. */
  lemma Fraction(x: real, y: real, r: real, b: real)
    requires b > 0.0 && 0.0 <= r < b && x * b == b * y + r
    ensures y <= x < y + 1.0
  {
    assert (x - y) * b == r;
    assert (x - y - 1.0) * b == r - b;
    Signs(x - y, b);
    Signs(x - y - 1.0, b);
  }

  lemma Signs(f: real, b: real)
    requires b > 0.0
    ensures f >= 0.0 <==> f * b >= 0.0
  {
  }

  function Ceiling(x: real): int { -((-x).Floor) }

  lemma RatioCeiling(a: nat, b: nat, x: real)
    requires IsRatio(a, b, x)
    ensures (a + b - 1) / b == Ceiling(x)
  {
    var q, r := (a + b - 1) / b, (a + b - 1) % b;
    assert a + b - 1 == b * q + r;
    MulReal(b, q);
    CeilingBetween(q, (b - 1 - r) as real, b as real, x);
  }

  lemma CeilingBetween(q: nat, s: real, b: real, x: real)
    requires b > 0.0 && 0.0 <= s < b && x * b == b * q as real - s
    ensures Ceiling(x) == q
  {
    Fraction(q as real, x, s, b);
  }

  // ----- lowest terms ------------------------------------------------------------------

  ghost function Combination(x: int, a: nat, y: int, b: nat): int { x * a + y * b }

  /** One is an integer combination of the two. */
  ghost predicate Coprime(a: nat, b: nat) {
    exists x, y :: Combination(x, a, y, b) == 1
  }

  /** Some common divisor is a combination of the two. */
  lemma {:induction false} Bezout(a: nat, b: nat) returns (x: int, y: int, g: nat)
    requires a > 0 || b > 0
    ensures Combination(x, a, y, b) == g && g > 0 && Common(g, a, b)
    decreases b
  {
    hide Divides;
    if b == 0 {
      x, y, g := 1, 0, a;
      DividesSelf(a);
    } else {
      var q, r := a / b, a % b;
      assert a == b * q + r;
      var x', y';
      x', y', g := Bezout(b, r);
      x, y := y', x' - q * y';
      BezoutStep(x', y', b, q, r);
      DividesTimes(g, b, q);
      DividesSum(g, b * q, r);
    }
  }

  lemma BezoutStep(x: int, y: int, b: nat, q: nat, r: nat)
    ensures Combination(y, b * q + r, x - q * y, b) == Combination(x, b, y, r)
  {
    assert y * (b * q + r) == q * y * b + y * r;
    assert (x - q * y) * b == x * b - q * y * b;
  }

  lemma DividesTimes(d: nat, n: nat, k: nat)
    requires Divides(d, n)
    ensures Divides(d, n * k)
  {
    var m: nat :| d * m == n;
    assert d * (m * k) == n * k;
  }

  /** Division by the gcd leaves lowest terms. */
  lemma ReducedIsCoprime(a: nat, b: nat, g: nat)
    requires b > 0 && IsGcd(g, a, b)
    ensures g > 0 && Coprime(a / g, b / g)
  {
    hide Combination;
    var m: nat :| g * m == a;
    var n: nat :| g * n == b;
    assert g > 0 && n > 0;
    Quotient(g, m);
    Quotient(g, n);
    var x, y, h := Bezout(a, b);
    assert Common(h, a, b);
    var k: nat :| h * k == g;
    CommonFactor(g, x, m, y, n);
    UnitFactor(g, Combination(x, m, y, n), h, k);
  }

  lemma CommonFactor(g: nat, x: int, m: nat, y: int, n: nat)
    ensures Combination(x, g * m, y, g * n) == g * Combination(x, m, y, n)
  {
    assert x * (g * m) == g * (x * m) && y * (g * n) == g * (y * n);
    assert g * (x * m + y * n) == g * (x * m) + g * (y * n);
  }

  lemma UnitFactor(g: nat, c: int, h: nat, k: nat)
    requires g > 0 && h > 0 && g * c == h && h * k == g
    ensures c == 1
  {
    assert c >= 1 && k >= 1;
    assert c >= 2 ==> g * c >= g * 2;
    assert h * k >= h;
  }

  /** No pair for the same number has a smaller part than the pair in lowest terms. */
  lemma LowestTerms(a: nat, b: nat, n: nat, d: nat, x: real)
    requires Coprime(a, b) && IsRatio(a, b, x) && IsRatio(n, d, x)
    ensures a <= n && b <= d
  {
    MulReal(a, d);
    MulReal(n, b);
    CrossMultiply(a as real, b as real, n as real, d as real, x);
    assert a * d == n * b;
    var u, v :| Combination(u, a, v, b) == 1;
    var t := u * n + v * d;
    TimesOf(u, v, a, b, n, d, t);
    assert t >= 1 by {
      if t < 1 {
        NotPositive(t, b);
      }
    }
    AtLeast(a, t);
    AtLeast(b, t);
  }

  /** A pair in the ratio of a pair in lowest terms is a multiple of it. */
  lemma TimesOf(u: int, v: int, a: nat, b: nat, n: nat, d: nat, t: int)
    requires u * a + v * b == 1 && a * d == n * b && t == u * n + v * d
    ensures d == b * t && n == a * t
  {
    assert d == t * b by {
      assert d * (u * a + v * b) == d;
      assert d * (u * a + v * b) == u * (a * d) + v * d * b;
      assert t * b == u * (n * b) + v * d * b;
    }
    assert n == t * a by {
      assert n * (u * a + v * b) == n;
      assert n * (u * a + v * b) == u * n * a + v * (n * b);
      assert t * a == u * n * a + v * (a * d);
    }
  }

  lemma NotPositive(t: int, b: nat)
    requires t <= 0
    ensures b * t <= 0
  {
  }

  lemma CrossMultiply(a: real, b: real, n: real, d: real, x: real)
    requires a == x * b && n == x * d
    ensures a * d == n * b
  {
    assert (x * b) * d == (x * d) * b;
  }

  // ----- the tiered reference-script fee ---------------------------------------------

  const STRIDE: nat := 25600

  /** (6/5)^i. */
  ghost function Growth(i: nat): real {
    if i == 0 then 1.0 else Growth(i - 1) * 1.2
  }

  /** The sum of (6/5)^i over i < q. */
  ghost function GrowthSum(q: nat): real {
    if q == 0 then 0.0 else GrowthSum(q - 1) + Growth(q - 1)
  }

  /** The price of a byte in tier i. */
  ghost function TierPrice(base: real, i: nat): real { base * Growth(i) }

  /** q full tiers and r bytes of the next one, at price `base` per byte in tier 0. */
  ghost function Tiers(base: real, q: nat, r: nat): real {
    base * (STRIDE as real * GrowthSum(q) + r as real * Growth(q))
  }

  ghost function TieredCost(price: Ratio, size: nat): real {
    if price.denominator == 0 then 0.0
    else Tiers(price.numerator as real / price.denominator as real, size / STRIDE, size % STRIDE)
  }

  lemma TierStep(base: real, q: nat)
    ensures Tiers(base, q + 1, 0) == Tiers(base, q, 0) + Times(STRIDE, TierPrice(base, q))
    ensures TierPrice(base, q + 1) == TierPrice(base, q) * 1.2
  {
    assert GrowthSum(q + 1) == GrowthSum(q) + Growth(q);
    assert base * (Growth(q) * 1.2) == (base * Growth(q)) * 1.2;
    var s, g := GrowthSum(q), Growth(q);
    assert base * (25600.0 * (s + g)) == base * (25600.0 * s) + 25600.0 * (base * g);
  }

  lemma TierRest(base: real, q: nat, r: nat)
    ensures Tiers(base, q, r) == Tiers(base, q, 0) + Times(r, TierPrice(base, q))
  {
    hide Growth, GrowthSum;
    var s, g, n := GrowthSum(q), Growth(q), r as real;
    AddProduct(base, STRIDE as real * s, n, g);
    AddProduct(base, STRIDE as real * s, 0.0, g);
  }

  /** Byte by byte: a byte costs the base price, times 6/5 for every 25600 bytes in front of it. */
  lemma NextByte(price: Ratio, size: nat)
    requires price.denominator > 0
    ensures TieredCost(price, 0) == 0.0
    ensures var base := price.numerator as real / price.denominator as real;
            TieredCost(price, size + 1) == TieredCost(price, size) + base * Growth(size / 25600)
    ensures Growth(0) == 1.0 && Growth(size + 1) * 5.0 == Growth(size) * 6.0
  {
    hide Tiers, Times, GrowthSum;
    var base, q, r := price.numerator as real / price.denominator as real, size / 25600, size % 25600;
    TierNone(base);
    TierRest(base, q, r);
    TimesNext(r, TierPrice(base, q));
    if r + 1 == 25600 {
      assert (size + 1) / STRIDE == q + 1 && (size + 1) % STRIDE == 0;
      TierStep(base, q);
    } else {
      assert (size + 1) / STRIDE == q && (size + 1) % STRIDE == r + 1;
      TierRest(base, q, r + 1);
    }
  }

  lemma TimesNext(n: nat, x: real)
    ensures Times(n + 1, x) == Times(n, x) + x
  {
    assert (n as real + 1.0) * x == n as real * x + x;
  }

  lemma TierNone(base: real)
    ensures Tiers(base, 0, 0) == 0.0
  {
  }

  lemma AddProduct(base: real, t: real, n: real, g: real)
    ensures base * (t + n * g) == base * t + n * (base * g)
  {
    assert base * (n * g) == n * (base * g);
  }

  // ----- the accumulator, over naturals and over 128 bits -----------------------------------

  /** Naturals, or numbers of 128 bits whose sums and products wrap around. */
  datatype Arithmetic = Naturals | Bits128 {
    function Of(n: nat): nat {
      if Naturals? then n else n % 0x1_0000_0000_0000_0000_0000_0000_0000_0000
    }
  }

  ghost function Gcd(a: nat, b: nat): (g: nat)
    ensures IsGcd(g, a, b)
  {
    GcdExists(a, b);
    var g: nat :| IsGcd(g, a, b);
    g
  }

  lemma CombinationIsGcd(x: int, y: int, g: nat, a: nat, b: nat)
    requires Combination(x, a, y, b) == g && g > 0 && Common(g, a, b)
    ensures IsGcd(g, a, b)
  {
    forall d: nat | Common(d, a, b)
      ensures Divides(d, g)
    {
      var m: nat :| d * m == a;
      var n: nat :| d * n == b;
      CommonFactor(d, x, m, y, n);
      var k := Combination(x, m, y, n);
      assert k >= 0;
      DividesIntro(d, k, g);
    }
  }

  lemma GcdExists(a: nat, b: nat)
    ensures exists g: nat :: IsGcd(g, a, b)
  {
    hide IsGcd;
    if a == 0 && b == 0 {
      GcdZero(0);
    } else {
      var x, y, g := Bezout(a, b);
      CombinationIsGcd(x, y, g, a, b);
    }
  }

  lemma GcdUnique(g: nat, h: nat, a: nat, b: nat)
    requires IsGcd(g, a, b) && IsGcd(h, a, b)
    ensures g == h
  {
    var m: nat :| g * m == h;
    var n: nat :| h * n == g;
    DividesBothWays(g, m, h, n);
  }

  lemma DividesBothWays(g: nat, m: nat, h: nat, n: nat)
    requires g * m == h && h * n == g
    ensures g == h
  {
    assert m >= 2 && g > 0 ==> g * m > g;
    assert n >= 2 && h > 0 ==> h * n > h;
  }

  /** Lowest terms. Of two zeros the greatest common divisor is zero, and dividing by it stops the
      process. */
  ghost function Reduced(f: Ratio): Option<Ratio> {
    var g := Gcd(f.numerator, f.denominator);
    if g == 0 then None else Some(Ratio(f.numerator / g, f.denominator / g))
  }

  /** The accumulator with `count` units more at a price. */
  ghost function Plus(ar: Arithmetic, acc: Ratio, count: nat, price: Ratio): Option<Ratio> {
    Reduced(Ratio(
      ar.Of(ar.Of(acc.numerator * price.denominator) + ar.Of(ar.Of(count * price.numerator) * acc.denominator)),
      ar.Of(acc.denominator * price.denominator)))
  }

  /** A price times 6/5. */
  ghost function Raised(ar: Arithmetic, price: Ratio): Option<Ratio> {
    Reduced(Ratio(ar.Of(price.numerator * 6), ar.Of(price.denominator * 5)))
  }

  method Reduce(f: Ratio) returns (r: Option<Ratio>)
    ensures r == Reduced(f)
  {
    hide IsGcd;
    var g := BinaryGcd(f.numerator, f.denominator);
    GcdUnique(g, Gcd(f.numerator, f.denominator), f.numerator, f.denominator);
    r := if g == 0 then None else Some(Ratio(f.numerator / g, f.denominator / g));
  }

  method Accumulate(ar: Arithmetic, acc: Ratio, count: nat, price: Ratio) returns (r: Option<Ratio>)
    ensures r == Plus(ar, acc, count, price)
  {
    hide Reduced;
    var chunk := ar.Of(count * price.numerator);
    var num := ar.Of(ar.Of(acc.numerator * price.denominator) + ar.Of(chunk * acc.denominator));
    var den := ar.Of(acc.denominator * price.denominator);
    r := Reduce(Ratio(num, den));
  }

  method RaisePrice(ar: Arithmetic, price: Ratio) returns (r: Option<Ratio>)
    ensures r == Raised(ar, price)
  {
    hide Reduced;
    r := Reduce(Ratio(ar.Of(price.numerator * 6), ar.Of(price.denominator * 5)));
  }

  /** A fraction stands for a real number. */
  ghost predicate Is(f: Ratio, x: real) {
    IsRatio(f.numerator, f.denominator, x)
  }

  lemma ReducedIs(f: Ratio, x: real)
    requires Is(f, x)
    ensures var r := Reduced(f);
            r.Some? && Is(r.value, x) && Coprime(r.value.numerator, r.value.denominator)
            && r.value.numerator <= f.numerator && r.value.denominator <= f.denominator
  {
    hide IsGcd, Coprime;
    var g := Gcd(f.numerator, f.denominator);
    RatioReduce(f.numerator, f.denominator, x, g);
    ReducedIsCoprime(f.numerator, f.denominator, g);
    QuotientBelow(f.numerator, g);
    QuotientBelow(f.denominator, g);
  }

  /** Over naturals the accumulator is exact and in lowest terms. */
  lemma PlusIsExact(acc: Ratio, x: real, count: nat, price: Ratio, y: real)
    requires Is(acc, x) && Is(price, y)
    ensures var r := Plus(Naturals, acc, count, price);
            r.Some? && Is(r.value, x + Times(count, y)) && Coprime(r.value.numerator, r.value.denominator)
  {
    hide Reduced, Coprime, Times;
    RatioTimes(count, price.numerator, price.denominator, y);
    RatioAdd(acc.numerator, acc.denominator, x, count * price.numerator, price.denominator, Times(count, y));
    ReducedIs(Ratio(acc.numerator * price.denominator + (count * price.numerator) * acc.denominator,
                    acc.denominator * price.denominator), x + Times(count, y));
  }

  /** Over naturals the price grows by exactly 6/5. */
  lemma RaisedIsExact(price: Ratio, y: real)
    requires Is(price, y)
    ensures var r := Raised(Naturals, price);
            r.Some? && Is(r.value, y * 1.2)
            && r.value.numerator <= price.numerator * 6 && r.value.denominator <= price.denominator * 5
  {
    hide Reduced, Coprime;
    RatioRaised(price.numerator, price.denominator, y);
    ReducedIs(Ratio(price.numerator * 6, price.denominator * 5), y * 1.2);
  }

  /** No number of the step reaches 2^128. */
  predicate PlusFits(acc: Ratio, count: nat, price: Ratio) {
    && acc.numerator * price.denominator + (count * price.numerator) * acc.denominator < U128
    && acc.denominator * price.denominator < U128 && count * price.numerator < U128
  }

  predicate RaiseFits(price: Ratio) {
    price.numerator * 6 < U128 && price.denominator * 5 < U128
  }

  lemma FittingPlus(acc: Ratio, count: nat, price: Ratio)
    requires PlusFits(acc, count, price)
    ensures Plus(Bits128, acc, count, price) == Plus(Naturals, acc, count, price)
  {
    hide Reduced;
    var n, m := acc.numerator * price.denominator, (count * price.numerator) * acc.denominator;
    OfSmall(count * price.numerator);
    OfSmall(n);
    OfSmall(m);
    OfSmall(n + m);
    OfSmall(acc.denominator * price.denominator);
  }

  lemma OfSmall(n: nat)
    requires n < U128
    ensures Bits128.Of(n) == n
  {
  }

  lemma FittingRaise(price: Ratio)
    requires RaiseFits(price)
    ensures Raised(Bits128, price) == Raised(Naturals, price)
  {
    hide Reduced;
  }

  lemma QuotientBelow(n: nat, g: nat)
    requires g > 0
    ensures n / g <= n
  {
    assert n == g * (n / g) + n % g;
    TimesAtLeast(g, n / g);
  }

  lemma TimesAtLeast(g: nat, k: nat)
    requires g > 0
    ensures g * k >= k
  {
    assert g * k == (g - 1) * k + k;
    assert (g - 1) * k >= 0;
  }

  // ----- the tiers over a common denominator -------------------------------------------

  const U128: nat := 0x1_0000_0000_0000_0000_0000_0000_0000_0000

  /** The largest total size of reference scripts in a transaction. */
  const MAX_SIZE: nat := 204_800

  function Pow5(i: nat): (p: nat)
    ensures p >= 1
  {
    if i == 0 then 1 else 5 * Pow5(i - 1)
  }

  function Pow6(i: nat): nat { if i == 0 then 1 else 6 * Pow6(i - 1) }

  /** The cost of i full tiers in units of the base price over 5^i. */
  function TierUnits(i: nat): nat { if i == 0 then 0 else 5 * TierUnits(i - 1) + 5 * (STRIDE * Pow6(i - 1)) }

  lemma RatioScaled(a: nat, d: nat, x: real, k: nat)
    requires IsRatio(a, d, x) && k > 0
    ensures IsRatio(k * a, k * d, x)
  {
    MulReal(k, a);
    MulReal(k, d);
    assert k as real * (x * d as real) == x * (k as real * d as real);
    assert k * d > 0;
  }

  lemma RatioSum(a: nat, c: nat, d: nat, x: real, y: real)
    requires IsRatio(a, d, x) && IsRatio(c, d, y)
    ensures IsRatio(a + c, d, x + y)
  {
    assert (x + y) * d as real == x * d as real + y * d as real;
  }

  lemma {:induction false} TierRatios(num: nat, den: nat, base: real, i: nat)
    requires den > 0 && base == num as real / den as real
    ensures IsRatio(num * Pow6(i), den * Pow5(i), TierPrice(base, i))
    ensures IsRatio(num * TierUnits(i), den * Pow5(i), Tiers(base, i, 0))
    decreases i
  {
    hide IsRatio, Tiers, TierPrice, Times;
    if i == 0 {
      TiersStart(num, den, base);
      RatioZero(den, Tiers(base, 0, 0));
    } else {
      var a, d := num * Pow6(i - 1), den * Pow5(i - 1);
      TierRatios(num, den, base, i - 1);
      TierStep(base, i - 1);
      RatioRaised(a, d, TierPrice(base, i - 1));
      RatioTimes(STRIDE, a, d, TierPrice(base, i - 1));
      RatioSum(num * TierUnits(i - 1), STRIDE * a, d, Tiers(base, i - 1, 0), Times(STRIDE, TierPrice(base, i - 1)));
      RatioScaled(num * TierUnits(i - 1) + STRIDE * a, d, Tiers(base, i, 0), 5);
      UnitsStep(num, TierUnits(i - 1), Pow6(i - 1));
      FactorsOut(num, Pow6(i - 1), den, Pow5(i - 1));
    }
  }

  lemma RatioZero(den: nat, x: real)
    requires den > 0 && IsRatio(0, 1, x)
    ensures IsRatio(0, den, x)
  {
  }

  lemma RatioRaised(a: nat, d: nat, x: real)
    requires IsRatio(a, d, x)
    ensures IsRatio(6 * a, 5 * d, x * 1.2)
  {
    assert (x * 1.2) * (5.0 * d as real) == 6.0 * (x * d as real);
  }

  lemma UnitsStep(num: nat, t: nat, p: nat)
    ensures 5 * (num * t + STRIDE * (num * p)) == num * (5 * t + 5 * (STRIDE * p))
  {
    assert STRIDE * (num * p) == num * (STRIDE * p);
  }

  lemma FactorsOut(num: nat, p: nat, den: nat, q: nat)
    ensures 6 * (num * p) == num * (6 * p) && 5 * (den * q) == den * (5 * q)
  {
  }

  /** Numerators and denominators below 2^32. */
  predicate SmallPrice(price: Ratio) {
    price.numerator < 0x1_0000_0000 && price.denominator < 0x1_0000_0000
  }

  /** The accumulator and the price after i tiers are no larger than over the common denominator. */
  ghost predicate WithinTiers(price: Ratio, i: nat, acc: Ratio, tp: Ratio) {
    && acc.numerator <= price.numerator * TierUnits(i) && acc.denominator <= price.denominator * Pow5(i)
    && tp.numerator <= price.numerator * Pow6(i) && tp.denominator <= price.denominator * Pow5(i)
  }

  lemma Products(a: nat, b: nat, x: nat, y: nat)
    requires a <= x && b <= y
    ensures a * b <= x * y
  {
    assert a * b <= x * b && x * b <= x * y;
  }

  /** A bound in closed form: the price over its largest common denominator, in tier q. */
  predicate PriceFits(price: Ratio, q: nat) {
    var n, d := price.numerator, price.denominator * Pow5(q);
    n * d * (TierUnits(q) + 25600 * Pow6(q)) < U128 && d * d < U128
  }

  lemma {:induction false} TiersGrow(i: nat, q: nat)
    requires i <= q
    ensures Pow5(i) <= Pow5(q) && Pow6(i) <= Pow6(q) && TierUnits(i) <= TierUnits(q)
    decreases q
  {
    if i < q {
      TiersGrow(i, q - 1);
    }
  }

  /** Up to the tier of the bound no number of a step reaches 2^128. */
  lemma TierPeak(price: Ratio, i: nat, q: nat, acc: Ratio, tp: Ratio, count: nat)
    requires PriceFits(price, q) && i <= q && count <= STRIDE && WithinTiers(price, i, acc, tp)
    requires price.denominator > 0
    ensures PlusFits(acc, count, tp) && RaiseFits(tp)
  {
    hide Pow5, Pow6, TierUnits;
    TiersGrow(i, q);
    var n, d, t, p := price.numerator, price.denominator * Pow5(q), TierUnits(q), Pow6(q);
    Products(n, TierUnits(i), n, t);
    Products(n, Pow6(i), n, p);
    Products(price.denominator, Pow5(i), price.denominator, Pow5(q));
    BoundSplits(n, d, t, p);
    PlusBound(n * t, n * p, d, acc, count, tp);
    RaiseBound(n * t, n * p, d, tp);
  }

  /** The largest numbers of a step, from bounds on the accumulator and the price. */
  lemma PlusBound(sum: nat, top: nat, d: nat, acc: Ratio, count: nat, tp: Ratio)
    requires acc.numerator <= sum && acc.denominator <= d && tp.numerator <= top && tp.denominator <= d
    requires count <= 25600 && d > 0 && sum * d + (25600 * top) * d < U128 && d * d < U128
    ensures PlusFits(acc, count, tp)
  {
    NotNegative(count, tp.numerator);
    var units: nat, rest: nat := count * tp.numerator, 25600 * top;
    Products(acc.numerator, tp.denominator, sum, d);
    Products(count, tp.numerator, 25600, top);
    Products(units, acc.denominator, rest, d);
    Products(acc.denominator, tp.denominator, d, d);
    AtLeast(rest, d);
    NotNegative(sum, d);
  }

  lemma AtLeast(n: nat, d: nat)
    requires d > 0
    ensures n <= n * d
  {
    assert n * d == n * (d - 1) + n;
    NotNegative(n, d - 1);
  }

  lemma NotNegative(n: nat, d: nat)
    ensures n * d >= 0
  {
  }

  lemma RaiseBound(sum: nat, top: nat, d: nat, tp: Ratio)
    requires tp.numerator <= top && tp.denominator <= d
    requires d > 0 && sum * d + (25600 * top) * d < U128 && d * d < U128
    ensures RaiseFits(tp)
  {
    AtLeast(25600 * top, d);
    NotNegative(sum, d);
    RootBound(d);
  }

  lemma BoundSplits(n: nat, d: nat, t: nat, p: nat)
    ensures n * d * (t + 25600 * p) == (n * t) * d + (25600 * (n * p)) * d
  {
    assert n * d * (t + 25600 * p) == n * d * t + n * d * (25600 * p);
    assert n * d * t == (n * t) * d;
    assert n * d * (25600 * p) == (25600 * (n * p)) * d;
  }

  lemma RootBound(d: nat)
    requires d * d < U128
    ensures d * 5 < U128
  {
    if d >= 0x1_0000_0000_0000_0000 {
      Products(0x1_0000_0000_0000_0000, 0x1_0000_0000_0000_0000, d, d);
    }
  }

  /** Prices of 32-bit parts are within the bound in all eight tiers of a transaction. */
  lemma SmallPricesFit(price: Ratio, q: nat)
    requires SmallPrice(price) && q <= 7
    ensures PriceFits(price, q)
  {
    hide Pow5, Pow6, TierUnits;
    TierNumbers(q);
    var n, d := price.numerator, price.denominator * Pow5(q);
    Products(price.denominator, Pow5(q), 0x1_0000_0000, 78125);
    Products(n, d, 0x1_0000_0000, 0x1_0000_0000 * 78125);
    Products(n * d, TierUnits(q) + 25600 * Pow6(q),
             0x1_0000_0000 * (0x1_0000_0000 * 78125), 25831808000 + 25600 * 279936);
    Products(d, d, 0x1_0000_0000 * 78125, 0x1_0000_0000 * 78125);
  }

  lemma {:induction false} TierNumbers(i: nat)
    requires i <= 7
    ensures Pow5(i) <= 78125 && Pow6(i) <= 279936 && TierUnits(i) <= 25831808000
    decreases i
  {
    assert STRIDE == 25600;
    assert Pow5(1) == 5 && Pow6(1) == 6 && TierUnits(1) == 128000;
    assert Pow5(2) == 25 && Pow6(2) == 36 && TierUnits(2) == 1408000;
    assert Pow5(3) == 125 && Pow6(3) == 216 && TierUnits(3) == 11648000;
    assert Pow5(4) == 625 && Pow6(4) == 1296 && TierUnits(4) == 85888000;
    assert Pow5(5) == 3125 && Pow6(5) == 7776 && TierUnits(5) == 595328000;
    assert Pow5(6) == 15625 && Pow6(6) == 46656 && TierUnits(6) == 3971968000;
    assert Pow5(7) == 78125 && Pow6(7) == 279936 && TierUnits(7) == 25831808000;
  }

  // ----- the tiered fee -----------------------------------------------------------------

  /** The accumulator behind the full tiers and the rest that remain, at the price of the tier. */
  ghost function AfterTiers(ar: Arithmetic, acc: Ratio, price: Ratio, remaining: nat): Option<Ratio>
    decreases remaining
  {
    if remaining >= STRIDE then
      var acc' :- Plus(ar, acc, STRIDE, price);
      var price' :- Raised(ar, price);
      AfterTiers(ar, acc', price', remaining - STRIDE)
    else if remaining > 0 then Plus(ar, acc, remaining, price)
    else Some(acc)
  }

  /** The floor of the accumulated cost, or none where the process stops at a division by zero. */
  ghost function TierFloor(ar: Arithmetic, price: Ratio, size: nat): Option<nat> {
    if size == 0 || price.numerator == 0 || price.denominator == 0 then Some(0)
    else
      var acc :- AfterTiers(ar, Ratio(0, 1), price, size);
      if acc.denominator == 0 then None else Some(acc.numerator / acc.denominator)
  }

  /** The fee keeps 64 bits of it. */
  ghost function TierFee(ar: Arithmetic, price: Ratio, size: nat): Option<nat> {
    var floor :- TierFloor(ar, price, size);
    Some(Wrap64(floor))
  }

  /** The fee that the tiers promise: the floor of the exact cost. */
  ghost function TierFeeDue(price: Ratio, size: nat): nat {
    TieredCostZero(price, size);
    TieredCost(price, size).Floor
  }

  /** The fee due in 64 bits, which is the fee due exactly when that fits. */
  ghost predicate Charges(fee: Option<nat>, due: nat) {
    && fee == Some(Wrap64(due))
    && (fee == Some(due) <==> due <= U64_MAX)
  }

  lemma WrapCharges(due: nat)
    ensures Charges(Some(Wrap64(due)), due)
  {
  }

  /** What is known of a price before the loop runs: over 128 bits it is within the bound of the last tier
      that the size enters, or the size stays in the first tier. */
  predicate TierFits(ar: Arithmetic, price: Ratio, size: nat) {
    || ar.Naturals?
    || (size > 0 && PriceFits(price, (size - 1) / STRIDE))
    || (price.numerator <= U64_MAX && price.denominator <= U64_MAX && size <= STRIDE)
    || (SmallPrice(price) && size <= MAX_SIZE)
  }

  /** The loop and the fee, over either arithmetic. The fee is the floor of the exact cost exactly when that
      is a 64-bit number, over naturals for every price and size, and over 128 bits for every price within
      the bound. */
  method TierRefScriptFee(ar: Arithmetic, price: Ratio, size: nat) returns (fee: Option<nat>)
    ensures fee == TierFee(ar, price, size)
    ensures TierFits(ar, price, size) ==> Charges(fee, TierFeeDue(price, size))
  {
    hide AfterTiers, TierFeeDue, TierFits, Charges;
    if TierFits(ar, price, size) {
      TierLaw(ar, price, size);
    }
    if size == 0 || price.numerator == 0 || price.denominator == 0 {
      return Some(0);
    }
    var acc :- AccumulateTiers(ar, price, size);
    if acc.denominator == 0 {
      return None;
    }
    fee := Some(Wrap64(acc.numerator / acc.denominator));
  }

  /** The law of the tiered fee. */
  lemma TierLaw(ar: Arithmetic, price: Ratio, size: nat)
    requires TierFits(ar, price, size)
    ensures Charges(TierFee(ar, price, size), TierFeeDue(price, size))
  {
    hide TierFloor, TierFeeDue, TiersFit, PriceFits, SmallPrice;
    NaturalFee(price, size);
    WrapCharges(TierFeeDue(price, size));
    if ar.Bits128? {
      if size == 0 || price.denominator == 0 {
        NothingDue(price, size);
      } else if SmallPrice(price) && size <= MAX_SIZE {
        SmallPricesFit(price, (size - 1) / STRIDE);
        PriceFitsFee(price, size);
      } else if PriceFits(price, (size - 1) / STRIDE) {
        PriceFitsFee(price, size);
      } else {
        FirstTierFits(price, size);
        FittingFee(price, size);
      }
    }
  }

  lemma NothingDue(price: Ratio, size: nat)
    requires size == 0 || price.denominator == 0
    ensures TierFloor(Bits128, price, size) == TierFloor(Naturals, price, size)
  {
  }

  method AccumulateTiers(ar: Arithmetic, price: Ratio, size: nat) returns (r: Option<Ratio>)
    ensures r == AfterTiers(ar, Ratio(0, 1), price, size)
  {
    hide Plus, Raised;
    var remaining := size;
    var tp := price;
    var acc := Ratio(0, 1);
    while remaining >= STRIDE
      invariant remaining >= 0
      invariant AfterTiers(ar, acc, tp, remaining) == AfterTiers(ar, Ratio(0, 1), price, size)
    {
      var acc' :- Accumulate(ar, acc, STRIDE, tp);
      var tp' :- RaisePrice(ar, tp);
      acc, tp, remaining := acc', tp', remaining - STRIDE;
    }
    if remaining > 0 {
      acc :- Accumulate(ar, acc, remaining, tp);
    }
    r := Some(acc);
  }

  /** Over naturals the loop adds up the tiers exactly. */
  lemma {:induction false} TiersAreExact(base: real, q: nat, acc: Ratio, tp: Ratio, remaining: nat)
    requires Is(acc, Tiers(base, q, 0)) && Is(tp, TierPrice(base, q))
    ensures var r := AfterTiers(Naturals, acc, tp, remaining);
            r.Some? && Is(r.value, Tiers(base, q + remaining / STRIDE, remaining % STRIDE))
    decreases remaining
  {
    hide Plus, Raised, Is, Tiers, TierPrice, Coprime, Times;
    if remaining >= STRIDE {
      PlusIsExact(acc, Tiers(base, q, 0), STRIDE, tp, TierPrice(base, q));
      RaisedIsExact(tp, TierPrice(base, q));
      TierStep(base, q);
      TiersAreExact(base, q + 1, Plus(Naturals, acc, STRIDE, tp).value, Raised(Naturals, tp).value, remaining - STRIDE);
      NextTier(q, remaining);
    } else {
      TierRest(base, q, remaining);
      if remaining > 0 {
        PlusIsExact(acc, Tiers(base, q, 0), remaining, tp, TierPrice(base, q));
      }
    }
  }

  lemma NextTier(q: nat, remaining: nat)
    requires remaining >= STRIDE
    ensures q + 1 + (remaining - STRIDE) / STRIDE == q + remaining / STRIDE
    ensures (remaining - STRIDE) % STRIDE == remaining % STRIDE
  {
    assert STRIDE == 25600;
  }

  /** For every price and size the fee over naturals is the floor of the exact cost. */
  lemma NaturalFee(price: Ratio, size: nat)
    ensures TierFloor(Naturals, price, size) == Some(TierFeeDue(price, size))
  {
    hide AfterTiers, Tiers, TierPrice;
    TieredCostZero(price, size);
    if size > 0 && price.numerator > 0 && price.denominator > 0 {
      var base := price.numerator as real / price.denominator as real;
      TiersStart(price.numerator, price.denominator, base);
      TiersAreExact(base, 0, Ratio(0, 1), price, size);
      var r := AfterTiers(Naturals, Ratio(0, 1), price, size).value;
      RatioFloor(r.numerator, r.denominator, TieredCost(price, size));
    }
  }

  /** No number of the loop over naturals reaches 2^128. */
  ghost predicate TiersFit(acc: Ratio, price: Ratio, remaining: nat)
    decreases remaining
  {
    if remaining >= STRIDE then
      var acc', price' := Plus(Naturals, acc, STRIDE, price), Raised(Naturals, price);
      && PlusFits(acc, STRIDE, price) && RaiseFits(price)
      && (acc'.Some? && price'.Some? ==> TiersFit(acc'.value, price'.value, remaining - STRIDE))
    else remaining > 0 ==> PlusFits(acc, remaining, price)
  }

  lemma {:induction false} FittingTiers(acc: Ratio, price: Ratio, remaining: nat)
    requires TiersFit(acc, price, remaining)
    ensures AfterTiers(Bits128, acc, price, remaining) == AfterTiers(Naturals, acc, price, remaining)
    decreases remaining
  {
    hide Plus, Raised, PlusFits, RaiseFits;
    if remaining >= STRIDE {
      FittingPlus(acc, STRIDE, price);
      FittingRaise(price);
      var acc', price' := Plus(Naturals, acc, STRIDE, price), Raised(Naturals, price);
      if acc'.Some? && price'.Some? {
        FittingTiers(acc'.value, price'.value, remaining - STRIDE);
      }
    } else if remaining > 0 {
      FittingPlus(acc, remaining, price);
    }
  }

  /** Where no number of the loop reaches 2^128 the fee over 128 bits is that over naturals. */
  lemma FittingFee(price: Ratio, size: nat)
    requires TiersFit(Ratio(0, 1), price, size)
    ensures TierFloor(Bits128, price, size) == TierFloor(Naturals, price, size)
  {
    hide AfterTiers, TiersFit;
    FittingTiers(Ratio(0, 1), price, size);
  }

  /** A price within the bound of the last tier fits. */
  lemma PriceFitsFee(price: Ratio, size: nat)
    requires size > 0 && price.denominator > 0 && PriceFits(price, (size - 1) / STRIDE)
    ensures TierFloor(Bits128, price, size) == TierFloor(Naturals, price, size)
  {
    hide TierFloor, TiersFit, PriceFits, Tiers, TierPrice, WithinTiers;
    var base := price.numerator as real / price.denominator as real;
    TiersStart(price.numerator, price.denominator, base);
    WithinStart(price);
    TiersWithin(price, base, 0, (size - 1) / STRIDE, Ratio(0, 1), price, size);
    FittingFee(price, size);
  }

  lemma {:induction false} TiersWithin(price: Ratio, base: real, i: nat, q: nat, acc: Ratio, tp: Ratio, remaining: nat)
    requires PriceFits(price, q) && (remaining > 0 ==> i + (remaining - 1) / STRIDE <= q)
    requires price.denominator > 0 && base == price.numerator as real / price.denominator as real
    requires Is(acc, Tiers(base, i, 0)) && Is(tp, TierPrice(base, i)) && WithinTiers(price, i, acc, tp)
    ensures TiersFit(acc, tp, remaining)
    decreases remaining
  {
    hide Plus, Raised, PlusFits, RaiseFits, Is, Tiers, TierPrice, Coprime, Times, WithinTiers, PriceFits;
    if remaining > 0 {
      var count := if remaining >= STRIDE then STRIDE else remaining;
      TierPeak(price, i, q, acc, tp, count);
    }
    if remaining >= STRIDE {
      PlusIsExact(acc, Tiers(base, i, 0), STRIDE, tp, TierPrice(base, i));
      RaisedIsExact(tp, TierPrice(base, i));
      TierStep(base, i);
      var acc', tp' := Plus(Naturals, acc, STRIDE, tp).value, Raised(Naturals, tp).value;
      WithinStep(price, base, i, acc, tp, acc', tp');
      LastTierBelow(remaining);
      TiersWithin(price, base, i + 1, q, acc', tp', remaining - STRIDE);
    }
  }

  lemma LastTierBelow(remaining: nat)
    requires remaining >= STRIDE
    ensures remaining > STRIDE ==> (remaining - STRIDE - 1) / STRIDE + 1 == (remaining - 1) / STRIDE
  {
    assert STRIDE == 25600;
  }

  /** Every price of 64-bit parts fits the first tier. */
  lemma FirstTierFits(price: Ratio, size: nat)
    requires price.numerator <= U64_MAX && price.denominator <= U64_MAX && size <= STRIDE
    ensures TiersFit(Ratio(0, 1), price, size)
  {
    hide Plus, Raised;
    Products(size, price.numerator, STRIDE, U64_MAX);
    Products(STRIDE, price.numerator, STRIDE, U64_MAX);
  }

  lemma WithinStart(price: Ratio)
    requires price.denominator > 0
    ensures WithinTiers(price, 0, Ratio(0, 1), price)
  {
  }

  lemma WithinStep(price: Ratio, base: real, i: nat, acc: Ratio, tp: Ratio, acc': Ratio, tp': Ratio)
    requires price.denominator > 0 && base == price.numerator as real / price.denominator as real
    requires WithinTiers(price, i, acc, tp)
    requires Coprime(acc'.numerator, acc'.denominator) && Is(acc', Tiers(base, i + 1, 0))
    requires tp'.numerator <= tp.numerator * 6 && tp'.denominator <= tp.denominator * 5
    ensures WithinTiers(price, i + 1, acc', tp')
  {
    hide IsRatio, Coprime, Tiers, TierUnits;
    TierRatios(price.numerator, price.denominator, base, i + 1);
    LowestTerms(acc'.numerator, acc'.denominator, price.numerator * TierUnits(i + 1),
      price.denominator * Pow5(i + 1), Tiers(base, i + 1, 0));
    FactorsOut(price.numerator, Pow6(i), price.denominator, Pow5(i));
  }

  lemma TiersStart(num: nat, den: nat, base: real)
    requires den > 0 && base == num as real / den as real
    ensures IsRatio(num, den, TierPrice(base, 0))
    ensures IsRatio(0, 1, Tiers(base, 0, 0))
  {
  }

  lemma TieredCostZero(price: Ratio, size: nat)
    ensures TieredCost(price, size) >= 0.0
    ensures size == 0 || price.numerator == 0 || price.denominator == 0 ==> TieredCost(price, size) == 0.0
  {
    GrowthPositive(size / STRIDE);
  }

  lemma {:induction false} GrowthPositive(q: nat)
    ensures Growth(q) > 0.0 && GrowthSum(q) >= 0.0
  {
    if q > 0 {
      GrowthPositive(q - 1);
    }
  }

  // ----- the script fee ----------------------------------------------------------------

  /** One execution-unit price term: an absent or degenerate price costs nothing. */
  ghost function TermCost(value: nat, price: Option<Ratio>): real {
    if price.None? || price.value.denominator == 0 then 0.0
    else Times(value, price.value.numerator as real / price.value.denominator as real)
  }

  /** The two costs over their common denominator, in integers, and rounded up once. */
  lemma CostInIntegers(mem: nat, steps: nat, p: Ratio, q: Ratio)
    requires p.denominator > 0 && q.denominator > 0
    ensures var sum := mem * p.numerator * q.denominator + steps * q.numerator * p.denominator;
            var common := p.denominator * q.denominator;
            common > 0 && Ceiling(TermCost(mem, Some(p)) + TermCost(steps, Some(q))) == (sum + common - 1) / common
  {
    hide IsRatio, Times, Ceiling, TermCost;
    TermRatio(mem, Some(p));
    TermRatio(steps, Some(q));
    var x, y := p.numerator as real / p.denominator as real, q.numerator as real / q.denominator as real;
    RatioTimes(mem, p.numerator, p.denominator, x);
    RatioTimes(steps, q.numerator, q.denominator, y);
    RatioAdd(mem * p.numerator, p.denominator, Times(mem, x), steps * q.numerator, q.denominator, Times(steps, y));
    RatioCeiling(mem * p.numerator * q.denominator + steps * q.numerator * p.denominator,
                 p.denominator * q.denominator, Times(mem, x) + Times(steps, y));
  }

  /** A term that the loop passes over: no price, a degenerate one, or nothing to pay for. */
  predicate Skipped(value: nat, price: Option<Ratio>) {
    price.None? || price.value.denominator == 0 || price.value.numerator == 0 || value == 0
  }

  ghost function AddTerm(ar: Arithmetic, acc: Ratio, value: nat, price: Option<Ratio>): Option<Ratio> {
    if Skipped(value, price) then Some(acc) else Plus(ar, acc, value, price.value)
  }

  ghost function AfterTerms(ar: Arithmetic, acc: Ratio, terms: seq<(U64, Option<Ratio>)>): Option<Ratio>
    decreases |terms|
  {
    if terms == [] then Some(acc)
    else
      var acc' :- AddTerm(ar, acc, terms[0].0, terms[0].1);
      AfterTerms(ar, acc', terms[1..])
  }

  /** The fee in 64 bits, or none where the process stops at a division by zero. */
  ghost function UnitsFee(ar: Arithmetic, mem: U64, steps: U64, priceMem: Option<Ratio>, priceStep: Option<Ratio>)
    : Option<nat>
  {
    var acc :- AfterTerms(ar, Ratio(0, 1), [(mem, priceMem), (steps, priceStep)]);
    if acc.denominator == 0 then None
    else Some(Wrap64((acc.numerator + acc.denominator - 1) / acc.denominator))
  }

  /** The fee that the prices promise: one ceiling of the exact sum of both costs. */
  ghost function UnitsFeeDue(mem: nat, steps: nat, priceMem: Option<Ratio>, priceStep: Option<Ratio>): nat {
    TermCostPositive(mem, priceMem);
    TermCostPositive(steps, priceStep);
    Ceiling(TermCost(mem, priceMem) + TermCost(steps, priceStep))
  }

  lemma TermCostPositive(value: nat, price: Option<Ratio>)
    ensures TermCost(value, price) >= 0.0
  {
  }

  /** Numerators and denominators below 2^31. */
  predicate SmallTerm(price: Option<Ratio>) {
    price.Some? ==> price.value.numerator < 0x8000_0000 && price.value.denominator < 0x8000_0000
  }

  predicate Word(price: Option<Ratio>) {
    price.Some? ==> price.value.numerator <= U64_MAX && price.value.denominator <= U64_MAX
  }

  /** The first cost in lowest terms. */
  ghost function FirstCost(mem: U64, priceMem: Option<Ratio>): Ratio {
    if Skipped(mem, priceMem) then Ratio(0, 1)
    else
      var p := priceMem.value;
      var g := Gcd(mem * p.numerator, p.denominator);
      if g == 0 then Ratio(0, 1) else Ratio((mem * p.numerator) / g, p.denominator / g)
  }

  /** Both costs over a common denominator: with the first one a/b in lowest terms and the second price n/d,
      a·d + (steps·n)·b over b·d. */
  ghost function CostSum(mem: U64, steps: U64, priceMem: Option<Ratio>, priceStep: Option<Ratio>): Ratio {
    var first := FirstCost(mem, priceMem);
    if Skipped(steps, priceStep) then first
    else
      Ratio(RawNum(first, steps, priceStep.value), RawDen(first, priceStep.value))
  }

  /** The loop over both terms and the fee, over either arithmetic. The fee is one ceiling of the exact sum
      exactly when that is a 64-bit number and, over 128 bits, the sum of the numerators does not wrap. */
  method ScriptFee(ar: Arithmetic, mem: U64, steps: U64, priceMem: Option<Ratio>, priceStep: Option<Ratio>)
    returns (fee: Option<nat>)
    requires Word(priceMem) && Word(priceStep)
    ensures fee == UnitsFee(ar, mem, steps, priceMem, priceStep)
    ensures var due := UnitsFeeDue(mem, steps, priceMem, priceStep);
            fee == Some(due) <==>
              due <= U64_MAX && (ar.Naturals? || CostSum(mem, steps, priceMem, priceStep).numerator < U128)
  {
    hide AfterTerms, UnitsFeeDue, Word, Skipped, CostSum;
    var acc := AccumulateTerms(ar, [(mem, priceMem), (steps, priceStep)]);
    fee := None;
    if acc.Some? && acc.value.denominator != 0 {
      fee := Some(Wrap64((acc.value.numerator + acc.value.denominator - 1) / acc.value.denominator));
    }
    UnitsLaw(ar, mem, steps, priceMem, priceStep);
  }

  method AccumulateTerms(ar: Arithmetic, terms: seq<(U64, Option<Ratio>)>) returns (r: Option<Ratio>)
    ensures r == AfterTerms(ar, Ratio(0, 1), terms)
  {
    hide Plus;
    var acc := Ratio(0, 1);
    for i := 0 to |terms|
      invariant AfterTerms(ar, acc, terms[i..]) == AfterTerms(ar, Ratio(0, 1), terms)
    {
      var (value, price) := terms[i];
      assert terms[i..][1..] == terms[i + 1..];
      if price.None? || price.value.denominator == 0 || price.value.numerator == 0 || value == 0 {
        continue;
      }
      acc :- Accumulate(ar, acc, value, price.value);
    }
    r := Some(acc);
  }

  lemma TermIsExact(acc: Ratio, x: real, value: nat, price: Option<Ratio>)
    requires Is(acc, x)
    ensures var r := AddTerm(Naturals, acc, value, price);
            r.Some? && Is(r.value, x + TermCost(value, price))
  {
    hide Plus, Coprime, IsRatio, TermCost;
    if Skipped(value, price) {
      NoTerm(value, price);
    } else {
      TermRatio(value, price);
      PlusIsExact(acc, x, value, price.value,
        price.value.numerator as real / price.value.denominator as real);
    }
  }

  /** Both terms, one after the other. */
  lemma BothTerms(ar: Arithmetic, mem: U64, steps: U64, priceMem: Option<Ratio>, priceStep: Option<Ratio>)
    ensures AfterTerms(ar, Ratio(0, 1), [(mem, priceMem), (steps, priceStep)])
         == var first := AddTerm(ar, Ratio(0, 1), mem, priceMem);
            if first.None? then None else AddTerm(ar, first.value, steps, priceStep)
  {
    hide AddTerm;
    var terms: seq<(U64, Option<Ratio>)> := [(mem, priceMem), (steps, priceStep)];
    assert terms[1..] == [(steps, priceStep)] && terms[1..][1..] == [];
    var first := AddTerm(ar, Ratio(0, 1), mem, priceMem);
    if first.Some? {
      assert AfterTerms(ar, first.value, terms[1..])
          == var second := AddTerm(ar, first.value, steps, priceStep);
             if second.None? then None else AfterTerms(ar, second.value, []);
    }
  }

  /** For all prices and units the fee over naturals is one ceiling of the exact sum. */
  lemma NaturalUnitsFee(mem: U64, steps: U64, priceMem: Option<Ratio>, priceStep: Option<Ratio>)
    ensures UnitsFee(Naturals, mem, steps, priceMem, priceStep)
         == Some(Wrap64(UnitsFeeDue(mem, steps, priceMem, priceStep)))
  {
    hide AddTerm, AfterTerms, TermCost, Ceiling, IsRatio;
    BothTerms(Naturals, mem, steps, priceMem, priceStep);
    RatioStart(0.0);
    TermIsExact(Ratio(0, 1), 0.0, mem, priceMem);
    var first := AddTerm(Naturals, Ratio(0, 1), mem, priceMem).value;
    TermIsExact(first, 0.0 + TermCost(mem, priceMem), steps, priceStep);
    var both := AddTerm(Naturals, first, steps, priceStep).value;
    var cost := TermCost(mem, priceMem) + TermCost(steps, priceStep);
    RatioPositive(both.numerator, both.denominator, cost);
    RatioCeiling(both.numerator, both.denominator, cost);
  }

  /** The first term fits for all 64-bit prices. */
  lemma FirstTermFits(value: U64, price: Option<Ratio>)
    requires Word(price)
    ensures var r := FirstCost(value, price);
            && AddTerm(Bits128, Ratio(0, 1), value, price) == AddTerm(Naturals, Ratio(0, 1), value, price) == Some(r)
            && 0 < r.denominator <= U64_MAX && r.numerator < U128
            && (SmallTerm(price) ==> FirstTerm(r))
            && Is(r, TermCost(value, price))
  {
    hide Coprime;
    if !Skipped(value, price) {
      var p := price.value;
      Products(value, p.numerator, U64_MAX, U64_MAX);
      FittingPlus(Ratio(0, 1), value, p);
      var x := p.numerator as real / p.denominator as real;
      RatioTimes(value, p.numerator, p.denominator, x);
      ReducedIs(Ratio(value * p.numerator, p.denominator), Times(value, x));
      assert Plus(Naturals, Ratio(0, 1), value, p) == Reduced(Ratio(value * p.numerator, p.denominator));
      if SmallTerm(price) {
        Products(value, p.numerator, U64_MAX, 0x8000_0000);
      }
    } else {
      NoTerm(value, price);
    }
  }

  /** Wrapping each part and the sum is wrapping the sum. */
  lemma OfSum(x: nat, y: nat)
    ensures Bits128.Of(Bits128.Of(x) + Bits128.Of(y)) == Bits128.Of(x + y)
  {
    var m := 0x1_0000_0000_0000_0000_0000_0000_0000_0000;
    var k := x / m + y / m;
    assert x + y == x % m + y % m + k * m;
    SameResidue(x + y, x % m + y % m, k, m);
  }

  /** The sum before reduction. */
  function RawNum(acc: Ratio, value: nat, price: Ratio): nat {
    var a, b: nat := acc.numerator * price.denominator, (value * price.numerator) * acc.denominator;
    a + b
  }

  function RawDen(acc: Ratio, price: Ratio): nat { acc.denominator * price.denominator }

  /** One step over either arithmetic: numerator and denominator wrap once each. */
  lemma PlusWraps(ar: Arithmetic, acc: Ratio, value: nat, price: Ratio)
    requires value * price.numerator < U128
    ensures Plus(ar, acc, value, price)
         == Reduced(Ratio(ar.Of(RawNum(acc, value, price)), ar.Of(RawDen(acc, price))))
  {
    hide Reduced, Arithmetic.Of;
    if ar.Bits128? {
      OfSmall(value * price.numerator);
      OfSum(acc.numerator * price.denominator, (value * price.numerator) * acc.denominator);
    } else {
      OfNatural(acc.numerator * price.denominator);
      OfNatural(value * price.numerator);
      OfNatural((value * price.numerator) * acc.denominator);
      OfNatural(acc.numerator * price.denominator + (value * price.numerator) * acc.denominator);
    }
  }

  /** Of two terms with 64-bit prices only the numerator can wrap. */
  lemma SecondTerm(ar: Arithmetic, acc: Ratio, value: U64, price: Ratio)
    requires 0 < acc.denominator <= U64_MAX && 0 < price.denominator <= U64_MAX && price.numerator <= U64_MAX
    ensures Plus(ar, acc, value, price) == Reduced(Ratio(ar.Of(RawNum(acc, value, price)), RawDen(acc, price)))
    ensures 0 < RawDen(acc, price) < U128
  {
    hide Reduced, Plus, Arithmetic.Of;
    Products(value, price.numerator, U64_MAX, U64_MAX);
    Products(acc.denominator, price.denominator, U64_MAX, U64_MAX);
    Products(1, 1, acc.denominator, price.denominator);
    PlusWraps(ar, acc, value, price);
    OfSmall(acc.denominator * price.denominator);
    OfNatural(acc.denominator * price.denominator);
  }

  lemma OfNatural(n: nat)
    ensures Naturals.Of(n) == n
  {
  }

  function CeilingOf(num: nat, den: nat): nat
    requires den > 0
  {
    (num + den - 1) / den
  }

  /** A numerator that wraps lowers the ceiling, because 2^128 is larger than the denominator. */
  lemma WrapLowers(num: nat, den: nat)
    requires 0 < den < U128 && num >= U128
    ensures CeilingOf(Bits128.Of(num), den) < CeilingOf(num, den)
  {
    assert Bits128.Of(num) <= num - U128 by {
      assert num == U128 * (num / U128) + num % U128;
    }
    QuotientMonotone(Bits128.Of(num) + den - 1, num - 1, den);
    SameQuotient(num - 1, den);
  }

  lemma QuotientMonotone(a: nat, b: nat, d: nat)
    requires d > 0 && a <= b
    ensures a / d <= b / d
  {
    var p, q := a / d, b / d;
    assert a == d * p + a % d && b == d * q + b % d;
    if p > q {
      Products(d, q + 1, d, p);
    }
  }

  lemma SameQuotient(a: nat, d: nat)
    requires d > 0
    ensures (a + d) / d == a / d + 1
  {
    assert a == d * (a / d) + a % d;
    DivUnique(a + d, d, a / d + 1, a % d);
  }

  /** The fee is the ceiling of the sum, of which only the numerator may wrap. */
  lemma FeeFromSum(ar: Arithmetic, mem: U64, steps: U64, priceMem: Option<Ratio>, priceStep: Option<Ratio>)
    requires Word(priceMem) && Word(priceStep)
    ensures var sum := CostSum(mem, steps, priceMem, priceStep);
            && 0 < sum.denominator < U128
            && UnitsFee(ar, mem, steps, priceMem, priceStep)
               == Some(Wrap64(CeilingOf(ar.Of(sum.numerator), sum.denominator)))
  {
    hide Reduced, Plus, AfterTerms, Word, SmallTerm, FirstCost, TermCost, FirstTerm, IsRatio;
    FirstTermFits(mem, priceMem);
    BothTerms(ar, mem, steps, priceMem, priceStep);
    var first := FirstCost(mem, priceMem);
    var sum := CostSum(mem, steps, priceMem, priceStep);
    if Skipped(steps, priceStep) {
      OfSmall(first.numerator);
    } else {
      WordParts(priceStep);
      SecondTerm(ar, first, steps, priceStep.value);
      ReducedQuotient(Ratio(ar.Of(sum.numerator), sum.denominator));
    }
  }

  lemma WordParts(price: Option<Ratio>)
    requires Word(price) && price.Some?
    ensures price.value.numerator <= U64_MAX && price.value.denominator <= U64_MAX
  {
  }

  /** The fee due is the ceiling of the sum. */
  lemma DueFromSum(mem: U64, steps: U64, priceMem: Option<Ratio>, priceStep: Option<Ratio>)
    requires Word(priceMem) && Word(priceStep)
    ensures var sum := CostSum(mem, steps, priceMem, priceStep);
            && sum.denominator > 0
            && UnitsFeeDue(mem, steps, priceMem, priceStep) == CeilingOf(sum.numerator, sum.denominator)
  {
    hide AddTerm, Word, SmallTerm, FirstCost, TermCost, FirstTerm, IsRatio, Ceiling, Times;
    FirstTermFits(mem, priceMem);
    var first, cost := FirstCost(mem, priceMem), TermCost(mem, priceMem) + TermCost(steps, priceStep);
    var sum := CostSum(mem, steps, priceMem, priceStep);
    if Skipped(steps, priceStep) {
      NoTerm(steps, priceStep);
    } else {
      var p := priceStep.value;
      TermRatio(steps, priceStep);
      RatioTimes(steps, p.numerator, p.denominator, p.numerator as real / p.denominator as real);
      RatioAdd(first.numerator, first.denominator, TermCost(mem, priceMem),
               steps * p.numerator, p.denominator, TermCost(steps, priceStep));
    }
    RatioPositive(sum.numerator, sum.denominator, cost);
    RatioCeiling(sum.numerator, sum.denominator, cost);
  }

  /** The law of the script fee, for all prices of 64-bit parts: it is the one due exactly when that is a
      64-bit number and the sum does not wrap. */
  lemma UnitsLaw(ar: Arithmetic, mem: U64, steps: U64, priceMem: Option<Ratio>, priceStep: Option<Ratio>)
    requires Word(priceMem) && Word(priceStep)
    ensures var fee, due := UnitsFee(ar, mem, steps, priceMem, priceStep), UnitsFeeDue(mem, steps, priceMem, priceStep);
            && fee.Some?
            && (fee == Some(due) <==>
                  due <= U64_MAX && (ar.Naturals? || CostSum(mem, steps, priceMem, priceStep).numerator < U128))
  {
    hide UnitsFee, UnitsFeeDue, CostSum, Word, CeilingOf, Wrap64;
    var sum := CostSum(mem, steps, priceMem, priceStep);
    FeeFromSum(ar, mem, steps, priceMem, priceStep);
    DueFromSum(mem, steps, priceMem, priceStep);
    WrapBelow(CeilingOf(sum.numerator, sum.denominator));
    if ar.Bits128? {
      if sum.numerator < U128 {
        OfSmall(sum.numerator);
      } else {
        WrapLowers(sum.numerator, sum.denominator);
        WrapBelow(CeilingOf(ar.Of(sum.numerator), sum.denominator));
      }
    }
  }

  lemma WrapBelow(n: nat)
    ensures Wrap64(n) <= n && (Wrap64(n) == n <==> n <= U64_MAX)
  {
  }

  /** Prices with parts below 2^31 never wrap, whatever the units. */
  lemma SmallTermsFit(mem: U64, steps: U64, priceMem: Option<Ratio>, priceStep: Option<Ratio>)
    requires SmallTerm(priceMem) && SmallTerm(priceStep)
    ensures Word(priceMem) && Word(priceStep) && CostSum(mem, steps, priceMem, priceStep).numerator < U128
  {
    hide AddTerm, FirstCost, TermCost, IsRatio, FirstTerm;
    FirstTermFits(mem, priceMem);
    if !Skipped(steps, priceStep) {
      TermPeak(FirstCost(mem, priceMem), steps, priceStep.value);
    }
  }

  /** Nor does a single term, whatever its price. */
  lemma OneTermFits(mem: U64, steps: U64, priceMem: Option<Ratio>, priceStep: Option<Ratio>)
    requires Word(priceMem) && Word(priceStep) && (Skipped(mem, priceMem) || Skipped(steps, priceStep))
    ensures CostSum(mem, steps, priceMem, priceStep).numerator < U128
  {
    hide AddTerm, TermCost, IsRatio, FirstTerm, SmallTerm, Gcd;
    FirstTermFits(mem, priceMem);
    if !Skipped(steps, priceStep) {
      Products(steps, priceStep.value.numerator, U64_MAX, U64_MAX);
    }
  }

  lemma RatioPositive(num: nat, den: nat, x: real)
    requires IsRatio(num, den, x)
    ensures den > 0
  {
  }

  /** What the accumulator of one small term cannot exceed. */
  predicate FirstTerm(acc: Ratio) {
    acc.numerator <= 0x8000_0000 * U64_MAX && acc.denominator <= 0x8000_0000
  }

  lemma TermPeak(acc: Ratio, value: U64, price: Ratio)
    requires FirstTerm(acc) && price.numerator < 0x8000_0000 && price.denominator < 0x8000_0000
    ensures PlusFits(acc, value, price)
  {
    Products(acc.numerator, price.denominator, 0x8000_0000 * U64_MAX, 0x8000_0000);
    Products(value, price.numerator, U64_MAX, 0x8000_0000);
    Products(value * price.numerator, acc.denominator, U64_MAX * 0x8000_0000, 0x8000_0000);
    Products(acc.denominator, price.denominator, 0x8000_0000, 0x8000_0000);
  }

  lemma RatioStart(x: real)
    requires x == 0.0
    ensures IsRatio(0, 1, x)
  {
  }

  lemma TermRatio(value: nat, price: Option<Ratio>)
    requires price.Some? && price.value.denominator > 0
    ensures var x := price.value.numerator as real / price.value.denominator as real;
            IsRatio(price.value.numerator, price.value.denominator, x) && TermCost(value, price) == Times(value, x)
  {
  }

  lemma NoTerm(value: nat, price: Option<Ratio>)
    requires Skipped(value, price)
    ensures TermCost(value, price) == 0.0
  {
  }

  // ----- where 128 bits are too few ----------------------------------------------------------

  lemma AlreadyReduced(f: Ratio, x: int, y: int)
    requires Combination(x, f.numerator, y, f.denominator) == 1
    ensures Reduced(f) == Some(f)
  {
    DividesIntro(1, f.numerator, f.numerator);
    DividesIntro(1, f.denominator, f.denominator);
    CombinationIsGcd(x, y, 1, f.numerator, f.denominator);
    GcdUnique(1, Gcd(f.numerator, f.denominator), f.numerator, f.denominator);
  }

  /** Reducing changes neither the floor nor the ceiling of the quotient. */
  lemma ReducedQuotient(f: Ratio)
    requires f.denominator > 0
    ensures var r := Reduced(f);
            && r.Some? && r.value.denominator > 0
            && r.value.numerator / r.value.denominator == f.numerator / f.denominator
            && (r.value.numerator + r.value.denominator - 1) / r.value.denominator
               == (f.numerator + f.denominator - 1) / f.denominator
  {
    hide Reduced, Coprime, Ceiling;
    var x := f.numerator as real / f.denominator as real;
    ReducedIs(f, x);
    var r := Reduced(f).value;
    RatioFloor(f.numerator, f.denominator, x);
    RatioFloor(r.numerator, r.denominator, x);
    RatioCeiling(f.numerator, f.denominator, x);
    RatioCeiling(r.numerator, r.denominator, x);
  }

  /** The first full tier, for prices with nothing to cancel in it. */
  lemma FirstTierSteps(ar: Arithmetic, n: nat, d: nat, x: int, y: int, u: int, v: int)
    requires 0 < n <= U64_MAX && 0 < d <= U64_MAX
    requires Combination(x, 25600 * n, y, d) == 1 && Combination(u, n * 6, v, d * 5) == 1
    ensures Plus(ar, Ratio(0, 1), 25600, Ratio(n, d)) == Some(Ratio(25600 * n, d))
    ensures Raised(ar, Ratio(n, d)) == Some(Ratio(n * 6, d * 5))
  {
    hide Reduced, Combination, Plus, Arithmetic.Of;
    SecondTerm(ar, Ratio(0, 1), 25600, Ratio(n, d));
    AlreadyReduced(Ratio(25600 * n, d), x, y);
    AlreadyReduced(Ratio(n * 6, d * 5), u, v);
    OfSmall(25600 * n);
    OfSmall(n * 6);
    OfSmall(d * 5);
    OfNatural(25600 * n);
    OfNatural(n * 6);
    OfNatural(d * 5);
  }

  /** The fee of a full tier and one byte at such a price, from its sum and denominator. */
  lemma OneByteMore(ar: Arithmetic, n: nat, d: nat, num: nat, den: nat, q: nat, r: nat)
    requires 0 < n <= U64_MAX && 0 < d <= U64_MAX
    requires Plus(ar, Ratio(0, 1), 25600, Ratio(n, d)) == Some(Ratio(25600 * n, d))
    requires Raised(ar, Ratio(n, d)) == Some(Ratio(n * 6, d * 5))
    requires num == ar.Of(RawNum(Ratio(25600 * n, d), 1, Ratio(n * 6, d * 5)))
    requires den == ar.Of(RawDen(Ratio(25600 * n, d), Ratio(n * 6, d * 5)))
    requires num == den * q + r && r < den
    ensures TierFloor(ar, Ratio(n, d), 25601) == Some(q)
  {
    hide Reduced, Plus, Raised, Arithmetic.Of;
    var first, raised := Ratio(25600 * n, d), Ratio(n * 6, d * 5);
    PlusWraps(ar, first, 1, raised);
    DivUnique(num, den, q, r);
    ReducedQuotient(Ratio(num, den));
    LastByte(ar, first, raised);
    OneTierOn(ar, Ratio(n, d), first, raised);
  }

  lemma LastByte(ar: Arithmetic, acc: Ratio, tp: Ratio)
    ensures AfterTiers(ar, acc, tp, 1) == Plus(ar, acc, 1, tp)
  {
    hide Plus, Raised;
  }

  lemma OneTierOn(ar: Arithmetic, price: Ratio, first: Ratio, raised: Ratio)
    requires Plus(ar, Ratio(0, 1), 25600, price) == Some(first) && Raised(ar, price) == Some(raised)
    ensures AfterTiers(ar, Ratio(0, 1), price, 25601) == AfterTiers(ar, first, raised, 1)
  {
    hide Plus, Raised;
  }

  /** At the price 2^63 / (2^61 - 1), a little above 4, a tier and a byte cost 102404; the wrapped sum
      makes it 4. */
  lemma LargePriceBreaks(n: nat, d: nat)
    requires n == 0x8000_0000_0000_0000 && d == 0x1FFF_FFFF_FFFF_FFFF
    ensures TierFeeDue(Ratio(n, d), 25601) == 102404
    ensures TierFee(Bits128, Ratio(n, d), 25601) == Some(4)
  {
    hide TierFloor, TierFeeDue, Combination, Plus, Raised, Arithmetic.Of;
    NothingToCancel(n, d);
    var x, y, u, v := -1106782126424436244, 113334489745862271434751, 1633305464859699882, -7839866231326559437;
    FirstTierSteps(Naturals, n, d, x, y, u, v);
    FirstTierSteps(Bits128, n, d, x, y, u, v);
    var num, den := PriceNumbers(n, d);
    OfNatural(num);
    OfNatural(den);
    OneByteMore(Naturals, n, d, num, den, 102404, 21267647932559834594975118523207528428);
    OfSmall(den);
    OfRemainder(num, 8000, 127605887595350743151804528154481000448);
    OneByteMore(Bits128, n, d, 127605887595350743151804528154481000448, den, 4, 21267647932557473411733683700601192428);
    NaturalFee(Ratio(n, d), 25601);
  }

  lemma NothingToCancel(n: nat, d: nat)
    requires n == 0x8000_0000_0000_0000 && d == 0x1FFF_FFFF_FFFF_FFFF
    ensures Combination(-1106782126424436244, 25600 * n, 113334489745862271434751, d) == 1
    ensures Combination(1633305464859699882, n * 6, -7839866231326559437, d * 5) == 1
  {
  }

  lemma OfRemainder(n: nat, q: nat, r: nat)
    requires n == U128 * q + r && r < U128
    ensures Bits128.Of(n) == r
  {
    DivUnique(n, U128, q, r);
  }

  lemma PriceNumbers(n: nat, d: nat) returns (num: nat, den: nat)
    requires n == 0x8000_0000_0000_0000 && d == 0x1FFF_FFFF_FFFF_FFFF
    ensures num == RawNum(Ratio(25600 * n, d), 1, Ratio(n * 6, d * 5))
    ensures den == RawDen(Ratio(25600 * n, d), Ratio(n * 6, d * 5))
    ensures num == 2722386541255103058450148663982300172648448 && den == 26584559915698317435017711113469952005
  {
    num, den := 2722386541255103058450148663982300172648448, 26584559915698317435017711113469952005;
  }

  /** A wrap may go unnoticed: at this price the product of the denominators passes 2^128, and the fee is
      still the one due. So fitting is enough and not needed. */
  lemma WrapUnnoticed(n: nat, d: nat)
    requires n == 1 && d == 0xFFFF_FFFF_FFFF_FFC5
    ensures !TiersFit(Ratio(0, 1), Ratio(n, d), 25601)
    ensures TierFee(Bits128, Ratio(n, d), 25601) == Some(TierFeeDue(Ratio(n, d), 25601))
  {
    hide TierFloor, TierFeeDue, TiersFit, Combination, Plus, Raised, Arithmetic.Of;
    var num, den := TinyNumbers(n, d);
    FirstTierSteps(Naturals, n, d, 8291667345944367569, -11507, -15372286728091292964, 1);
    FirstTierSteps(Bits128, n, d, 8291667345944367569, -11507, -15372286728091292964, 1);
    OfNatural(num);
    OfNatural(den);
    OneByteMore(Naturals, n, d, num, den, 0, num);
    OfSmall(num);
    OfRemainder(den, 4, 340282366920938452579795603943132775421);
    OneByteMore(Bits128, n, d, num, 340282366920938452579795603943132775421, 0, num);
    NaturalFee(Ratio(n, d), 25601);
    NoFit(n, d);
  }

  lemma TinyNumbers(n: nat, d: nat) returns (num: nat, den: nat)
    requires n == 1 && d == 0xFFFF_FFFF_FFFF_FFC5
    ensures num == RawNum(Ratio(25600 * n, d), 1, Ratio(n * 6, d * 5))
    ensures den == RawDen(Ratio(25600 * n, d), Ratio(n * 6, d * 5))
    ensures num == 2361293921899264856605342 && den == 1701411834604692306433294033670205621245
    ensures Combination(8291667345944367569, 25600 * n, -11507, d) == 1
    ensures Combination(-15372286728091292964, n * 6, 1, d * 5) == 1
  {
    num, den := 2361293921899264856605342, 1701411834604692306433294033670205621245;
  }

  /** The second step does not fit where the product of its denominators passes 2^128. */
  lemma NoFit(n: nat, d: nat)
    requires Plus(Naturals, Ratio(0, 1), 25600, Ratio(n, d)) == Some(Ratio(25600 * n, d))
    requires Raised(Naturals, Ratio(n, d)) == Some(Ratio(n * 6, d * 5)) && d * (d * 5) >= U128
    ensures !TiersFit(Ratio(0, 1), Ratio(n, d), 25601)
  {
    hide Plus, Raised;
    assert !PlusFits(Ratio(25600 * n, d), 1, Ratio(n * 6, d * 5));
    assert !TiersFit(Ratio(25600 * n, d), Ratio(n * 6, d * 5), 1);
  }

  /** A fee may not fit its 64 bits: two bytes at 2^63 each cost 2^64 and are charged nothing. */
  lemma TruncatedFee(n: nat)
    requires n == 0x8000_0000_0000_0000
    ensures TierFeeDue(Ratio(n, 1), 2) == 0x1_0000_0000_0000_0000
    ensures TierFee(Bits128, Ratio(n, 1), 2) == Some(0)
  {
    hide TierFloor, TierFits, Tiers;
    var base := n as real / 1 as real;
    assert 2 / STRIDE == 0 && 2 % STRIDE == 2;
    TierRest(base, 0, 2);
    TierNone(base);
    assert TieredCost(Ratio(n, 1), 2) == (2 * n) as real;
    TierFitsFirst(Ratio(n, 1), 2);
    TierLaw(Bits128, Ratio(n, 1), 2);
  }

  lemma TierFitsFirst(price: Ratio, size: nat)
    requires price.numerator <= U64_MAX && price.denominator <= U64_MAX && size <= STRIDE
    ensures TierFits(Bits128, price, size)
  {
  }

  /** Two execution prices below one: a unit of each costs 2 and is charged 1. */
  lemma LargeTermsBreak(a: nat, b: nat, c: nat, d: nat)
    requires b == 0xFFFF_FFFF_FFFF_FFFF && a == b - 1 && d == b - 2 && c == b - 3
    ensures var p, q := Some(Ratio(a, b)), Some(Ratio(c, d));
            UnitsFeeDue(1, 1, p, q) == 2 && UnitsFee(Bits128, 1, 1, p, q) == Some(1)
  {
    hide UnitsFee, UnitsFeeDue, Combination, Arithmetic.Of, Gcd;
    var p, q := Some(Ratio(a, b)), Some(Ratio(c, d));
    var sum := CostSum(1, 1, p, q);
    var num, den := TermNumbers(a, b, c, d);
    OneUnit(a, b);
    FeeFromSum(Bits128, 1, 1, p, q);
    DueFromSum(1, 1, p, q);
    OfRemainder(num, 1, 340282366920938463278907166694672695306);
    DivUnique(num + den - 1, den, 2, 340282366920938463352694142989510901766);
    DivUnique(340282366920938463278907166694672695306 + den - 1, den, 1, 340282366920938463278907166694672695305);
  }

  lemma OneUnit(a: nat, b: nat)
    requires a > 0 && b == a + 1
    ensures FirstCost(1, Some(Ratio(a, b))) == Ratio(a, b)
  {
    AlreadyReduced(Ratio(a, b), -1, 1);
  }

  lemma TermNumbers(a: nat, b: nat, c: nat, d: nat) returns (num: nat, den: nat)
    requires b == 0xFFFF_FFFF_FFFF_FFFF && a == b - 1 && d == b - 2 && c == b - 3
    ensures num == RawNum(Ratio(a, b), 1, Ratio(c, d)) && den == RawDen(Ratio(a, b), Ratio(c, d))
    ensures num == 680564733841876926742281774126440906762 && den == 340282366920938463389587631136930004995
  {
    num, den := 680564733841876926742281774126440906762, 340282366920938463389587631136930004995;
  }
}
