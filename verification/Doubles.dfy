/** Doubles of IEEE 754-2019, and what the rounding of a quotient by 10^6 does to its floor. */
module Doubles {

  const MILLION: nat := 1_000_000

  function Pow2(k: nat): (p: nat)
    ensures p > 0
  {
    if k == 0 then 1 else 2 * Pow2(k - 1)
  }

  const TWO_53: int := 0x20_0000_0000_0000

  /** `y` is `m` times two to the `e`. */
  ghost predicate Scaled(y: real, m: int, e: int) {
    if e >= 0 then y == (m * Pow2(e)) as real else y * Pow2(-e) as real == m as real
  }

  /** A finite binary64 number (section 3.4 of IEEE 754-2019). */
  ghost predicate IsDouble(y: real) {
    exists m: int, e: int :: -TWO_53 < m < TWO_53 && -1074 <= e <= 971 && Scaled(y, m, e)
  }

  function Distance(x: real, y: real): real {
    if x <= y then y - x else x - y
  }

  /** `y` is a double nearest to `x` (section 4.3.1 of IEEE 754-2019, ties either way). */
  ghost predicate Rounds(x: real, y: real) {
    IsDouble(y) && forall z :: IsDouble(z) ==> Distance(x, y) <= Distance(x, z)
  }

  lemma SmallIntegersAreDoubles(n: int)
    requires -TWO_53 < n < TWO_53
    ensures IsDouble(n as real)
  {
    assert Scaled(n as real, n, 0);
  }

  // ---------------------------------------------------------------- doubles of a given size

  lemma AtLeast(k: nat, b: nat)
    requires k >= 1
    ensures k * b >= b
  {
  }

  /** Multiples of 2^20 below 2^73 are doubles. */
  lemma MultipleIsDouble(m: nat)
    requires m < TWO_53
    ensures IsDouble((m * 1_048_576) as real)
  {
    assert Pow2(20) == 1_048_576 by {
      assert Pow2(5) == 32 && Pow2(10) == 32 * Pow2(5) && Pow2(15) == 32 * Pow2(10) && Pow2(20) == 32 * Pow2(15);
    }
    assert Scaled((m * 1_048_576) as real, m, 20);
  }

  /** `Number` of an integer is off by 2^19 at most, and exact for doubles only. */
  lemma NumberOf(n: nat, num: nat)
    requires n < QUOTIENT_LIMIT - MILLION && Rounds(n as real, num as real)
    ensures -524_288 <= num - n <= 524_288 && (num == n <==> IsDouble(n as real))
  {
    var m := (n + 524_288) / 1_048_576;
    MultipleIsDouble(m);
    assert Distance(n as real, num as real) <= Distance(n as real, (m * 1_048_576) as real);
    if IsDouble(n as real) {
      assert Distance(n as real, num as real) <= Distance(n as real, n as real);
    }
  }

  lemma {:induction false} Pow2Sum(j: nat, k: nat)
    ensures Pow2(j + k) == Pow2(j) * Pow2(k)
    decreases k
  {
    if k > 0 {
      Pow2Sum(j, k - 1);
      assert Pow2(j) * Pow2(k) == 2 * (Pow2(j) * Pow2(k - 1));
    }
  }

  /** A double of at least 2^(53+k) is a multiple of 2^(k+1). */
  lemma DoubleIsMultiple(n: nat, k: nat) returns (a: int)
    requires IsDouble(n as real) && n >= TWO_53 * Pow2(k)
    ensures n == Pow2(k + 1) * a
  {
    var m: int, e: int :| -TWO_53 < m < TWO_53 && -1074 <= e <= 971 && Scaled(n as real, m, e);
    hide Pow2;
    if e <= k {
      TooSmall(n, m, e, k);
    } else {
      ScaledUp(n, m, e);
      Pow2Sum(k + 1, e - k - 1);
      a := m * Pow2(e - k - 1);
      Regroup(m, Pow2(k + 1), Pow2(e - k - 1));
    }
  }

  lemma ScaledUp(n: nat, m: int, e: nat)
    requires Scaled(n as real, m, e)
    ensures n == m * Pow2(e)
  {
  }

  lemma Regroup(m: int, p: int, r: int)
    ensures m * (p * r) == p * (m * r)
  {
  }

  lemma TooSmall(n: nat, m: int, e: int, k: nat)
    requires m < TWO_53 && e <= k && Scaled(n as real, m, e)
    ensures n < TWO_53 * Pow2(k)
  {
    if e >= 0 {
      ScaledUp(n, m, e);
      Pow2Sum(e, k - e);
      hide Pow2;
      Times(m, TWO_53, Pow2(e));
      TimesOne(Pow2(e), Pow2(k - e));
      AtLeastTimes(TWO_53, Pow2(e), Pow2(k));
    } else {
      AtLeast(Pow2(-e), n);
      assert n as real * Pow2(-e) as real == (n * Pow2(-e)) as real;
      AtLeast(Pow2(k), TWO_53);
    }
  }

  lemma Times(m: int, t: int, p: nat)
    requires m < t && p > 0
    ensures m * p < t * p
  {
  }

  lemma TimesOne(p: nat, r: nat)
    requires r >= 1
    ensures p <= p * r
  {
  }

  lemma AtLeastTimes(t: nat, p: nat, r: nat)
    requires p <= r
    ensures t * p <= t * r
  {
  }

  lemma GridPoint(m: nat, g: nat)
    requires m < TWO_53 && g <= 1074
    ensures IsDouble(m as real / Pow2(g) as real)
  {
    hide Pow2, IsDouble;
    Undivided(m as real, Pow2(g) as real);
    GridScaled(m as real / Pow2(g) as real, m, g);
  }

  lemma Undivided(a: real, s: real)
    requires s > 0.0
    ensures a / s * s == a
  {
  }

  lemma GridScaled(y: real, m: nat, g: nat)
    requires m < TWO_53 && g <= 1074 && y * Pow2(g) as real == m as real
    ensures IsDouble(y)
  {
    var e: int := g;
    assert Pow2(0) == 1;
    assert Scaled(y, m, -e);
  }

  // ---------------------------------------------------------------- whole numbers near a quotient

  /** No double is nearer than the rounded value. */
  lemma Nearest(x: real, q: real, z: real)
    requires IsDouble(z) && Rounds(x, q)
    ensures q - x <= Distance(x, z)
  {
    assert Distance(x, q) <= Distance(x, z);
  }

  lemma NotPositive(d: real, s: real)
    requires s > 0.0
    ensures d <= 0.0 ==> d * s <= 0.0
    ensures d >= 0.0 ==> d * s >= 0.0
  {
  }

  lemma Spread(a: real, b: real, s: real)
    ensures (a - b) * s == a * s - b * s
  {
  }

  /** The next whole number stays out of reach of rounding where, in steps of the grid, it is
      more than half a step away. */
  lemma HalfStep(x: real, q: real, z: real, s: real, j: real, xs: real, zs: real, js: real)
    requires s > 0.0 && q - x <= Distance(x, z)
    requires x * s == xs && z * s == zs && j * s == js && -0.5 <= xs - zs <= 0.5 && xs + 0.5 < js
    ensures q < j
  {
    var d := Distance(x, z);
    Spread(x, z, s);
    Spread(z, x, s);
    Spread(d, q - x, s);
    Spread(q, x, s);
    Spread(j, q, s);
    NotPositive(d - (q - x), s);
    NotPositive(j - q, s);
  }

  /** A double of at least 2^(52-g) is a multiple of 2^-g. */
  lemma CoarseDouble(q: real, g: nat) returns (a: int)
    requires IsDouble(q) && q * Pow2(g) as real >= 4_503_599_627_370_496.0
    ensures q * Pow2(g) as real == a as real
  {
    var m: int, e: int :| -TWO_53 < m < TWO_53 && -1074 <= e <= 971 && Scaled(q, m, e);
    hide IsDouble;
    if g + e < 0 {
      FineScale(q, m, e, g);
    } else if e < 0 {
      a := MiddleScale(q, m, e, g);
    } else {
      a := WholeScale(q, m, e, g);
    }
  }

  lemma ScaledWhole(q: real, m: int, e: nat)
    requires Scaled(q, m, e)
    ensures q == (m * Pow2(e)) as real
  {
  }

  lemma WholeScale(q: real, m: int, e: nat, g: nat) returns (a: int)
    requires Scaled(q, m, e)
    ensures q * Pow2(g) as real == a as real
  {
    ScaledWhole(q, m, e);
    var t, grid := m * Pow2(e), Pow2(g);
    a := t * grid;
    Products(t, grid);
  }

  lemma Products(t: int, r: int)
    ensures t as real * r as real == (t * r) as real
  {
  }

  lemma MiddleScale(q: real, m: int, e: int, g: nat) returns (a: int)
    requires 0 <= g + e && e < 0 && Scaled(q, m, e)
    ensures q * Pow2(g) as real == a as real
  {
    ScaledPart(q, m, e);
    Pow2Sum(-e, g + e);
    hide Pow2, Scaled;
    a := m * Pow2(g + e);
    Cross(q, Pow2(-e), Pow2(g + e), Pow2(g), m);
  }

  lemma ScaledPart(q: real, m: int, e: int)
    requires e < 0 && Scaled(q, m, e)
    ensures q * Pow2(-e) as real == m as real
  {
  }

  lemma FineScale(q: real, m: int, e: int, g: nat)
    requires g + e < 0 && Scaled(q, m, e)
    ensures q * Pow2(g) as real >= 4_503_599_627_370_496.0 ==> m >= TWO_53
  {
    FarPower(-e, g);
    assert q * Pow2(-e) as real == m as real;
    hide Pow2;
    Large(q, Pow2(-e), Pow2(g), m);
  }

  lemma FarPower(k: nat, g: nat)
    requires g < k
    ensures Pow2(k) >= 2 * Pow2(g)
  {
    Pow2Sum(g + 1, k - g - 1);
    assert Pow2(g + 1) == 2 * Pow2(g);
    hide Pow2;
    TimesOne(Pow2(g + 1), Pow2(k - g - 1));
  }

  lemma Cross(q: real, p: nat, r: nat, t: nat, m: int)
    requires q * p as real == m as real && p * r == t
    ensures q * t as real == (m * r) as real
  {
    assert p as real * r as real == t as real;
    assert q * (p as real * r as real) == q * p as real * r as real;
  }

  lemma Large(q: real, p: nat, r: nat, m: int)
    requires r > 0 && p >= 2 * r && q * p as real == m as real
    ensures q * r as real >= 4_503_599_627_370_496.0 ==> m >= TWO_53
  {
    NotPositive(q, r as real);
    if q > 0.0 {
      NotPositive(p as real - 2.0 * r as real, q);
      Spread(p as real, 2.0 * r as real, q);
    }
  }

  /** Quotients by 10^6 below 2^53 - 1. */
  const QUOTIENT_LIMIT: nat := 9_007_199_254_740_991_000_000

  /** A rounded quotient lies between the exact floor and the next integer. */
  lemma QuotientBounds(n: nat, q: real)
    requires n < QUOTIENT_LIMIT && Rounds(n as real / 1000000.0, q)
    ensures (n / MILLION) as real <= q <= (n / MILLION + 1) as real
  {
    var k, x := n / MILLION, n as real / 1000000.0;
    assert n == MILLION * k + n % MILLION;
    assert k as real <= x <= (k + 1) as real;
    SmallIntegersAreDoubles(k);
    SmallIntegersAreDoubles(k + 1);
    assert Distance(x, q) <= Distance(x, k as real);
    assert Distance(x, q) <= Distance(x, (k + 1) as real);
  }

  /** The quotient of `n` did not round up to the next integer. */
  predicate NoCarry(n: nat, q: real) {
    q < (n / MILLION + 1) as real
  }

  /** The least power of two above `k`. */
  function PowerAbove(k: nat): nat {
    if k == 0 then 1 else 2 * PowerAbove(k / 2)
  }

  lemma {:induction false} AboveIsPower(k: nat, limit: nat) returns (b: nat)
    requires k < Pow2(limit)
    ensures b <= limit && PowerAbove(k) == Pow2(b) && k < Pow2(b) && (k == 0 <==> b == 0) &&
            (k > 0 ==> Pow2(b - 1) <= k)
    decreases k
  {
    if k == 0 {
      b := 0;
    } else {
      b := AboveIsPower(k / 2, limit - 1);
      b := b + 1;
    }
  }

  lemma Pow2FiftyThree()
    ensures Pow2(20) == 1_048_576 && Pow2(34) == 17_179_869_184 && Pow2(40) == 1_099_511_627_776 && Pow2(53) == TWO_53
  {
    assert Pow2(10) == 1024 by {
      assert Pow2(2) == 4 && Pow2(4) == 16 && Pow2(6) == 64 && Pow2(8) == 256;
    }
    Pow2Sum(10, 10);
    Pow2Sum(20, 20);
    Pow2Sum(10, 3);
    Pow2Sum(40, 13);
    assert Pow2(3) == 8;
    assert Pow2(14) == 16384 by {
      assert Pow2(4) == 16;
      Pow2Sum(10, 4);
    }
    Pow2Sum(20, 14);
  }

  /** The steps between doubles just below `Pow2(b)`, as a fraction of one. */
  lemma Steps(k: nat) returns (b: nat)
    requires k < TWO_53
    ensures b <= 53 && PowerAbove(k) == Pow2(b) && k < Pow2(b) && (k == 0 <==> b == 0) && (k > 0 ==> Pow2(b - 1) <= k)
    ensures Pow2(b) * Pow2(53 - b) == TWO_53
  {
    Pow2FiftyThree();
    b := AboveIsPower(k, 53);
    Pow2Sum(b, 53 - b);
  }

  /** What `n` lacks to the next multiple of 10^6 is more than half a step of the doubles at its
      quotient by 10^6, of which there are 2^53 up to the least power of two above. */
  predicate StaysBelow(n: nat) {
    (MILLION - n % MILLION) * 2 * TWO_53 > MILLION * PowerAbove(n / MILLION)
  }

  lemma OutOfReach(n: nat, q: real, j: nat, grid: nat, m: nat)
    requires grid > 0 && IsDouble(m as real / grid as real) && Rounds(n as real / 1000000.0, q)
    requires var steps := (n * grid) as real / 1000000.0;
             -0.5 <= steps - m as real <= 0.5 && steps + 0.5 < (j * grid) as real
    ensures q < j as real
  {
    hide Rounds, IsDouble, Distance;
    var x, z, s := n as real / 1000000.0, m as real / grid as real, grid as real;
    Undivided(m as real, s);
    Nearest(x, q, z);
    InSteps(n, grid);
    WholeSteps(j, grid);
    HalfStep(x, q, z, s, j as real, (n * grid) as real / 1000000.0, m as real, (j * grid) as real);
  }

  lemma InSteps(n: nat, grid: nat)
    ensures n as real / 1000000.0 * grid as real == (n * grid) as real / 1000000.0
  {
    WholeSteps(n, grid);
  }

  lemma WholeSteps(j: nat, grid: nat)
    ensures j as real * grid as real == (j * grid) as real
  {
  }

  /** The step nearest to `steps / 10^6`. */
  lemma GridIndex(steps: nat, top: nat) returns (m: nat)
    requires 2 * (top * MILLION - steps) > MILLION && top <= TWO_53
    ensures m < TWO_53
    ensures -0.5 <= steps as real / 1000000.0 - m as real <= 0.5 && steps as real / 1000000.0 + 0.5 < top as real
  {
    m := (steps as real / 1000000.0 + 0.5).Floor;
  }

  /** The condition in steps: `p` is the power above, `grid` the number of steps in one. */
  lemma InGrid(n: nat, k: nat, p: nat, grid: nat)
    requires p > 0 && p * grid == TWO_53 && n / MILLION == k < p
    ensures (k + 1) * grid <= TWO_53
    ensures (MILLION - n % MILLION) * 2 * TWO_53 > MILLION * p <==> 2 * ((k + 1) * grid * MILLION - n * grid) > MILLION
    ensures (MILLION - n % MILLION) * 2 * TWO_53 < MILLION * p <==> 2 * ((k + 1) * grid * MILLION - n * grid) < MILLION
  {
    var gap := MILLION - n % MILLION;
    assert gap == (k + 1) * MILLION - n;
    AtLeastTimes(grid, k + 1, p);
    GapInGrid(gap, k, n, p, grid);
    Cancel(p, 2 * (gap * grid), MILLION);
  }

  lemma GapInGrid(gap: int, k: nat, n: nat, p: nat, grid: nat)
    requires gap == (k + 1) * MILLION - n && p * grid == TWO_53
    ensures gap * grid == (k + 1) * grid * MILLION - n * grid
    ensures gap * 2 * TWO_53 == p * (2 * (gap * grid))
  {
    assert gap * (p * grid) == p * (gap * grid);
  }

  lemma Cancel(p: nat, a: int, b: int)
    requires p > 0
    ensures p * a > b * p <==> a > b
    ensures p * a < b * p <==> a < b
  {
    if a > b {
      Times(b, a, p);
    } else if a < b {
      Times(a, b, p);
    }
  }

  /** More than half a step away, the next whole number is not reached. */
  lemma Stays(n: nat, q: real)
    requires n < QUOTIENT_LIMIT && StaysBelow(n) && Rounds(n as real / 1000000.0, q)
    ensures NoCarry(n, q)
  {
    hide Rounds, IsDouble, Pow2, PowerAbove;
    var k := n / MILLION;
    var b := Steps(k);
    var grid := Pow2(53 - b);
    InGrid(n, k, Pow2(b), grid);
    var m := GridIndex(n * grid, (k + 1) * grid);
    GridPoint(m, 53 - b);
    OutOfReach(n, q, k + 1, grid, m);
  }

  /** Less than half a step away, it is. */
  lemma Carries(n: nat, q: real)
    requires n < QUOTIENT_LIMIT && Rounds(n as real / 1000000.0, q)
    requires (MILLION - n % MILLION) * 2 * TWO_53 < MILLION * PowerAbove(n / MILLION)
    ensures !NoCarry(n, q)
  {
    hide Pow2, IsDouble, Rounds, PowerAbove;
    var k := n / MILLION;
    var b := Steps(k);
    NotBelowOne(n);
    InGrid(n, k, Pow2(b), Pow2(53 - b));
    HalfPower(b, k, Pow2(53 - b));
    var a := QuotientInSteps(n, q, 53 - b, Pow2(53 - b));
    ReflectedBound(n, q);
    WholeReached(n, q, k + 1, Pow2(53 - b), a);
  }

  lemma NotBelowOne(n: nat)
    requires (MILLION - n % MILLION) * 2 * TWO_53 < MILLION * PowerAbove(n / MILLION)
    ensures n / MILLION > 0
  {
  }

  /** The rounded quotient is a whole number of steps. */
  lemma QuotientInSteps(n: nat, q: real, g: nat, grid: nat) returns (a: int)
    requires n < QUOTIENT_LIMIT && Rounds(n as real / 1000000.0, q)
    requires grid == Pow2(g) && n / MILLION * grid >= 4_503_599_627_370_496
    ensures q * grid as real == a as real
  {
    QuotientBounds(n, q);
    RoundedIsDouble(n as real / 1000000.0, q);
    hide IsDouble, Rounds, Pow2;
    EnoughSteps(n / MILLION, q, grid);
    a := CoarseDouble(q, g);
  }

  lemma EnoughSteps(k: nat, q: real, grid: nat)
    requires k as real <= q && grid > 0 && k * grid >= 4_503_599_627_370_496
    ensures q * grid as real >= 4_503_599_627_370_496.0
  {
    Monotone(k as real, q, grid as real);
    WholeSteps(k, grid);
  }

  lemma RoundedIsDouble(x: real, q: real)
    requires Rounds(x, q)
    ensures IsDouble(q)
  {
  }

  lemma HalfPower(b: nat, k: nat, grid: nat)
    requires b > 0 && Pow2(b - 1) <= k && Pow2(b) * grid == TWO_53
    ensures k * grid >= 4_503_599_627_370_496
  {
    assert Pow2(b) == 2 * Pow2(b - 1);
    hide Pow2;
    AtLeastTimes(grid, Pow2(b - 1), k);
    assert 2 * (Pow2(b - 1) * grid) == TWO_53;
  }

  lemma Monotone(a: real, b: real, s: real)
    requires a <= b && s > 0.0
    ensures a * s <= b * s
  {
    NotPositive(b - a, s);
    Spread(b, a, s);
  }

  /** The rounded quotient is no farther below than the next whole number is above. */
  lemma ReflectedBound(n: nat, q: real)
    requires n < QUOTIENT_LIMIT && Rounds(n as real / 1000000.0, q)
    ensures q >= 2.0 * (n as real / 1000000.0) - (n / MILLION + 1) as real
  {
    var x := n as real / 1000000.0;
    SmallIntegersAreDoubles(n / MILLION + 1);
    assert Distance(x, q) <= Distance(x, (n / MILLION + 1) as real);
  }

  lemma WholeReached(n: nat, q: real, j: nat, grid: nat, a: int)
    requires grid > 0 && q * grid as real == a as real && q >= 2.0 * (n as real / 1000000.0) - j as real
    requires 2 * (j * grid * MILLION - n * grid) < MILLION
    ensures q >= j as real
  {
    var x, s := n as real / 1000000.0, grid as real;
    InSteps(n, grid);
    WholeSteps(j, grid);
    Monotone(2.0 * x - j as real, q, s);
    Spread(2.0 * x, j as real, s);
    assert 2.0 * x * s == 2.0 * ((n * grid) as real / 1000000.0);
    assert a >= j * grid;
    Spread(q, j as real, s);
    NotPositive(q - j as real, s);
  }

  /** A double is never exactly half a step away. */
  lemma NoTie(n: nat)
    requires n < QUOTIENT_LIMIT && IsDouble(n as real)
    ensures (MILLION - n % MILLION) * 2 * TWO_53 != MILLION * PowerAbove(n / MILLION)
  {
    hide IsDouble, Pow2, PowerAbove;
    var k, gap := n / MILLION, MILLION - n % MILLION;
    var b := Steps(k);
    Pow2Sum(b, 53 - b);
    if b <= 47 {
      Pow2Sum(6, 47 - b);
      Pow2Six();
      OddSixtyFour(gap, Pow2(47 - b), Pow2(b));
    } else {
      var a := LargeIsMultiple(n, b);
      var r := 15_625 * (k + 1) - a;
      assert gap == 64 * r;
      OddSixtyFour(r, Pow2(53 - b), Pow2(b));
    }
  }

  lemma Pow2Six()
    ensures Pow2(5) == 32 && Pow2(6) == 64
  {
    assert Pow2(3) == 8;
  }

  lemma LargeIsMultiple(n: nat, b: nat) returns (a: int)
    requires b >= 48 && IsDouble(n as real) && Pow2(b - 1) <= n / MILLION
    ensures n == 64 * a
  {
    hide IsDouble;
    Pow2Sum(47, b - 48);
    Pow2Sum(40, 7);
    Pow2Sum(5, 2);
    Pow2Six();
    Pow2FiftyThree();
    hide Pow2;
    TimesOne(Pow2(47), Pow2(b - 48));
    a := DoubleIsMultiple(n, 5);
  }

  /** 10^6 is an odd multiple of 64. */
  lemma OddSixtyFour(r: int, t: int, p: nat)
    requires p > 0
    ensures 64 * r * t * 2 * p != MILLION * p
  {
    NotMillion(r * t);
    Cancel(p, 128 * (r * t), MILLION);
    Reorder(r, t, p);
  }

  lemma NotMillion(y: int)
    ensures 128 * y != MILLION
  {
  }

  lemma Reorder(r: int, t: int, p: int)
    ensures 64 * r * t * 2 * p == p * (128 * (r * t))
  {
  }

  /** The quotient of a double stays below the next whole number exactly when that is more than
      half a step away. */
  lemma StaysIff(n: nat, q: real)
    requires n < QUOTIENT_LIMIT && IsDouble(n as real) && Rounds(n as real / 1000000.0, q)
    ensures NoCarry(n, q) <==> StaysBelow(n)
  {
    hide IsDouble, Rounds, PowerAbove;
    NoTie(n);
    if StaysBelow(n) {
      Stays(n, q);
    } else {
      Carries(n, q);
    }
  }

  /** Below 2^34 * 10^6 the next whole number is always far enough. */
  lemma SmallStaysBelow(n: nat)
    requires n < 17_179_869_184_000_000
    ensures StaysBelow(n)
  {
    hide Pow2, PowerAbove;
    Pow2FiftyThree();
    var b := AboveWithin(n / MILLION, 34);
    assert PowerAbove(n / MILLION) <= 17_179_869_184;
  }

  /** ... so there the floor of the rounded quotient is the exact one, doubles or not. */
  lemma QuotientFloor(n: nat, q: real)
    requires n < 17_179_869_184_000_000 && Rounds(n as real / 1000000.0, q)
    ensures q.Floor == n / MILLION
  {
    hide Rounds, StaysBelow;
    SmallStaysBelow(n);
    Stays(n, q);
    QuotientBounds(n, q);
  }

  lemma AboveWithin(k: nat, limit: nat) returns (b: nat)
    requires k < Pow2(limit)
    ensures b <= limit && PowerAbove(k) == Pow2(b) <= Pow2(limit) && (k == 0 <==> b == 0) &&
            (k > 0 ==> Pow2(b - 1) <= k)
  {
    b := AboveIsPower(k, limit);
    Pow2Sum(b, limit - b);
    hide Pow2;
    TimesOne(Pow2(b), Pow2(limit - b));
  }

  /** Below 2^40 * 10^6 it is for every double. */
  lemma DoubleStaysBelow(n: nat)
    requires n < 1_099_511_627_776_000_000 && IsDouble(n as real)
    ensures StaysBelow(n)
  {
    hide Pow2, PowerAbove, IsDouble;
    Pow2FiftyThree();
    var k, gap := n / MILLION, MILLION - n % MILLION;
    var b := AboveWithin(k, 40);
    if b <= 34 {
      Pow2Sum(b, 34 - b);
      TimesOne(Pow2(b), Pow2(34 - b));
    } else {
      var c := b - 34;
      var unit := GapUnit(n, c);
      Pow2Sum(c, 34);
      assert PowerAbove(k) == unit * Pow2(34);
    }
  }

  /** In its binade a double, and what it lacks to the next multiple of 10^6, is a multiple of `unit`. */
  lemma GapUnit(n: nat, c: nat) returns (unit: nat)
    requires 1 <= c <= 6 && IsDouble(n as real) && Pow2(33 + c) <= n / MILLION
    ensures unit == Pow2(c) && MILLION - n % MILLION >= unit
  {
    hide IsDouble;
    unit := Pow2(c);
    Pow2Sum(34, c - 1);
    Pow2FiftyThree();
    var a := DoubleIsMultiple(n, c - 1);
    Pow2Sum(c, 6 - c);
    Pow2Six();
    hide Pow2;
    UnitApart(n, unit, Pow2(6 - c), a, n / MILLION + 1);
  }

  lemma UnitApart(n: nat, unit: nat, r: nat, a: int, j: nat)
    requires unit > 0 && unit * r == 64 && n == unit * a && n < j * MILLION
    ensures j * MILLION - n >= unit
  {
    var d := 15_625 * r * j - a;
    assert unit * (15_625 * r * j) == 15_625 * (unit * r) * j;
    assert j * MILLION - n == unit * d;
    if d >= 1 {
      AtLeast(d, unit);
    } else {
      AtMostZero(d, unit);
    }
  }

  lemma AtMostZero(b: int, unit: nat)
    requires b <= 0
    ensures unit * b <= 0
  {
  }

  // ---------------------------------------------------------------- instances

  const CARRIED: nat := 1_099_511_627_776_999_936  // 10^6 * (2^40 + 1) - 64

  /** Less than 10^6 above that bound a double does not stay below: its quotient is rounded to
      the next whole number. */
  lemma QuotientRoundsUp()
    ensures IsDouble(CARRIED as real) && !StaysBelow(CARRIED)
    ensures Rounds(CARRIED as real / 1000000.0, 1_099_511_627_777.0)
  {
    hide IsDouble, PowerAbove;
    CarriedIsDouble();
    CarriedAbove();
    SmallIntegersAreDoubles(1_099_511_627_777);
    forall z | IsDouble(z)
      ensures Distance(CARRIED as real / 1000000.0, 1_099_511_627_777.0) <= Distance(CARRIED as real / 1000000.0, z)
    {
      NoNearer(z);
    }
  }

  lemma CarriedIsDouble()
    ensures IsDouble(CARRIED as real)
  {
    Pow2Six();
    assert Pow2(7) == 128;
    assert Scaled(CARRIED as real, CARRIED / 128, 7);
  }

  lemma CarriedAbove()
    ensures PowerAbove(CARRIED / MILLION) >= 2_199_023_255_552
  {
    hide PowerAbove, Pow2;
    Pow2FiftyThree();
    var b := AboveIsPower(CARRIED / MILLION, 53);
    PowersGrow(b);
    FarPower(b, 40);
  }

  lemma PowersGrow(b: nat)
    requires Pow2(b) > Pow2(40)
    ensures b > 40
  {
    if b <= 40 {
      Pow2Sum(b, 40 - b);
      TimesOne(Pow2(b), Pow2(40 - b));
    }
  }

  lemma NoNearer(z: real)
    requires IsDouble(z)
    ensures Distance(CARRIED as real / 1000000.0, 1_099_511_627_777.0) <= Distance(CARRIED as real / 1000000.0, z)
  {
    hide IsDouble;
    if z >= 1_099_511_627_776.0 {
      Pow2Twelve();
      var a := CoarseDouble(z, 12);
      assert z * 4096.0 == a as real;
      assert a >= 4_503_599_627_374_592 || a <= 4_503_599_627_374_591;
    }
  }

  lemma Pow2Twelve()
    ensures Pow2(12) == 4096
  {
    Pow2Sum(6, 6);
    Pow2Six();
  }

  /** 2^53 + 1 is the first natural number that is not a double. */
  lemma FirstNonDouble(n: nat)
    ensures n <= TWO_53 ==> IsDouble(n as real)
    ensures !IsDouble((TWO_53 + 1) as real)
  {
    if n < TWO_53 {
      SmallIntegersAreDoubles(n);
    }
    assert Pow2(1) == 2 * Pow2(0);
    assert Scaled(TWO_53 as real, TWO_53 / 2, 1);
    if IsDouble((TWO_53 + 1) as real) {
      var m: int, e: int :| -TWO_53 < m < TWO_53 && -1074 <= e <= 971 && Scaled((TWO_53 + 1) as real, m, e);
      NotScaled(m, e);
    }
  }

  lemma NotScaled(m: int, e: int)
    requires -TWO_53 < m < TWO_53
    ensures !Scaled((TWO_53 + 1) as real, m, e)
  {
    if e > 0 {
      assert m * Pow2(e) == 2 * (m * Pow2(e - 1));
    } else {
      AtLeast(Pow2(-e), TWO_53 + 1);
      assert (TWO_53 + 1) as real * Pow2(-e) as real == ((TWO_53 + 1) * Pow2(-e)) as real;
    }
  }
}
