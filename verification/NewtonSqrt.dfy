/** The square root behind every distance, over exact reals. */
module NewtonSqrt {
  const EPSILON: real := 0.000001

  function AbsReal(x: real): real {
    if x < 0.0 then -x else x
  }

  function Step(num: real, guess: real): real
    requires guess > 0.0
  {
    (guess + num / guess) / 2.0
  }

  /** `guess` is as close as the loop asks for. */
  predicate Settled(num: real, guess: real) {
    AbsReal(guess * guess - num) <= EPSILON
  }

  /** How many times EPSILON fits into the error: the measure that every step above the root lowers. */
  ghost function Excess(num: real, guess: real): nat {
    (AbsReal(guess * guess - num) / EPSILON).Floor
  }

  lemma SquareNonNegative(d: real)
    ensures d * d >= 0.0
  {
  }

  lemma SumOfParts(g: real, q: real, num: real)
    requires q * g == num
    ensures ((g + q) / 2.0) * ((g + q) / 2.0) - num == (g - q) * (g - q) / 4.0
  {
  }

  lemma FactorNonNegative(g: real, d: real)
    requires g > 0.0 && g * d >= 0.0
    ensures d >= 0.0
  {
  }

  lemma GapBelowError(g: real, q: real, num: real)
    requires g > 0.0 && q > 0.0 && q * g == num && g * g >= num
    ensures (g - q) * (g - q) <= g * g - num
  {
    assert g * (g - q) == g * g - num;
    FactorNonNegative(g, g - q);
    assert q * (g - q) >= 0.0;
    assert (g - q) * (g - q) == g * (g - q) - q * (g - q);
  }

  lemma QuotientTimes(num: real, g: real)
    requires g > 0.0
    ensures (num / g) * g == num
    ensures num > 0.0 ==> num / g > 0.0
  {
  }

  /** A step lands at or above the root; from above the root it leaves at most a quarter of the error. */
  lemma StepShrinksError(num: real, guess: real)
    requires num > 0.0 && guess > 0.0
    ensures var next := Step(num, guess);
            && next > 0.0
            && next * next >= num
            && (guess * guess >= num ==> next * next - num <= (guess * guess - num) / 4.0)
  {
    var q := num / guess;
    QuotientTimes(num, guess);
    SumOfParts(guess, q, num);
    SquareNonNegative(guess - q);
    if guess * guess >= num {
      GapBelowError(guess, q, num);
    }
  }

  lemma QuarterLowersFloor(x: real, y: real)
    requires x > 1.0 && 0.0 <= y <= x / 4.0
    ensures y.Floor < x.Floor
  {
  }

  lemma StepLowersExcess(num: real, guess: real)
    requires num > 0.0 && guess > 0.0 && guess * guess >= num && !Settled(num, guess)
    ensures Excess(num, Step(num, guess)) < Excess(num, guess)
  {
    var next := Step(num, guess);
    StepShrinksError(num, guess);
    QuarterLowersFloor((guess * guess - num) / EPSILON, (next * next - num) / EPSILON);
  }

  lemma StepDescends(num: real, guess: real)
    requires num > 0.0 && guess > 0.0 && !Settled(num, guess)
    ensures var next := Step(num, guess);
            && next > 0.0 && next * next >= num
            && (guess * guess >= num ==> Excess(num, next) < Excess(num, guess))
  {
    StepShrinksError(num, guess);
    if guess * guess >= num {
      StepLowersExcess(num, guess);
    }
  }

  /** The loop from `guess` on. */
  function Iterate(num: real, guess: real): (r: real)
    requires num > 0.0 && guess > 0.0
    ensures r > 0.0 && Settled(num, r)
    ensures r != guess ==> r * r >= num
    decreases guess * guess < num, Excess(num, guess)
  {
    hide Excess; hide Step;
    if Settled(num, guess) then guess else
    StepDescends(num, guess);
    Iterate(num, Step(num, guess))
  }

  function Sqrt(num: real): real {
    if num < 0.0 then -1.0
    else if num == 0.0 || num == 1.0 then num
    else Iterate(num, num / 2.0)
  }

  lemma IterateStep(num: real, guess: real)
    requires num > 0.0 && guess > 0.0 && !Settled(num, guess)
    ensures var next := Step(num, guess);
            && next > 0.0 && Iterate(num, guess) == Iterate(num, next)
            && next * next >= num
            && (guess * guess >= num ==> Excess(num, next) < Excess(num, guess))
  {
    hide Excess;
    StepDescends(num, guess);
  }

  method MySqrt(num: real) returns (r: real)
    ensures r == Sqrt(num)
  {
    hide Iterate; hide Excess; hide Settled;
    if num < 0.0 {
      return -1.0;
    }
    if num == 0.0 || num == 1.0 {
      return num;
    }
    var guess := num / 2.0;
    while guess * guess - num > EPSILON || num - guess * guess > EPSILON
      invariant guess > 0.0 && Iterate(num, guess) == Sqrt(num)
      decreases guess * guess < num, Excess(num, guess)
    {
      SettledIs(num, guess);
      IterateStep(num, guess);
      guess := (guess + num / guess) / 2.0;
    }
    SettledIs(num, guess);
    IterateDone(num, guess);
    r := guess;
  }

  lemma SettledIs(num: real, guess: real)
    ensures Settled(num, guess) <==> !(guess * guess - num > EPSILON || num - guess * guess > EPSILON)
  {
  }

  lemma IterateDone(num: real, guess: real)
    requires num > 0.0 && guess > 0.0 && Settled(num, guess)
    ensures Iterate(num, guess) == guess
  {
  }

  /** The root is within EPSILON, measured on the squares, positive for positive numbers, and never
      short of the true root unless it is the very first guess. */
  lemma SqrtIsClose(num: real)
    requires num >= 0.0
    ensures var r := Sqrt(num);
            && AbsReal(r * r - num) <= EPSILON
            && r >= 0.0 && (num > 0.0 ==> r > 0.0)
            && (r * r >= num || r == num / 2.0)
  {
    hide Iterate;
  }

  function Hypot(width: real, height: real): real {
    Sqrt(width * width + height * height)
  }

  method CalculateSqrt(width: real, height: real) returns (r: real)
    ensures r == Hypot(width, height)
  {
    r := MySqrt(width * width + height * height);
  }

  lemma ProductAsReal(m: int, n: int)
    ensures (m * n) as real == (m as real) * (n as real)
  {
  }

  lemma SquaresMonotone(a: real, b: real)
    requires 0.0 <= a <= b
    ensures a * a <= b * b
    ensures a < b ==> a * a < b * b
  {
    var d := b - a;
    assert b * b == a * a + d * (a + b);
    if d > 0.0 {
      PositiveProduct(d, a + b);
    }
  }

  lemma PositiveProduct(x: real, y: real)
    requires x > 0.0 && y > 0.0
    ensures x * y > 0.0
  {
  }

  lemma SquaresMonotoneInt(a: nat, b: nat)
    requires a <= b
    ensures a * a <= b * b
  {
    assert b * b - a * a == (b - a) * (b + a);
  }

  lemma HalfIsRoot(n: nat, r: real)
    requires n > 1 && r == n as real / 2.0 && r * r >= n as real - EPSILON
    ensures r * r >= n as real
  {
    if n >= 4 {
      HalfSquare(n as real, r);
    } else {
      SmallHalf(n, r);
    }
  }

  lemma SmallHalf(n: nat, r: real)
    requires 2 <= n < 4 && r == n as real / 2.0
    ensures r * r < n as real - EPSILON
  {
    assert if n == 2 then r == 1.0 else r == 1.5;
  }

  lemma HalfSquare(x: real, r: real)
    requires x >= 4.0 && r == x / 2.0
    ensures r * r >= x
  {
    assert r * (r - 2.0) >= 0.0;
  }

  lemma SqrtNotShort(n: nat)
    ensures Sqrt(n as real) * Sqrt(n as real) >= n as real
  {
    SqrtIsClose(n as real);
    if n > 1 {
      hide Sqrt;
      if Sqrt(n as real) == n as real / 2.0 {
        HalfIsRoot(n, Sqrt(n as real));
      }
    }
  }

  lemma Between(n: int, low: int, high: int, rr: real)
    requires low as real <= rr < high as real
    requires n as real <= rr <= n as real + EPSILON
    ensures low <= n < high
  {
  }

  lemma FloorBetween(n: nat, r: real, f: nat)
    requires f as real <= r < (f + 1) as real
    requires n as real <= r * r <= n as real + EPSILON
    ensures f * f <= n < (f + 1) * (f + 1)
  {
    var low, high, rr := f * f, (f + 1) * (f + 1), r * r;
    assert low as real <= rr by {
      ProductAsReal(f, f);
      SquaresMonotone(f as real, r);
    }
    assert rr < high as real by {
      ProductAsReal(f + 1, f + 1);
      SquaresMonotone(r, (f + 1) as real);
    }
    Between(n, low, high, rr);
  }

  /** On whole numbers the root never falls short, so cutting off its fraction gives the exact
      integer square root. */
  lemma TruncatedSqrtIsExact(n: nat)
    ensures var f := Sqrt(n as real).Floor;
            0 <= f && f * f <= n < (f + 1) * (f + 1)
  {
    hide Sqrt;
    SqrtNotShort(n);
    SqrtIsClose(n as real);
    var r := Sqrt(n as real);
    FloorBetween(n, r, r.Floor);
  }

  function AbsInt(x: int): nat {
    if x < 0 then -x else x
  }

  /** `(int)calculate_sqrt(a, b)`. */
  function Diagonal(a: nat, b: nat): int {
    Hypot(a as real, b as real).Floor
  }

  lemma DiagonalBelow(a: nat, b: nat, limit: nat)
    ensures Diagonal(a, b) < limit <==> a * a + b * b < limit * limit
  {
    var n := a * a + b * b;
    DiagonalIs(a, b);
    hide *;
    TruncatedSqrtIsExact(n);
    FloorBelow(n, Sqrt(n as real).Floor, limit);
  }

  lemma DiagonalIs(a: nat, b: nat)
    ensures Diagonal(a, b) == Sqrt((a * a + b * b) as real).Floor
  {
    hide Sqrt;
    SumAsReal(a, b);
  }

  lemma SumAsReal(a: nat, b: nat)
    ensures (a * a + b * b) as real == (a as real) * (a as real) + (b as real) * (b as real)
  {
    ProductAsReal(a, a);
    ProductAsReal(b, b);
  }

  lemma FloorBelow(n: nat, f: nat, limit: nat)
    requires f * f <= n < (f + 1) * (f + 1)
    ensures f < limit <==> n < limit * limit
  {
    if f < limit {
      SquaresMonotoneInt(f + 1, limit);
    } else {
      SquaresMonotoneInt(limit, f);
    }
  }

  /** Distance between two positions, or between two sizes; 0 while there is no earlier one. */
  function Change(prevA: int, prevB: int, a: int, b: int): int {
    if prevA == 0 || prevB == 0 then 0 else Diagonal(AbsInt(prevA - a), AbsInt(prevB - b))
  }

  lemma SquareOfAbs(x: int)
    ensures AbsInt(x) * AbsInt(x) == x * x
  {
  }

  /** `< limit` on the truncated distance is the exact test on the squared differences. */
  lemma ChangeBelow(prevA: int, prevB: int, a: int, b: int, limit: nat)
    requires limit > 0
    ensures Change(prevA, prevB, a, b) < limit <==>
            prevA == 0 || prevB == 0 || (prevA - a) * (prevA - a) + (prevB - b) * (prevB - b) < limit * limit
  {
    hide Diagonal; hide AbsInt;
    SquareOfAbs(prevA - a);
    SquareOfAbs(prevB - b);
    DiagonalBelow(AbsInt(prevA - a), AbsInt(prevB - b), limit);
  }
}
