/** Jain's fairness index as computed in 64-bit unsigned arithmetic. */
module Fairness {

  const LIMIT: nat := 0x1_0000_0000_0000_0000

  function Wrap(x: nat): (w: nat)
    ensures w < LIMIT && (w == x <==> x < LIMIT)
  {
    x % LIMIT
  }

  lemma WrapAdd(a: nat, b: nat)
    ensures Wrap(Wrap(a) + b) == Wrap(a + b) && Wrap(Wrap(a) + Wrap(b)) == Wrap(a + b)
  {
    var q, p := a / LIMIT, b / LIMIT;
    assert a + b == Wrap(a) + b + q * LIMIT;
    assert a + b == Wrap(a) + Wrap(b) + (q + p) * LIMIT;
  }

  lemma WrapShift(r: nat, k: nat)
    ensures Wrap(r + LIMIT * k) == Wrap(r)
  {
  }

  lemma WrapTimes(a: nat, n: nat)
    ensures Wrap(n * Wrap(a)) == Wrap(n * a)
  {
    var q := a / LIMIT;
    assert n * a == n * Wrap(a) + LIMIT * (n * q) by {
      assert a == Wrap(a) + LIMIT * q;
      Spread(n, Wrap(a), LIMIT, q);
    }
    WrapShift(n * Wrap(a), n * q);
  }

  lemma Spread(n: nat, r: nat, l: nat, q: nat)
    ensures n * (r + l * q) == n * r + l * (n * q)
  {
    assert n * (l * q) == l * (n * q);
  }

  // ----- exact sums

  function ByteSum(xs: seq<nat>, n: nat): nat
    requires n <= |xs|
  {
    if n == 0 then 0 else ByteSum(xs, n - 1) + xs[n - 1]
  }

  function SumSquares(xs: seq<nat>, n: nat): nat
    requires n <= |xs|
  {
    if n == 0 then 0 else SumSquares(xs, n - 1) + xs[n - 1] * xs[n - 1]
  }

  function Square(x: int): (s: nat)
    ensures s == 0 <==> x == 0
  {
    SquareNonNegative(x);
    x * x
  }

  lemma SquareNonNegative(x: int)
    ensures x * x >= 0 && (x * x == 0 <==> x == 0)
  {
  }

  /** Squared distances of the first `n` values, each scaled by `m`, from `s`. */
  function Deviation(xs: seq<nat>, n: nat, m: nat, s: int): nat
    requires n <= |xs|
  {
    if n == 0 then 0 else Deviation(xs, n - 1, m, s) + Square(m * xs[n - 1] - s)
  }

  ghost predicate Expanded(d: int, squares: int, sum: int, n: int, m: int, s: int) {
    d == m * m * squares - 2 * (m * s) * sum + n * (s * s)
  }

  lemma SquareOfDifference(m: int, x: int, s: int)
    ensures (m * x - s) * (m * x - s) == m * m * (x * x) - 2 * (m * s) * x + s * s
  {
    var y := m * x;
    assert (y - s) * (y - s) == y * y - 2 * (y * s) + s * s;
    assert y * y == m * m * (x * x);
    assert y * s == (m * s) * x;
  }

  lemma Distribute(a: int, b: int, c: int)
    ensures a * (b + c) == a * b + a * c
  {
  }

  lemma ExpandStep(d: int, squares: int, sum: int, n: int, m: int, s: int, x: int)
    requires Expanded(d, squares, sum, n, m, s)
    ensures Expanded(d + (m * x - s) * (m * x - s), squares + x * x, sum + x, n + 1, m, s)
  {
    SquareOfDifference(m, x, s);
    Distribute(m * m, squares, x * x);
    Distribute(2 * (m * s), sum, x);
    Distribute(s * s, n, 1);
  }

  lemma {:induction false} DeviationExpands(xs: seq<nat>, n: nat, m: nat, s: int)
    requires n <= |xs|
    ensures Expanded(Deviation(xs, n, m, s), SumSquares(xs, n), ByteSum(xs, n), n, m, s)
  {
    if n > 0 {
      DeviationExpands(xs, n - 1, m, s);
      ExpandStep(Deviation(xs, n - 1, m, s), SumSquares(xs, n - 1), ByteSum(xs, n - 1), n - 1, m, s, xs[n - 1]);
    }
  }

  /** About n times their mean: n times the excess of the squares. */
  lemma Excess(d: int, squares: int, sum: int, n: int)
    requires Expanded(d, squares, sum, n, n, sum)
    ensures d == n * (n * squares - sum * sum)
  {
    assert n * n * squares == n * (n * squares);
    assert (n * sum) * sum == n * (sum * sum);
    Distribute(n, n * squares, -(sum * sum));
  }

  ghost predicate AllEqual(xs: seq<nat>) {
    forall i, j :: 0 <= i < |xs| && 0 <= j < |xs| ==> xs[i] == xs[j]
  }

  ghost predicate AtMostOne(xs: seq<nat>, n: nat)
    requires n <= |xs|
  {
    forall i, j :: 0 <= i < j < n ==> xs[i] == 0 || xs[j] == 0
  }

  lemma {:induction false} DeviationZero(xs: seq<nat>, n: nat, m: nat, s: int)
    requires n <= |xs|
    ensures Deviation(xs, n, m, s) == 0 <==> forall i :: 0 <= i < n ==> m * xs[i] == s
  {
    if n > 0 {
      DeviationZero(xs, n - 1, m, s);
    }
  }

  lemma {:induction false} SumOfEqual(xs: seq<nat>, n: nat, x: nat)
    requires n <= |xs| && forall i :: 0 <= i < |xs| ==> xs[i] == x
    ensures ByteSum(xs, n) == n * x
  {
    if n > 0 {
      SumOfEqual(xs, n - 1, x);
      Distribute(x, n - 1, 1);
    }
  }

  lemma Cancel(n: int, x: int, y: int)
    requires n > 0 && n * x == n * y
    ensures x == y
  {
  }

  lemma EqualIff(xs: seq<nat>)
    requires xs != []
    ensures AllEqual(xs) <==> forall i :: 0 <= i < |xs| ==> |xs| * xs[i] == ByteSum(xs, |xs|)
  {
    var n := |xs|;
    if AllEqual(xs) {
      SumOfEqual(xs, n, xs[0]);
    }
    if forall i :: 0 <= i < n ==> n * xs[i] == ByteSum(xs, n) {
      forall i, j | 0 <= i < n && 0 <= j < n ensures xs[i] == xs[j] {
        Cancel(n, xs[i], xs[j]);
      }
    }
  }

  lemma SignOfProduct(n: int, e: int)
    requires n > 0 && n * e >= 0
    ensures e >= 0 && (n * e == 0 <==> e == 0)
  {
  }

  /** The square of the sum is at most n times the sum of squares, with equality exactly
      when all values are equal. */
  lemma UpperBound(xs: seq<nat>)
    requires xs != []
    ensures var n := |xs|; var s, q := ByteSum(xs, n), SumSquares(xs, n);
            s * s <= n * q && (s * s == n * q <==> AllEqual(xs))
  {
    var n := |xs|;
    var s, q, d := ByteSum(xs, n), SumSquares(xs, n), Deviation(xs, n, n, ByteSum(xs, n));
    DeviationExpands(xs, n, n, s);
    Excess(d, q, s, n);
    SignOfProduct(n, n * q - s * s);
    DeviationZero(xs, n, n, s);
    EqualIff(xs);
  }

  lemma SquareOfSum(s: nat, x: nat)
    ensures (s + x) * (s + x) == s * s + x * x + 2 * (s * x)
    ensures s * x >= 0 && (s * x == 0 <==> s == 0 || x == 0)
  {
  }

  lemma {:induction false} SumZero(xs: seq<nat>, n: nat)
    requires n <= |xs|
    ensures ByteSum(xs, n) == 0 <==> forall i :: 0 <= i < n ==> xs[i] == 0
  {
    if n > 0 {
      SumZero(xs, n - 1);
    }
  }

  lemma {:induction false} AtMostOneStep(xs: seq<nat>, n: nat)
    requires 0 < n <= |xs|
    ensures AtMostOne(xs, n) <==> AtMostOne(xs, n - 1) && (xs[n - 1] == 0 || forall i :: 0 <= i < n - 1 ==> xs[i] == 0)
  {
  }

  /** The sum of squares is at most the square of the sum, with equality exactly when at
      most one value is not zero. */
  lemma {:induction false} LowerBound(xs: seq<nat>, n: nat)
    requires n <= |xs|
    ensures var s, q := ByteSum(xs, n), SumSquares(xs, n);
            q <= s * s && (q == s * s <==> AtMostOne(xs, n))
  {
    if n > 0 {
      LowerBound(xs, n - 1);
      SquareOfSum(ByteSum(xs, n - 1), xs[n - 1]);
      SumZero(xs, n - 1);
      AtMostOneStep(xs, n);
    }
  }

  // ----- the computation

  /** A quotient of 64-bit numbers; a zero denominator prints as infinity or not-a-number. */
  datatype Ratio = Ratio(numerator: nat, denominator: nat)

  /** The accumulators after the loop and the two products, in 64 bits. */
  datatype Sums = Sums(sum: nat, sumSquares: nat, sumSquared: nat, scaled: nat)

  /** The values a computation without overflow would have. */
  ghost function Exact(xs: seq<nat>): Sums {
    var n := |xs|;
    var s, q := ByteSum(xs, n), SumSquares(xs, n);
    Sums(s, q, s * s, n * q)
  }

  ghost function Wrapped(o: Sums): Sums {
    Sums(Wrap(o.sum), Wrap(o.sumSquares), Wrap(o.sumSquared), Wrap(o.scaled))
  }

  lemma WrapSquare(s: nat)
    ensures Wrap(Wrap(s) * Wrap(s)) == Wrap(s * s)
  {
    WrapTimes(s, Wrap(s));
    WrapTimes(s, s);
    assert Wrap(s) * s == s * Wrap(s);
  }

  /** The loop and the two products of the index, for the received byte counts `xs`. */
  method Accumulate(xs: seq<nat>) returns (o: Sums)
    requires forall i :: 0 <= i < |xs| ==> xs[i] < LIMIT
    ensures o == Wrapped(Exact(xs))
  {
    var sum, sumSquares := 0, 0;
    for i := 0 to |xs|
      invariant sum == Wrap(ByteSum(xs, i)) && sumSquares == Wrap(SumSquares(xs, i))
    {
      WrapAdd(ByteSum(xs, i), xs[i]);
      WrapAdd(SumSquares(xs, i), xs[i] * xs[i]);
      sum := Wrap(sum + xs[i]);
      sumSquares := Wrap(sumSquares + Wrap(xs[i] * xs[i]));
    }
    WrapSquare(ByteSum(xs, |xs|));
    WrapTimes(SumSquares(xs, |xs|), |xs|);
    o := Sums(sum, sumSquares, Wrap(sum * sum), Wrap(|xs| * sumSquares));
  }

  /** Adds the counts `xs` to a running 64-bit sum. */
  method AddUp(xs: seq<nat>, before: nat) returns (sum: nat)
    ensures sum == Wrap(before + ByteSum(xs, |xs|))
  {
    sum := Wrap(before);
    for i := 0 to |xs|
      invariant sum == Wrap(before + ByteSum(xs, i))
    {
      WrapAdd(before + ByteSum(xs, i), xs[i]);
      sum := Wrap(sum + xs[i]);
    }
  }

  /** Average bits per flow, by integer division of the byte sum, in 64 bits. */
  function AverageBits(sum: nat, n: nat): nat
    requires n > 0
  {
    Wrap(sum / n * 8)
  }

  /** One line of the report: average bits per flow, and the fairness index. */
  datatype Group = Group(averageBits: nat, index: Ratio)

  datatype Report = Report(s1r1: Group, s2r2: Group, s3r1: Group, bitsThroughT1: nat, bitsToR1: nat)

  /** What a group's line should say. */
  ghost predicate IsGroup(xs: seq<nat>, g: Group)
    requires xs != []
  {
    var o := Wrapped(Exact(xs));
    g.averageBits == AverageBits(o.sum, |xs|) && g.index == Ratio(o.sumSquared, o.scaled)
  }

  method PrintGroup(xs: seq<nat>) returns (g: Group)
    requires xs != [] && forall i :: 0 <= i < |xs| ==> xs[i] < LIMIT
    ensures IsGroup(xs, g)
  {
    var o := Accumulate(xs);
    g := Group(AverageBits(o.sum, |xs|), Ratio(o.sumSquared, o.scaled));
  }

  ghost predicate Counts(xs: seq<nat>) {
    xs != [] && forall i :: 0 <= i < |xs| ==> xs[i] < LIMIT
  }

  /** The whole report: a line per group of flows, and the sums over the two bottlenecks. */
  method PrintFairness(s1r1: seq<nat>, s2r2: seq<nat>, s3r1: seq<nat>) returns (r: Report)
    requires Counts(s1r1) && Counts(s2r2) && Counts(s3r1)
    ensures IsGroup(s1r1, r.s1r1) && IsGroup(s2r2, r.s2r2) && IsGroup(s3r1, r.s3r1)
    ensures r.bitsThroughT1 == Wrap(8 * (ByteSum(s1r1, |s1r1|) + ByteSum(s2r2, |s2r2|)))
    ensures r.bitsToR1 == Wrap(8 * (ByteSum(s3r1, |s3r1|) + ByteSum(s1r1, |s1r1|)))
  {
    var a := PrintGroup(s1r1);
    var b := PrintGroup(s2r2);
    var c := PrintGroup(s3r1);
    var t1 := AddUp(s1r1, 0);
    t1 := AddUp(s2r2, t1);
    var r1 := AddUp(s3r1, 0);
    r1 := AddUp(s1r1, r1);
    WrapAdd(ByteSum(s1r1, |s1r1|), ByteSum(s2r2, |s2r2|));
    WrapAdd(ByteSum(s3r1, |s3r1|), ByteSum(s1r1, |s1r1|));
    WrapTimes(ByteSum(s1r1, |s1r1|) + ByteSum(s2r2, |s2r2|), 8);
    WrapTimes(ByteSum(s3r1, |s3r1|) + ByteSum(s1r1, |s1r1|), 8);
    r := Report(a, b, c, Wrap(8 * t1), Wrap(8 * r1));
  }

  /** The average loses less than eight bits per flow to the integer division, as long as
      the total number of bits fits. */
  lemma AverageTruncates(sum: nat, n: nat)
    requires n > 0 && 8 * sum < LIMIT
    ensures n * AverageBits(sum, n) <= 8 * sum < n * AverageBits(sum, n) + 8 * n
    ensures AverageBits(sum, n) % 8 == 0
  {
    var q := sum / n;
    assert sum == q * n + sum % n;
    assert q <= q * n;
    assert n * (q * 8) == 8 * (q * n);
  }

  // ----- when the printed index is the index

  lemma RootFits(s: nat, b: nat)
    requires s * s <= b
    ensures s <= b
  {
  }

  lemma FactorFits(n: nat, q: nat)
    requires n > 0
    ensures q <= n * q
  {
    assert n * q == (n - 1) * q + q;
  }

  /** Nothing wraps exactly when n times the sum of squares fits in 64 bits. */
  lemma NoWrapIff(xs: seq<nat>)
    requires xs != []
    ensures Wrapped(Exact(xs)) == Exact(xs) <==> Exact(xs).scaled < LIMIT
  {
    var e := Exact(xs);
    UpperBound(xs);
    RootFits(e.sum, e.sumSquared);
    FactorFits(|xs|, e.sumSquares);
  }

  /** Without wrap-around the printed index lies between 1/n and 1: it is 1 exactly for
      equal counts, and 1/n exactly when one flow received everything. */
  lemma IndexInRange(xs: seq<nat>)
    requires xs != [] && Exact(xs).scaled < LIMIT && Exact(xs).sum > 0
    ensures var o := Wrapped(Exact(xs));
            && 0 < o.scaled && o.sumSquared <= o.scaled <= |xs| * o.sumSquared
            && (o.sumSquared == o.scaled <==> AllEqual(xs))
            && (o.scaled == |xs| * o.sumSquared <==> AtMostOne(xs, |xs|))
  {
    var n, e := |xs|, Exact(xs);
    NoWrapIff(xs);
    UpperBound(xs);
    LowerBound(xs, n);
    SquareNonNegative(e.sum);
    Scale(n, e.sumSquares, e.sumSquared);
  }

  lemma Scale(n: nat, a: nat, b: nat)
    requires n > 0 && a <= b
    ensures n * a <= n * b && (n * a == n * b <==> a == b)
  {
    if n * a == n * b {
      Cancel(n, a, b);
    }
  }

  /** The quotient of `a` and `b` comes out right in 64 bits: equal fractions, and no
      division by zero. */
  ghost predicate PrintsRatio(a: nat, b: nat) {
    Wrap(b) != 0 && Wrap(a) * b == Wrap(b) * a
  }

  /** The printed quotient is the true index. */
  ghost predicate PrintsIndex(xs: seq<nat>) {
    PrintsRatio(Exact(xs).sumSquared, Exact(xs).scaled)
  }

  lemma RemainderRatio(a: nat, b: nat)
    ensures (a % LIMIT) * b == (b % LIMIT) * a <==> (a / LIMIT) * b == (b / LIMIT) * a
  {
    var p, q := a / LIMIT, b / LIMIT;
    assert a == LIMIT * p + a % LIMIT && b == LIMIT * q + b % LIMIT;
    Distributed(a % LIMIT, LIMIT, p, b);
    Distributed(b % LIMIT, LIMIT, q, a);
    assert a * b == b * a;
    if LIMIT * (p * b) == LIMIT * (q * a) {
      Cancel(LIMIT, p * b, q * a);
    }
  }

  lemma Distributed(r: nat, l: nat, p: nat, b: nat)
    ensures (l * p + r) * b == l * (p * b) + r * b
  {
    assert (l * p) * b == l * (p * b);
  }

  /** Wrap-around or not, a quotient is printed right if and only if the denominator does
      not wrap to zero and both numbers lose the same share to the wrap-around. */
  lemma PrintsRatioIff(a: nat, b: nat)
    ensures PrintsRatio(a, b) <==> b % LIMIT != 0 && (a / LIMIT) * b == (b / LIMIT) * a
  {
    RemainderRatio(a, b);
  }

  lemma PositiveSquares(xs: seq<nat>)
    requires xs != [] && Exact(xs).sum > 0
    ensures Exact(xs).sumSquared > 0 && Exact(xs).scaled > 0
  {
    UpperBound(xs);
    SquareNonNegative(Exact(xs).sum);
  }

  /** Without wrap-around it is always right. */
  lemma RightWithoutWrap(xs: seq<nat>)
    requires xs != [] && Exact(xs).sum > 0 && Exact(xs).scaled < LIMIT
    ensures PrintsIndex(xs)
  {
    PositiveSquares(xs);
    UpperBound(xs);
    var e := Exact(xs);
    assert e.sumSquared * e.scaled == e.scaled * e.sumSquared;
  }

  /** When the denominator wraps and the numerator does not, it is always wrong. */
  lemma WrongWhenDenominatorWraps(xs: seq<nat>)
    requires xs != [] && Exact(xs).sum > 0 && Exact(xs).sumSquared < LIMIT <= Exact(xs).scaled
    ensures !PrintsIndex(xs)
  {
    var e := Exact(xs);
    PositiveSquares(xs);
    PrintsRatioIff(e.sumSquared, e.scaled);
    assert e.sumSquared / LIMIT == 0 && e.scaled / LIMIT > 0;
    ProductPositive(e.scaled / LIMIT, e.sumSquared);
  }

  lemma ProductPositive(a: nat, b: nat)
    requires a > 0 && b > 0
    ensures a * b > 0
  {
  }

  /** For equal counts it is right, however large they are, unless the denominator wraps
      to zero exactly. */
  lemma EqualCountsIff(xs: seq<nat>)
    requires xs != [] && AllEqual(xs)
    ensures PrintsIndex(xs) <==> Exact(xs).scaled % LIMIT != 0
  {
    UpperBound(xs);
    PrintsRatioIff(Exact(xs).sumSquared, Exact(xs).scaled);
  }

  lemma {:induction false} SquaresBounded(xs: seq<nat>, n: nat, top: nat)
    requires n <= |xs| && forall i :: 0 <= i < n ==> xs[i] <= top
    ensures SumSquares(xs, n) <= n * (top * top)
  {
    if n > 0 {
      SquaresBounded(xs, n - 1, top);
      SquareMonotone(xs[n - 1], top);
      Distribute(top * top, n - 1, 1);
    }
  }

  lemma SquareMonotone(x: nat, y: nat)
    requires x <= y
    ensures x * x <= y * y
  {
    Scale1(x, x, y);
    Scale1(y, x, y);
  }

  lemma Scale1(k: nat, x: nat, y: nat)
    requires x <= y
    ensures k * x <= k * y
  {
  }

  /** A bound a caller can see at once: n times the largest count below 2^32. */
  lemma SmallCountsDoNotWrap(xs: seq<nat>, top: nat)
    requires xs != [] && (forall i :: 0 <= i < |xs| ==> xs[i] <= top) && |xs| * top < 0x1_0000_0000
    ensures Exact(xs).scaled < LIMIT
  {
    var n := |xs|;
    SquaresBounded(xs, n, top);
    Scale1(n, SumSquares(xs, n), n * (top * top));
    var y := n * top;
    assert n * (n * (top * top)) == y * y;
    SquareMonotone(y, 0xffff_ffff);
  }

  /** One flow with 2^32 bytes and any number of others with none: the scaled sum of
      squares wraps to zero and the index is lost, although bytes were received. */
  lemma {:induction false} LargeCountLosesIndex(xs: seq<nat>, n: nat)
    requires 0 < n <= |xs| && xs[0] == 0x1_0000_0000 && forall i :: 0 < i < |xs| ==> xs[i] == 0
    ensures ByteSum(xs, n) == 0x1_0000_0000 && SumSquares(xs, n) == LIMIT
    ensures n == |xs| ==> Wrapped(Exact(xs)).scaled == 0
  {
    if n > 1 {
      LargeCountLosesIndex(xs, n - 1);
    } else {
      assert SumSquares(xs, 1) == SumSquares(xs, 0) + xs[0] * xs[0];
    }
    WrapShift(0, n);
  }
}
