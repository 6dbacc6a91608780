/** The incremental least-squares estimate of the time a candidate costs to scan and to process:
    minimise the sum of (1 - total * scan - considered * process)^2 over the last ten samples. */
module Estimator {
  import opened MachineWords
  import opened Options

  const MAX_SIZE := 10

  /** Totals and considered candidates per second. */
  datatype PerSecond = PerSecond(total: u64, considered: u64)

  /** The five sums: of tt, of cs, and of tt^2, cs*tt and cs^2. */
  datatype Sums = Sums(tt: int, cs: int, a: int, b: int, d: int)

  const ZERO := Sums(0, 0, 0, 0, 0)

  /** What one sample contributes. */
  function Terms(p: PerSecond): Sums {
    var tt, cs := p.total, p.considered;
    Sums(tt, cs, tt * tt, cs * tt, cs * cs)
  }

  function Plus(s: Sums, t: Sums): Sums {
    Sums(s.tt + t.tt, s.cs + t.cs, s.a + t.a, s.b + t.b, s.d + t.d)
  }

  function Minus(s: Sums, t: Sums): Sums {
    Sums(s.tt - t.tt, s.cs - t.cs, s.a - t.a, s.b - t.b, s.d - t.d)
  }

  function SumsOf(ps: seq<PerSecond>): Sums {
    if ps == [] then ZERO else Plus(SumsOf(ps[..|ps| - 1]), Terms(ps[|ps| - 1]))
  }

  function Wrap(s: Sums): Sums {
    Sums(s.tt % TWO64, s.cs % TWO64, s.a % TWO64, s.b % TWO64, s.d % TWO64)
  }

  // ---------------------------------------------------------------- the window

  function LastTen(ps: seq<PerSecond>): seq<PerSecond> {
    if |ps| <= MAX_SIZE then ps else ps[|ps| - MAX_SIZE..]
  }

  lemma {:induction false} DropFirst(ps: seq<PerSecond>)
    requires ps != []
    ensures SumsOf(ps[1..]) == Minus(SumsOf(ps), Terms(ps[0]))
    decreases |ps|
  {
    if |ps| == 1 {
      assert ps[..0] == [] && ps[1..] == [];
    } else {
      var init := ps[..|ps| - 1];
      DropFirst(init);
      assert ps[1..][..|ps| - 2] == init[1..];
    }
  }

  lemma WrapAdd(x: int, y: int)
    ensures (x % TWO64 + y) % TWO64 == (x + y) % TWO64
    ensures (x % TWO64 - y) % TWO64 == (x - y) % TWO64
  {
    AddMultiple(x % TWO64 + y, x / TWO64);
    AddMultiple(x % TWO64 - y, x / TWO64);
  }

  lemma StoredAdd(s: Sums, t: Sums)
    ensures Wrap(Plus(Wrap(s), t)) == Wrap(Plus(s, t)) && Wrap(Minus(Wrap(s), t)) == Wrap(Minus(s, t))
  {
    WrapAdd(s.tt, t.tt);
    WrapAdd(s.cs, t.cs);
    WrapAdd(s.a, t.a);
    WrapAdd(s.b, t.b);
    WrapAdd(s.d, t.d);
  }

  lemma StoredWith(ps: seq<PerSecond>, p: PerSecond)
    ensures Wrap(Plus(Wrap(SumsOf(ps)), Terms(p))) == Wrap(SumsOf(ps + [p]))
  {
    StoredAdd(SumsOf(ps), Terms(p));
    SumsGrow(ps, p);
  }

  lemma StoredWithoutFirst(ps: seq<PerSecond>)
    requires ps != []
    ensures Wrap(Minus(Wrap(SumsOf(ps)), Terms(ps[0]))) == Wrap(SumsOf(ps[1..]))
  {
    StoredAdd(SumsOf(ps), Terms(ps[0]));
    DropFirst(ps);
  }

  lemma StoredWithoutLast(ps: seq<PerSecond>)
    requires ps != []
    ensures Wrap(Minus(Wrap(SumsOf(ps)), Terms(ps[|ps| - 1]))) == Wrap(SumsOf(ps[..|ps| - 1]))
  {
    var init, p := ps[..|ps| - 1], ps[|ps| - 1];
    SumsGrow(init, p);
    assert init + [p] == ps;
    MinusPlus(SumsOf(init), Terms(p));
    StoredAdd(SumsOf(ps), Terms(p));
  }

  lemma MinusPlus(s: Sums, t: Sums)
    ensures Minus(Plus(s, t), t) == s
  {
  }

  class EfficiencyEstimator {
    var sumtt: u64
    var sumcs: u64
    var a: u64
    var b: u64
    var d: u64
    var samples: seq<PerSecond>
    /** Every sample pushed, the last one as most recently updated. */
    ghost var history: seq<PerSecond>

    ghost function Stored(): Sums
      reads this
    {
      Sums(sumtt, sumcs, a, b, d)
    }

    /** The window is the last ten samples, and the stored sums are its sums modulo 2^64. */
    ghost predicate Valid()
      reads this
    {
      samples == LastTen(history) && Stored() == Wrap(SumsOf(samples))
    }

    constructor ()
      ensures Valid() && history == []
    {
      sumtt, sumcs, a, b, d, samples, history := 0, 0, 0, 0, 0, [], [];
    }

    method Accumulate(p: PerSecond)
      modifies this`sumtt, this`sumcs, this`a, this`b, this`d
      ensures Stored() == Wrap(Plus(old(Stored()), Terms(p)))
    {
      var t := Terms(p);
      sumtt := (sumtt + t.tt) % TWO64;
      sumcs := (sumcs + t.cs) % TWO64;
      a := (a + t.a) % TWO64;
      b := (b + t.b) % TWO64;
      d := (d + t.d) % TWO64;
    }

    method Subtract(p: PerSecond)
      modifies this`sumtt, this`sumcs, this`a, this`b, this`d
      ensures Stored() == Wrap(Minus(old(Stored()), Terms(p)))
    {
      var t := Terms(p);
      sumtt := (sumtt - t.tt) % TWO64;
      sumcs := (sumcs - t.cs) % TWO64;
      a := (a - t.a) % TWO64;
      b := (b - t.b) % TWO64;
      d := (d - t.d) % TWO64;
    }

    method DropFront()
      requires samples != [] && Stored() == Wrap(SumsOf(samples))
      modifies this
      ensures samples == old(samples)[1..] && Stored() == Wrap(SumsOf(samples))
      ensures history == old(history)
    {
      StoredWithoutFirst(samples);
      Subtract(samples[0]);
      samples := samples[1..];
    }

    method DropBack()
      requires samples != [] && Stored() == Wrap(SumsOf(samples))
      modifies this
      ensures samples == old(samples)[..|old(samples)| - 1] && Stored() == Wrap(SumsOf(samples))
      ensures history == old(history)
    {
      StoredWithoutLast(samples);
      Subtract(samples[|samples| - 1]);
      samples := samples[..|samples| - 1];
    }

    method PushBack(p: PerSecond)
      requires Stored() == Wrap(SumsOf(samples))
      modifies this
      ensures samples == old(samples) + [p] && Stored() == Wrap(SumsOf(samples))
      ensures history == old(history)
    {
      StoredWith(samples, p);
      samples := samples + [p];
      Accumulate(p);
    }

    method Push(p: PerSecond)
      requires Valid()
      modifies this
      ensures Valid() && history == old(history) + [p]
      ensures |samples| == Min(|history|, 10) && samples == history[|history| - |samples|..]
    {
      PushBack(p);
      if |samples| > MAX_SIZE {
        DropFront();
      }
      history := history + [p];
    }

    /** The size does not change, so the window's bound needs no check. */
    method UpdateLast(p: PerSecond)
      requires Valid() && samples != []
      modifies this
      ensures Valid() && history == old(history)[..|old(history)| - 1] + [p]
      ensures |samples| == Min(|history|, 10) && samples == history[|history| - |samples|..]
    {
      DropBack();
      PushBack(p);
      history := history[..|history| - 1] + [p];
    }

    /** The determinant is a difference of doubles, the numerators are 64-bit words: negating B
        means subtracting it from 2^64. */
    method Estimate() returns (r: Option<Solution>)
      requires Valid()
      ensures r == Solve(|samples|, Stored())
    {
      if |samples| < 2 {
        return None;
      }
      var det := a * d - b * b;
      if det <= 0 {
        return None;
      }
      var scan := (d * sumtt - b * sumcs) % TWO64;
      var process := ((TWO64 - b) * sumtt + a * sumcs) % TWO64;
      NegativeWraps(b, sumtt, a * sumcs);
      r := Some(Solution(scan as real / det as real, process as real / det as real));
    }
  }

  lemma NegativeWraps(b: u64, t: u64, r: int)
    ensures ((TWO64 - b) * t + r) % TWO64 == (r - b * t) % TWO64
  {
    assert (TWO64 - b) * t + r == (r - b * t) + TWO64 * t;
    AddMultiple(r - b * t, t);
  }

  lemma AddMultiple(x: int, t: int)
    ensures (x + TWO64 * t) % TWO64 == x % TWO64
  {
  }

  // ---------------------------------------------------------------- the estimate

  datatype Solution = Solution(scan: real, process: real)

  function Det(s: Sums): int {
    s.a * s.d - s.b * s.b
  }

  function ScanNumerator(s: Sums): int {
    s.d * s.tt - s.b * s.cs
  }

  function ProcessNumerator(s: Sums): int {
    s.a * s.cs - s.b * s.tt
  }

  /** `estimate`, with exact division: the numerators are computed in 64 bits. */
  function Solve(n: nat, s: Sums): Option<Solution> {
    if n < 2 || Det(s) <= 0 then None
    else Some(Quotients(ScanNumerator(s) % TWO64, ProcessNumerator(s) % TWO64, Det(s)))
  }

  function Quotients(scan: int, process: int, det: int): Solution
    requires det > 0
  {
    Solution(scan as real / det as real, process as real / det as real)
  }

  /** Both normal equations. */
  predicate Normal(s: Sums, x: real, y: real) {
    && s.a as real * x + s.b as real * y == s.tt as real
    && s.b as real * x + s.d as real * y == s.cs as real
  }

  /** The residual sum of squares. */
  function Residual(ps: seq<PerSecond>, x: real, y: real): real {
    if ps == [] then 0.0
    else
      Residual(ps[..|ps| - 1], x, y) + Squared(Error(ps[|ps| - 1], x, y))
  }

  function Error(p: PerSecond, x: real, y: real): real {
    1.0 - p.total as real * x - p.considered as real * y
  }

  function Squared(e: real): (r: real)
    ensures r >= 0.0
  {
    e * e
  }

  function Quadratic(s: Sums, u: real, v: real): real {
    s.a as real * u * u + 2.0 * s.b as real * u * v + s.d as real * v * v
  }

  /** The residual written with the sums. */
  function ResidualOf(n: nat, s: Sums, x: real, y: real): real {
    n as real - 2.0 * (s.tt as real * x + s.cs as real * y) + Quadratic(s, x, y)
  }

  lemma {:induction false} ResidualFormula(ps: seq<PerSecond>, x: real, y: real)
    ensures Residual(ps, x, y) == ResidualOf(|ps|, SumsOf(ps), x, y)
  {
    if ps != [] {
      var init, p := ps[..|ps| - 1], ps[|ps| - 1];
      ResidualFormula(init, x, y);
      var s, t := SumsOf(init), SumsOf(ps);
      assert t == Plus(s, Terms(p));
      ResidualGrows(|init|, s, p, x, y);
      assert Residual(ps, x, y) == Residual(init, x, y) + Squared(Error(p, x, y));
    }
  }

  lemma ResidualGrows(n: nat, s: Sums, p: PerSecond, x: real, y: real)
    ensures ResidualOf(n + 1, Plus(s, Terms(p)), x, y)
         == ResidualOf(n, s, x, y) + Squared(Error(p, x, y))
  {
    var t, c := p.total as real, p.considered as real;
    QuadraticPlus(s, Terms(p), x, y);
    QuadraticOfSample(p, x, y);
    assert (1.0 - t * x - c * y) * (1.0 - t * x - c * y)
        == 1.0 - 2.0 * (t * x + c * y) + (t * x + c * y) * (t * x + c * y);
  }

  lemma QuadraticPlus(s: Sums, t: Sums, u: real, v: real)
    ensures Quadratic(Plus(s, t), u, v) == Quadratic(s, u, v) + Quadratic(t, u, v)
  {
  }

  /** One sample's quadratic form is a square. */
  lemma QuadraticOfSample(p: PerSecond, u: real, v: real)
    ensures Quadratic(Terms(p), u, v) == Squared(Form(p, u, v))
  {
    var t, c := p.total as real, p.considered as real;
    assert (t * u + c * v) * (t * u + c * v) == t * t * u * u + 2.0 * (c * t) * u * v + c * c * v * v;
  }

  lemma {:induction false} QuadraticNonNegative(ps: seq<PerSecond>, u: real, v: real)
    ensures Quadratic(SumsOf(ps), u, v) >= 0.0
  {
    if ps != [] {
      var s, p := SumsOf(ps[..|ps| - 1]), ps[|ps| - 1];
      QuadraticNonNegative(ps[..|ps| - 1], u, v);
      QuadraticPlus(s, Terms(p), u, v);
      QuadraticOfSample(p, u, v);
      assert Quadratic(Plus(s, Terms(p)), u, v) >= 0.0;
    }
  }

  // ---------------------------------------------------------------- the determinant

  function CrossProduct(p: PerSecond, q: PerSecond): int {
    p.total * q.considered - p.considered * q.total
  }

  /** The squared cross products of a sample with each of the others. */
  function Spread(ps: seq<PerSecond>, q: PerSecond): (r: int)
    ensures r >= 0
    ensures r == 0 <==> forall i :: 0 <= i < |ps| ==> CrossProduct(ps[i], q) == 0
  {
    if ps == [] then 0
    else
      var c := CrossProduct(ps[|ps| - 1], q);
      SquareSign(c);
      Spread(ps[..|ps| - 1], q) + c * c
  }

  lemma SquareSign(c: int)
    ensures c * c >= 0 && (c * c == 0 <==> c == 0)
  {
  }

  function SpreadOf(s: Sums, q: PerSecond): int {
    var t, c := q.total, q.considered;
    s.a * (c * c) - 2 * s.b * (c * t) + s.d * (t * t)
  }

  lemma {:induction false} SpreadFormula(ps: seq<PerSecond>, q: PerSecond)
    ensures Spread(ps, q) == SpreadOf(SumsOf(ps), q)
  {
    if ps != [] {
      var s, p := SumsOf(ps[..|ps| - 1]), ps[|ps| - 1];
      SpreadFormula(ps[..|ps| - 1], q);
      SpreadGrows(s, p, q);
    }
  }

  lemma SpreadGrows(s: Sums, p: PerSecond, q: PerSecond)
    ensures var c := CrossProduct(p, q); SpreadOf(Plus(s, Terms(p)), q) == SpreadOf(s, q) + c * c
  {
    CrossSquared(p.total, p.considered, q.total, q.considered);
  }

  lemma CrossSquared(t: int, c: int, x: int, y: int)
    ensures (t * y - c * x) * (t * y - c * x)
         == (t * t) * (y * y) - 2 * (c * t) * (y * x) + (c * c) * (x * x)
  {
  }

  lemma DetGrows(s: Sums, q: PerSecond)
    ensures Det(Plus(s, Terms(q))) == Det(s) + SpreadOf(s, q)
  {
    var t: int, c: int := q.total, q.considered;
    ProductsMeet(t, c);
    DetExpands(s.a, s.b, s.d, t * t, c * t, c * c);
  }

  lemma ProductsMeet(t: int, c: int)
    ensures (c * t) * (c * t) == (t * t) * (c * c)
  {
  }

  lemma DetExpands(a: int, b: int, d: int, p: int, q: int, r: int)
    ensures (a + p) * (d + r) - (b + q) * (b + q)
         == (a * d - b * b) + (a * r - 2 * b * q + d * p) + (p * r - q * q)
  {
  }

  /** All samples have the same ratio of considered to total. */
  ghost predicate Parallel(ps: seq<PerSecond>) {
    forall i, j :: 0 <= i < j < |ps| ==> CrossProduct(ps[i], ps[j]) == 0
  }

  /** Cauchy-Schwarz, with its case of equality. */
  lemma {:induction false} DetSign(ps: seq<PerSecond>)
    ensures Det(SumsOf(ps)) >= 0
    ensures Det(SumsOf(ps)) == 0 <==> Parallel(ps)
  {
    if ps != [] {
      var init, q := ps[..|ps| - 1], ps[|ps| - 1];
      DetSign(init);
      SpreadFormula(init, q);
      DetGrows(SumsOf(init), q);
      assert Parallel(ps) <==> Parallel(init) && Spread(init, q) == 0;
    }
  }

  // ---------------------------------------------------------------- optimality

  lemma Cramer(s: Sums, x: real, y: real)
    requires Det(s) > 0
    ensures Normal(s, x, y) <==>
              && Det(s) as real * x == ScanNumerator(s) as real
              && Det(s) as real * y == ProcessNumerator(s) as real
  {
  }

  /** At a solution of the normal equations the residual exceeds the optimum by a quadratic form. */
  lemma Gap(n: nat, s: Sums, x: real, y: real, u: real, v: real)
    requires Normal(s, x, y)
    ensures ResidualOf(n, s, u, v) == ResidualOf(n, s, x, y) + Quadratic(s, u - x, v - y)
  {
    var a, b, d := s.a as real, s.b as real, s.d as real;
    var e, f := u - x, v - y;
    assert Quadratic(s, u, v)
        == Quadratic(s, x, y) + 2.0 * ((a * x + b * y) * e + (b * x + d * y) * f) + Quadratic(s, e, f)
      by { QuadraticShift(a, b, d, x, y, e, f); }
    assert s.tt as real * u == s.tt as real * x + s.tt as real * e;
    assert s.cs as real * v == s.cs as real * y + s.cs as real * f;
  }

  lemma QuadraticShift(a: real, b: real, d: real, x: real, y: real, e: real, f: real)
    ensures a * (x + e) * (x + e) + 2.0 * b * (x + e) * (y + f) + d * (y + f) * (y + f)
         == (a * x * x + 2.0 * b * x * y + d * y * y)
            + 2.0 * ((a * x + b * y) * e + (b * x + d * y) * f)
            + (a * e * e + 2.0 * b * e * f + d * f * f)
  {
  }

  function Form(p: PerSecond, e: real, f: real): real {
    p.total as real * e + p.considered as real * f
  }

  /** Where the quadratic form is not positive, every sample's linear form vanishes. */
  lemma {:induction false} FormsVanish(ps: seq<PerSecond>, e: real, f: real)
    requires Quadratic(SumsOf(ps), e, f) <= 0.0
    ensures forall i :: 0 <= i < |ps| ==> Form(ps[i], e, f) == 0.0
  {
    if ps != [] {
      var init, p := ps[..|ps| - 1], ps[|ps| - 1];
      QuadraticPlus(SumsOf(init), Terms(p), e, f);
      QuadraticOfSample(p, e, f);
      QuadraticNonNegative(init, e, f);
      SumVanishes(Quadratic(SumsOf(init), e, f), Form(p, e, f));
      FormsVanish(init, e, f);
    }
  }

  lemma SumVanishes(x: real, w: real)
    requires x >= 0.0 && x + Squared(w) <= 0.0
    ensures x <= 0.0 && w == 0.0
  {
    if w != 0.0 { NoZeroDivisor(w, w); }
  }

  lemma NoZeroDivisor(k: real, e: real)
    requires k * e == 0.0
    ensures k == 0.0 || e == 0.0
  {
  }

  /** Unless all samples are parallel the quadratic form is positive away from 0. */
  lemma Definite(ps: seq<PerSecond>, e: real, f: real)
    requires !Parallel(ps) && Quadratic(SumsOf(ps), e, f) <= 0.0
    ensures e == 0.0 && f == 0.0
  {
    FormsVanish(ps, e, f);
    var i, j :| 0 <= i < j < |ps| && CrossProduct(ps[i], ps[j]) != 0;
    Independent(ps[i], ps[j], e, f);
  }

  lemma Independent(p: PerSecond, q: PerSecond, e: real, f: real)
    requires Form(p, e, f) == 0.0 && Form(q, e, f) == 0.0 && CrossProduct(p, q) != 0
    ensures e == 0.0 && f == 0.0
  {
    var t: int, c: int, x: int, y: int := p.total, p.considered, q.total, q.considered;
    var t', c', x', y' := t as real, c as real, x as real, y as real;
    var k := t' * y' - c' * x';
    assert k == (t * y - c * x) as real;
    Eliminate(t', c', x', y', e, f);
    NoZeroDivisor(k, e);
    NoZeroDivisor(k, f);
  }

  lemma Eliminate(t: real, c: real, x: real, y: real, e: real, f: real)
    requires t * e + c * f == 0.0 && x * e + y * f == 0.0
    ensures (t * y - c * x) * e == 0.0 && (t * y - c * x) * f == 0.0
  {
    assert (t * y - c * x) * e == y * (t * e + c * f) - c * (x * e + y * f);
    assert (t * y - c * x) * f == t * (x * e + y * f) - x * (t * e + c * f);
  }

  // ---------------------------------------------------------------- the estimate is the optimum

  ghost predicate Minimises(ps: seq<PerSecond>, x: real, y: real) {
    forall u: real, v: real :: Residual(ps, x, y) <= Residual(ps, u, v)
  }

  lemma NormalIsOptimal(ps: seq<PerSecond>, x: real, y: real)
    requires Normal(SumsOf(ps), x, y)
    ensures Minimises(ps, x, y)
  {
    forall u: real, v: real ensures Residual(ps, x, y) <= Residual(ps, u, v) {
      ResidualFormula(ps, x, y);
      ResidualFormula(ps, u, v);
      Gap(|ps|, SumsOf(ps), x, y, u, v);
      QuadraticNonNegative(ps, u - x, v - y);
    }
  }

  /** Nothing but the solution of the normal equations is optimal. */
  lemma OptimumIsUnique(ps: seq<PerSecond>, x: real, y: real, u: real, v: real)
    requires !Parallel(ps) && Normal(SumsOf(ps), x, y) && Minimises(ps, u, v)
    ensures u == x && v == y
  {
    assert Residual(ps, u, v) <= Residual(ps, x, y);
    ResidualFormula(ps, x, y);
    ResidualFormula(ps, u, v);
    Gap(|ps|, SumsOf(ps), x, y, u, v);
    assert Quadratic(SumsOf(ps), u - x, v - y) <= 0.0;
    Definite(ps, u - x, v - y);
  }

  /** A sum of squares is 0 only if all its terms are, and then so are the other sums with them. */
  predicate SumsOfSquares(s: Sums) {
    && s.a >= 0 && (s.a == 0 ==> s.tt == 0 && s.b == 0)
    && s.d >= 0 && (s.d == 0 ==> s.cs == 0 && s.b == 0)
  }

  lemma SquareTerms(p: PerSecond)
    ensures SumsOfSquares(Terms(p))
  {
    SquareSign(p.total);
    SquareSign(p.considered);
  }

  lemma SquaresAdd(s: Sums, t: Sums)
    requires SumsOfSquares(s) && SumsOfSquares(t)
    ensures SumsOfSquares(Plus(s, t))
  {
  }

  lemma {:induction false} SquareSums(ps: seq<PerSecond>)
    ensures SumsOfSquares(SumsOf(ps))
  {
    if ps != [] {
      var p := ps[|ps| - 1];
      SquareSums(ps[..|ps| - 1]);
      SquareTerms(p);
      SquaresAdd(SumsOf(ps[..|ps| - 1]), Terms(p));
    }
  }

  function ScanSlope(s: Sums, x: real, y: real): real {
    s.tt as real - s.a as real * x - s.b as real * y
  }

  function ProcessSlope(s: Sums, x: real, y: real): real {
    s.cs as real - s.b as real * x - s.d as real * y
  }

  /** What moving one coordinate by e adds to the residual. */
  predicate Moves(after: real, before: real, a: real, g: real, e: real) {
    after == before - 2.0 * e * g + a * e * e
  }

  lemma StepScan(n: nat, s: Sums, x: real, y: real, e: real)
    ensures Moves(ResidualOf(n, s, x + e, y), ResidualOf(n, s, x, y), s.a as real, ScanSlope(s, x, y), e)
  {
    QuadraticShift(s.a as real, s.b as real, s.d as real, x, y, e, 0.0);
  }

  lemma StepProcess(n: nat, s: Sums, x: real, y: real, f: real)
    ensures Moves(ResidualOf(n, s, x, y + f), ResidualOf(n, s, x, y), s.d as real, ProcessSlope(s, x, y), f)
  {
    QuadraticShift(s.a as real, s.b as real, s.d as real, x, y, 0.0, f);
  }

  lemma SlopeIsSumOver(ps: seq<PerSecond>, x: real, y: real)
    ensures var s := SumsOf(ps);
            && (ScanSlope(s, x, y) != 0.0 ==> s.a > 0)
            && (ProcessSlope(s, x, y) != 0.0 ==> s.d > 0)
  {
    SquareSums(ps);
  }

  /** Moving one coordinate to where its normal equation holds lowers the residual by g^2 / a. */
  lemma Downhill(after: real, before: real, a: real, g: real)
    requires a > 0.0 && g != 0.0 && Moves(after, before, a, g, g / a)
    ensures after < before
  {
    var e := g / a;
    assert a * e == g;
    assert a * e * e == g * e;
    assert e * e > 0.0;
    assert e * g == a * (e * e) by { assert e * g == e * (a * e); }
  }

  lemma ScanSlopeIsFlat(ps: seq<PerSecond>, x: real, y: real)
    requires Minimises(ps, x, y)
    ensures ScanSlope(SumsOf(ps), x, y) == 0.0
  {
    var s := SumsOf(ps);
    var g := ScanSlope(s, x, y);
    if g != 0.0 {
      SlopeIsSumOver(ps, x, y);
      var u := x + g / s.a as real;
      StepScan(|ps|, s, x, y, g / s.a as real);
      ResidualFormula(ps, x, y);
      ResidualFormula(ps, u, y);
      Downhill(Residual(ps, u, y), Residual(ps, x, y), s.a as real, g);
    }
  }

  lemma ProcessSlopeIsFlat(ps: seq<PerSecond>, x: real, y: real)
    requires Minimises(ps, x, y)
    ensures ProcessSlope(SumsOf(ps), x, y) == 0.0
  {
    var s := SumsOf(ps);
    var h := ProcessSlope(s, x, y);
    if h != 0.0 {
      SlopeIsSumOver(ps, x, y);
      var v := y + h / s.d as real;
      StepProcess(|ps|, s, x, y, h / s.d as real);
      ResidualFormula(ps, x, y);
      ResidualFormula(ps, x, v);
      Downhill(Residual(ps, x, v), Residual(ps, x, y), s.d as real, h);
    }
  }

  lemma FlatIsNormal(s: Sums, x: real, y: real)
    requires ScanSlope(s, x, y) == 0.0 && ProcessSlope(s, x, y) == 0.0
    ensures Normal(s, x, y)
  {
  }

  /** The minimisers are the solutions of the normal equations, parallel samples or not. */
  lemma MinimisesIffNormal(ps: seq<PerSecond>, x: real, y: real)
    ensures Minimises(ps, x, y) <==> Normal(SumsOf(ps), x, y)
  {
    if Normal(SumsOf(ps), x, y) {
      NormalIsOptimal(ps, x, y);
    }
    if Minimises(ps, x, y) {
      ScanSlopeIsFlat(ps, x, y);
      ProcessSlopeIsFlat(ps, x, y);
      FlatIsNormal(SumsOf(ps), x, y);
    }
  }

  // ---------------------------------------------------------------- stored sums

  /** x*y - z*w modulo 2^64 does not depend on what was cut off the factors. */
  lemma ProductsWrap(x: int, y: int, z: int, w: int)
    ensures ((x % TWO64) * (y % TWO64) - (z % TWO64) * (w % TWO64)) % TWO64 == (x * y - z * w) % TWO64
  {
    var k, l := Excess(x, y), Excess(z, w);
    ExcessOf(x, y);
    ExcessOf(z, w);
    AddMultiple((x % TWO64) * (y % TWO64) - (z % TWO64) * (w % TWO64), k - l);
  }

  function Excess(x: int, y: int): int {
    (x / TWO64) * (y % TWO64) + x * (y / TWO64)
  }

  lemma ExcessOf(x: int, y: int)
    ensures x * y == (x % TWO64) * (y % TWO64) + TWO64 * Excess(x, y)
  {
    var p, q, r, t := x / TWO64, x % TWO64, y / TWO64, y % TWO64;
    assert x == TWO64 * p + q && y == TWO64 * r + t;
    assert x * y == x * (TWO64 * r + t) == TWO64 * (x * r) + x * t;
    assert x * t == (TWO64 * p + q) * t == TWO64 * (p * t) + q * t;
  }

  /** The numerators come out the same from the wrapped sums; only the determinant does not. */
  lemma NumeratorsWrap(s: Sums)
    ensures ScanNumerator(Wrap(s)) % TWO64 == ScanNumerator(s) % TWO64
    ensures ProcessNumerator(Wrap(s)) % TWO64 == ProcessNumerator(s) % TWO64
  {
    ProductsWrap(s.d, s.tt, s.b, s.cs);
    ProductsWrap(s.a, s.cs, s.b, s.tt);
  }

  /** (m, n) / det solves the normal equations. */
  predicate Solves(s: Sums, m: int, n: int, det: int) {
    s.a * m + s.b * n == s.tt * det && s.b * m + s.d * n == s.cs * det
  }

  lemma Multiplied(a: int, b: int, t: int, m: int, n: int, det: int)
    requires det > 0
    ensures a as real * (m as real / det as real) + b as real * (n as real / det as real) == t as real
       <==> a * m + b * n == t * det
  {
    var x, y, k := m as real / det as real, n as real / det as real, det as real;
    Scaled(m, det);
    Scaled(n, det);
    var sum := a as real * x + b as real * y;
    assert k * sum == a as real * (k * x) + b as real * (k * y);
    assert k * sum == (a * m + b * n) as real;
    if k * sum == k * t as real { NoZeroDivisor(k, sum - t as real); }
  }

  lemma NormalIffSolves(s: Sums, m: int, n: int, det: int)
    requires det > 0
    ensures var q := Quotients(m, n, det);
            Normal(s, q.scan, q.process) <==> Solves(s, m, n, det)
  {
    Multiplied(s.a, s.b, s.tt, m, n, det);
    Multiplied(s.b, s.d, s.cs, m, n, det);
  }

  lemma QuotientsMinimiseIff(ps: seq<PerSecond>, m: int, n: int, det: int)
    requires det > 0
    ensures var q := Quotients(m, n, det);
            Minimises(ps, q.scan, q.process) <==> Solves(SumsOf(ps), m, n, det)
  {
    var q, s := Quotients(m, n, det), SumsOf(ps);
    MinimisesIffNormal(ps, q.scan, q.process);
    NormalIffSolves(s, m, n, det);
  }

  /** What the estimate is worth, for any samples whatever their sums are modulo 2^64: none is given
      iff there are fewer than two samples or the determinant of the stored sums is not positive, and
      one that is given minimises the residual of the samples iff its three integers solve the normal
      equations of the true sums. */
  lemma EstimateIsOptimalIff(ps: seq<PerSecond>)
    ensures var s := SumsOf(ps);
            var (r, det) := (Solve(|ps|, Wrap(s)), Det(Wrap(s)));
            && (r == None <==> |ps| < 2 || det <= 0)
            && (r.Some? ==>
                  (Minimises(ps, r.value.scan, r.value.process)
                   <==> Solves(s, ScanNumerator(s) % TWO64, ProcessNumerator(s) % TWO64, det)))
  {
    var s := SumsOf(ps);
    NumeratorsWrap(s);
    if |ps| >= 2 && Det(Wrap(s)) > 0 {
      QuotientsMinimiseIff(ps, ScanNumerator(s) % TWO64, ProcessNumerator(s) % TWO64, Det(Wrap(s)));
    }
  }

  lemma SumsOfTwo(p: PerSecond, q: PerSecond)
    ensures SumsOf([p, q]) == Plus(Terms(p), Terms(q))
  {
    SumsGrow([], p);
    SumsGrow([p], q);
    assert [] + [p] == [p] && [p] + [q] == [p, q];
    PlusZero(Terms(p));
  }

  lemma SumsGrow(ps: seq<PerSecond>, p: PerSecond)
    ensures SumsOf(ps + [p]) == Plus(SumsOf(ps), Terms(p))
  {
    assert (ps + [p])[..|ps|] == ps;
  }

  lemma PlusZero(t: Sums)
    ensures Plus(ZERO, t) == t
  {
  }

  /** Two samples that are not parallel and get no estimate: the sum of squares wraps to 1. */
  lemma SumsCanWrap()
    ensures var ps := [PerSecond(0x1_0000_0000, 1), PerSecond(1, 1)];
            !Parallel(ps) && Wrap(SumsOf(ps)).a == 1 && Solve(2, Wrap(SumsOf(ps))) == None
  {
    var p, q := PerSecond(0x1_0000_0000, 1), PerSecond(1, 1);
    SumsOfTwo(p, q);
    assert Terms(p) == Sums(0x1_0000_0000, 1, TWO64, 0x1_0000_0000, 1) && Terms(q) == Sums(1, 1, 1, 1, 1);
    var ps := [p, q];
    assert CrossProduct(ps[0], ps[1]) == 0xffff_ffff;
    NoEstimateFor(Sums(0x1_0000_0001, 2, TWO64 + 1, 0x1_0000_0001, 2));
  }

  lemma NoEstimateFor(s: Sums)
    requires s == Sums(0x1_0000_0001, 2, TWO64 + 1, 0x1_0000_0001, 2)
    ensures Wrap(s).a == 1 && Solve(2, Wrap(s)) == None
  {
    assert Wrap(s) == Sums(0x1_0000_0001, 2, 1, 0x1_0000_0001, 2);
  }

  predicate Fits(n: int) {
    0 <= n < TWO64
  }

  lemma Scaled(n: int, d: int)
    requires d > 0
    ensures d as real * (n as real / d as real) == n as real
  {
  }

  lemma Ratio(m: int, n: int, d: int)
    requires d > 0
    ensures m as real / d as real == n as real / d as real <==> m == n
  {
    Scaled(m, d);
    Scaled(n, d);
  }

  /** The quotients the code would form without wrapping solve the normal equations. */
  lemma ExactIsNormal(s: Sums)
    requires Det(s) > 0
    ensures var q := Quotients(ScanNumerator(s), ProcessNumerator(s), Det(s));
            Normal(s, q.scan, q.process)
  {
    Scaled(ScanNumerator(s), Det(s));
    Scaled(ProcessNumerator(s), Det(s));
    var q := Quotients(ScanNumerator(s), ProcessNumerator(s), Det(s));
    Cramer(s, q.scan, q.process);
  }

  /** Wrapping the numerators is harmless iff both fit. */
  lemma WrapIff(m: int, n: int, det: int)
    requires det > 0
    ensures Quotients(m % TWO64, n % TWO64, det) == Quotients(m, n, det) <==> Fits(m) && Fits(n)
  {
    Ratio(m % TWO64, m, det);
    Ratio(n % TWO64, n, det);
  }

  /** For samples that are not all parallel, whose five sums fit 64 bits, the estimate exists; it
      solves the normal equations, and minimises the residual, exactly when both numerators are
      non-negative and fit 64 bits. */
  lemma OptimalIffNumeratorsFit(ps: seq<PerSecond>)
    requires |ps| >= 2 && Wrap(SumsOf(ps)) == SumsOf(ps) && !Parallel(ps)
    ensures var s := SumsOf(ps);
            var r := Solve(|ps|, s);
            && r.Some?
            && (Minimises(ps, r.value.scan, r.value.process)
                <==> Fits(ScanNumerator(s)) && Fits(ProcessNumerator(s)))
            && (Minimises(ps, r.value.scan, r.value.process)
                <==> Normal(s, r.value.scan, r.value.process))
  {
    DetSign(ps);
    var s := SumsOf(ps);
    var m, n, det := ScanNumerator(s), ProcessNumerator(s), Det(s);
    var r, q := Quotients(m % TWO64, n % TWO64, det), Quotients(m, n, det);
    ExactIsNormal(s);
    WrapIff(m, n, det);
    NormalIsOptimal(ps, q.scan, q.process);
    if Normal(s, r.scan, r.process) { NormalIsOptimal(ps, r.scan, r.process); }
    if Minimises(ps, r.scan, r.process) {
      OptimumIsUnique(ps, q.scan, q.process, r.scan, r.process);
    }
  }

  /** As long as no sum wraps, no estimate is given for fewer than two samples or parallel ones only. */
  lemma NoEstimateIff(ps: seq<PerSecond>)
    ensures Solve(|ps|, SumsOf(ps)) == None <==> |ps| < 2 || Parallel(ps)
  {
    DetSign(ps);
  }

  /** Two samples whose exact scan time is negative: the numerator wraps and the estimate is not the
      optimum. */
  lemma EstimateCanWrap()
    ensures var ps := [PerSecond(1, 1), PerSecond(4, 2)];
            var r := Solve(2, SumsOf(ps));
            && r.Some? && ScanNumerator(SumsOf(ps)) == -2
            && !Minimises(ps, r.value.scan, r.value.process)
  {
    var p, q := PerSecond(1, 1), PerSecond(4, 2);
    var ps := [p, q];
    SumsOfTwo(p, q);
    assert Terms(p) == Sums(1, 1, 1, 1, 1) && Terms(q) == Sums(4, 2, 16, 8, 4);
    assert CrossProduct(ps[0], ps[1]) == -2;
    OptimalIffNumeratorsFit(ps);
  }
}
