/**
 * Rides, cars and the small pure helpers of the ride dispatcher:
 * Manhattan distance, journey time, the feasibility test, the bonus test
 * and the score the greedy dispatcher maximises.
 */
module RideModel {
  import opened IntMath

  /** A positive integer: the denominator of a finite score. */
  type Pos = n: int | n > 0 witness 1

  /** One ride; `id` is its position in the input, (a, b) its start and
      (x, y) its finish intersection, `s` its earliest start and `f` its
      latest finish. */
  datatype Ride = Ride(id: int, a: int, b: int, x: int, y: int, s: int, f: int)
  {
    /** Length of the ride itself, from start to finish intersection. */
    function Dist(): (d: nat)
      ensures d == 0 <==> a == x && b == y
    {
      ManhattanDist(a, b, x, y)
    }
  }

  /** A vehicle: its row, its column and the time from which it is free. */
  datatype Car = Car(x: int, y: int, t: int)

  function Abs(n: int): nat
  {
    if n < 0 then -n else n
  }

  /** Manhattan distance between (x1, y1) and (x2, y2). */
  function ManhattanDist(x1: int, y1: int, x2: int, y2: int): (d: nat)
    ensures d == 0 <==> x1 == x2 && y1 == y2
  {
    Abs(x1 - x2) + Abs(y1 - y2)
  }

  lemma ManhattanSymmetric(x1: int, y1: int, x2: int, y2: int)
    ensures ManhattanDist(x1, y1, x2, y2) == ManhattanDist(x2, y2, x1, y1)
  {
  }

  lemma ManhattanTriangle(x1: int, y1: int, x2: int, y2: int, x3: int, y3: int)
    ensures ManhattanDist(x1, y1, x3, y3) <= ManhattanDist(x1, y1, x2, y2) + ManhattanDist(x2, y2, x3, y3)
  {
  }

  /** How far the car has to drive to reach the start of the ride. */
  function DistToStart(car: Car, ride: Ride): (d: nat)
    ensures d == 0 <==> car.x == ride.a && car.y == ride.b
  {
    ManhattanDist(car.x, car.y, ride.a, ride.b)
  }

  /** Time the car needs to give the ride: it drives to the start, waits
      there if it would arrive before the earliest start, then drives the
      ride. The result is the least duration that covers both the drive
      to the start and the wait for `s`. */
  function JourneyTime(car: Car, ride: Ride): (j: int)
    ensures j >= DistToStart(car, ride) + ride.Dist() >= 0
    ensures car.t + j >= ride.s + ride.Dist()
    ensures j == DistToStart(car, ride) + ride.Dist() || car.t + j == ride.s + ride.Dist()
  {
    Max(DistToStart(car, ride), ride.s - car.t) + ride.Dist()
  }

  /** Whether the car cannot finish the ride by its latest finish. A ride
      is feasible exactly when the car can drive to the start and then the
      ride before `f`, and the ride started at `s` also ends by `f`. */
  function Infeasible(car: Car, ride: Ride): (r: bool)
    ensures !r <==> car.t + DistToStart(car, ride) + ride.Dist() <= ride.f && ride.s + ride.Dist() <= ride.f
  {
    car.t + JourneyTime(car, ride) > ride.f
  }

  /** The bonus modifier as the dispatcher computes it: the bonus is granted
      when the distance to the start is at most `car.t - s`, that is, when
      the car became free at least that distance after the earliest start. */
  function Bonus(car: Car, ride: Ride, bonus: int): (r: int)
    ensures r == bonus || r == 0
    ensures ride.s + DistToStart(car, ride) <= car.t ==> r == bonus
    ensures bonus != 0 ==> (r == bonus <==> car.t - ride.s >= DistToStart(car, ride))
  {
    if DistToStart(car, ride) <= car.t - ride.s then bonus else 0
  }

  /** The bonus test is not an "arrives by the earliest start" test: a car
      already at the start before `s` gets no bonus; of the cars that can
      reach the start by `s`, only one standing there at exactly `s` gets
      it; and a car that is late by at least the distance to the start gets
      it. */
  lemma BonusIsNotOnTimeTest(car: Car, ride: Ride, bonus: int)
    ensures car.x == ride.a && car.y == ride.b && car.t < ride.s ==> Bonus(car, ride, bonus) == 0
    ensures car.t + DistToStart(car, ride) <= ride.s && Bonus(car, ride, bonus) != 0 ==>
      DistToStart(car, ride) == 0 && car.t == ride.s
    ensures car.t - ride.s >= DistToStart(car, ride) ==> Bonus(car, ride, bonus) == bonus
  {
  }

  /** A value of Java's `double` as the dispatcher produces it: an exact
      fraction, positive or negative infinity, or NaN. */
  datatype Score = Finite(num: int, den: Pos) | PosInf | NegInf | NaN

  /** Java's `>` on these values: NaN is never greater nor smaller than
      anything, infinities compare as usual, fractions by cross-multiplying. */
  predicate Gt(p: Score, q: Score)
  {
    match (p, q)
    case (NaN, _) => false
    case (_, NaN) => false
    case (PosInf, PosInf) => false
    case (PosInf, _) => true
    case (NegInf, _) => false
    case (Finite(_, _), PosInf) => false
    case (Finite(_, _), NegInf) => true
    case (Finite(n1, d1), Finite(n2, d2)) => n1 * d2 > n2 * d1
  }

  /** The initial best score of a selection, the constant -2. */
  const Floor: Score := Finite(-2, 1)

  /** The score the source uses for a car and a ride: (ride length +
      bonus) / journey time, in double arithmetic. Division by a zero
      journey time yields an infinity or NaN, as in Java. */
  function SourceScore(car: Car, ride: Ride, bonus: int): (r: Score)
    ensures r.Finite? <==> JourneyTime(car, ride) != 0
    ensures r.NaN? <==> JourneyTime(car, ride) == 0 && bonus == 0
    ensures r.Finite? ==> r.den == JourneyTime(car, ride) && r.num == ride.Dist() + Bonus(car, ride, bonus)
  {
    var num := ride.Dist() + Bonus(car, ride, bonus);
    var den := JourneyTime(car, ride);
    if den > 0 then Finite(num, den)
    else if num > 0 then PosInf
    else if num < 0 then NegInf
    else NaN
  }

  /** The score function of the dispatcher, for a fixed bonus. */
  function ScoreFunction(bonus: int): (Car, Ride) -> Score
  {
    (car: Car, ride: Ride) => SourceScore(car, ride, bonus)
  }

  lemma MulStrict(m: int, n: int, k: int)
    requires m > n && k > 0
    ensures m * k > n * k
  {
  }

  lemma MulWeak(m: int, n: int, k: int)
    requires m <= n && k > 0
    ensures m * k <= n * k
  {
  }

  lemma PosFactor(m: int, k: int)
    requires k > 0 && m * k > 0
    ensures m > 0
  {
  }

  lemma GtIrreflexive(p: Score)
    ensures !Gt(p, p)
  {
  }

  /** If r <= q < p (r not NaN) then r < p. */
  lemma GtAboveNotGt(p: Score, q: Score, r: Score)
    requires Gt(p, q) && !Gt(r, q) && !r.NaN?
    ensures Gt(p, r)
  {
    if p.Finite? && q.Finite? && r.Finite? {
      var n1, d1, n2, d2, n3, d3 := p.num, p.den, q.num, q.den, r.num, r.den;
      MulStrict(n1 * d2, n2 * d1, d3);
      MulWeak(n3 * d2, n2 * d3, d1);
      assert n1 * d2 * d3 > n2 * d1 * d3;
      assert n3 * d2 * d1 <= n2 * d3 * d1;
      assert (n1 * d3 - n3 * d1) * d2 > 0;
      PosFactor(n1 * d3 - n3 * d1, d2);
    }
  }

  /** Java's `>` on non-NaN doubles is transitive. */
  lemma GtTransitive(p: Score, q: Score, r: Score)
    requires Gt(p, q) && Gt(q, r)
    ensures Gt(p, r)
  {
    if p.Finite? && q.Finite? && r.Finite? {
      GtAboveNotGt(p, q, r);
    }
  }

  /** Of two non-NaN scores at most one is greater than the other. */
  lemma GtAsymmetric(p: Score, q: Score)
    requires Gt(p, q)
    ensures !Gt(q, p)
  {
    if p.Finite? && q.Finite? && Gt(q, p) {
      GtTransitive(p, q, p);
      GtIrreflexive(p);
    }
  }
}
