/**
 * The ride dispatcher's state and its time-stepped greedy simulation.
 * Each method is proved equal to the pure functions of RideSimulation,
 * whose properties are proved there.
 */
module RideDispatcher {
  import opened RideModel
  import opened RideSimulation
  import opened RideLoading

  class Dispatcher {
    /** Per-ride bonus for starting on time (B). */
    const bonus: int
    /** Number of steps of the simulation (T). */
    const steps: int
    /** The cars, by car index; a slot is updated in place. */
    const cars: array<Car>
    /** The active pool of rides, in scan order. */
    var rides: seq<Ride>

    /** The state after reading the input: rides numbered by line and
        sorted by non-increasing earliest start (stably), and `fleetSize`
        cars at (0, 0), free at time 0. */
    constructor Load(bonus: int, steps: int, fleetSize: nat, lines: seq<RideLine>)
      ensures this.bonus == bonus && this.steps == steps
      ensures rides == SortByStart(Numbered(lines))
      ensures cars.Length == fleetSize && fresh(cars)
      ensures forall c :: 0 <= c < cars.Length ==> cars[c] == Car(0, 0, 0)
    {
      this.bonus := bonus;
      this.steps := steps;
      var loaded: seq<Ride> := [];
      for i := 0 to |lines|
        invariant loaded == Numbered(lines)[..i]
      {
        loaded := loaded + [Ride(i, lines[i].a, lines[i].b, lines[i].x, lines[i].y, lines[i].s, lines[i].f)];
      }
      assert loaded == Numbered(lines);
      rides := SortByStart(loaded);
      cars := new Car[fleetSize];
      new;
      for i := 0 to fleetSize
        invariant rides == SortByStart(Numbered(lines))
        invariant forall c :: 0 <= c < i ==> cars[c] == Car(0, 0, 0)
      {
        cars[i] := Car(0, 0, 0);
      }
    }

    /** The expiry pass at step t: walks the pool by index, removing each
        ride with `f <= t`; the index advances after a removal too. */
    method ExpireRides(t: int)
      modifies this
      ensures rides == Expire(old(rides), t)
    {
      ExpireFromStart(rides, t);
      var r := 0;
      while r < |rides|
        invariant ExpireFrom(rides, r, t) == Expire(old(rides), t)
        decreases |rides| - r
      {
        if rides[r].f <= t {
          rides := RemoveAt(rides, r);
        }
        r := r + 1;
      }
    }

    /** The scan for a free car: the first feasible ride of the pool with
        the strictly greatest score, or -2 when no feasible ride scores
        above -2. */
    method ChooseRide(car: Car, score: (Car, Ride) -> Score) returns (maxRide: int)
      ensures maxRide == Pick(car, rides, score)
      ensures FirstBest(car, rides, score, |rides|, PickUpTo(car, rides, score, |rides|).0, maxRide)
    {
      var maxScore := Floor;
      maxRide := -2;
      var r := 0;
      while r < |rides|
        invariant 0 <= r <= |rides|
        invariant (maxScore, maxRide) == PickUpTo(car, rides, score, r)
      {
        var ride := rides[r];
        if Infeasible(car, ride) {
          r := r + 1;
          continue;
        }
        var sc := score(car, ride);
        if Gt(sc, maxScore) {
          maxScore := sc;
          maxRide := r;
        }
        r := r + 1;
      }
      PickIsFirstBest(car, rides, score);
    }

    /** One car's turn at step t, with a non-empty pool: a busy car is
        skipped; a free car is brought to time t, chooses a ride, and if it
        found one gives it, moving to the ride's finish. */
    method TakeTurn(c: nat, t: int, plan0: seq<seq<int>>, score: (Car, Ride) -> Score) returns (plan: seq<seq<int>>)
      requires c < cars.Length && |plan0| == cars.Length
      modifies this, cars
      ensures Sim(rides, cars[..], plan) == ServeCar(Sim(old(rides), old(cars[..]), plan0), c, t, score)
    {
      plan := plan0;
      var car := cars[c];
      if car.t > t {
        return;
      } else if car.t < t {
        car := car.(t := t);
        cars[c] := car;
      }
      var maxRide := ChooseRide(car, score);
      if maxRide == -2 {
        return;
      }
      var ride := rides[maxRide];
      plan := plan[c := plan[c] + [ride.id]];
      cars[c] := Car(ride.x, ride.y, car.t + JourneyTime(car, ride));
      rides := RemoveAt(rides, maxRide);
    }

    /** The cars' turns at step t, in car order. Returns the lists and
        whether the pool was found empty, which ends the simulation. */
    method ServeCars(t: int, plan0: seq<seq<int>>, score: (Car, Ride) -> Score) returns (plan: seq<seq<int>>, exhausted: bool)
      requires |plan0| == cars.Length
      modifies this, cars
      ensures (Sim(rides, cars[..], plan), exhausted) == ServeFrom(Sim(old(rides), old(cars[..]), plan0), 0, t, score)
    {
      plan := plan0;
      var c := 0;
      while c < cars.Length
        invariant 0 <= c <= cars.Length && |plan| == cars.Length
        invariant ServeFrom(Sim(rides, cars[..], plan), c, t, score) == ServeFrom(Sim(old(rides), old(cars[..]), plan0), 0, t, score)
      {
        if |rides| == 0 {
          exhausted := true;
          return;
        }
        plan := TakeTurn(c, t, plan, score);
        c := c + 1;
      }
      exhausted := false;
    }

    /** The whole greedy assignment: one (initially empty) list per car;
        at each step t < steps the expiry pass, then the cars' turns; the
        simulation ends early as soon as a turn finds the pool empty. */
    method Assign(score: (Car, Ride) -> Score) returns (plan: seq<seq<int>>)
      modifies this, cars
      ensures Sim(rides, cars[..], plan) == RunFrom(Sim(old(rides), old(cars[..]), EmptyPlan(cars.Length)), 0, steps, score)
    {
      plan := [];
      for i := 0 to cars.Length
        invariant plan == EmptyPlan(i)
      {
        plan := plan + [[]];
      }
      var t := 0;
      while t < steps
        invariant |plan| == cars.Length
        invariant RunFrom(Sim(rides, cars[..], plan), t, steps, score)
               == RunFrom(Sim(old(rides), old(cars[..]), EmptyPlan(cars.Length)), 0, steps, score)
        decreases steps - t
      {
        ExpireRides(t);
        var exhausted;
        plan, exhausted := ServeCars(t, plan, score);
        if exhausted {
          return;
        }
        t := t + 1;
      }
    }
  }

  /** The dispatcher's run: read the input, then assign rides greedily
      with the score function for the loaded bonus. The lists are those of
      the pure run from the loaded state, one per car, and they name each
      ride of the input at most once. */
  method Solve(bonus: int, steps: int, fleetSize: nat, lines: seq<RideLine>) returns (plan: seq<seq<int>>)
    ensures plan == RunFrom(Loaded(lines, fleetSize), 0, steps, ScoreFunction(bonus)).plan
    ensures |plan| == fleetSize && Unique(multiset(Flatten(plan)))
    ensures forall id :: id in multiset(Flatten(plan)) ==> 0 <= id < |lines|
  {
    var d := new Dispatcher.Load(bonus, steps, fleetSize, lines);
    assert d.cars[..] == seq(fleetSize, _ => Car(0, 0, 0));
    plan := d.Assign(ScoreFunction(d.bonus));
    LoadedRunUsesEachRideOnce(lines, fleetSize, steps, ScoreFunction(bonus));
  }
}
