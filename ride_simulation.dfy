/**
 * The dispatcher's simulation as pure functions: the expiry pass, the
 * choice of a ride for a free car, one car's turn, one time step and the
 * whole run. The imperative class in RideDispatcher is proved equal to
 * these; the properties of the run are lemmas about them.
 */
module RideSimulation {
  import opened RideModel

  /** The pool with the ride at index `i` taken out (ArrayList.remove). */
  function RemoveAt(pool: seq<Ride>, i: nat): (r: seq<Ride>)
    requires i < |pool|
    ensures |r| == |pool| - 1
    ensures forall k :: 0 <= k < i ==> r[k] == pool[k]
    ensures forall k :: i <= k < |r| ==> r[k] == pool[k + 1]
  {
    pool[..i] + pool[i + 1..]
  }

  /** The expiry pass at step t, as the index loop performs it: a ride with
      `f <= t` is removed, and because the index still advances, the ride
      that slides into its place is passed over in this pass. */
  function Expire(pool: seq<Ride>, t: int): seq<Ride>
  {
    if pool == [] then []
    else if pool[0].f <= t then
      (if |pool| == 1 then [] else [pool[1]] + Expire(pool[2..], t))
    else [pool[0]] + Expire(pool[1..], t)
  }

  /** Because a removal skips the next ride, one pass removes at most every
      other ride: at least half of the pool (rounded down) survives it,
      however many rides have expired. */
  lemma {:induction false} ExpireKeepsHalf(pool: seq<Ride>, t: int)
    ensures |pool| / 2 <= |Expire(pool, t)| <= |pool|
  {
    if pool == [] {
    } else if pool[0].f <= t {
      if |pool| > 1 {
        ExpireKeepsHalf(pool[2..], t);
      }
    } else {
      ExpireKeepsHalf(pool[1..], t);
    }
  }

  /** The expiry pass as the loop performs it, from index r of the current
      pool: an expired ride is removed and the index still advances. */
  function ExpireFrom(pool: seq<Ride>, r: nat, t: int): seq<Ride>
    decreases |pool| - r
  {
    if r >= |pool| then pool
    else if pool[r].f <= t then ExpireFrom(RemoveAt(pool, r), r + 1, t)
    else ExpireFrom(pool, r + 1, t)
  }

  /** Once the loop has passed `kept`, what it returns is `kept` followed
      by the expiry of the rest. */
  lemma {:induction false} ExpireFromSplit(kept: seq<Ride>, rest: seq<Ride>, t: int)
    ensures ExpireFrom(kept + rest, |kept|, t) == kept + Expire(rest, t)
    decreases |rest|
  {
    if rest == [] {
      assert kept + rest == kept;
    } else if rest[0].f <= t {
      ExpireFromDrops(kept, rest, t);
      if |rest| == 1 {
        assert kept + rest[1..] == kept;
      } else {
        var next := kept + [rest[1]];
        assert kept + rest[1..] == next + rest[2..];
        ExpireFromSplit(next, rest[2..], t);
        assert next + Expire(rest[2..], t) == kept + ([rest[1]] + Expire(rest[2..], t));
      }
    } else {
      var next := kept + [rest[0]];
      ExpireFromKeeps(kept, rest, t);
      ExpireFromSplit(next, rest[1..], t);
      assert next + Expire(rest[1..], t) == kept + ([rest[0]] + Expire(rest[1..], t));
    }
  }

  /** The pass removes an expired ride at the index and moves past its
      successor. */
  lemma ExpireFromDrops(kept: seq<Ride>, rest: seq<Ride>, t: int)
    requires rest != [] && rest[0].f <= t
    ensures ExpireFrom(kept + rest, |kept|, t) == ExpireFrom(kept + rest[1..], |kept| + 1, t)
  {
    assert (kept + rest)[|kept|] == rest[0];
    assert RemoveAt(kept + rest, |kept|) == kept + rest[1..];
  }

  /** The pass moves past a live ride at the index. */
  lemma ExpireFromKeeps(kept: seq<Ride>, rest: seq<Ride>, t: int)
    requires rest != [] && rest[0].f > t
    ensures ExpireFrom(kept + rest, |kept|, t) == ExpireFrom((kept + [rest[0]]) + rest[1..], |kept| + 1, t)
  {
    assert (kept + rest)[|kept|] == rest[0];
    assert kept + rest == (kept + [rest[0]]) + rest[1..];
  }

  /** The loop-shaped pass and the recursive definition agree. */
  lemma ExpireFromStart(pool: seq<Ride>, t: int)
    ensures ExpireFrom(pool, 0, t) == Expire(pool, t)
  {
    ExpireFromSplit([], pool, t);
    assert [] + pool == pool;
  }

  /** The rides of the pool that have not reached their latest finish. */
  function Live(pool: seq<Ride>, t: int): seq<Ride>
  {
    if pool == [] then []
    else if pool[0].f > t then [pool[0]] + Live(pool[1..], t)
    else Live(pool[1..], t)
  }

  /** The expiry pass removes rides only: what it keeps is a sub-multiset
      of the pool. */
  lemma {:induction false} ExpireOnlyRemoves(pool: seq<Ride>, t: int)
    ensures multiset(Expire(pool, t)) <= multiset(pool)
  {
    if pool == [] {
    } else if pool[0].f <= t {
      if |pool| > 1 {
        ExpireOnlyRemoves(pool[2..], t);
        assert pool == [pool[0]] + [pool[1]] + pool[2..];
      }
    } else {
      ExpireOnlyRemoves(pool[1..], t);
      assert pool == [pool[0]] + pool[1..];
    }
  }

  /** The expiry pass never removes a live ride (one with f > t). */
  lemma {:induction false} ExpireKeepsLive(pool: seq<Ride>, t: int)
    ensures multiset(Live(pool, t)) <= multiset(Expire(pool, t))
  {
    if pool == [] {
    } else if pool[0].f <= t {
      if |pool| > 1 {
        ExpireKeepsLive(pool[2..], t);
        assert pool[1..][1..] == pool[2..];
        if pool[1].f > t {
          assert Live(pool, t) == [pool[1]] + Live(pool[2..], t);
        } else {
          assert Live(pool, t) == Live(pool[2..], t);
        }
      }
    } else {
      ExpireKeepsLive(pool[1..], t);
    }
  }

  lemma {:induction false} LiveHasLiveRides(pool: seq<Ride>, t: int, r: Ride)
    requires r in pool && r.f > t
    ensures r in Live(pool, t)
  {
    if pool[0] != r {
      LiveHasLiveRides(pool[1..], t, r);
    }
  }

  /** The expiry pass never removes a live ride: a ride of the pool that
      has not reached its latest finish is still there afterwards. So every
      ride the pass removes has `f <= t`. */
  lemma ExpireKeepsLiveRide(pool: seq<Ride>, t: int, r: Ride)
    requires r in pool && r.f > t
    ensures r in Expire(pool, t)
  {
    LiveHasLiveRides(pool, t, r);
    ExpireKeepsLive(pool, t);
    assert r in multiset(Live(pool, t));
  }

  /** The ride right after a removed one is not examined: an expired ride's
      successor survives the pass whatever its latest finish, and the pass
      resumes after it. */
  lemma ExpireSkipsSuccessor(r0: Ride, r1: Ride, rest: seq<Ride>, t: int)
    requires r0.f <= t
    ensures Expire([r0, r1] + rest, t) == [r1] + Expire(rest, t)
  {
    assert ([r0, r1] + rest)[2..] == rest;
  }

  /** The best ride seen among the first n rides of the pool, as the scan
      loop leaves its two variables: the best score (initially -2) and the
      index of the ride that has it (initially -2). A feasible ride
      replaces the best only with a strictly greater score. */
  function PickUpTo(car: Car, pool: seq<Ride>, score: (Car, Ride) -> Score, n: nat): (Score, int)
    requires n <= |pool|
  {
    if n == 0 then (Floor, -2)
    else
      var (best, at) := PickUpTo(car, pool, score, n - 1);
      var ride := pool[n - 1];
      if Infeasible(car, ride) then (best, at)
      else if Gt(score(car, ride), best) then (score(car, ride), n - 1)
      else (best, at)
  }

  /** The index of the ride the car takes from the pool, or -2 for none. */
  function Pick(car: Car, pool: seq<Ride>, score: (Car, Ride) -> Score): int
  {
    PickUpTo(car, pool, score, |pool|).1
  }

  /** What a selection over the first n rides guarantees: either nothing
      was selected and no feasible ride scores above -2, or the selected
      ride is feasible, scores above -2, no feasible ride scores strictly
      more, and every feasible ride before it scores strictly less (or
      NaN): it is the first ride with the strictly greatest score. */
  ghost predicate FirstBest(car: Car, pool: seq<Ride>, score: (Car, Ride) -> Score, n: nat, best: Score, at: int)
    requires n <= |pool|
  {
    && (at == -2 || 0 <= at < n)
    && (at == -2 ==>
          best == Floor &&
          forall j :: 0 <= j < n && !Infeasible(car, pool[j]) ==> !Gt(score(car, pool[j]), Floor))
    && (at != -2 ==>
          && !Infeasible(car, pool[at])
          && best == score(car, pool[at])
          && Gt(best, Floor)
          && (forall j :: 0 <= j < n && !Infeasible(car, pool[j]) ==> !Gt(score(car, pool[j]), best))
          && (forall j :: 0 <= j < at && !Infeasible(car, pool[j]) ==>
                Gt(best, score(car, pool[j])) || score(car, pool[j]).NaN?))
  }

  lemma {:induction false} PickUpToIsFirstBest(car: Car, pool: seq<Ride>, score: (Car, Ride) -> Score, n: nat)
    requires n <= |pool|
    ensures FirstBest(car, pool, score, n, PickUpTo(car, pool, score, n).0, PickUpTo(car, pool, score, n).1)
  {
    if n > 0 {
      PickUpToIsFirstBest(car, pool, score, n - 1);
      var (best, at) := PickUpTo(car, pool, score, n - 1);
      var ride := pool[n - 1];
      var sc := score(car, ride);
      if !Infeasible(car, ride) && Gt(sc, best) {
        forall j | 0 <= j < n && !Infeasible(car, pool[j])
          ensures !Gt(score(car, pool[j]), sc)
        {
          if j == n - 1 {
            GtIrreflexive(sc);
          } else if Gt(score(car, pool[j]), sc) {
            GtTransitive(score(car, pool[j]), sc, best);
          }
        }
        forall j | 0 <= j < n - 1 && !Infeasible(car, pool[j])
          ensures Gt(sc, score(car, pool[j])) || score(car, pool[j]).NaN?
        {
          if !score(car, pool[j]).NaN? {
            GtAboveNotGt(sc, best, score(car, pool[j]));
          }
        }
        if at == -2 {
          assert Gt(sc, Floor);
        } else {
          GtTransitive(sc, best, Floor);
        }
      }
    }
  }

  /** Pick returns -2 or the index of the first feasible ride with the
      strictly greatest score. */
  lemma PickIsFirstBest(car: Car, pool: seq<Ride>, score: (Car, Ride) -> Score)
    ensures FirstBest(car, pool, score, |pool|, PickUpTo(car, pool, score, |pool|).0, Pick(car, pool, score))
  {
    PickUpToIsFirstBest(car, pool, score, |pool|);
  }

  /** The state the simulation changes: the active pool, the cars and the
      per-car lists of assigned ride ids. */
  datatype Sim = Sim(pool: seq<Ride>, fleet: seq<Car>, plan: seq<seq<int>>)

  ghost predicate WellShaped(s: Sim)
  {
    |s.plan| == |s.fleet|
  }

  /** One car's turn at step t: a car busy after t is left alone; an idle
      car is brought forward to t; it then takes its picked ride, if any,
      which moves it to the ride's finish, advances its free time by the
      journey time and moves the ride from the pool to its list. */
  function ServeCar(s: Sim, c: nat, t: int, score: (Car, Ride) -> Score): (r: Sim)
    requires WellShaped(s) && c < |s.fleet|
    ensures WellShaped(r) && |r.fleet| == |s.fleet|
  {
    var car := s.fleet[c];
    if car.t > t then s
    else
      var ready := if car.t < t then car.(t := t) else car;
      var i := Pick(ready, s.pool, score);
      PickIsFirstBest(ready, s.pool, score);
      if i == -2 then s.(fleet := s.fleet[c := ready])
      else
        var ride := s.pool[i];
        Sim(RemoveAt(s.pool, i),
            s.fleet[c := Car(ride.x, ride.y, ready.t + JourneyTime(ready, ride))],
            s.plan[c := s.plan[c] + [ride.id]])
  }

  /** Cars c.. take their turns in id order; the boolean says that the pool
      was found empty before some car's turn, which ends the simulation. */
  function ServeFrom(s: Sim, c: nat, t: int, score: (Car, Ride) -> Score): (r: (Sim, bool))
    requires WellShaped(s)
    ensures WellShaped(r.0) && |r.0.fleet| == |s.fleet|
    ensures r.1 ==> r.0.pool == []
    decreases |s.fleet| - c
  {
    if c >= |s.fleet| then (s, false)
    else if s.pool == [] then (s, true)
    else ServeFrom(ServeCar(s, c, t, score), c + 1, t, score)
  }

  /** Steps t.. up to (excluding) the last step `steps`: each step runs the
      expiry pass and then the cars' turns, and the run stops as soon as a
      turn finds the pool empty. */
  function RunFrom(s: Sim, t: int, steps: int, score: (Car, Ride) -> Score): (r: Sim)
    requires WellShaped(s)
    ensures WellShaped(r) && |r.fleet| == |s.fleet|
    decreases steps - t
  {
    if t >= steps then s
    else
      var served := ServeFrom(s.(pool := Expire(s.pool, t)), 0, t, score);
      if served.1 then served.0 else RunFrom(served.0, t + 1, steps, score)
  }

  /** The initial plan: one empty list per car. */
  function EmptyPlan(cars: nat): (p: seq<seq<int>>)
    ensures |p| == cars && forall c :: 0 <= c < cars ==> p[c] == []
  {
    seq(cars, _ => [])
  }

  // ---------------------------------------------------------------------
  // Ride ids: no ride is used twice.

  function Ids(pool: seq<Ride>): (r: seq<int>)
    ensures |r| == |pool|
  {
    seq(|pool|, i requires 0 <= i < |pool| => pool[i].id)
  }

  function Flatten(plan: seq<seq<int>>): seq<int>
  {
    if plan == [] then [] else plan[0] + Flatten(plan[1..])
  }

  /** Every ride id the state still knows: the assigned ones, then the pool. */
  function AllIds(s: Sim): seq<int>
  {
    Flatten(s.plan) + Ids(s.pool)
  }

  /** No value occurs twice. */
  ghost predicate Unique(m: multiset<int>)
  {
    forall v :: m[v] <= 1
  }

  lemma IdsConcat(p: seq<Ride>, q: seq<Ride>)
    ensures Ids(p + q) == Ids(p) + Ids(q)
  {
    assert forall k :: 0 <= k < |p| + |q| ==> Ids(p + q)[k] == (Ids(p) + Ids(q))[k];
  }

  lemma IdsCons(r: Ride, q: seq<Ride>)
    ensures multiset(Ids([r] + q)) == multiset{r.id} + multiset(Ids(q))
  {
    IdsConcat([r], q);
    assert Ids([r]) == [r.id];
  }

  lemma IdsRemoveAt(pool: seq<Ride>, i: nat)
    requires i < |pool|
    ensures multiset(Ids(RemoveAt(pool, i))) + multiset{pool[i].id} == multiset(Ids(pool))
  {
    assert pool == pool[..i] + [pool[i]] + pool[i + 1..];
    IdsConcat(pool[..i] + [pool[i]], pool[i + 1..]);
    IdsConcat(pool[..i], [pool[i]]);
    IdsConcat(pool[..i], pool[i + 1..]);
  }

  lemma {:induction false} FlattenAppend(plan: seq<seq<int>>, c: nat, id: int)
    requires c < |plan|
    ensures multiset(Flatten(plan[c := plan[c] + [id]])) == multiset(Flatten(plan)) + multiset{id}
  {
    var plan' := plan[c := plan[c] + [id]];
    if c > 0 {
      assert plan'[1..] == plan[1..][c - 1 := plan[c] + [id]];
      FlattenAppend(plan[1..], c - 1, id);
    } else {
      assert plan'[1..] == plan[1..];
    }
  }

  lemma {:induction false} ExpireIdsShrink(pool: seq<Ride>, t: int)
    ensures multiset(Ids(Expire(pool, t))) <= multiset(Ids(pool))
  {
    if pool != [] {
      assert pool == [pool[0]] + pool[1..];
      IdsCons(pool[0], pool[1..]);
      if pool[0].f > t {
        ExpireIdsShrink(pool[1..], t);
        IdsCons(pool[0], Expire(pool[1..], t));
      } else if |pool| > 1 {
        ExpireIdsShrink(pool[2..], t);
        assert pool[1..] == [pool[1]] + pool[2..];
        IdsCons(pool[1], pool[2..]);
        IdsCons(pool[1], Expire(pool[2..], t));
      }
    }
  }

  /** One car's turn keeps the other cars and their lists, never moves the
      car's free time back, leaves a car that is busy after t unchanged,
      brings an idle car at least to t, and appends at most one id. */
  lemma ServeCarShape(s: Sim, c: nat, t: int, score: (Car, Ride) -> Score)
    requires WellShaped(s) && c < |s.fleet|
    ensures var s' := ServeCar(s, c, t, score);
      && (forall d :: 0 <= d < |s.fleet| && d != c ==> s'.fleet[d] == s.fleet[d] && s'.plan[d] == s.plan[d])
      && s'.fleet[c].t >= s.fleet[c].t
      && (s.fleet[c].t > t ==> s' == s)
      && (s.fleet[c].t <= t ==> s'.fleet[c].t >= t)
      && |s'.plan[c]| <= |s.plan[c]| + 1 && s.plan[c] <= s'.plan[c]
  {
    var car := s.fleet[c];
    if car.t <= t {
      var ready := if car.t < t then car.(t := t) else car;
      PickIsFirstBest(ready, s.pool, score);
    }
  }

  /** A committed ride comes out of the pool; it was feasible for the car
      (brought forward to t), the car's new free time is the old one plus
      the journey time and is within the ride's latest finish, and the car
      stands at the ride's finish. Without a feasible ride the pool and the
      lists stay as they were. */
  lemma ServeCarCommits(s: Sim, c: nat, t: int, score: (Car, Ride) -> Score)
    requires WellShaped(s) && c < |s.fleet| && s.fleet[c].t <= t
    ensures var ready := s.fleet[c].(t := t);
      var i := Pick(ready, s.pool, score);
      var s' := ServeCar(s, c, t, score);
      && (i == -2 ==> s'.pool == s.pool && s'.plan == s.plan && s'.fleet[c] == ready)
      && (i != -2 ==>
            && 0 <= i < |s.pool|
            && s'.plan[c] == s.plan[c] + [s.pool[i].id]
            && s'.pool == RemoveAt(s.pool, i)
            && !Infeasible(ready, s.pool[i])
            && s'.fleet[c] == Car(s.pool[i].x, s.pool[i].y, t + JourneyTime(ready, s.pool[i]))
            && s'.fleet[c].t <= s.pool[i].f)
  {
    var ready := s.fleet[c].(t := t);
    assert ready == if s.fleet[c].t < t then s.fleet[c].(t := t) else s.fleet[c];
    PickIsFirstBest(ready, s.pool, score);
  }

  /** One car's turn moves at most one id from the pool to a list. */
  lemma ServeCarKeepsIds(s: Sim, c: nat, t: int, score: (Car, Ride) -> Score)
    requires WellShaped(s) && c < |s.fleet|
    ensures multiset(AllIds(ServeCar(s, c, t, score))) == multiset(AllIds(s))
  {
    var car := s.fleet[c];
    if car.t <= t {
      var ready := if car.t < t then car.(t := t) else car;
      var i := Pick(ready, s.pool, score);
      PickIsFirstBest(ready, s.pool, score);
      if i != -2 {
        IdsRemoveAt(s.pool, i);
        FlattenAppend(s.plan, c, s.pool[i].id);
      }
    }
  }

  /** One step's turns from car c on only move ids from the pool to lists. */
  lemma {:induction false} ServeFromKeepsIds(s: Sim, c: nat, t: int, score: (Car, Ride) -> Score)
    requires WellShaped(s)
    ensures multiset(AllIds(ServeFrom(s, c, t, score).0)) == multiset(AllIds(s))
    decreases |s.fleet| - c
  {
    if c < |s.fleet| && s.pool != [] {
      ServeCarKeepsIds(s, c, t, score);
      ServeFromKeepsIds(ServeCar(s, c, t, score), c + 1, t, score);
    }
  }

  /** One step's turns from car c on leave the cars before c alone. */
  lemma {:induction false} ServeFromUntouched(s: Sim, c: nat, t: int, score: (Car, Ride) -> Score)
    requires WellShaped(s)
    ensures var s' := ServeFrom(s, c, t, score).0;
      forall d :: 0 <= d < c && d < |s.fleet| ==> s'.plan[d] == s.plan[d] && s'.fleet[d] == s.fleet[d]
    decreases |s.fleet| - c
  {
    if c < |s.fleet| && s.pool != [] {
      ServeCarShape(s, c, t, score);
      ServeFromUntouched(ServeCar(s, c, t, score), c + 1, t, score);
    }
  }

  /** In one step's turns from car c on, free times never go back and each
      car's list gains at most one id. */
  lemma {:induction false} ServeFromAdvances(s: Sim, c: nat, t: int, score: (Car, Ride) -> Score)
    requires WellShaped(s)
    ensures var s' := ServeFrom(s, c, t, score).0;
      && (forall d :: 0 <= d < |s.fleet| ==> s'.fleet[d].t >= s.fleet[d].t)
      && (forall d :: 0 <= d < |s.fleet| ==> |s'.plan[d]| <= |s.plan[d]| + 1 && s.plan[d] <= s'.plan[d])
    decreases |s.fleet| - c
  {
    if c < |s.fleet| && s.pool != [] {
      var s1 := ServeCar(s, c, t, score);
      ServeCarShape(s, c, t, score);
      ServeFromAdvances(s1, c + 1, t, score);
      ServeFromUntouched(s1, c + 1, t, score);
      var s' := ServeFrom(s1, c + 1, t, score).0;
      assert s' == ServeFrom(s, c, t, score).0;
      forall d | 0 <= d < |s.fleet|
        ensures s'.fleet[d].t >= s.fleet[d].t
        ensures |s'.plan[d]| <= |s.plan[d]| + 1 && s.plan[d] <= s'.plan[d]
      {
        if d == c {
          assert s'.plan[d] == s1.plan[d] && s'.fleet[d] == s1.fleet[d];
        } else {
          assert s1.plan[d] == s.plan[d] && s1.fleet[d] == s.fleet[d];
        }
      }
    }
  }

  /** A car gets at most one ride per step, and the lists only grow. */
  lemma AtMostOneRidePerStep(s: Sim, t: int, score: (Car, Ride) -> Score)
    requires WellShaped(s)
    ensures var s' := ServeFrom(s, 0, t, score).0;
      forall d :: 0 <= d < |s.plan| ==> |s'.plan[d]| <= |s.plan[d]| + 1 && s.plan[d] <= s'.plan[d]
  {
    ServeFromAdvances(s, 0, t, score);
  }

  /** The whole run never brings a ride id back. */
  lemma {:induction false} RunKeepsIds(s: Sim, t: int, steps: int, score: (Car, Ride) -> Score)
    requires WellShaped(s)
    ensures multiset(AllIds(RunFrom(s, t, steps, score))) <= multiset(AllIds(s))
    decreases steps - t
  {
    if t < steps {
      var e := s.(pool := Expire(s.pool, t));
      ExpireIdsShrink(s.pool, t);
      assert multiset(AllIds(e)) <= multiset(AllIds(s));
      ServeFromKeepsIds(e, 0, t, score);
      var (s1, stop) := ServeFrom(e, 0, t, score);
      if !stop {
        RunKeepsIds(s1, t + 1, steps, score);
      }
    }
  }

  /** The whole run never moves a car's free time back and only appends
      to the cars' lists. */
  lemma {:induction false} RunOnlyAdvances(s: Sim, t: int, steps: int, score: (Car, Ride) -> Score)
    requires WellShaped(s)
    ensures var s' := RunFrom(s, t, steps, score);
      && (forall d :: 0 <= d < |s.fleet| ==> s'.fleet[d].t >= s.fleet[d].t)
      && (forall d :: 0 <= d < |s.plan| ==> s.plan[d] <= s'.plan[d])
    decreases steps - t
  {
    if t < steps {
      var e := s.(pool := Expire(s.pool, t));
      ServeFromAdvances(e, 0, t, score);
      var (s1, stop) := ServeFrom(e, 0, t, score);
      if !stop {
        RunOnlyAdvances(s1, t + 1, steps, score);
        var s' := RunFrom(s1, t + 1, steps, score);
        assert RunFrom(s, t, steps, score) == s';
        forall d | 0 <= d < |s.plan|
          ensures s.plan[d] <= s'.plan[d]
        {
          assert s.plan[d] <= s1.plan[d] <= s'.plan[d];
        }
      }
    }
  }

  /** The simulation stops at once when the pool is empty at a step
      (and there is at least one car to find it so). */
  lemma EmptyPoolStops(s: Sim, t: int, steps: int, score: (Car, Ride) -> Score)
    requires WellShaped(s) && s.pool == [] && |s.fleet| > 0 && t < steps
    ensures RunFrom(s, t, steps, score) == s
  {
  }

  lemma UniqueBelow(m: multiset<int>, m': multiset<int>)
    requires m' <= m && Unique(m)
    ensures Unique(m')
  {
    forall v
      ensures m'[v] <= 1
    {
      assert m'[v] <= m[v];
    }
  }

  /** No ride is used twice: if the ride ids in the starting state are all
      different, then every id occurs at most once over all the cars'
      lists at the end, and each of them is an id of the starting state. */
  lemma NoRideUsedTwice(s: Sim, steps: int, score: (Car, Ride) -> Score)
    requires WellShaped(s) && Unique(multiset(AllIds(s)))
    ensures var s' := RunFrom(s, 0, steps, score);
      Unique(multiset(Flatten(s'.plan))) && multiset(Flatten(s'.plan)) <= multiset(AllIds(s))
  {
    RunKeepsIds(s, 0, steps, score);
    var s' := RunFrom(s, 0, steps, score);
    assert multiset(Flatten(s'.plan)) <= multiset(AllIds(s'));
    UniqueBelow(multiset(AllIds(s)), multiset(Flatten(s'.plan)));
  }
}
