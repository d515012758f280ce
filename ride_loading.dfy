/**
 * The dispatcher's state after loading: the rides numbered in input
 * order and put in a stable order of non-increasing earliest start.
 */
module RideLoading {
  import opened RideModel
  import opened RideSimulation

  /** One parsed ride line: start row/column, finish row/column, earliest
      start, latest finish. */
  datatype RideLine = RideLine(a: int, b: int, x: int, y: int, s: int, f: int)

  /** The rides of the input, each with its line number as id. */
  function Numbered(lines: seq<RideLine>): (rides: seq<Ride>)
    ensures |rides| == |lines|
    ensures forall i :: 0 <= i < |lines| ==> rides[i].id == i
  {
    seq(|lines|, i requires 0 <= i < |lines| =>
      Ride(i, lines[i].a, lines[i].b, lines[i].x, lines[i].y, lines[i].s, lines[i].f))
  }

  /** Inserts r after every ride whose earliest start is at least r's. */
  function Insert(r: Ride, q: seq<Ride>): seq<Ride>
  {
    if q == [] then [r]
    else if q[0].s >= r.s then [q[0]] + Insert(r, q[1..])
    else [r] + q
  }

  /** The order Collections.sort produces with the comparator
      `r1.s - r2.s`, reversed: a stable sort by non-increasing earliest start,
      written as an insertion sort that takes the rides in input order. */
  function SortByStart(q: seq<Ride>): seq<Ride>
  {
    if q == [] then [] else Insert(q[|q| - 1], SortByStart(q[..|q| - 1]))
  }

  /** Non-increasing earliest start; equal earliest starts in increasing id. */
  ghost predicate Ordered(q: seq<Ride>)
  {
    forall i, j :: 0 <= i < j < |q| ==> q[i].s > q[j].s || (q[i].s == q[j].s && q[i].id < q[j].id)
  }

  lemma {:induction false} InsertPermutes(r: Ride, q: seq<Ride>)
    ensures multiset(Insert(r, q)) == multiset(q) + multiset{r}
    ensures multiset(Ids(Insert(r, q))) == multiset(Ids(q)) + multiset{r.id}
    ensures |Insert(r, q)| == |q| + 1
  {
    if q == [] {
      assert Ids([r]) == [r.id];
    } else {
      assert q == [q[0]] + q[1..];
      IdsCons(q[0], q[1..]);
      if q[0].s >= r.s {
        InsertPermutes(r, q[1..]);
        IdsCons(q[0], Insert(r, q[1..]));
      } else {
        IdsCons(r, q);
      }
    }
  }

  lemma {:induction false} InsertKeepsOrder(r: Ride, q: seq<Ride>)
    requires Ordered(q)
    requires forall k :: 0 <= k < |q| ==> q[k].id < r.id
    ensures Ordered(Insert(r, q))
  {
    if q != [] && q[0].s >= r.s {
      InsertKeepsOrder(r, q[1..]);
      InsertPermutes(r, q[1..]);
      var tail := Insert(r, q[1..]);
      forall j | 0 <= j < |tail|
        ensures q[0].s > tail[j].s || (q[0].s == tail[j].s && q[0].id < tail[j].id)
      {
        assert tail[j] in multiset(q[1..]) + multiset{r};
        if tail[j] != r {
          assert tail[j] in q[1..];
        }
      }
      assert Insert(r, q) == [q[0]] + tail;
    }
  }

  /** The sort returns a permutation of its input, both as rides and as ids. */
  lemma {:induction false} SortPermutes(q: seq<Ride>)
    ensures multiset(SortByStart(q)) == multiset(q)
    ensures multiset(Ids(SortByStart(q))) == multiset(Ids(q))
    ensures |SortByStart(q)| == |q|
  {
    if q != [] {
      var init := q[..|q| - 1];
      SortPermutes(init);
      InsertPermutes(q[|q| - 1], SortByStart(init));
      assert q == init + [q[|q| - 1]];
      IdsConcat(init, [q[|q| - 1]]);
      assert Ids([q[|q| - 1]]) == [q[|q| - 1].id];
    }
  }

  /** When the ids grow along the input, as they do for Numbered rides,
      the sort orders by non-increasing earliest start and keeps rides
      with the same earliest start in input (id) order: it is stable. */
  lemma {:induction false} SortOrders(q: seq<Ride>)
    requires forall i, j :: 0 <= i < j < |q| ==> q[i].id < q[j].id
    ensures Ordered(SortByStart(q))
  {
    if q != [] {
      var init := q[..|q| - 1];
      var last := q[|q| - 1];
      SortOrders(init);
      SortPermutes(init);
      var sorted := SortByStart(init);
      forall k | 0 <= k < |sorted|
        ensures sorted[k].id < last.id
      {
        assert sorted[k] in multiset(init);
      }
      InsertKeepsOrder(last, sorted);
    }
  }

  lemma {:induction false} IncreasingUnique(ids: seq<int>)
    requires forall i, j :: 0 <= i < j < |ids| ==> ids[i] < ids[j]
    ensures Unique(multiset(ids))
  {
    if ids != [] {
      IncreasingUnique(ids[1..]);
      assert ids == [ids[0]] + ids[1..];
      assert ids[0] !in ids[1..];
    }
  }

  /** The state after loading, as a simulation state: the sorted pool, F
      cars at (0, 0) free at 0, and one empty list per car. */
  function Loaded(lines: seq<RideLine>, cars: nat): (s: Sim)
    ensures WellShaped(s) && |s.fleet| == cars
  {
    Sim(SortByStart(Numbered(lines)), seq(cars, _ => Car(0, 0, 0)), EmptyPlan(cars))
  }

  /** After loading, the pool holds each ride id 0..N-1 exactly once,
      ordered by non-increasing earliest start with ties in id order. */
  lemma LoadedPool(lines: seq<RideLine>, cars: nat)
    ensures var pool := Loaded(lines, cars).pool;
      && multiset(Ids(pool)) == multiset(seq(|lines|, i => i))
      && Unique(multiset(Ids(pool)))
      && Ordered(pool)
  {
    var rides := Numbered(lines);
    SortPermutes(rides);
    SortOrders(rides);
    assert Ids(rides) == seq(|lines|, i => i);
    IncreasingUnique(Ids(rides));
  }

  lemma {:induction false} FlattenEmpty(plan: seq<seq<int>>)
    requires forall c :: 0 <= c < |plan| ==> plan[c] == []
    ensures Flatten(plan) == []
  {
    if plan != [] {
      FlattenEmpty(plan[1..]);
    }
  }

  /** The dispatcher run on freshly loaded input never gives a ride to two
      cars, nor twice to one car, and only gives out ids 0..N-1. */
  lemma LoadedRunUsesEachRideOnce(lines: seq<RideLine>, cars: nat, steps: int, score: (Car, Ride) -> Score)
    ensures var plan := RunFrom(Loaded(lines, cars), 0, steps, score).plan;
      && |plan| == cars
      && Unique(multiset(Flatten(plan)))
      && forall id :: id in multiset(Flatten(plan)) ==> 0 <= id < |lines|
  {
    var s := Loaded(lines, cars);
    LoadedPool(lines, cars);
    FlattenEmpty(s.plan);
    assert AllIds(s) == Ids(s.pool);
    NoRideUsedTwice(s, steps, score);
    var plan := RunFrom(s, 0, steps, score).plan;
    forall id | id in multiset(Flatten(plan))
      ensures 0 <= id < |lines|
    {
      assert id in multiset(seq(|lines|, i => i));
    }
  }
}
