/**
 * The cache-content chooser: caches are filled one after the other; for
 * each cache the value of every video is computed from the best latencies
 * known so far, a 0/1 knapsack is solved over the capacity, a video list
 * is recovered from the table, and the best-known latencies are lowered
 * for the videos placed in that cache.
 */
module CacheAssignment {
  import opened IntMath
  import opened CacheTables
  import opened Knapsack

  /** The lists chosen for caches 0..C-1, or the cache at which the
      chooser would index outside an array and stop. */
  datatype Assignment = Assigned(caches: seq<seq<int>>) | OutOfBounds(cache: nat)

  function Min(m: int, n: int): int
  {
    if m < n then m else n
  }

  /** One endpoint's part of a video's value for a cache: how much faster
      the cache serves it than the best latency known so far (0 when it is
      not faster), times the number of requests. */
  function Saving(quick: int, latency: int, count: int): int
  {
    (quick - Min(latency, quick)) * count
  }

  class CacheNetwork {
    /** Number of videos, endpoints and caches, and the cache capacity. */
    const V: nat
    const E: nat
    const C: nat
    const X: nat
    /** Size of each video. */
    const sizes: seq<int>
    /** latencies[c][e]: cache c to endpoint e; row C is the origin. The
        table is only read once loaded, so it is held as a value. */
    const latencies: seq<seq<int>>
    /** requests[e][v]: total requests of endpoint e for video v, likewise
        read-only once loaded. */
    const requests: seq<seq<int>>

    ghost predicate Valid()
    {
      && |sizes| == V && PositiveSizes(sizes)
      && |latencies| == C + 1 && (forall c :: 0 <= c <= C ==> |latencies[c]| == E)
      && |requests| == E && (forall e :: 0 <= e < E ==> |requests[e]| == V)
    }

    /** A best-known latency table: one row per endpoint, one column per video. */
    ghost predicate QuickShaped(q: array2<int>)
    {
      q.Length0 == E && q.Length1 == V
    }

    /** A video list a cache may hold: no video twice (ids strictly
        decrease), only videos 0..V-1, total size at most X. */
    ghost predicate Fits(ids: seq<int>)
      requires Valid()
    {
      && StrictlyDecreasing(ids)
      && (forall i :: 0 <= i < |ids| ==> 0 <= ids[i] < V)
      && SumOver(ids, sizes) <= X
    }

    /** The network read from the input: the tables are built from the
        endpoint and request lines. */
    constructor Load(V: nat, C: nat, X: nat, sizes: seq<int>, endpoints: seq<EndpointLine>, reqs: seq<RequestLine>)
      requires |sizes| == V && PositiveSizes(sizes)
      requires forall e, j :: 0 <= e < |endpoints| && 0 <= j < |endpoints[e].links| ==> 0 <= endpoints[e].links[j].cache <= C
      requires forall i :: 0 <= i < |reqs| ==> 0 <= reqs[i].endpoint < |endpoints| && 0 <= reqs[i].video < V
      ensures Valid()
      ensures this.V == V && this.E == |endpoints| && this.C == C && this.X == X && this.sizes == sizes
      ensures forall c, e :: 0 <= c <= C && 0 <= e < |endpoints| ==>
        latencies[c][e] == LinkLatency(endpoints[e].links, c, RowStart(c, C, endpoints[e].originLatency))
      ensures forall e, v :: 0 <= e < |endpoints| && 0 <= v < V ==> requests[e][v] == Demand(reqs, e, v)
    {
      var lat := BuildLatencies(C, endpoints);
      var req := BuildRequests(V, |endpoints|, reqs);
      this.V := V;
      this.E := |endpoints|;
      this.C := C;
      this.X := X;
      this.sizes := sizes;
      this.latencies := Rows(lat);
      this.requests := Rows(req);
    }

    /** The value of video j for cache c over endpoints 0..n-1, where
        quick[k] is endpoint k's best-known latency for video j. */
    function Gain(quick: seq<int>, c: nat, j: nat, n: nat): int
      requires Valid() && |quick| == E && c <= C && j < V && n <= E
    {
      if n == 0 then 0 else Gain(quick, c, j, n - 1) + Saving(quick[n - 1], latencies[c][n - 1], requests[n - 1][j])
    }

    /** With non-negative request counts a video's value is never negative. */
    lemma {:induction false} GainNonNegative(quick: seq<int>, c: nat, j: nat, n: nat)
      requires Valid() && |quick| == E && c <= C && j < V && n <= E
      requires forall k :: 0 <= k < n ==> requests[k][j] >= 0
      ensures Gain(quick, c, j, n) >= 0
    {
      if n > 0 {
        GainNonNegative(quick, c, j, n - 1);
        var d := quick[n - 1] - Min(latencies[c][n - 1], quick[n - 1]);
        assert d >= 0;
        assert d * requests[n - 1][j] >= 0;
      }
    }

    /** A cache that serves no endpoint faster than the best latency known
        for the video (in particular a cache with no connection,
        Integer.MAX_VALUE) adds nothing to its value. */
    lemma {:induction false} UnreachableGainsNothing(quick: seq<int>, c: nat, j: nat, n: nat)
      requires Valid() && |quick| == E && c <= C && j < V && n <= E
      requires forall k :: 0 <= k < n ==> latencies[c][k] >= quick[k]
      ensures Gain(quick, c, j, n) == 0
    {
      if n > 0 {
        UnreachableGainsNothing(quick, c, j, n - 1);
      }
    }

    /** Rows 0..n-1 of column j of a best-known latency table. */
    ghost function Column(q: array2<int>, j: nat, n: nat): (col: seq<int>)
      reads q
      requires j < q.Length1 && n <= q.Length0
      ensures |col| == n
    {
      if n == 0 then [] else Column(q, j, n - 1) + [q[n - 1, j]]
    }

    lemma {:induction false} ColumnAt(q: array2<int>, j: nat, n: nat, k: nat)
      requires j < q.Length1 && k < n <= q.Length0
      ensures Column(q, j, n)[k] == q[k, j]
    {
      if k < n - 1 {
        ColumnAt(q, j, n - 1, k);
      }
    }

    /** Fills kValues with every video's value for cache c. */
    method CalculateKnapsackValues(kValues: array<int>, q: array2<int>, c: nat)
      requires Valid() && QuickShaped(q) && kValues.Length == V && c <= C
      modifies kValues
      ensures forall j :: 0 <= j < V ==> kValues[j] == Gain(Column(q, j, E), c, j, E)
    {
      for j := 0 to V
        invariant forall j' :: 0 <= j' < j ==> kValues[j'] == Gain(Column(q, j', E), c, j', E)
      {
        ghost var col := Column(q, j, E);
        kValues[j] := 0;
        for k := 0 to E
          invariant forall j' :: 0 <= j' < j ==> kValues[j'] == Gain(Column(q, j', E), c, j', E)
          invariant kValues[j] == Gain(col, c, j, k)
        {
          ColumnAt(q, j, E, k);
          kValues[j] := kValues[j] + (q[k, j] - Min(latencies[c][k], q[k, j])) * requests[k][j];
        }
      }
    }

    /** The best-known latency of endpoint k for video j once the caches
        before |caches| hold the given lists: the origin latency, lowered
        by every cache whose list has j. */
    ghost function Quick(caches: seq<seq<int>>, k: nat, j: int): (r: int)
      requires Valid() && |caches| <= C && k < E
      ensures r <= latencies[C][k]
      decreases |caches|
    {
      if caches == [] then latencies[C][k]
      else
        var c := |caches| - 1;
        var prev := Quick(caches[..c], k, j);
        if j in caches[c] then Min(prev, latencies[c][k]) else prev
    }

    /** A video's best-known latency is at most the latency of every cache
        already holding it. */
    lemma {:induction false} QuickBelowHolders(caches: seq<seq<int>>, k: nat, j: int, c: nat)
      requires Valid() && c < |caches| <= C && k < E && j in caches[c]
      ensures Quick(caches, k, j) <= latencies[c][k]
      decreases |caches|
    {
      var last := |caches| - 1;
      if c < last {
        QuickBelowHolders(caches[..last], k, j, c);
      }
    }

    /** Placing one more list never raises a best-known latency; it
        changes only the latencies of the videos in that list. */
    lemma QuickNeverIncreases(caches: seq<seq<int>>, chosen: seq<int>, k: nat, j: int)
      requires Valid() && |caches| < C && k < E
      ensures Quick(caches + [chosen], k, j) <= Quick(caches, k, j)
      ensures j !in chosen ==> Quick(caches + [chosen], k, j) == Quick(caches, k, j)
    {
      assert (caches + [chosen])[..|caches|] == caches;
    }

    /** Placing a list lowers the best-known latency of exactly the videos
        in it, to at most the new cache's latency. */
    lemma QuickAfter(caches: seq<seq<int>>, chosen: seq<int>, k: nat, j: int)
      requires Valid() && |caches| < C && k < E
      ensures Quick(caches + [chosen], k, j)
        == if j in chosen then Min(Quick(caches, k, j), latencies[|caches|][k]) else Quick(caches, k, j)
    {
      assert (caches + [chosen])[..|caches|] == caches;
    }

    /** Rows 0..n-1 of column j of the best-known latencies after the
        given lists. */
    ghost function History(caches: seq<seq<int>>, j: int, n: nat): (col: seq<int>)
      requires Valid() && |caches| <= C && n <= E
      ensures |col| == n
    {
      if n == 0 then [] else History(caches, j, n - 1) + [Quick(caches, n - 1, j)]
    }

    /** A latency table whose entries are the best-known latencies has the
        history as its columns. */
    lemma {:induction false} ColumnIsHistory(q: array2<int>, caches: seq<seq<int>>, j: nat, n: nat)
      requires Valid() && QuickShaped(q) && |caches| <= C && j < V && n <= E
      requires forall k :: 0 <= k < n ==> q[k, j] == Quick(caches, k, j)
      ensures Column(q, j, n) == History(caches, j, n)
    {
      if n > 0 {
        ColumnIsHistory(q, caches, j, n - 1);
      }
    }

    /** The values of videos 0..n-1 for the next cache, |caches|. */
    ghost function Values(caches: seq<seq<int>>, n: nat): (vals: seq<int>)
      requires Valid() && |caches| < C && n <= V
      ensures |vals| == n
    {
      if n == 0 then [] else Values(caches, n - 1) + [Gain(History(caches, n - 1, E), |caches|, n - 1, E)]
    }

    lemma {:induction false} ValuesAt(caches: seq<seq<int>>, n: nat, j: nat)
      requires Valid() && |caches| < C && j < n <= V
      ensures Values(caches, n)[j] == Gain(History(caches, j, E), |caches|, j, E)
    {
      if j < n - 1 {
        ValuesAt(caches, n - 1, j);
      }
    }

    /** The knapsack over the capacity: video 0 is seeded, then videos
        1..V-1 relax the table with b running downward. Reports false, with
        the table untouched, where the chooser would index outside an
        array: kValues[0] when there are no videos, and table entry
        sizes[0] when it lies beyond X. */
    method SolveKnapsack(knapsack: array<int>, kValues: array<int>) returns (ok: bool)
      requires Valid() && knapsack.Length == X + 1 && kValues.Length == V && knapsack != kValues
      modifies knapsack
      ensures ok == (V > 0 && (kValues[0] <= X ==> sizes[0] <= X))
      ensures !ok ==> knapsack[..] == old(knapsack[..])
      ensures ok ==> knapsack[..] == Table(Seeded(old(knapsack[..]), sizes[0], kValues[0], X), sizes, kValues[..], V)
    {
      if V == 0 {
        return false;
      }
      if kValues[0] <= X {
        if sizes[0] > X {
          return false;
        }
        knapsack[sizes[0]] := X;
      }
      ok := true;
      ghost var t0 := knapsack[..];
      assert t0 == Seeded(old(knapsack[..]), sizes[0], kValues[0], X);
      for a := 1 to V
        invariant knapsack[..] == Table(t0, sizes, kValues[..], a)
      {
        RelaxRow(knapsack, sizes[a], kValues[a]);
      }
    }

    /** One item of the knapsack: b runs from X down to 0, and every entry
        with room for the item becomes the larger of itself and the entry
        one item-size below plus the item's value. */
    method RelaxRow(knapsack: array<int>, w: int, v: int)
      requires w >= 1
      modifies knapsack
      ensures knapsack[..] == Relax(old(knapsack[..]), w, v)
    {
      var b := knapsack.Length - 1;
      while b >= 0
        invariant -1 <= b < knapsack.Length
        invariant forall i :: 0 <= i <= b ==> knapsack[i] == old(knapsack[i])
        invariant forall i :: b < i < knapsack.Length ==> knapsack[i] == Relax(old(knapsack[..]), w, v)[i]
      {
        if b - w >= 0 {
          knapsack[b] := Max(knapsack[b], knapsack[b - w] + v);
        }
        b := b - 1;
      }
    }

    /** The back-substitution: slots 0..X start with head Integer.MAX_VALUE
        (slot X with the table's value at X); videos V-1 down to 0 each make
        one pass with y rising from the video's size to X, copying slot y's
        list, with the video appended, into slot y - size when that lowers
        its head. The list of slot 0 is returned. */
    method RecoverKnapsackSolution(knapsack: array<int>, kValues: array<int>) returns (chosen: seq<int>)
      requires Valid() && knapsack.Length == X + 1 && kValues.Length == V
      ensures chosen == Recovered(knapsack[X], sizes, kValues[..], X)
      ensures Fits(chosen)
    {
      ghost var vs := kValues[..];
      ghost var goal := Recover(InitialSlots(X, knapsack[X]), sizes, vs, V);
      var slots := NewSlots(knapsack[X]);
      var x := V - 1;
      while x >= 0
        invariant -1 <= x < V && slots.Length == X + 1
        invariant Recover(slots[..], sizes, vs, x + 1) == goal
      {
        ghost var before := slots[..];
        PassSlots(slots, x, sizes[x], kValues[x]);
        assert Recover(before, sizes, vs, x + 1) == Recover(slots[..], sizes, vs, x);
        x := x - 1;
      }
      assert slots[..] == goal;
      chosen := slots[0].ids;
      RecoveredIsSound(knapsack[X], sizes, vs, X);
    }

    /** Slots 0..X, each a list holding only Integer.MAX_VALUE, after which
        slot X's head is set to `top`. */
    method NewSlots(top: int) returns (slots: array<Slot>)
      ensures fresh(slots) && slots[..] == InitialSlots(X, top)
    {
      slots := new Slot[X + 1];
      var y := X as int;
      while y >= 0
        invariant -1 <= y <= X
        invariant forall i :: y < i <= X ==> slots[i] == Slot(IntMax, [])
      {
        slots[y] := Slot(IntMax, []);
        y := y - 1;
      }
      slots[X] := Slot(top, []);
    }

    /** The pass for video x (size w, value v): y rises from w to the last
        slot; when slot y's head minus v is below slot y - w's head, slot
        y - w is replaced by that head followed by a copy of slot y's ids
        and x. */
    method PassSlots(slots: array<Slot>, x: int, w: int, v: int)
      requires w >= 1
      modifies slots
      ensures slots[..] == Pass(old(slots[..]), x, w, v)
    {
      ghost var prev := slots[..];
      ghost var next := Pass(prev, x, w, v);
      var y := w;
      while y < slots.Length
        invariant w <= y && (y <= slots.Length || y == w)
        invariant forall t {:trigger slots[t]} :: 0 <= t < slots.Length ==> slots[t] == if t < y - w then next[t] else prev[t]
      {
        if slots[y].head - v < slots[y - w].head {
          var src := slots[y];
          var ids := CopyIds(src.ids);
          slots[y - w] := Slot(src.head - v, ids + [x]);
        }
        assert slots[y - w] == next[y - w];
        y := y + 1;
      }
      assert forall t :: 0 <= t < slots.Length ==> slots[t] == next[t];
    }

    /** A fresh list with the same ids, element by element. */
    method CopyIds(ids: seq<int>) returns (copy: seq<int>)
      ensures copy == ids
    {
      copy := [];
      for z := 0 to |ids|
        invariant copy == ids[..z]
      {
        copy := copy + [ids[z]];
      }
      assert ids[..|ids|] == ids;
    }

    /** Lowers the best-known latency of every endpoint to cache c's latency
        for each video placed in c. */
    method LowerLatencies(q: array2<int>, c: nat, chosen: seq<int>)
      requires Valid() && QuickShaped(q) && c <= C
      requires forall i :: 0 <= i < |chosen| ==> 0 <= chosen[i] < V
      modifies q
      ensures forall k, j :: 0 <= k < E && 0 <= j < V ==>
        q[k, j] == if j in chosen then Min(old(q[k, j]), latencies[c][k]) else old(q[k, j])
    {
      for i := 0 to |chosen|
        invariant forall k, j :: 0 <= k < E && 0 <= j < V ==>
          q[k, j] == if j in chosen[..i] then Min(old(q[k, j]), latencies[c][k]) else old(q[k, j])
      {
        var u := chosen[i];
        for k := 0 to E
          invariant forall k', j :: 0 <= k' < E && 0 <= j < V ==>
            q[k', j] == if j in chosen[..i] || (j == u && k' < k) then Min(old(q[k', j]), latencies[c][k']) else old(q[k', j])
        {
          q[k, u] := Min(q[k, u], latencies[c][k]);
        }
        assert chosen[..i + 1] == chosen[..i] + [u];
      }
      assert chosen[..|chosen|] == chosen;
    }

    /** List i of `caches` is the one the chooser picks after lists
        0..i-1: their values leave the knapsack solvable, and list i is
        its solution. */
    ghost predicate Chosen(caches: seq<seq<int>>, i: nat)
      requires Valid() && i < |caches| <= C
    {
      var vals := Values(caches[..i], V);
      Solvable(sizes, vals, X) && caches[i] == Solution(sizes, vals, X)
    }

    /** A chosen list holds no video twice and fits in its cache. */
    lemma ChosenFits(caches: seq<seq<int>>, i: nat)
      requires Valid() && i < |caches| <= C && Chosen(caches, i)
      ensures Fits(caches[i])
    {
      SolutionFits(sizes, Values(caches[..i], V), X);
    }

    /** Whether list i is chosen depends only on lists 0..i. */
    lemma ChosenExtend(caches: seq<seq<int>>, chosen: seq<int>, i: nat)
      requires Valid() && i < |caches| < C && Chosen(caches, i)
      ensures Chosen(caches + [chosen], i)
    {
      assert (caches + [chosen])[..i] == caches[..i];
    }

    /** The choice is determined: two sequences of lists, each list
        chosen after the ones before it, are equal. */
    lemma {:induction false} ChosenUnique(a: seq<seq<int>>, b: seq<seq<int>>, n: nat)
      requires Valid() && |a| == |b| <= C && n <= |a|
      requires forall i :: 0 <= i < n ==> Chosen(a, i) && Chosen(b, i)
      ensures a[..n] == b[..n]
    {
      if n > 0 {
        ChosenUnique(a, b, n - 1);
        assert Chosen(a, n - 1) && Chosen(b, n - 1);
        assert a[n - 1] == b[n - 1];
        assert a[..n] == a[..n - 1] + [a[n - 1]];
        assert b[..n] == b[..n - 1] + [b[n - 1]];
      }
    }

    /** Video 0 decides whether a cache is solvable unless its value
        exceeds X, and a missing video 0 makes every cache unsolvable. */
    lemma SolvableWhenFirstFits(vals: seq<int>)
      requires Valid() && |vals| == V
      ensures V > 0 && sizes[0] <= X ==> Solvable(sizes, vals, X)
      ensures !Solvable(sizes, vals, X) ==> V == 0 || sizes[0] > X
    {
    }

    /** The table of best-known latencies before any cache is filled:
        every video of endpoint k at the origin latency. */
    method InitQuick() returns (q: array2<int>)
      requires Valid()
      ensures fresh(q) && QuickShaped(q)
      ensures forall k, j :: 0 <= k < E && 0 <= j < V ==> q[k, j] == Quick([], k, j)
    {
      q := new int[E, V];
      for i := 0 to E
        invariant forall k, j :: 0 <= k < i && 0 <= j < V ==> q[k, j] == latencies[C][k]
      {
        for j := 0 to V
          invariant forall k, j' :: 0 <= k < i && 0 <= j' < V ==> q[k, j'] == latencies[C][k]
          invariant forall j' :: 0 <= j' < j ==> q[i, j'] == latencies[C][i]
        {
          q[i, j] := latencies[C][i];
        }
      }
    }

    /** Sets every table entry to 0. */
    method Clear(knapsack: array<int>)
      modifies knapsack
      ensures knapsack[..] == seq(knapsack.Length, _ => 0)
    {
      for b := 0 to knapsack.Length
        invariant forall i :: 0 <= i < b ==> knapsack[i] == 0
      {
        knapsack[b] := 0;
      }
    }

    /** Fills kValues with every video's value for cache c, where q holds
        the best-known latencies after the lists `caches` of the caches
        before it. */
    method ValueVideos(ghost caches: seq<seq<int>>, c: nat, q: array2<int>, kValues: array<int>)
      requires Valid() && QuickShaped(q) && c == |caches| < C && kValues.Length == V
      requires forall k, j :: 0 <= k < E && 0 <= j < V ==> q[k, j] == Quick(caches, k, j)
      modifies kValues
      ensures kValues[..] == Values(caches, V)
    {
      CalculateKnapsackValues(kValues, q, c);
      forall j | 0 <= j < V
        ensures kValues[j] == Values(caches, V)[j]
      {
        ColumnIsHistory(q, caches, j, E);
        ValuesAt(caches, V, j);
      }
    }

    /** Solves the knapsack for the values in kValues from an all-zero
        table and recovers the list; reports false where the knapsack
        would index outside an array. */
    method SolveAndRecover(knapsack: array<int>, kValues: array<int>) returns (ok: bool, chosen: seq<int>)
      requires Valid() && knapsack.Length == X + 1 && kValues.Length == V && knapsack != kValues
      requires knapsack[..] == seq(X + 1, _ => 0)
      modifies knapsack
      ensures ok == Solvable(sizes, kValues[..], X)
      ensures ok ==> chosen == Solution(sizes, kValues[..], X) && Fits(chosen)
    {
      chosen := [];
      ok := SolveKnapsack(knapsack, kValues);
      if ok {
        chosen := RecoverKnapsackSolution(knapsack, kValues);
      }
    }

    /** Cache c's turn, after the lists `caches` of the caches before it,
        with q their best-known latencies: clear the table, value the
        videos, solve and recover, then lower q for the chosen videos. */
    method FillCache(ghost caches: seq<seq<int>>, c: nat, q: array2<int>, knapsack: array<int>, kValues: array<int>)
      returns (ok: bool, chosen: seq<int>)
      requires Valid() && QuickShaped(q) && c == |caches| < C
      requires knapsack.Length == X + 1 && kValues.Length == V && knapsack != kValues
      requires forall k, j :: 0 <= k < E && 0 <= j < V ==> q[k, j] == Quick(caches, k, j)
      modifies q, knapsack, kValues
      ensures ok == Solvable(sizes, Values(caches, V), X)
      ensures ok ==> chosen == Solution(sizes, Values(caches, V), X)
      ensures ok ==> forall k, j :: 0 <= k < E && 0 <= j < V ==> q[k, j] == Quick(caches + [chosen], k, j)
    {
      Clear(knapsack);
      ValueVideos(caches, c, q, kValues);
      ok, chosen := SolveAndRecover(knapsack, kValues);
      if ok {
        LowerLatencies(q, c, chosen);
        forall k, j | 0 <= k < E && 0 <= j < V
          ensures q[k, j] == Quick(caches + [chosen], k, j)
        {
          QuickAfter(caches, chosen, k, j);
        }
      }
    }

    /** The whole chooser: the best-known latencies start at the origin;
        caches 0..C-1 are filled in order, each with the list chosen after
        the ones before it, which then lowers them. Stops with OutOfBounds
        at the first cache for which the knapsack would index outside an
        array; `prefix` then holds the lists chosen before it. */
    method AssignVideosToCaches() returns (out: Assignment, ghost prefix: seq<seq<int>>)
      requires Valid()
      ensures out.Assigned? ==> |out.caches| == C && forall i :: 0 <= i < C ==> Chosen(out.caches, i)
      ensures out.Assigned? ==> forall i :: 0 <= i < C ==> Fits(out.caches[i])
      ensures out.OutOfBounds? ==>
        && out.cache < C && |prefix| == out.cache
        && (forall i :: 0 <= i < out.cache ==> Chosen(prefix, i))
        && !Solvable(sizes, Values(prefix, V), X)
      ensures out.OutOfBounds? ==> V == 0 || sizes[0] > X
      ensures V > 0 && sizes[0] <= X ==> out.Assigned?
    {
      var q := InitQuick();
      var knapsack := new int[X + 1];
      var kValues := new int[V];
      var caches: seq<seq<int>> := [];
      for i := 0 to C
        invariant |caches| == i
        invariant forall c :: 0 <= c < i ==> Chosen(caches, c)
        invariant forall k, j :: 0 <= k < E && 0 <= j < V ==> q[k, j] == Quick(caches, k, j)
      {
        var ok, chosen := FillCache(caches, i, q, knapsack, kValues);
        SolvableWhenFirstFits(Values(caches, V));
        if !ok {
          return OutOfBounds(i), caches;
        }
        forall c | 0 <= c < i
          ensures Chosen(caches + [chosen], c)
        {
          ChosenExtend(caches, chosen, c);
        }
        assert (caches + [chosen])[..i] == caches;
        caches := caches + [chosen];
      }
      forall i | 0 <= i < C
        ensures Fits(caches[i])
      {
        ChosenFits(caches, i);
      }
      return Assigned(caches), caches;
    }
  }
}
