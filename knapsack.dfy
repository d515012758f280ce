/**
 * The per-cache 0/1 knapsack of the cache-content chooser, as pure
 * functions: the DP table after the seeding of video 0 and the downward
 * relaxation for videos 1..V-1, and the slot-by-slot back-substitution
 * that recovers a video list from it.
 */
module Knapsack {
  import opened IntMath
  import opened CacheTables

  /** Every video occupies at least one unit of capacity. */
  ghost predicate PositiveSizes(ws: seq<int>)
  {
    forall i :: 0 <= i < |ws| ==> ws[i] >= 1
  }

  /** Table entries 0..X after video 0: an all-zero table in which entry
      w0 is set to the capacity X itself when v0 <= X. */
  function Seeded(t: seq<int>, w0: int, v0: int, X: int): (r: seq<int>)
    requires v0 <= X ==> 0 <= w0 < |t|
    ensures |r| == |t|
    ensures forall b :: 0 <= b < |t| && (b != w0 || v0 > X) ==> r[b] == t[b]
    ensures v0 <= X ==> r[w0] == X
  {
    if v0 <= X then t[w0 := X] else t
  }

  /** One DP row update for an item of size w and value v. The entries are
      updated from the top down, so every entry reads the row as it was
      before this item: the item is counted at most once. */
  function Relax(t: seq<int>, w: int, v: int): (r: seq<int>)
    requires w >= 1
    ensures |r| == |t|
  {
    seq(|t|, b requires 0 <= b < |t| => if b - w >= 0 then Max(t[b], t[b - w] + v) else t[b])
  }

  /** The table after relaxing items 1..n-1 in increasing order. */
  function Table(t0: seq<int>, ws: seq<int>, vs: seq<int>, n: nat): (r: seq<int>)
    requires n <= |ws| == |vs| && PositiveSizes(ws)
    ensures |r| == |t0|
  {
    if n <= 1 then t0 else Relax(Table(t0, ws, vs, n - 1), ws[n - 1], vs[n - 1])
  }

  /** The sum of xs[i] over the picked items i in 1..|p|-1 (item 0 never
      counts: it enters the table only through the seeding). */
  function Total(xs: seq<int>, p: seq<bool>): int
    requires |p| <= |xs|
  {
    if |p| <= 1 then 0 else Total(xs, p[..|p| - 1]) + (if p[|p| - 1] then xs[|p| - 1] else 0)
  }

  lemma {:induction false} TotalNonNegative(ws: seq<int>, p: seq<bool>)
    requires |p| <= |ws| && PositiveSizes(ws)
    ensures Total(ws, p) >= 0
  {
    if |p| > 1 {
      TotalNonNegative(ws, p[..|p| - 1]);
    }
  }

  /** No subset of items 1..n-1 that fits in b does better than the table:
      Table[b] >= t0[b - size(S)] + value(S) for every such S. */
  lemma {:induction false} TableBound(t0: seq<int>, ws: seq<int>, vs: seq<int>, n: nat, p: seq<bool>, b: int)
    requires n <= |ws| == |vs| && PositiveSizes(ws)
    requires |p| == n && 0 <= Total(ws, p) <= b < |t0|
    ensures Table(t0, ws, vs, n)[b] >= t0[b - Total(ws, p)] + Total(vs, p)
  {
    if n > 1 {
      var q := p[..n - 1];
      var t := Table(t0, ws, vs, n - 1);
      assert Table(t0, ws, vs, n) == Relax(t, ws[n - 1], vs[n - 1]);
      TotalNonNegative(ws, q);
      if p[n - 1] {
        TableBound(t0, ws, vs, n - 1, q, b - ws[n - 1]);
      } else {
        TableBound(t0, ws, vs, n - 1, q, b);
      }
    }
  }

  /** One step of the table: entry b after item n-1. */
  lemma TableStep(t0: seq<int>, ws: seq<int>, vs: seq<int>, n: nat, b: int)
    requires 1 < n <= |ws| == |vs| && PositiveSizes(ws) && 0 <= b < |t0|
    ensures var t, w := Table(t0, ws, vs, n - 1), ws[n - 1];
      Table(t0, ws, vs, n)[b] == if b - w >= 0 then Max(t[b], t[b - w] + vs[n - 1]) else t[b]
  {
  }

  lemma TotalStep(xs: seq<int>, q: seq<bool>, take: bool)
    requires |q| + 1 <= |xs| && |q| >= 1
    ensures Total(xs, q + [take]) == Total(xs, q) + (if take then xs[|q|] else 0)
  {
    assert (q + [take])[..|q|] == q;
  }

  /** When the relaxation for item n-1 takes the item at b, a subset that
      attains the previous table at b - w, plus item n-1, attains b. */
  lemma ExtendTaking(t0: seq<int>, ws: seq<int>, vs: seq<int>, n: nat, b: int, q: seq<bool>)
    requires 1 < n <= |ws| == |vs| && PositiveSizes(ws) && 0 <= b - ws[n - 1] && b < |t0|
    requires Table(t0, ws, vs, n - 1)[b] < Table(t0, ws, vs, n - 1)[b - ws[n - 1]] + vs[n - 1]
    requires |q| == n - 1 && 0 <= Total(ws, q) <= b - ws[n - 1]
    requires Table(t0, ws, vs, n - 1)[b - ws[n - 1]] == t0[b - ws[n - 1] - Total(ws, q)] + Total(vs, q)
    ensures 0 <= Total(ws, q + [true]) <= b
    ensures Table(t0, ws, vs, n)[b] == t0[b - Total(ws, q + [true])] + Total(vs, q + [true])
  {
    TableStep(t0, ws, vs, n, b);
    TotalStep(ws, q, true);
    TotalStep(vs, q, true);
  }

  /** When it does not, a subset that attains the previous table at b,
      without item n-1, attains b. */
  lemma ExtendSkipping(t0: seq<int>, ws: seq<int>, vs: seq<int>, n: nat, b: int, q: seq<bool>)
    requires 1 < n <= |ws| == |vs| && PositiveSizes(ws) && 0 <= b < |t0|
    requires 0 <= b - ws[n - 1] ==> Table(t0, ws, vs, n - 1)[b] >= Table(t0, ws, vs, n - 1)[b - ws[n - 1]] + vs[n - 1]
    requires |q| == n - 1 && 0 <= Total(ws, q) <= b
    requires Table(t0, ws, vs, n - 1)[b] == t0[b - Total(ws, q)] + Total(vs, q)
    ensures 0 <= Total(ws, q + [false]) <= b
    ensures Table(t0, ws, vs, n)[b] == t0[b - Total(ws, q + [false])] + Total(vs, q + [false])
  {
    TableStep(t0, ws, vs, n, b);
    TotalStep(ws, q, false);
    TotalStep(vs, q, false);
  }

  /** A subset of items 1..n-1 that fits in b and attains the table's
      value there. */
  ghost predicate Attained(t0: seq<int>, ws: seq<int>, vs: seq<int>, n: nat, b: int)
    requires n <= |ws| == |vs| && PositiveSizes(ws) && 0 <= b < |t0|
  {
    exists p: seq<bool> :: |p| == n && 0 <= Total(ws, p) <= b && Table(t0, ws, vs, n)[b] == t0[b - Total(ws, p)] + Total(vs, p)
  }

  lemma AttainedTaking(t0: seq<int>, ws: seq<int>, vs: seq<int>, n: nat, b: int)
    requires 1 < n <= |ws| == |vs| && PositiveSizes(ws) && 0 <= b - ws[n - 1] && b < |t0|
    requires Table(t0, ws, vs, n - 1)[b] < Table(t0, ws, vs, n - 1)[b - ws[n - 1]] + vs[n - 1]
    requires Attained(t0, ws, vs, n - 1, b - ws[n - 1])
    ensures Attained(t0, ws, vs, n, b)
  {
    var q: seq<bool> :| |q| == n - 1 && 0 <= Total(ws, q) <= b - ws[n - 1]
      && Table(t0, ws, vs, n - 1)[b - ws[n - 1]] == t0[b - ws[n - 1] - Total(ws, q)] + Total(vs, q);
    ExtendTaking(t0, ws, vs, n, b, q);
  }

  lemma AttainedSkipping(t0: seq<int>, ws: seq<int>, vs: seq<int>, n: nat, b: int)
    requires 1 < n <= |ws| == |vs| && PositiveSizes(ws) && 0 <= b < |t0|
    requires 0 <= b - ws[n - 1] ==> Table(t0, ws, vs, n - 1)[b] >= Table(t0, ws, vs, n - 1)[b - ws[n - 1]] + vs[n - 1]
    requires Attained(t0, ws, vs, n - 1, b)
    ensures Attained(t0, ws, vs, n, b)
  {
    var q: seq<bool> :| |q| == n - 1 && 0 <= Total(ws, q) <= b
      && Table(t0, ws, vs, n - 1)[b] == t0[b - Total(ws, q)] + Total(vs, q);
    ExtendSkipping(t0, ws, vs, n, b, q);
  }

  /** Some subset of items 1..n-1 attains the table's value at b: it fits
      in b, and Table[b] == t0[b - size] + value. With TableBound, the
      table holds exactly the best such value. */
  lemma {:induction false} TableAttained(t0: seq<int>, ws: seq<int>, vs: seq<int>, n: nat, b: int)
    requires n <= |ws| == |vs| && PositiveSizes(ws)
    requires 0 <= b < |t0|
    ensures Attained(t0, ws, vs, n, b)
  {
    if n <= 1 {
      var p: seq<bool> := if n == 0 then [] else [false];
      assert Total(ws, p) == 0 && Total(vs, p) == 0;
      assert Table(t0, ws, vs, n)[b] == t0[b - Total(ws, p)] + Total(vs, p);
    } else if 0 <= b - ws[n - 1] && Table(t0, ws, vs, n - 1)[b] < Table(t0, ws, vs, n - 1)[b - ws[n - 1]] + vs[n - 1] {
      TableAttained(t0, ws, vs, n - 1, b - ws[n - 1]);
      AttainedTaking(t0, ws, vs, n, b);
    } else {
      TableAttained(t0, ws, vs, n - 1, b);
      AttainedSkipping(t0, ws, vs, n, b);
    }
  }

  /** Relaxing more items never lowers an entry. */
  lemma {:induction false} TableNeverDecreases(t0: seq<int>, ws: seq<int>, vs: seq<int>, m: nat, n: nat, b: int)
    requires m <= n <= |ws| == |vs| && PositiveSizes(ws)
    requires 0 <= b < |t0|
    ensures Table(t0, ws, vs, n)[b] >= Table(t0, ws, vs, m)[b]
    decreases n
  {
    if m < n {
      if n > 1 {
        assert Table(t0, ws, vs, n) == Relax(Table(t0, ws, vs, n - 1), ws[n - 1], vs[n - 1]);
      }
      TableNeverDecreases(t0, ws, vs, m, n - 1, b);
    }
  }

  /** One back-substitution list: its first entry (the head) and the video
      ids after it, in the order they were added. */
  datatype Slot = Slot(head: int, ids: seq<int>)

  /** The slots before the first pass: every head is Integer.MAX_VALUE
      except slot X, whose head is the table's value at X. */
  function InitialSlots(X: nat, top: int): (s: seq<Slot>)
    ensures |s| == X + 1 && s[X] == Slot(top, [])
    ensures forall y :: 0 <= y < X ==> s[y] == Slot(IntMax, [])
  {
    seq(X + 1, y => if y == X then Slot(top, []) else Slot(IntMax, []))
  }

  /** The pass for video x (size w, value v). Slot t takes slot t+w's list
      with x appended and head lowered by v, when that head is strictly
      smaller than its own. Sources are read before they are overwritten
      in the pass (targets lie w below their sources and t rises), so
      every slot sees the lists as they were before the pass. */
  function Pass(slots: seq<Slot>, x: int, w: int, v: int): (r: seq<Slot>)
    requires w >= 1
    ensures |r| == |slots|
  {
    seq(|slots|, t requires 0 <= t < |slots| =>
      if t + w < |slots| && slots[t + w].head - v < slots[t].head
      then Slot(slots[t + w].head - v, slots[t + w].ids + [x])
      else slots[t])
  }

  /** A pass only ever replaces a slot by one with a strictly smaller
      head: heads never increase, and a slot whose head is unchanged is
      unchanged. */
  lemma PassLowersHeads(slots: seq<Slot>, x: int, w: int, v: int)
    requires w >= 1
    ensures forall t :: 0 <= t < |slots| ==> Pass(slots, x, w, v)[t].head <= slots[t].head
    ensures forall t :: 0 <= t < |slots| && Pass(slots, x, w, v)[t].head == slots[t].head ==> Pass(slots, x, w, v)[t] == slots[t]
  {
  }

  /** The passes for videos k-1 down to 0. */
  function Recover(slots: seq<Slot>, ws: seq<int>, vs: seq<int>, k: nat): (r: seq<Slot>)
    requires k <= |ws| == |vs| && PositiveSizes(ws)
    ensures |r| == |slots|
    decreases k
  {
    if k == 0 then slots else Recover(Pass(slots, k - 1, ws[k - 1], vs[k - 1]), ws, vs, k - 1)
  }

  /** The video list returned for a cache: slot 0's ids after all passes,
      starting from a table whose value at X is `top`. */
  function Recovered(top: int, ws: seq<int>, vs: seq<int>, X: nat): seq<int>
    requires |ws| == |vs| && PositiveSizes(ws)
  {
    Recover(InitialSlots(X, top), ws, vs, |ws|)[0].ids
  }

  /** Sum of xs over a list of ids. */
  function SumOver(ids: seq<int>, xs: seq<int>): int
    requires forall i :: 0 <= i < |ids| ==> 0 <= ids[i] < |xs|
  {
    if ids == [] then 0 else SumOver(ids[..|ids| - 1], xs) + xs[ids[|ids| - 1]]
  }

  ghost predicate StrictlyDecreasing(ids: seq<int>)
  {
    forall i, j :: 0 <= i < j < |ids| ==> ids[i] > ids[j]
  }

  /** The head a chain starts from: the table's value for chains from
      slot X, Integer.MAX_VALUE for every other slot. */
  function Base(y0: int, X: int, top: int): int
  {
    if y0 == X then top else IntMax
  }

  /** What every slot t holds once videos V-1..n have been passed: ids
      strictly decreasing and in n..V-1, descended from slot t + their
      total size (at most X), with head that slot's start minus their
      total value. */
  ghost predicate SlotOk(s: Slot, t: int, ws: seq<int>, vs: seq<int>, n: nat, X: int, top: int)
    requires |ws| == |vs|
  {
    && StrictlyDecreasing(s.ids)
    && (forall i :: 0 <= i < |s.ids| ==> n <= s.ids[i] < |ws|)
    && t + SumOver(s.ids, ws) <= X
    && s.head == Base(t + SumOver(s.ids, ws), X, top) - SumOver(s.ids, vs)
  }

  ghost predicate SlotsOk(slots: seq<Slot>, ws: seq<int>, vs: seq<int>, n: nat, top: int)
    requires |ws| == |vs| && |slots| > 0
  {
    forall t :: 0 <= t < |slots| ==> SlotOk(slots[t], t, ws, vs, n, |slots| - 1, top)
  }

  lemma InitialSlotsOk(X: nat, top: int, ws: seq<int>, vs: seq<int>)
    requires |ws| == |vs|
    ensures SlotsOk(InitialSlots(X, top), ws, vs, |ws|, top)
  {
  }

  /** A list taken over from slot t + size(x), with x appended, is a
      valid list for slot t once x has been passed. */
  lemma ExtendSlotOk(src: Slot, t: int, ws: seq<int>, vs: seq<int>, x: nat, X: int, top: int)
    requires |ws| == |vs| && x < |ws|
    requires SlotOk(src, t + ws[x], ws, vs, x + 1, X, top)
    ensures SlotOk(Slot(src.head - vs[x], src.ids + [x]), t, ws, vs, x, X, top)
  {
    var ids := src.ids + [x];
    SumOverAppend(src.ids, x, ws);
    SumOverAppend(src.ids, x, vs);
    forall i, j | 0 <= i < j < |ids|
      ensures ids[i] > ids[j]
    {
      assert ids[i] == src.ids[i];
      if j < |src.ids| {
        assert ids[j] == src.ids[j];
      }
    }
  }

  lemma SumOverAppend(ids: seq<int>, x: nat, xs: seq<int>)
    requires x < |xs| && forall i :: 0 <= i < |ids| ==> 0 <= ids[i] < |xs|
    ensures SumOver(ids + [x], xs) == SumOver(ids, xs) + xs[x]
  {
    assert (ids + [x])[..|ids|] == ids;
  }

  lemma SlotOkWeaken(s: Slot, t: int, ws: seq<int>, vs: seq<int>, n: nat, X: int, top: int)
    requires |ws| == |vs| && SlotOk(s, t, ws, vs, n + 1, X, top)
    ensures SlotOk(s, t, ws, vs, n, X, top)
  {
  }

  /** The pass for video x, applied to slots built from videos above x,
      gives slots built from videos x and above. */
  lemma PassKeepsSlotsOk(slots: seq<Slot>, ws: seq<int>, vs: seq<int>, x: nat, top: int)
    requires |ws| == |vs| && PositiveSizes(ws) && x < |ws| && |slots| > 0
    requires SlotsOk(slots, ws, vs, x + 1, top)
    ensures SlotsOk(Pass(slots, x, ws[x], vs[x]), ws, vs, x, top)
  {
    var r := Pass(slots, x, ws[x], vs[x]);
    var X := |slots| - 1;
    forall t | 0 <= t < |r|
      ensures SlotOk(r[t], t, ws, vs, x, X, top)
    {
      if t + ws[x] < |slots| && slots[t + ws[x]].head - vs[x] < slots[t].head {
        var src := slots[t + ws[x]];
        assert SlotOk(src, t + ws[x], ws, vs, x + 1, X, top);
        ExtendSlotOk(src, t, ws, vs, x, X, top);
        assert r[t] == Slot(src.head - vs[x], src.ids + [x]);
      } else {
        assert r[t] == slots[t];
        SlotOkWeaken(slots[t], t, ws, vs, x, X, top);
      }
    }
  }

  lemma {:induction false} RecoverKeepsSlotsOk(slots: seq<Slot>, ws: seq<int>, vs: seq<int>, k: nat, top: int)
    requires k <= |ws| == |vs| && PositiveSizes(ws) && |slots| > 0
    requires SlotsOk(slots, ws, vs, k, top)
    ensures SlotsOk(Recover(slots, ws, vs, k), ws, vs, 0, top)
    decreases k
  {
    if k > 0 {
      var next := Pass(slots, k - 1, ws[k - 1], vs[k - 1]);
      PassKeepsSlotsOk(slots, ws, vs, k - 1, top);
      RecoverKeepsSlotsOk(next, ws, vs, k - 1, top);
      assert Recover(slots, ws, vs, k) == Recover(next, ws, vs, k - 1);
    }
  }

  /** The recovered list names each video at most once (ids strictly
      decrease), only names videos 0..V-1, and fits in the capacity X;
      slot 0's head is its chain's start minus the list's total value. */
  lemma RecoveredIsSound(top: int, ws: seq<int>, vs: seq<int>, X: nat)
    requires |ws| == |vs| && PositiveSizes(ws)
    ensures var ids := Recovered(top, ws, vs, X);
      && StrictlyDecreasing(ids)
      && (forall i :: 0 <= i < |ids| ==> 0 <= ids[i] < |ws|)
      && SumOver(ids, ws) <= X
      && Recover(InitialSlots(X, top), ws, vs, |ws|)[0].head == Base(SumOver(ids, ws), X, top) - SumOver(ids, vs)
  {
    InitialSlotsOk(X, top, ws, vs);
    RecoverKeepsSlotsOk(InitialSlots(X, top), ws, vs, |ws|, top);
    assert SlotOk(Recover(InitialSlots(X, top), ws, vs, |ws|)[0], 0, ws, vs, 0, X, top);
  }

  /** The knapsack of one cache can run without indexing outside an
      array: there is a video 0, and whenever it is seeded its size lies
      inside the table 0..X. */
  predicate Solvable(ws: seq<int>, vs: seq<int>, X: nat)
    requires |ws| == |vs|
  {
    |ws| > 0 && (vs[0] <= X ==> ws[0] <= X)
  }

  /** The table of one cache with video sizes ws and values vs: from all
      zeros, seeded with video 0 and relaxed with videos 1..|ws|-1. */
  function SolvedTable(ws: seq<int>, vs: seq<int>, X: nat): (t: seq<int>)
    requires |ws| == |vs| && PositiveSizes(ws) && Solvable(ws, vs, X)
    ensures |t| == X + 1
  {
    Table(Seeded(seq(X + 1, _ => 0), ws[0], vs[0], X), ws, vs, |ws|)
  }

  /** The list chosen for one cache: the back-substitution from the
      solved table's value at X. */
  function Solution(ws: seq<int>, vs: seq<int>, X: nat): (ids: seq<int>)
    requires |ws| == |vs| && PositiveSizes(ws) && Solvable(ws, vs, X)
  {
    Recovered(SolvedTable(ws, vs, X)[X], ws, vs, X)
  }

  /** The chosen list holds no video twice, only videos of ws, and fits
      in X. */
  lemma SolutionFits(ws: seq<int>, vs: seq<int>, X: nat)
    requires |ws| == |vs| && PositiveSizes(ws) && Solvable(ws, vs, X)
    ensures var ids := Solution(ws, vs, X);
      && StrictlyDecreasing(ids)
      && (forall i :: 0 <= i < |ids| ==> 0 <= ids[i] < |ws|)
      && SumOver(ids, ws) <= X
  {
    RecoveredIsSound(SolvedTable(ws, vs, X)[X], ws, vs, X);
  }
}
