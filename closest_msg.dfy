/**
 * `find_closest_msg`: the message of one channel nearest in time to a query
 * timestamp, found by a `bisect_left` search over the channel's `utime`s and
 * accepted only within a tolerance. The three copies of the function in the
 * repository are identical and share this model.
 */
module ClosestMsg {
  import opened Common

  /** `[m['utime'] for m in msgs]` */
  function Times<P>(msgs: seq<Stamped<P>>): (ts: seq<int>)
    ensures |ts| == |msgs|
    ensures forall i :: 0 <= i < |msgs| ==> ts[i] == msgs[i].utime
  {
    seq(|msgs|, i requires 0 <= i < |msgs| => msgs[i].utime)
  }

  ghost predicate Sorted(a: seq<int>) {
    forall i, j :: 0 <= i < j < |a| ==> a[i] <= a[j]
  }

  /**
   * Where `bisect_left` ends when it searches `a[lo..hi]` for `x`: halve the
   * range, go right past every probe below `x`, left otherwise. Defined for
   * every sequence, sorted or not.
   */
  function Bisect(a: seq<int>, x: int, lo: nat, hi: nat): (r: nat)
    requires lo <= hi <= |a|
    ensures lo <= r <= hi
    decreases hi - lo
  {
    if lo < hi then
      var mid := (lo + hi) / 2;
      if a[mid] < x then Bisect(a, x, mid + 1, hi) else Bisect(a, x, lo, mid)
    else lo
  }

  /** On a sorted sequence the search ends at the insertion point of `x`: everything before is smaller, nothing after is. */
  lemma {:induction false} BisectIsInsertionPoint(a: seq<int>, x: int, lo: nat, hi: nat)
    requires lo <= hi <= |a| && Sorted(a)
    requires forall j :: 0 <= j < lo ==> a[j] < x
    requires forall j :: hi <= j < |a| ==> a[j] >= x
    ensures forall j :: 0 <= j < Bisect(a, x, lo, hi) ==> a[j] < x
    ensures forall j :: Bisect(a, x, lo, hi) <= j < |a| ==> a[j] >= x
    decreases hi - lo
  {
    if lo < hi {
      var mid := (lo + hi) / 2;
      if a[mid] < x {
        BisectIsInsertionPoint(a, x, mid + 1, hi);
      } else {
        BisectIsInsertionPoint(a, x, lo, mid);
      }
    }
  }

  /** `bisect.bisect_left(a, x)`, the lo/hi loop. */
  method BisectLeft(a: seq<int>, x: int) returns (lo: nat)
    ensures lo == Bisect(a, x, 0, |a|)
    ensures lo <= |a|
    ensures Sorted(a) ==> (forall j :: 0 <= j < lo ==> a[j] < x) && (forall j :: lo <= j < |a| ==> a[j] >= x)
  {
    lo := 0;
    var hi := |a|;
    while lo < hi
      invariant lo <= hi <= |a|
      invariant Bisect(a, x, lo, hi) == Bisect(a, x, 0, |a|)
      decreases hi - lo
    {
      var mid := (lo + hi) / 2;
      if a[mid] < x {
        lo := mid + 1;
      } else {
        hi := mid;
      }
    }
    if Sorted(a) {
      BisectIsInsertionPoint(a, x, 0, |a|);
    }
  }

  /** `abs(msg['utime'] - timestamp)` */
  function Dist<P>(m: Stamped<P>, t: int): nat {
    Abs(m.utime - t)
  }

  /** Where `bisect_left` puts `t` among the messages' times. */
  function BisectPoint<P>(msgs: seq<Stamped<P>>, t: int): (idx: nat)
    ensures idx <= |msgs|
  {
    Bisect(Times(msgs), t, 0, |msgs|)
  }

  /**
   * The message `find_closest_msg` returns: of the two neighbours around the
   * bisection point, those within `tol` of `t` qualify; the one at or after the
   * point is kept unless the one before it is strictly nearer.
   */
  function Closest<P>(msgs: seq<Stamped<P>>, t: int, tol: int): (r: Option<Stamped<P>>)
  {
    if |msgs| == 0 then None
    else
      var idx := BisectPoint(msgs, t);
      var right := if idx < |msgs| && Dist(msgs[idx], t) <= tol then Some(msgs[idx]) else None;
      var left := if 0 < idx && Dist(msgs[idx - 1], t) <= tol then Some(msgs[idx - 1]) else None;
      if left.Some? && (right.None? || Dist(left.value, t) < Dist(right.value, t)) then left else right
  }

  /** `min_diff`, which starts at `float('inf')`. */
  datatype Bound = Infinity | Finite(n: int)

  predicate Below(d: int, b: Bound) {
    b.Infinity? || d < b.n
  }

  /** The messages `find_closest_msg` weighs: the one at the bisection point, then the one before it. */
  function Neighbours<P>(msgs: seq<Stamped<P>>, idx: nat): (cands: seq<Stamped<P>>)
    requires idx <= |msgs|
    ensures |cands| == (if idx < |msgs| then 1 else 0) + (if 0 < idx then 1 else 0)
    ensures idx < |msgs| ==> cands[0] == msgs[idx]
    ensures 0 < idx ==> cands[|cands| - 1] == msgs[idx - 1]
  {
    (if idx < |msgs| then [msgs[idx]] else []) + (if idx > 0 then [msgs[idx - 1]] else [])
  }

  /**
   * After weighing the first `n` candidates, `best` is nothing when none of
   * them is within `tol` of `t`, and otherwise the first of them (at `at`)
   * within `tol` at the least distance.
   */
  ghost predicate FirstNearest<P>(cands: seq<Stamped<P>>, n: nat, t: int, tol: int, best: Option<Stamped<P>>, at: int)
    requires n <= |cands|
  {
    (best.None? ==> forall k :: 0 <= k < n ==> Dist(cands[k], t) > tol) &&
    (best.Some? ==>
       0 <= at < n && best.value == cands[at] && Dist(best.value, t) <= tol &&
       (forall k :: 0 <= k < n && Dist(cands[k], t) <= tol ==> Dist(best.value, t) <= Dist(cands[k], t)) &&
       (forall k :: 0 <= k < at ==> Dist(cands[k], t) > tol || Dist(best.value, t) < Dist(cands[k], t)))
  }

  /** Weighing one more candidate: it replaces `best` exactly when it is within `tol` and strictly nearer. */
  lemma FirstNearestStep<P>(cands: seq<Stamped<P>>, i: nat, t: int, tol: int, best: Option<Stamped<P>>, at: int)
    requires i < |cands| && FirstNearest(cands, i, t, tol, best, at)
    ensures var d := Dist(cands[i], t);
      if d <= tol && (best.None? || d < Dist(best.value, t))
      then FirstNearest(cands, i + 1, t, tol, Some(cands[i]), i)
      else FirstNearest(cands, i + 1, t, tol, best, at)
  {
  }

  /** The first nearest neighbour within the tolerance is the message `Closest` describes. */
  lemma FirstNearestIsClosest<P>(msgs: seq<Stamped<P>>, t: int, tol: int, best: Option<Stamped<P>>, at: int)
    requires 0 < |msgs|
    requires var cands := Neighbours(msgs, BisectPoint(msgs, t)); FirstNearest(cands, |cands|, t, tol, best, at)
    ensures best == Closest(msgs, t, tol)
  {
    var idx := BisectPoint(msgs, t);
    var cands := Neighbours(msgs, idx);
    if idx < |msgs| && 0 < idx {
      assert cands == [msgs[idx], msgs[idx - 1]];
    } else if idx < |msgs| {
      assert cands == [msgs[idx]];
    } else {
      assert cands == [msgs[idx - 1]];
    }
  }

  /** `find_closest_msg(msgs, timestamp, tolerance)` */
  method FindClosestMsg<P>(msgs: seq<Stamped<P>>, t: int, tol: int) returns (best: Option<Stamped<P>>)
    ensures best == Closest(msgs, t, tol)
  {
    if |msgs| == 0 {
      return None;
    }
    var times := Times(msgs);
    var idx := BisectLeft(times, t);
    var candidates: seq<Stamped<P>> := [];
    if idx < |msgs| {
      candidates := candidates + [msgs[idx]];
    }
    if idx > 0 {
      candidates := candidates + [msgs[idx - 1]];
    }
    assert candidates == Neighbours(msgs, idx);
    best := None;
    var minDiff := Infinity;
    ghost var at := 0;
    for i := 0 to |candidates|
      invariant minDiff == if best.Some? then Finite(Dist(best.value, t)) else Infinity
      invariant FirstNearest(candidates, i, t, tol, best, at)
    {
      var msg := candidates[i];
      var diff := Abs(msg.utime - t);
      FirstNearestStep(candidates, i, t, tol, best, at);
      if Below(diff, minDiff) && diff <= tol {
        minDiff := Finite(diff);
        best := Some(msg);
        at := i;
      }
    }
    FirstNearestIsClosest(msgs, t, tol, best, at);
  }

  // ---------------------------------------------------------------------------
  // What the lookup guarantees.

  /** An empty channel gives nothing; a found message is within the tolerance, bound included. */
  lemma ClosestWithinTolerance<P>(msgs: seq<Stamped<P>>, t: int, tol: int)
    ensures |msgs| == 0 ==> Closest(msgs, t, tol) == None
    ensures Closest(msgs, t, tol).Some? ==> Dist(Closest(msgs, t, tol).value, t) <= tol
  {
  }

  /**
   * A found message is one of the two neighbours of the bisection point: only
   * `msgs[0]` when `t` sorts before every message, only the last message when
   * it sorts after every message.
   */
  lemma ClosestIsNeighbour<P>(msgs: seq<Stamped<P>>, t: int, tol: int)
    ensures var r, idx := Closest(msgs, t, tol), BisectPoint(msgs, t);
            r.Some? ==>
              (idx < |msgs| && r.value == msgs[idx]) || (0 < idx && r.value == msgs[idx - 1])
    ensures var r, idx := Closest(msgs, t, tol), BisectPoint(msgs, t);
            r.Some? && idx == 0 ==> r.value == msgs[0]
    ensures var r, idx := Closest(msgs, t, tol), BisectPoint(msgs, t);
            r.Some? && idx == |msgs| ==> r.value == msgs[|msgs| - 1]
  {
  }

  /** Ties between the two neighbours go to the one at the bisection point, whose `utime` is not before `t` when the times are sorted. */
  lemma ClosestTieGoesRight<P>(msgs: seq<Stamped<P>>, t: int, tol: int)
    requires 0 < BisectPoint(msgs, t) < |msgs|
    requires Dist(msgs[BisectPoint(msgs, t)], t) == Dist(msgs[BisectPoint(msgs, t) - 1], t) <= tol
    ensures Closest(msgs, t, tol) == Some(msgs[BisectPoint(msgs, t)])
  {
  }

  /** On sorted times, the neighbours bracket `t`: one below it, one at or above it. */
  lemma BisectPointBrackets<P>(msgs: seq<Stamped<P>>, t: int)
    requires TimeSorted(msgs)
    ensures forall j :: 0 <= j < BisectPoint(msgs, t) ==> msgs[j].utime < t
    ensures forall j :: BisectPoint(msgs, t) <= j < |msgs| ==> msgs[j].utime >= t
  {
    var a := Times(msgs);
    assert Sorted(a);
    BisectIsInsertionPoint(a, t, 0, |a|);
  }

  /** On sorted times, a found message is as near to `t` as any message of the channel. */
  lemma ClosestIsNearest<P>(msgs: seq<Stamped<P>>, t: int, tol: int)
    requires TimeSorted(msgs)
    ensures var r := Closest(msgs, t, tol);
            r.Some? ==> forall j :: 0 <= j < |msgs| ==> Dist(r.value, t) <= Dist(msgs[j], t)
  {
    var r := Closest(msgs, t, tol);
    if r.Some? {
      var idx := BisectPoint(msgs, t);
      BisectPointBrackets(msgs, t);
      forall j | 0 <= j < |msgs|
        ensures Dist(r.value, t) <= Dist(msgs[j], t)
      {
        if j < idx {
          assert msgs[j].utime <= msgs[idx - 1].utime;
        } else {
          assert msgs[idx].utime <= msgs[j].utime;
        }
      }
    }
  }

  /** On sorted times, nothing is found exactly when no message lies within the tolerance. */
  lemma ClosestNoneIff<P>(msgs: seq<Stamped<P>>, t: int, tol: int)
    requires TimeSorted(msgs)
    ensures Closest(msgs, t, tol).None? <==> forall j :: 0 <= j < |msgs| ==> Dist(msgs[j], t) > tol
  {
    if Closest(msgs, t, tol).None? && |msgs| > 0 {
      var idx := BisectPoint(msgs, t);
      BisectPointBrackets(msgs, t);
      forall j | 0 <= j < |msgs|
        ensures Dist(msgs[j], t) > tol
      {
        if j < idx {
          assert msgs[j].utime <= msgs[idx - 1].utime;
        } else {
          assert msgs[idx].utime <= msgs[j].utime;
        }
      }
    }
  }

  /** On sorted times, a message found before `t` is strictly nearer than every message at or after `t`: on an equal distance the later one wins. */
  lemma ClosestPrefersLater<P>(msgs: seq<Stamped<P>>, t: int, tol: int)
    requires TimeSorted(msgs)
    ensures var r := Closest(msgs, t, tol);
            r.Some? && r.value.utime < t ==>
              forall j :: 0 <= j < |msgs| && msgs[j].utime >= t ==> Dist(r.value, t) < Dist(msgs[j], t)
  {
    var r := Closest(msgs, t, tol);
    if r.Some? && r.value.utime < t {
      var idx := BisectPoint(msgs, t);
      BisectPointBrackets(msgs, t);
      forall j | 0 <= j < |msgs| && msgs[j].utime >= t
        ensures Dist(r.value, t) < Dist(msgs[j], t)
      {
        assert idx <= j;
        assert msgs[idx].utime <= msgs[j].utime;
      }
    }
  }

  /** On sorted times, a query more than `tol` before the first or after the last message finds nothing. */
  lemma ClosestOutsideWindow<P>(msgs: seq<Stamped<P>>, t: int, tol: int)
    requires TimeSorted(msgs) && |msgs| > 0
    requires t < msgs[0].utime - tol || t > msgs[|msgs| - 1].utime + tol
    ensures Closest(msgs, t, tol) == None
  {
    forall j | 0 <= j < |msgs|
      ensures Dist(msgs[j], t) > tol
    {
      assert msgs[0].utime <= msgs[j].utime <= msgs[|msgs| - 1].utime;
    }
    ClosestNoneIff(msgs, t, tol);
  }
}
