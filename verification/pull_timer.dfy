/**
 `PullTimer<T>`: a delta-list timer queue (src/lib.rs). The caller reports elapsed
 time with `Update`, schedules with `Add`, cancels with `Remove` and drains due
 events with `Poll`. Every operation keeps `Valid` (all deadlines fit in a `u32`),
 and `Add`, `Remove`, `Poll` and `NextIn` are proved to act on the absolute schedule
 exactly as the reference operations of `Schedule` do. `Update` is modelled as
 written; how it relates to `Schedule.Advance` is worked out in `UpdateFinding`.
 */
module PullTimer {
  import opened Wrappers
  import opened Units
  import opened Schedule
  import opened DeltaList

  /** A timer with nothing scheduled. */
  function New<T>(): (q: Queue<T>)
    ensures Absolute(q) == []
  {
    []
  }

  /** The time until the earliest pending event, or `None` when nothing is pending. */
  function NextIn<T>(q: Queue<T>): (r: Option<nat>)
    ensures r.None? <==> |q| == 0
    ensures r.Some? ==> r.value == Absolute(q)[0].deadline
    ensures r.Some? ==> forall i :: 0 <= i < |q| ==> r.value <= Absolute(q)[i].deadline
  {
    AbsoluteSorted(q);
    if |q| == 0 then None
    else
      assert Absolute(q)[0].deadline == Prefix(q, 1) == q[0].gap;
      Some(q[0].gap)
  }

  /**
   Fires the front event if its gap is 0, and otherwise (also on an empty timer)
   returns `None` without touching the queue.
   */
  function Poll<T>(q: Queue<T>): (r: (Queue<T>, Option<T>))
    ensures (Absolute(r.0), r.1) == Fire(Absolute(q))
    ensures r.1.None? ==> r.0 == q
    ensures Valid(q) ==> Valid(r.0)
  {
    if 0 < |q| && q[0].gap == 0 then
      var r := (q[1..], Some(q[0].event));
      assert Absolute(q)[0] == Timed(Prefix(q, 1), q[0].event) == Timed(0, q[0].event);
      AbsoluteDropDue(q);
      ValidIffBounded(q);
      ValidIffBounded(q[1..]);
      r
    else
      (q, None)
  }

  /**
   Schedules `event` to fire `deadline` from now. The scan finds the last entry due no
   later than `deadline`; the new entry goes right after it, and the entry that follows
   gives up the part of its gap that now lies before the new entry.
   */
  method Add<T>(q: Queue<T>, deadline: U32, event: T) returns (q': Queue<T>)
    requires Valid(q)
    ensures Valid(q')
    ensures Absolute(q') == Insert(Absolute(q), deadline, event)
  {
    var sum: U32 := 0;
    var insertionPoint := 0;
    for index := 0 to |q|
      invariant insertionPoint == index
      invariant sum == Prefix(q, index) && sum <= deadline
      invariant forall i :: 0 <= i < index ==> Absolute(q)[i].deadline <= deadline
    {
      PrefixMonotone(q, index + 1, |q|);
      var delta: U32 := q[index].gap;
      var reached: U32 := sum + delta;  // the `u32` addition cannot overflow
      if reached > deadline {
        break;
      }
      insertionPoint := index + 1;
      sum := sum + delta;
    }

    var insertionDelta: U32 := deadline - sum;  // cannot underflow: sum <= deadline
    var adjusted := q;
    if insertionPoint < |q| {
      // The following entry is due strictly after `deadline`, so this never saturates.
      assert insertionDelta < q[insertionPoint].gap;
      adjusted := q[insertionPoint := Entry(SatSub(q[insertionPoint].gap, insertionDelta), q[insertionPoint].event)];
    }
    q' := adjusted[..insertionPoint] + [Entry(insertionDelta, event)] + adjusted[insertionPoint..];

    AddRefinesInsert(q, deadline, event, insertionPoint, q');
  }

  /** The queue `Add` builds stands for `Insert` of the old schedule, and stays valid. */
  lemma AddRefinesInsert<T>(q: Queue<T>, deadline: U32, event: T, p: nat, q': Queue<T>)
    requires Valid(q) && p <= |q|
    requires forall i :: 0 <= i < p ==> Absolute(q)[i].deadline <= deadline
    requires p < |q| ==> deadline < Prefix(q, p + 1)
    requires Prefix(q, p) <= deadline
    requires p == |q| ==> q' == q + [Entry(deadline - Prefix(q, p), event)]
    requires p < |q| ==> q' == q[..p] + [Entry(deadline - Prefix(q, p), event),
                                         Entry(q[p].gap - (deadline - Prefix(q, p)), q[p].event)]
                                      + q[p + 1..]
    ensures Valid(q')
    ensures Absolute(q') == Insert(Absolute(q), deadline, event)
  {
    var a := Absolute(q);
    LeadingBelowUnique(a, deadline + 1, p);
    AddSchedule(q, deadline, event, p, q');
    ValidIffBounded(q);
    InsertBounded(a, deadline, event, U32_MAX);
    ValidIffBounded(q');
  }

  /** The new entry sits at position `p` with its deadline; every other deadline stays put. */
  lemma AddSchedule<T>(q: Queue<T>, deadline: nat, event: T, p: nat, q': Queue<T>)
    requires p <= |q| && Prefix(q, p) <= deadline
    requires p < |q| ==> deadline < Prefix(q, p + 1)
    requires p == |q| ==> q' == q + [Entry(deadline - Prefix(q, p), event)]
    requires p < |q| ==> q' == q[..p] + [Entry(deadline - Prefix(q, p), event),
                                         Entry(q[p].gap - (deadline - Prefix(q, p)), q[p].event)]
                                      + q[p + 1..]
    ensures Absolute(q') == Absolute(q)[..p] + [Timed(deadline, event)] + Absolute(q)[p..]
  {
    if p == |q| {
      AbsoluteAppend(q, Entry(deadline - Prefix(q, p), event));
      assert Absolute(q)[..p] == Absolute(q) && Absolute(q)[p..] == [];
    } else {
      AbsoluteSplit(q, p, Entry(deadline - Prefix(q, p), event),
                    Entry(q[p].gap - (deadline - Prefix(q, p)), q[p].event), q');
    }
  }

  /**
   Cancels the first event equal to `event`, answering its deadline; the entry after it
   absorbs its gap. When no entry matches the queue is unchanged and the answer is `None`.
   */
  method Remove<T(==)>(q: Queue<T>, event: T) returns (q': Queue<T>, r: Option<nat>)
    requires Valid(q)
    ensures Valid(q')
    ensures (Absolute(q'), r) == Cancel(Absolute(q), event)
  {
    var sum: U32 := 0;
    var target: Option<nat> := None;
    for index := 0 to |q|
      invariant target.None?
      invariant sum == Prefix(q, index)
      invariant forall i :: 0 <= i < index ==> q[i].event != event
    {
      PrefixMonotone(q, index + 1, |q|);
      sum := sum + q[index].gap;
      if q[index].event == event {
        target := Some(index);
        break;
      }
    }

    if target.None? {
      IndexOfUnique(Absolute(q), event, |q|);
      return q, None;
    }
    var index := target.value;
    PrefixMonotone(q, index + 1, |q|);
    var delta: U32 := q[index].gap;
    var rest := q[..index] + q[index + 1..];
    if index < |rest| {
      PrefixMonotone(q, index + 2, |q|);
      var merged: U32 := rest[index].gap + delta;  // cannot overflow: it is part of the total
      rest := rest[index := Entry(merged, rest[index].event)];
    }
    q' := rest;
    r := Some(sum);

    RemoveRefinesCancel(q, event, index, q');
  }

  /** The queue `Remove` builds stands for `Cancel` of the old schedule, and stays valid. */
  lemma RemoveRefinesCancel<T>(q: Queue<T>, event: T, j: nat, q': Queue<T>)
    requires Valid(q) && j < |q|
    requires forall i :: 0 <= i < j ==> q[i].event != event
    requires q[j].event == event
    requires j + 1 == |q| ==> q' == q[..j]
    requires j + 1 < |q| ==> q' == q[..j] + [Entry(q[j].gap + q[j + 1].gap, q[j + 1].event)] + q[j + 2..]
    ensures Valid(q')
    ensures (Absolute(q'), Some(Prefix(q, j + 1))) == Cancel(Absolute(q), event)
  {
    IndexOfUnique(Absolute(q), event, j);
    RemoveSchedule(q, j, q');
    ValidIffBounded(q);
    ValidIffBounded(q');
  }

  /** Dropping entry `j` and folding its gap into the next entry drops exactly its deadline. */
  lemma RemoveSchedule<T>(q: Queue<T>, j: nat, q': Queue<T>)
    requires j < |q|
    requires j + 1 == |q| ==> q' == q[..j]
    requires j + 1 < |q| ==> q' == q[..j] + [Entry(q[j].gap + q[j + 1].gap, q[j + 1].event)] + q[j + 2..]
    ensures Absolute(q') == Absolute(q)[..j] + Absolute(q)[j + 1..]
  {
    var a := Absolute(q);
    if j + 1 == |q| {
      assert q == q' + [q[j]];
      AbsoluteAppend(q', q[j]);
      assert a[..j] + a[j + 1..] == a[..j];
    } else {
      assert q == q'[..j] + [q[j], q[j + 1]] + q'[j + 1..];
      AbsoluteSplit(q', j, q[j], q[j + 1], q);
      var b := Absolute(q');
      assert a == b[..j] + [a[j]] + b[j..];
      assert b == a[..j] + a[j + 1..];
    }
  }

  /** Where `update(elapsed)` stops: the first entry whose deadline is at least `elapsed`. */
  function Boundary<T>(q: Queue<T>, elapsed: nat): nat {
    LeadingBelow(Absolute(q), elapsed)
  }

  /**
   The queue `update(elapsed)` leaves behind, as written: every entry up to and including
   the boundary loses the whole of `elapsed` (saturating), later entries are untouched.
   */
  function Updated<T>(q: Queue<T>, elapsed: nat): (r: Queue<T>)
    ensures |r| == |q|
    ensures forall i :: 0 <= i < |q| ==> r[i].event == q[i].event && r[i].gap <= q[i].gap
    ensures elapsed == 0 ==> r == q
  {
    var k := Boundary(q, elapsed);
    seq(|q|, i requires 0 <= i < |q| =>
      if i <= k then Entry(SatSub(q[i].gap, elapsed), q[i].event) else q[i])
  }

  /** Every entry due before `elapsed` is due now once `update(elapsed)` has run. */
  lemma UpdatedZeroesDue<T>(q: Queue<T>, elapsed: nat)
    ensures forall i :: 0 <= i < Boundary(q, elapsed) ==> Updated(q, elapsed)[i].gap == 0
  {
    forall i | 0 <= i < Boundary(q, elapsed)
      ensures Updated(q, elapsed)[i].gap == 0
    {
      PrefixMonotone(q, i, i + 1);
      assert q[i].gap <= Absolute(q)[i].deadline < elapsed;
    }
  }

  /** `update` never pushes the total beyond what it was, so it keeps `Valid`. */
  lemma UpdatedValid<T>(q: Queue<T>, elapsed: nat)
    ensures Total(Updated(q, elapsed)) <= Total(q)
    ensures Valid(q) ==> Valid(Updated(q, elapsed))
  {
    PrefixPointwise(Updated(q, elapsed), q, |q|);
  }

  /**
   Advances time by `elapsed`: walks from the front, saturating-subtracting `elapsed` from
   each gap and counting down what is left of `elapsed` by the original gaps, and stops
   once nothing is left.
   */
  method Update<T>(q: Queue<T>, elapsed: U32) returns (q': Queue<T>)
    requires Valid(q)
    ensures q' == Updated(q, elapsed)
    ensures Valid(q')
  {
    var remaining: U32 := elapsed;
    ghost var stopped := false;
    q' := q;
    for index := 0 to |q|
      invariant !stopped
      invariant |q'| == |q|
      invariant remaining == SatSub(elapsed, Prefix(q, index))
      invariant forall i :: 0 <= i < index ==> Absolute(q)[i].deadline < elapsed
      invariant forall i :: 0 <= i < index ==> q'[i] == Entry(SatSub(q[i].gap, elapsed), q[i].event)
      invariant forall i :: index <= i < |q| ==> q'[i] == q[i]
    {
      PrefixMonotone(q, index + 1, |q|);
      var temp: U32 := q'[index].gap;
      q' := q'[index := Entry(SatSub(temp, elapsed), q'[index].event)];
      remaining := SatSub(remaining, temp);
      if remaining == 0 {
        LeadingBelowUnique(Absolute(q), elapsed, index);
        UpdatedFrom(q, elapsed, index, q');
        stopped := true;
        break;
      }
    }
    if !stopped {
      LeadingBelowUnique(Absolute(q), elapsed, |q|);
      UpdatedFrom(q, elapsed, |q|, q');
    }
    UpdatedValid(q, elapsed);
  }

  /** A queue that agrees with `update(elapsed)` entry by entry is its result. */
  lemma UpdatedFrom<T>(q: Queue<T>, elapsed: nat, k: nat, q': Queue<T>)
    requires k == Boundary(q, elapsed) && |q'| == |q|
    requires forall i :: 0 <= i <= k && i < |q| ==> q'[i] == Entry(SatSub(q[i].gap, elapsed), q[i].event)
    requires forall i :: k < i < |q| ==> q'[i] == q[i]
    ensures q' == Updated(q, elapsed)
  {
    var r := Updated(q, elapsed);
    forall i | 0 <= i < |q|
      ensures q'[i] == r[i]
    {
    }
  }
}
