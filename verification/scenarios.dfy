/**
 The scenarios of the unit tests in src/lib.rs, restated and proved on the model. Each method
 drives the timer the way its test does and promises, in its `ensures`, the results
 the test asserts.
 */
module Scenarios {
  import opened Wrappers
  import opened Units
  import opened Schedule
  import opened DeltaList
  import opened PullTimer
  import opened UpdateFinding

  /** Two events scheduled for now are polled in the order they were added. */
  method TimerPreservesFifoOrder() returns (polled: seq<Option<string>>)
    ensures polled == [Some("testing"), Some("one two three"), None]
  {
    var q := New();
    q := AddKnown(q, 0, "testing", [], 0);
    q := AddKnown(q, 0, "one two three", [Timed(0, "testing")], 1);
    assert Absolute(q) == [Timed(0, "testing"), Timed(0, "one two three")];

    var r1 := Poll(q);
    var r2 := Poll(r1.0);
    assert Absolute(r1.0) == [Timed(0, "one two three")];
    var r3 := Poll(r2.0);
    assert Absolute(r2.0) == [];
    polled := [r1.1, r2.1, r3.1];
  }

  /** The additions of the in-order test, latest deadline first; each goes to the front. */
  method AddLatestFirst() returns (q: Queue<string>)
    ensures Valid(q)
    ensures Absolute(q) == [Timed(1, "this"), Timed(2, "is"), Timed(3, "a"), Timed(4, "test")]
  {
    q := New();
    q := AddKnown(q, 4, "test", [], 0);
    q := AddKnown(q, 3, "a", [Timed(4, "test")], 0);
    q := AddKnown(q, 2, "is", [Timed(3, "a"), Timed(4, "test")], 0);
    q := AddKnown(q, 1, "this", [Timed(2, "is"), Timed(3, "a"), Timed(4, "test")], 0);
  }

  /** Events added latest-first fire earliest-first once enough time has passed. */
  method TimerFiresInOrder() returns (polled: seq<Option<string>>)
    ensures polled == [Some("this"), Some("is"), Some("a"), Some("test"), None]
  {
    var q := AddLatestFirst();
    var a := [Timed(1, "this"), Timed(2, "is"), Timed(3, "a"), Timed(4, "test")];

    q := UpdateKnown(q, 4, a, 3);
    assert Advance(a, 4) == [Timed(0, "this"), Timed(0, "is"), Timed(0, "a"), Timed(0, "test")];

    var r1 := Poll(q);
    assert Absolute(r1.0) == [Timed(0, "is"), Timed(0, "a"), Timed(0, "test")];
    var r2 := Poll(r1.0);
    assert Absolute(r2.0) == [Timed(0, "a"), Timed(0, "test")];
    var r3 := Poll(r2.0);
    assert Absolute(r3.0) == [Timed(0, "test")];
    var r4 := Poll(r3.0);
    assert Absolute(r4.0) == [];
    var r5 := Poll(r4.0);
    polled := [r1.1, r2.1, r3.1, r4.1, r5.1];
  }

  /**
   `Update` where the test already knows the schedule and where the scan stops, in a
   case where the code as written is exact: every deadline comes `elapsed` closer.
   */
  method UpdateKnown<T>(q: Queue<T>, elapsed: U32, ghost a: seq<Timed<T>>, ghost k: nat) returns (q': Queue<T>)
    requires Valid(q) && Absolute(q) == a && k <= |a|
    requires forall i :: 0 <= i < k ==> a[i].deadline < elapsed
    requires k < |a| ==> elapsed <= a[k].deadline
    requires k == |a| || k == 0 || a[k - 1].deadline == 0 || a[k].deadline == elapsed
    ensures Valid(q') && Absolute(q') == Advance(a, elapsed)
  {
    q' := Update(q, elapsed);
    LeadingBelowUnique(a, elapsed, k);
    if 0 < k {
      assert a[k - 1].deadline == Prefix(q, k);
    }
    if k < |a| {
      assert a[k].deadline == Prefix(q, k + 1);
    }
    UpdateExactIff(q, elapsed, k);
  }

  /** Deadlines strictly increase along `vals`. */
  predicate Increasing(vals: seq<nat>) {
    forall i, j :: 0 <= i < j < |vals| ==> vals[i] < vals[j]
  }

  /**
   The schedule `i` time units after scheduling each value `v` of `vals` at deadline `v`,
   once the first `j` of them have fired.
   */
  function Countdown(vals: seq<nat>, j: nat, i: nat): seq<Timed<nat>>
    requires j <= |vals|
  {
    seq(|vals| - j, m requires 0 <= m < |vals| - j => Timed(SatSub(vals[j + m], i), vals[j + m]))
  }

  /** Firing at step `i`: the next value fires exactly when its deadline is `i`. */
  lemma FireCountdown(vals: seq<nat>, j: nat, i: nat)
    requires j <= |vals|
    requires j < |vals| ==> i <= vals[j]
    ensures Fire(Countdown(vals, j, i))
         == if j < |vals| && vals[j] == i then (Countdown(vals, j + 1, i), Some(vals[j]))
            else (Countdown(vals, j, i), None)
  {
    var c := Countdown(vals, j, i);
    if j < |vals| && vals[j] == i {
      var d := Countdown(vals, j + 1, i);
      forall m | 0 <= m < |d|
        ensures c[1..][m] == d[m]
      {
        assert c[1..][m] == c[m + 1];
      }
      assert c[1..] == d;
      assert c[0] == Timed(SatSub(vals[j], i), vals[j]);
    } else if j < |vals| {
      assert c[0] == Timed(SatSub(vals[j], i), vals[j]);
      assert SatSub(vals[j], i) != 0;
    }
  }

  /** One time unit later every countdown is one lower. */
  lemma AdvanceCountdown(vals: seq<nat>, j: nat, i: nat)
    requires j <= |vals|
    ensures Advance(Countdown(vals, j, i), 1) == Countdown(vals, j, i + 1)
  {
    var c := Countdown(vals, j, i);
    var d := Countdown(vals, j, i + 1);
    forall m | 0 <= m < |c|
      ensures Advance(c, 1)[m] == d[m]
    {
      assert SatSub(SatSub(vals[j + m], i), 1) == SatSub(vals[j + m], i + 1);
    }
  }

  /**
   One step of the test loop: poll, then let one time unit pass. At step `i` the
   value due at `i`, if any, fires, and every other countdown drops by one.
   */
  method Tick(q: Queue<nat>, vals: seq<nat>, j: nat, i: nat) returns (q': Queue<nat>, f: Option<nat>)
    requires Valid(q) && Increasing(vals) && j <= |vals|
    requires j < |vals| ==> i <= vals[j]
    requires Absolute(q) == Countdown(vals, j, i)
    ensures Valid(q')
    ensures f.Some? <==> j < |vals| && vals[j] == i
    ensures f.Some? ==> f.value == vals[j]
    ensures Absolute(q') == Countdown(vals, if f.Some? then j + 1 else j, i + 1)
    ensures f.Some? && j + 1 < |vals| ==> i + 1 <= vals[j + 1]
    ensures f.None? && j < |vals| ==> i + 1 <= vals[j]
  {
    FireCountdown(vals, j, i);
    var polled := Poll(q);
    f := polled.1;
    q' := Update(polled.0, 1);
    UpdateByOneIsExact(polled.0, 1);
    AdvanceCountdown(vals, if f.Some? then j + 1 else j, i);
    if f.Some? && j + 1 < |vals| {
      assert vals[j] < vals[j + 1];
    }
  }

  /**
   Polling and then advancing by one unit, `steps` times over, fires every scheduled
   value exactly at the step equal to its deadline, and never earlier, when the
   deadlines are strictly increasing and all come before the last step. (Values due
   at the same step would come out one per step, since each step polls once.)
   */
  method TickAndPoll(q0: Queue<nat>, vals: seq<nat>, steps: nat) returns (fired: seq<(nat, nat)>)
    requires Valid(q0) && Increasing(vals)
    requires Absolute(q0) == Countdown(vals, 0, 0)
    requires forall m :: 0 <= m < |vals| ==> vals[m] < steps
    ensures |fired| == |vals|
    ensures forall m :: 0 <= m < |vals| ==> fired[m] == (vals[m], vals[m])
  {
    var q := q0;
    var j: nat := 0;
    fired := [];
    for i := 0 to steps
      invariant Valid(q) && j <= |vals|
      invariant j < |vals| ==> i <= vals[j]
      invariant Absolute(q) == Countdown(vals, j, i)
      invariant |fired| == j
      invariant forall m :: 0 <= m < j ==> fired[m] == (vals[m], vals[m])
    {
      q, j, fired := Step(q, vals, j, i, fired);
    }
  }

  /** One step of `TickAndPoll`, recording the value that fires, if any, with its step. */
  method Step(q: Queue<nat>, vals: seq<nat>, j: nat, i: nat, fired: seq<(nat, nat)>)
    returns (q': Queue<nat>, j': nat, fired': seq<(nat, nat)>)
    requires Valid(q) && Increasing(vals) && j <= |vals|
    requires j < |vals| ==> i <= vals[j]
    requires Absolute(q) == Countdown(vals, j, i)
    requires |fired| == j
    requires forall m :: 0 <= m < j ==> fired[m] == (vals[m], vals[m])
    ensures Valid(q') && j' <= |vals|
    ensures j' < |vals| ==> i + 1 <= vals[j']
    ensures Absolute(q') == Countdown(vals, j', i + 1)
    ensures |fired'| == j'
    ensures forall m :: 0 <= m < j' ==> fired'[m] == (vals[m], vals[m])
  {
    var f;
    q', f := Tick(q, vals, j, i);
    if f.Some? {
      fired' := fired + [(i, f.value)];
      j' := j + 1;
    } else {
      fired' := fired;
      j' := j;
    }
  }

  /** Before any time passes, each value counts down from its own deadline. */
  lemma CountdownStart(vals: seq<nat>)
    ensures Countdown(vals, 0, 0) == seq(|vals|, m requires 0 <= m < |vals| => Timed(vals[m], vals[m]))
  {
    forall m | 0 <= m < |vals|
      ensures Countdown(vals, 0, 0)[m] == Timed(vals[m], vals[m])
    {
      assert SatSub(vals[m], 0) == vals[m];
    }
  }

  /**
   `Add` where the test already knows the schedule and the insertion point: the new
   entry lands right after the entries due no later than it.
   */
  method AddKnown<T>(q: Queue<T>, d: U32, e: T, ghost a: seq<Timed<T>>, ghost p: nat) returns (q': Queue<T>)
    requires Valid(q) && Absolute(q) == a && p <= |a|
    requires forall i :: 0 <= i < p ==> a[i].deadline <= d
    requires p < |a| ==> d < a[p].deadline
    ensures Valid(q') && Absolute(q') == a[..p] + [Timed(d, e)] + a[p..]
  {
    q' := Add(q, d, e);
    InsertAt(a, d, e, p);
  }

  /**
   `Remove` where the test already knows the schedule and where the first match sits:
   that entry goes and its deadline comes back.
   */
  method RemoveKnown<T(==)>(q: Queue<T>, e: T, ghost a: seq<Timed<T>>, ghost j: nat) returns (q': Queue<T>, r: Option<nat>)
    requires Valid(q) && Absolute(q) == a && j < |a| && a[j].event == e
    requires forall i :: 0 <= i < j ==> a[i].event != e
    ensures Valid(q') && Absolute(q') == a[..j] + a[j + 1..] && r == Some(a[j].deadline)
  {
    q', r := Remove(q, e);
    IndexOfUnique(a, e, j);
  }

  /** The additions of the exact-time test, out of order; they line up by deadline. */
  method AddOutOfOrder() returns (q: Queue<nat>)
    ensures Valid(q)
    ensures Absolute(q) == [Timed(0, 0), Timed(10, 10), Timed(20, 20), Timed(30, 30), Timed(40, 40)]
  {
    q := New();
    q := AddKnown(q, 40, 40, [], 0);
    q := AddKnown(q, 20, 20, [Timed(40, 40)], 0);
    q := AddKnown(q, 0, 0, [Timed(20, 20), Timed(40, 40)], 0);
    q := AddKnown(q, 30, 30, [Timed(0, 0), Timed(20, 20), Timed(40, 40)], 2);
    q := AddKnown(q, 10, 10, [Timed(0, 0), Timed(20, 20), Timed(30, 30), Timed(40, 40)], 1);
  }

  /** Five events scheduled out of order each fire exactly when their deadline comes. */
  method TimerFiresInTime() returns (fired: seq<(nat, nat)>)
    ensures fired == [(0, 0), (10, 10), (20, 20), (30, 30), (40, 40)]
  {
    var q := AddOutOfOrder();
    var vals := [0, 10, 20, 30, 40];
    assert Absolute(q) == Countdown(vals, 0, 0) by {
      CountdownStart(vals);
    }
    fired := TickAndPoll(q, vals, 42);
  }

  /** `NextIn` always reports the time until the earliest pending event. */
  method TimerNextIn() returns (nextIns: seq<Option<nat>>, polled: seq<Option<string>>)
    ensures nextIns == [Some(0), Some(10), Some(0), Some(7)]
    ensures polled == [Some("hi"), Some("there")]
  {
    var q := New();
    q := AddKnown(q, 0, "hi", [], 0);
    q := AddKnown(q, 20, "!", [Timed(0, "hi")], 1);
    q := AddKnown(q, 10, "there", [Timed(0, "hi"), Timed(20, "!")], 1);
    assert Absolute(q) == [Timed(0, "hi"), Timed(10, "there"), Timed(20, "!")];
    var n1 := NextIn(q);
    var r1 := Poll(q);
    q := r1.0;
    assert Absolute(q) == [Timed(10, "there"), Timed(20, "!")];
    var n2 := NextIn(q);

    var before := q;
    q := Update(q, 10);
    UpdateExactWithinFrontGap(before, 10);
    assert Absolute(q) == [Timed(0, "there"), Timed(10, "!")];
    var n3 := NextIn(q);
    var r2 := Poll(q);
    q := r2.0;
    assert Absolute(q) == [Timed(10, "!")];

    before := q;
    q := Update(q, 3);
    UpdateExactWithinFrontGap(before, 3);
    assert Absolute(q) == [Timed(7, "!")];
    var n4 := NextIn(q);
    nextIns := [n1, n2, n3, n4];
    polled := [r1.1, r2.1];
  }

  /** Cancelling an event reports how long it still had to go and leaves nothing behind. */
  method TimerRemove() returns (removed: Option<nat>, next: Option<nat>)
    ensures removed == Some(50) && next == None
  {
    var q := New();
    q := AddKnown(q, 100, "boom!", [], 0);
    assert Absolute(q) == [Timed(100, "boom!")];
    var before := q;
    q := Update(q, 50);
    UpdateExactWithinFrontGap(before, 50);
    assert Absolute(q) == [Timed(50, "boom!")];
    q, removed := Remove(q, "boom!");
    assert IndexOf([Timed(50, "boom!")], "boom!") == 0;
    next := NextIn(q);
  }

  /** The additions and the two cancellations of the remove-then-fire test. */
  method AddFiveRemoveTwo() returns (q: Queue<nat>, removed: seq<Option<nat>>)
    ensures Valid(q)
    ensures Absolute(q) == [Timed(20, 20), Timed(30, 30), Timed(40, 40)]
    ensures removed == [Some(50), Some(10)]
  {
    q := New();
    q := AddKnown(q, 30, 30, [], 0);
    q := AddKnown(q, 20, 20, [Timed(30, 30)], 0);
    q := AddKnown(q, 40, 40, [Timed(20, 20), Timed(30, 30)], 2);
    q := AddKnown(q, 10, 10, [Timed(20, 20), Timed(30, 30), Timed(40, 40)], 0);
    q := AddKnown(q, 50, 50, [Timed(10, 10), Timed(20, 20), Timed(30, 30), Timed(40, 40)], 4);
    var a := [Timed(10, 10), Timed(20, 20), Timed(30, 30), Timed(40, 40), Timed(50, 50)];
    var r1, r2;
    q, r1 := RemoveKnown(q, 50, a, 4);
    q, r2 := RemoveKnown(q, 10, a[..4], 0);
    removed := [r1, r2];
  }

  /** Cancelling events leaves the others to fire exactly at their original deadlines. */
  method TimerFiresAfterRemove() returns (removed: seq<Option<nat>>, fired: seq<(nat, nat)>)
    ensures removed == [Some(50), Some(10)]
    ensures fired == [(20, 20), (30, 30), (40, 40)]
  {
    var q;
    q, removed := AddFiveRemoveTwo();
    var vals := [20, 30, 40];
    assert Absolute(q) == Countdown(vals, 0, 0) by {
      CountdownStart(vals);
    }
    fired := TickAndPoll(q, vals, 42);
  }
}
