/**
 `update(elapsed)` in src/lib.rs subtracts the whole of `elapsed` from every entry it
 visits, although after the first visited entries only `remaining` of it is still
 unaccounted for. Entries before the boundary entry are zeroed either way, but the
 boundary entry's gap drops by `elapsed` instead of `remaining`, so its deadline, and
 every deadline after it, ends up earlier than `elapsed` time later.

 This module characterises exactly when the code as written (`PullTimer.Updated`)
 advances every deadline by `elapsed`, exhibits an input where it does not, and
 proves that the evidently intended version (`UpdateIntended`) always does.
 */
module UpdateFinding {
  import opened Units
  import opened Schedule
  import opened DeltaList
  import opened PullTimer

  /**
   The code as written lets exactly `elapsed` time pass for every entry if and only if
   the scan runs off the end, or nothing before the boundary entry had any gap left, or
   the boundary entry is due exactly at `elapsed`.
   */
  lemma UpdateExactIff<T>(q: Queue<T>, elapsed: nat, k: nat)
    requires k == Boundary(q, elapsed)
    ensures Absolute(Updated(q, elapsed)) == Advance(Absolute(q), elapsed)
            <==> (k == |q| || Prefix(q, k) == 0 || Prefix(q, k + 1) == elapsed)
  {
    var r := Updated(q, elapsed);
    var a := Absolute(q);
    if k < |q| {
      UpdatedDeadline(q, elapsed, k, k);
      BoundaryEntry(q, elapsed, k);
      if Prefix(q, k) == 0 || Prefix(q, k + 1) == elapsed {
        forall i | 0 <= i < |q|
          ensures Absolute(r)[i] == Advance(a, elapsed)[i]
        {
          UpdatedDeadline(q, elapsed, k, i);
          if k < i {
            PrefixMonotone(q, k + 1, i + 1);
          }
        }
        assert Absolute(r) == Advance(a, elapsed);
      } else {
        assert Absolute(r)[k].deadline != Advance(a, elapsed)[k].deadline;
      }
    } else {
      forall i | 0 <= i < |q|
        ensures Absolute(r)[i] == Advance(a, elapsed)[i]
      {
        UpdatedDeadline(q, elapsed, k, i);
      }
      assert Absolute(r) == Advance(a, elapsed);
    }
  }

  /** Where the boundary entry sits: everything before it is due before `elapsed`, it is not. */
  lemma BoundaryEntry<T>(q: Queue<T>, elapsed: nat, k: nat)
    requires k == Boundary(q, elapsed) && k < |q|
    ensures 0 < k ==> Prefix(q, k) < elapsed
    ensures elapsed <= Prefix(q, k + 1) == Prefix(q, k) + q[k].gap
  {
    var a := Absolute(q);
    assert a[k].deadline == Prefix(q, k + 1);
    if 0 < k {
      assert a[k - 1].deadline == Prefix(q, k);
    }
  }

  /** The absolute deadline of entry `i` after the code as written has run. */
  lemma UpdatedDeadline<T>(q: Queue<T>, elapsed: nat, k: nat, i: nat)
    requires k == Boundary(q, elapsed) && i < |q|
    ensures i < k ==> Absolute(Updated(q, elapsed))[i].deadline == 0
    ensures i < k ==> Absolute(q)[i].deadline < elapsed
    ensures k <= i ==> Absolute(Updated(q, elapsed))[i].deadline
                       == SatSub(q[k].gap, elapsed) + Prefix(q, i + 1) - Prefix(q, k + 1)
  {
    var r := Updated(q, elapsed);
    UpdatedPrefix(q, elapsed, k, i + 1);
    assert Absolute(r)[i].deadline == Prefix(r, i + 1);
    if i < k {
      assert Absolute(q)[i].deadline < elapsed;
    }
  }

  /** The partial sums of the queue the code as written leaves behind. */
  lemma UpdatedPrefix<T>(q: Queue<T>, elapsed: nat, k: nat, n: nat)
    requires k == Boundary(q, elapsed) && n <= |q|
    ensures n <= k ==> Prefix(Updated(q, elapsed), n) == 0
    ensures k < n ==> Prefix(Updated(q, elapsed), n)
                      == SatSub(q[k].gap, elapsed) + Prefix(q, n) - Prefix(q, k + 1)
  {
    var r := Updated(q, elapsed);
    var c := if k < |q| then SatSub(q[k].gap, elapsed) else 0;
    UpdatedZeroesDue(q, elapsed);
    assert k < |q| ==> r[k].gap == c;
    assert forall j :: k < j < |q| ==> r[j].gap == q[j].gap;
    PrefixCut(q, r, k, c, n);
  }

  /**
   When `elapsed` does not exceed the time until the earliest event, every deadline
   drops by exactly `elapsed`.
   */
  lemma UpdateExactWithinFrontGap<T>(q: Queue<T>, elapsed: nat)
    requires |q| == 0 || elapsed <= Absolute(q)[0].deadline
    ensures Absolute(Updated(q, elapsed)) == Advance(Absolute(q), elapsed)
  {
    UpdateExactIff(q, elapsed, Boundary(q, elapsed));
    if 0 < |q| {
      assert Absolute(q)[0].deadline == Prefix(q, 1) == q[0].gap;
    }
  }

  /** Advancing by a single time unit (or none) is always exact. */
  lemma UpdateByOneIsExact<T>(q: Queue<T>, elapsed: nat)
    requires elapsed <= 1
    ensures Absolute(Updated(q, elapsed)) == Advance(Absolute(q), elapsed)
  {
    var k := Boundary(q, elapsed);
    UpdateExactIff(q, elapsed, k);
    if 0 < k {
      assert Absolute(q)[k - 1].deadline == Prefix(q, k) < elapsed;
    }
  }

  /**
   Gaps 3 and 5 (deadlines 3 and 8) advanced by 4: the code leaves gaps 0 and 1, so the
   second event is due in 1 instead of 4.
   */
  lemma UpdateOverReduces()
    ensures Updated([Entry(3, 'a'), Entry(5, 'b')], 4) == [Entry(0, 'a'), Entry(1, 'b')]
    ensures Absolute([Entry(0, 'a'), Entry(1, 'b')]) == [Timed(0, 'a'), Timed(1, 'b')]
    ensures Advance(Absolute([Entry(3, 'a'), Entry(5, 'b')]), 4) == [Timed(0, 'a'), Timed(4, 'b')]
  {
    var q := [Entry(3, 'a'), Entry(5, 'b')];
    assert Prefix(q, 1) == 3 && Prefix(q, 2) == 8;
    assert Absolute(q) == [Timed(3, 'a'), Timed(8, 'b')];
    assert LeadingBelow(Absolute(q)[1..], 4) == 0;
    assert Boundary(q, 4) == 1;
    var r := Updated(q, 4);
    assert r == [Entry(0, 'a'), Entry(1, 'b')];
    assert Prefix(r, 1) == 0 && Prefix(r, 2) == 1;
  }

  /**
   `update` as evidently intended: each visited gap absorbs only what is still left of
   `elapsed`. Every absolute deadline then comes exactly `elapsed` closer, saturating at 0.
   */
  method UpdateIntended<T>(q: Queue<T>, elapsed: U32) returns (q': Queue<T>)
    requires Valid(q)
    ensures Valid(q')
    ensures Absolute(q') == Advance(Absolute(q), elapsed)
  {
    var remaining: U32 := elapsed;
    ghost var stopped := false;
    ghost var k := |q|;
    q' := q;
    for index := 0 to |q|
      invariant !stopped
      invariant |q'| == |q|
      invariant remaining == SatSub(elapsed, Prefix(q, index))
      invariant forall i :: 0 <= i < index ==> Absolute(q)[i].deadline < elapsed
      invariant forall i :: 0 <= i < index ==> q'[i] == Entry(0, q[i].event)
      invariant forall i :: index <= i < |q| ==> q'[i] == q[i]
    {
      var temp := q'[index].gap;
      assert Absolute(q)[index].deadline == Prefix(q, index) + temp;
      if 0 < index {
        assert Absolute(q)[index - 1].deadline == Prefix(q, index) < elapsed;
      }
      q' := q'[index := Entry(SatSub(temp, remaining), q'[index].event)];
      remaining := SatSub(remaining, temp);
      if remaining == 0 {
        assert q'[index].gap == Prefix(q, index + 1) - elapsed;
        stopped := true;
        k := index;
        break;
      }
    }
    IntendedAdvances(q, elapsed, k, q');
  }

  /** The shape `UpdateIntended` leaves behind stands for `Advance`, and stays valid. */
  lemma {:induction false} IntendedAdvances<T>(q: Queue<T>, elapsed: nat, k: nat, q': Queue<T>)
    requires |q'| == |q| && k <= |q|
    requires forall i :: 0 <= i < k ==> Absolute(q)[i].deadline < elapsed
    requires forall i :: 0 <= i < k ==> q'[i] == Entry(0, q[i].event)
    requires k < |q| ==> elapsed <= Prefix(q, k + 1)
    requires k < |q| ==> q'[k] == Entry(Prefix(q, k + 1) - elapsed, q[k].event)
    requires forall i :: k < i < |q| ==> q'[i] == q[i]
    ensures Absolute(q') == Advance(Absolute(q), elapsed)
    ensures Valid(q) ==> Valid(q')
  {
    if 0 < k {
      assert Absolute(q)[k - 1].deadline == Prefix(q, k);
    }
    forall i | 0 <= i < |q|
      ensures Absolute(q')[i] == Advance(Absolute(q), elapsed)[i]
    {
      IntendedAdvancesAt(q, elapsed, k, q', i);
    }
    assert Absolute(q') == Advance(Absolute(q), elapsed);
    ValidIffBounded(q);
    ValidIffBounded(q');
  }

  /** Entry `i` of `IntendedAdvances`: the corrected loop's entry `i` reads as the advanced deadline `i`. */
  lemma IntendedAdvancesAt<T>(q: Queue<T>, elapsed: nat, k: nat, q': Queue<T>, i: nat)
    requires |q'| == |q| && k <= |q| && i < |q|
    requires 0 < k ==> Prefix(q, k) < elapsed
    requires forall j :: 0 <= j < k ==> q'[j] == Entry(0, q[j].event)
    requires k < |q| ==> elapsed <= Prefix(q, k + 1)
    requires k < |q| ==> q'[k] == Entry(Prefix(q, k + 1) - elapsed, q[k].event)
    requires forall j :: k < j < |q| ==> q'[j] == q[j]
    ensures Absolute(q')[i] == Advance(Absolute(q), elapsed)[i]
  {
    var c := if k < |q| then Prefix(q, k + 1) - elapsed else 0;
    PrefixCut(q, q', k, c, i + 1);
    if i < k {
      PrefixMonotone(q, i + 1, k);
    } else if k < i {
      PrefixMonotone(q, k + 1, i + 1);
    }
  }
}
