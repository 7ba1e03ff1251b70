/**
 The reference model of a timer queue: pending events with their ABSOLUTE deadlines,
 measured from now, earliest first. The delta-list timer is proved against these
 definitions; none of them knows about gaps.
 */
module Schedule {
  import opened Wrappers
  import opened Units

  /** One pending event and its absolute time-from-now. */
  datatype Timed<T> = Timed(deadline: nat, event: T)

  /** Deadlines never decrease from front to back. */
  predicate Sorted<T>(a: seq<Timed<T>>) {
    forall i, j :: 0 <= i <= j < |a| ==> a[i].deadline <= a[j].deadline
  }

  /** The length of the leading run of entries whose deadline is below `t`. */
  function LeadingBelow<T>(a: seq<Timed<T>>, t: nat): (k: nat)
    ensures k <= |a|
    ensures forall i :: 0 <= i < k ==> a[i].deadline < t
    ensures k < |a| ==> t <= a[k].deadline
  {
    if |a| == 0 || t <= a[0].deadline then 0 else 1 + LeadingBelow(a[1..], t)
  }

  /** The properties of `LeadingBelow` pin its value down. */
  lemma LeadingBelowUnique<T>(a: seq<Timed<T>>, t: nat, k: nat)
    requires k <= |a|
    requires forall i :: 0 <= i < k ==> a[i].deadline < t
    requires k < |a| ==> t <= a[k].deadline
    ensures k == LeadingBelow(a, t)
  {
  }

  /** Schedules `e` at `d`: after every entry due at or before `d`, before every later one. */
  function Insert<T>(a: seq<Timed<T>>, d: nat, e: T): seq<Timed<T>> {
    var p := LeadingBelow(a, d + 1);
    a[..p] + [Timed(d, e)] + a[p..]
  }

  /**
   On a sorted schedule the new entry goes exactly after the entries due no later
   than it (so equal deadlines fire first-in first-out) and the result stays sorted.
   */
  lemma InsertPlacement<T>(a: seq<Timed<T>>, d: nat, e: T)
    requires Sorted(a)
    ensures Insert(a, d, e)[LeadingBelow(a, d + 1)] == Timed(d, e)
    ensures forall i :: 0 <= i < |a| ==> (i < LeadingBelow(a, d + 1) <==> a[i].deadline <= d)
    ensures Sorted(Insert(a, d, e))
  {
    var p := LeadingBelow(a, d + 1);
    forall i | 0 <= i < |a|
      ensures i < p <==> a[i].deadline <= d
    {
      if p <= i {
        assert a[p].deadline <= a[i].deadline;
      }
    }
    InsertAtIndex(a, d, e, p);
    var r := Insert(a, d, e);
    forall i, j | 0 <= i <= j < |r|
      ensures r[i].deadline <= r[j].deadline
    {
      InsertAtIndex(a, d, e, i);
      InsertAtIndex(a, d, e, j);
      if i < p && p < j {
        assert a[i].deadline <= a[j - 1].deadline;
      }
    }
  }

  /** Entry `i` of `Insert(a, d, e)`: from `a`, the new entry, or from `a` one place back. */
  lemma InsertAtIndex<T>(a: seq<Timed<T>>, d: nat, e: T, i: nat)
    requires i <= |a|
    ensures Insert(a, d, e)[i]
         == if i < LeadingBelow(a, d + 1) then a[i]
            else if i == LeadingBelow(a, d + 1) then Timed(d, e)
            else a[i - 1]
  {
  }

  /** Where `Insert` puts an entry, given the first position due strictly after it. */
  lemma InsertAt<T>(a: seq<Timed<T>>, d: nat, e: T, p: nat)
    requires p <= |a|
    requires forall i :: 0 <= i < p ==> a[i].deadline <= d
    requires p < |a| ==> d < a[p].deadline
    ensures Insert(a, d, e) == a[..p] + [Timed(d, e)] + a[p..]
  {
    LeadingBelowUnique(a, d + 1, p);
  }

  /** Inserting an entry due within a bound keeps every deadline within it. */
  lemma InsertBounded<T>(a: seq<Timed<T>>, d: nat, e: T, bound: nat)
    requires forall i :: 0 <= i < |a| ==> a[i].deadline <= bound
    requires d <= bound
    ensures forall i :: 0 <= i < |Insert(a, d, e)| ==> Insert(a, d, e)[i].deadline <= bound
  {
    forall i | 0 <= i < |Insert(a, d, e)|
      ensures Insert(a, d, e)[i].deadline <= bound
    {
      InsertAtIndex(a, d, e, i);
    }
  }

  /** The index of the first entry carrying `e`, or `|a|` when there is none. */
  function IndexOf<T(==)>(a: seq<Timed<T>>, e: T): (j: nat)
    ensures j <= |a|
    ensures forall i :: 0 <= i < j ==> a[i].event != e
    ensures j < |a| ==> a[j].event == e
  {
    if |a| == 0 then 0
    else if a[0].event == e then 0
    else 1 + IndexOf(a[1..], e)
  }

  /** The properties of `IndexOf` pin its value down. */
  lemma IndexOfUnique<T>(a: seq<Timed<T>>, e: T, j: nat)
    requires j <= |a|
    requires forall i :: 0 <= i < j ==> a[i].event != e
    requires j < |a| ==> a[j].event == e
    ensures j == IndexOf(a, e)
  {
  }

  /**
   Cancels the first entry carrying `e`, answering its deadline; when no entry
   carries `e` the schedule is left alone and the answer is `None`.
   */
  function Cancel<T(==)>(a: seq<Timed<T>>, e: T): (r: (seq<Timed<T>>, Option<nat>))
    ensures r.1.None? <==> forall i :: 0 <= i < |a| ==> a[i].event != e
    ensures r.1.None? ==> r.0 == a
    ensures r.1.Some? ==>
              exists j :: && 0 <= j < |a| && a[j].event == e
                          && (forall i :: 0 <= i < j ==> a[i].event != e)
                          && r.1.value == a[j].deadline && r.0 == a[..j] + a[j + 1..]
    ensures Sorted(a) ==> Sorted(r.0)
  {
    var j := IndexOf(a, e);
    if j == |a| then (a, None)
    else
      var rest := a[..j] + a[j + 1..];
      assert forall i :: 0 <= i < |rest| ==> rest[i] == (if i < j then a[i] else a[i + 1]);
      (rest, Some(a[j].deadline))
  }

  /** Fires the front entry if it is due now (deadline 0); otherwise nothing happens. */
  function Fire<T>(a: seq<Timed<T>>): (r: (seq<Timed<T>>, Option<T>))
    ensures Sorted(a) ==> (r.1.Some? <==> exists i :: 0 <= i < |a| && a[i].deadline == 0)
    ensures r.1.None? ==> r.0 == a
  {
    if |a| > 0 && a[0].deadline == 0 then (a[1..], Some(a[0].event)) else (a, None)
  }

  /** Lets `elapsed` time pass: every deadline comes `elapsed` closer, stopping at zero. */
  function Advance<T>(a: seq<Timed<T>>, elapsed: nat): (r: seq<Timed<T>>)
    ensures Sorted(a) ==> Sorted(r)
  {
    seq(|a|, i requires 0 <= i < |a| => Timed(SatSub(a[i].deadline, elapsed), a[i].event))
  }
}
