/**
 The timer's representation: a sequence of (gap, event) entries in which each gap is
 the time between the previous entry's deadline (or now, for the front entry) and this
 entry's deadline. The absolute deadline of entry `i` is the sum of the gaps `0..=i`.
 This module relates that encoding to the absolute schedules of `Schedule`.
 */
module DeltaList {
  import opened Units
  import opened Schedule

  /** One queued event together with its gap to the previous deadline. */
  datatype Entry<T> = Entry(gap: nat, event: T)

  /** The contents of a `PullTimer`: front entry first. */
  type Queue<T> = seq<Entry<T>>

  /** The sum of the first `n` gaps: the absolute deadline of entry `n - 1`. */
  function Prefix<T>(q: Queue<T>, n: nat): nat
    requires n <= |q|
  {
    if n == 0 then 0 else Prefix(q, n - 1) + q[n - 1].gap
  }

  /** The sum of all gaps: the deadline of the last entry. */
  function Total<T>(q: Queue<T>): nat {
    Prefix(q, |q|)
  }

  /** The representation invariant: every deadline, hence every partial sum, fits in a `u32`. */
  predicate Valid<T>(q: Queue<T>) {
    Total(q) <= U32_MAX
  }

  /** The absolute schedule a delta list stands for. */
  function Absolute<T>(q: Queue<T>): seq<Timed<T>> {
    seq(|q|, i requires 0 <= i < |q| => Timed(Prefix(q, i + 1), q[i].event))
  }

  /** The delta list that stands for a sorted absolute schedule. */
  function Relative<T>(a: seq<Timed<T>>): seq<Entry<T>>
    requires Sorted(a)
  {
    seq(|a|, i requires 0 <= i < |a| =>
      Entry(if i == 0 then a[0].deadline else a[i].deadline - a[i - 1].deadline, a[i].event))
  }

  /** Partial sums grow with the number of gaps summed. */
  lemma {:induction false} PrefixMonotone<T>(q: Queue<T>, m: nat, n: nat)
    requires m <= n <= |q|
    ensures Prefix(q, m) <= Prefix(q, n)
    decreases n
  {
    if m < n {
      PrefixMonotone(q, m, n - 1);
    }
  }

  /** Every delta list stands for a sorted schedule. */
  lemma AbsoluteSorted<T>(q: Queue<T>)
    ensures Sorted(Absolute(q))
  {
    var a := Absolute(q);
    forall i, j | 0 <= i <= j < |a|
      ensures a[i].deadline <= a[j].deadline
    {
      PrefixMonotone(q, i + 1, j + 1);
    }
  }

  /** `Valid` says exactly that every absolute deadline fits in a `u32`. */
  lemma ValidIffBounded<T>(q: Queue<T>)
    ensures Valid(q) <==> forall i :: 0 <= i < |q| ==> Absolute(q)[i].deadline <= U32_MAX
  {
    if 0 < |q| {
      forall i | 0 <= i < |q|
        ensures Absolute(q)[i].deadline <= Total(q)
      {
        PrefixMonotone(q, i + 1, |q|);
      }
      assert Absolute(q)[|q| - 1].deadline == Total(q);
    }
  }

  /** Summing the gaps of `Relative(a)` telescopes back to the deadlines of `a`. */
  lemma {:induction false} RelativePrefix<T>(a: seq<Timed<T>>, n: nat)
    requires Sorted(a)
    requires 0 < n <= |a|
    ensures Prefix(Relative(a), n) == a[n - 1].deadline
    decreases n
  {
    if 1 < n {
      RelativePrefix(a, n - 1);
    }
  }

  /** Encoding a sorted schedule as gaps and reading it back gives the schedule. */
  lemma {:induction false} AbsoluteOfRelative<T>(a: seq<Timed<T>>)
    requires Sorted(a)
    ensures Absolute(Relative(a)) == a
  {
    var q := Relative(a);
    forall i | 0 <= i < |a| {
      AbsoluteOfRelativeAt(a, q, i);
    }
  }

  /** Entry `i` of a sorted schedule survives encoding as gaps and reading back. */
  lemma AbsoluteOfRelativeAt<T>(a: seq<Timed<T>>, q: Queue<T>, i: nat)
    requires Sorted(a) && q == Relative(a)
    requires i < |a|
    ensures Absolute(q)[i] == a[i]
  {
    RelativePrefix(a, i + 1);
  }

  /** Reading a delta list as a schedule and encoding it again gives the delta list. */
  lemma RelativeOfAbsolute<T>(q: Queue<T>)
    ensures Sorted(Absolute(q)) && Relative(Absolute(q)) == q
  {
    AbsoluteSorted(q);
    var a := Absolute(q);
    forall i | 0 <= i < |q| {
      RelativeOfAbsoluteAt(q, a, i);
    }
  }

  /** Gap `i` of a delta list survives reading it as a schedule and encoding again. */
  lemma RelativeOfAbsoluteAt<T>(q: Queue<T>, a: seq<Timed<T>>, i: nat)
    requires a == Absolute(q) && Sorted(a)
    requires i < |q|
    ensures Relative(a)[i] == q[i]
  {
    var r := Relative(a);
    assert r[i].event == a[i].event == q[i].event;
    if 0 < i {
      assert a[i - 1].deadline == Prefix(q, i);
      assert a[i].deadline == Prefix(q, i) + q[i].gap;
      assert r[i].gap == a[i].deadline - a[i - 1].deadline;
    } else {
      assert a[0].deadline == Prefix(q, 1) == q[0].gap;
    }
  }

  /** A delta list is determined by the schedule it stands for. */
  lemma AbsoluteInjective<T>(q1: Queue<T>, q2: Queue<T>)
    requires Absolute(q1) == Absolute(q2)
    ensures q1 == q2
  {
    RelativeOfAbsolute(q1);
    RelativeOfAbsolute(q2);
  }

  /** Partial sums only depend on the gaps they cover. */
  lemma {:induction false} PrefixAgree<T>(x: Queue<T>, y: Queue<T>, n: nat)
    requires n <= |x| && n <= |y|
    requires forall i :: 0 <= i < n ==> x[i].gap == y[i].gap
    ensures Prefix(x, n) == Prefix(y, n)
    decreases n
  {
    if 0 < n {
      PrefixAgree(x, y, n - 1);
    }
  }

  /**
   Splitting entry `p` into two entries whose gaps add up to its gap leaves every
   other partial sum where it was, shifted by one position after the split.
   */
  lemma {:induction false} PrefixSplit<T>(q: Queue<T>, p: nat, x: Entry<T>, y: Entry<T>, q': Queue<T>, n: nat)
    requires p < |q| && x.gap + y.gap == q[p].gap
    requires q' == q[..p] + [x, y] + q[p + 1..]
    requires n <= |q| + 1
    ensures n <= p ==> Prefix(q', n) == Prefix(q, n)
    ensures n == p + 1 ==> Prefix(q', n) == Prefix(q, p) + x.gap
    ensures p + 1 < n ==> Prefix(q', n) == Prefix(q, n - 1)
    decreases n
  {
    if n == 0 {
    } else if n <= p + 1 {
      PrefixSplit(q, p, x, y, q', n - 1);
      assert q'[n - 1] == (if n <= p then q[n - 1] else x);
    } else if n == p + 2 {
      PrefixSplit(q, p, x, y, q', n - 1);
      assert q'[n - 1] == y;
    } else {
      PrefixSplit(q, p, x, y, q', n - 1);
      assert q'[n - 1] == q[n - 2];
    }
  }

  /**
   The schedule of a delta list in which entry `p` is split in two: the first half is
   new and due `x.gap` after the entries before it, the second half keeps entry `p`'s
   deadline, and every other entry keeps its deadline.
   */
  lemma AbsoluteSplit<T>(q: Queue<T>, p: nat, x: Entry<T>, y: Entry<T>, q': Queue<T>)
    requires p < |q| && x.gap + y.gap == q[p].gap && y.event == q[p].event
    requires q' == q[..p] + [x, y] + q[p + 1..]
    ensures Absolute(q')
         == Absolute(q)[..p] + [Timed(Prefix(q, p) + x.gap, x.event)] + Absolute(q)[p..]
  {
    forall i | 0 <= i < |q'| {
      AbsoluteSplitAt(q, p, x, y, q', i);
    }
  }

  /** Entry `i` of `AbsoluteSplit`: splitting gap `p` in two inserts one deadline there. */
  lemma AbsoluteSplitAt<T>(q: Queue<T>, p: nat, x: Entry<T>, y: Entry<T>, q': Queue<T>, i: nat)
    requires p < |q| && x.gap + y.gap == q[p].gap && y.event == q[p].event
    requires q' == q[..p] + [x, y] + q[p + 1..]
    requires i < |q'|
    ensures Absolute(q')[i]
         == (Absolute(q)[..p] + [Timed(Prefix(q, p) + x.gap, x.event)] + Absolute(q)[p..])[i]
  {
    PrefixSplit(q, p, x, y, q', i + 1);
  }

  /** Appending an entry extends the schedule by one entry due `x.gap` after the last one. */
  lemma AbsoluteAppend<T>(q: Queue<T>, x: Entry<T>)
    ensures Absolute(q + [x]) == Absolute(q) + [Timed(Total(q) + x.gap, x.event)]
  {
    var q' := q + [x];
    forall i | 0 <= i < |q'|
      ensures Absolute(q')[i] == (Absolute(q) + [Timed(Total(q) + x.gap, x.event)])[i]
    {
      PrefixAgree(q, q', if i < |q| then i + 1 else |q|);
    }
  }

  /** Dropping a front entry with gap 0 drops the front of the schedule and moves nothing else. */
  lemma {:induction false} PrefixDropDue<T>(q: Queue<T>, n: nat)
    requires 0 < |q| && q[0].gap == 0
    requires n < |q|
    ensures Prefix(q[1..], n) == Prefix(q, n + 1)
    decreases n
  {
    if 0 < n {
      PrefixDropDue(q, n - 1);
    }
  }

  /** Dropping a front entry that is due now drops the front of the schedule and moves nothing else. */
  lemma AbsoluteDropDue<T>(q: Queue<T>)
    requires 0 < |q| && q[0].gap == 0
    ensures Absolute(q[1..]) == Absolute(q)[1..]
  {
    forall i | 0 <= i < |q| - 1
      ensures Absolute(q[1..])[i] == Absolute(q)[i + 1]
    {
      PrefixDropDue(q, i + 1);
    }
  }

  /** Partial sums of pointwise smaller gaps are smaller. */
  lemma {:induction false} PrefixPointwise<T>(x: Queue<T>, y: Queue<T>, n: nat)
    requires n <= |x| && n <= |y|
    requires forall i :: 0 <= i < n ==> x[i].gap <= y[i].gap
    ensures Prefix(x, n) <= Prefix(y, n)
    decreases n
  {
    if 0 < n {
      PrefixPointwise(x, y, n - 1);
    }
  }

  /**
   Partial sums of a delta list whose gaps before entry `k` are all 0, whose entry `k`
   has gap `c` and whose later gaps are those of `q`.
   */
  lemma {:induction false} PrefixCut<T>(q: Queue<T>, q': Queue<T>, k: nat, c: nat, n: nat)
    requires |q'| == |q| && k <= |q| && n <= |q|
    requires forall i :: 0 <= i < k ==> q'[i].gap == 0
    requires k < |q| ==> q'[k].gap == c
    requires forall i :: k < i < |q| ==> q'[i].gap == q[i].gap
    ensures n <= k ==> Prefix(q', n) == 0
    ensures k < n ==> Prefix(q', n) == c + Prefix(q, n) - Prefix(q, k + 1)
    decreases n
  {
    if 0 < n {
      PrefixCut(q, q', k, c, n - 1);
    }
  }
}
