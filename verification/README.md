# pull-timer in Dafny

A model of `PullTimer<T>` from the Rust crate `pull-timer`. `PullTimer<T>` is a timer queue for a caller that drives time itself:
- it reports elapsed time with `update`;
- it schedules events with `add`;
- it cancels them with `remove`;
- it drains due events with `poll`;
- it asks how long until the next one with `next_in`.

The queue is a *delta list*. Each entry holds the time between the previous entry's deadline (or now, for the front entry) and its own. The absolute time-from-now of entry `i` is therefore the sum of the gaps `0..=i`.

The project has seven modules, each building on the ones before:

- `Units`: the `u32` range, as the subset type `U32`, and saturating subtraction.
- `Wrappers`: `Option`.
- `Schedule`: a reference model that knows nothing about gaps. It is a sequence of `(deadline, event)` pairs with absolute deadlines, earliest first. It defines `Insert` (after every entry due no later), `Cancel` (first match), `Fire` (front entry if due at 0) and `Advance` (every deadline `elapsed` closer, saturating).
- `DeltaList`: the gap encoding.
  - `Absolute` reads a delta list as a schedule and `Relative` encodes a sorted schedule as a delta list. The two are proved inverse to each other.
  - `Valid` is the representation invariant: all deadlines fit in a `u32`.
  - It also holds the partial-sum lemmas the operations need.
- `PullTimer`: the operations.
  - `add`, `remove` and `update` are methods whose loops follow the Rust loops step by step. Their running sums, gaps and intermediate results are locals typed `U32`. Dafny checks every assignment to them against the `u32` range, so each `u32` addition and subtraction in those loops is proved, inside the method bodies, free of overflow and underflow.
  - `new`, `next_in` and `poll` are functions.
  - `Add`, `Remove`, `Poll` and `NextIn` are proved to act on `Absolute(q)` exactly as `Insert`, `Cancel`, `Fire` and the front deadline do. Each of them keeps `Valid`.
- `UpdateFinding`: `update` as written, compared with `Advance`.
  - It gives an exact characterisation of when the two agree, and a counterexample.
  - It includes the evidently intended `update`, proved to refine `Advance`.
- `Scenarios`: the six unit tests of `src/lib.rs`, restated and proved on the model.
  - Each scenario's `ensures` states the values the test asserts.
  - The two tick-by-one loops are proved once, in general, by `TickAndPoll`: when time advances one unit per step and the timer is polled once at each step, every event fires exactly at the step equal to its deadline, provided the deadlines are strictly increasing and all come before the last step. Events with equal deadlines would instead come out one per step, in insertion order, because each step polls only once.

Rust's `u32` arguments are `U32` (a `nat` at most `0xFFFF_FFFF`). Gaps are `nat`, and `Valid` bounds their total. Results such as `next_in` and the deadline returned by `remove` are `nat`; `Valid` keeps them within `u32`.

## Model

| member | source | states |
|---|---|---|
| PullTimer.New | src/lib.rs:7-9 | a new timer has nothing scheduled |
| PullTimer.NextIn | src/lib.rs:11-13 | `None` exactly when nothing is scheduled; otherwise the time until the front event, which is the earliest of all deadlines |
| PullTimer.Poll | src/lib.rs:74-82 | acts on the absolute schedule as `Fire`: the front event comes out only when it is due now, and otherwise (including on an empty timer) the queue is unchanged; validity is kept |
| PullTimer.Add | src/lib.rs:28-47 | `add(deadline, event)` turns the schedule into `Insert(schedule, deadline, event)` and keeps validity (the body, through its `U32` locals, also shows that the running sum never overflows and `deadline - sum` never underflows) |
| PullTimer.AddRefinesInsert | src/lib.rs:40-46 | splicing in an entry with gap `deadline - sum` and shortening the next gap by that much is `Insert` of the old schedule, and keeps every deadline within `u32` |
| PullTimer.AddSchedule | src/lib.rs:42-46 | the new entry lands at the insertion point with absolute deadline `deadline`; all other deadlines are unchanged |
| Schedule.InsertPlacement | src/lib.rs:32-38 | on a sorted schedule the new entry goes after exactly the entries due no later than it, so equal deadlines fire in insertion order, and the result stays sorted |
| Schedule.InsertBounded | src/lib.rs:46 | inserting an entry within a bound keeps every deadline within it |
| PullTimer.Remove | src/lib.rs:49-72 | `remove(event)` acts on the schedule as `Cancel`: the first matching entry goes and its time-from-now comes back, or nothing changes and the answer is `None`; validity is kept (the body, through its `U32` locals, also shows that `sum + delta` and `next_delta + delta` never overflow) |
| PullTimer.RemoveRefinesCancel | src/lib.rs:64-71 | dropping the first match and folding its gap into the next entry is `Cancel` of the old schedule, answering the prefix sum up to the match |
| PullTimer.RemoveSchedule | src/lib.rs:65-69 | removing entry `j` and adding its gap to the next one removes exactly that deadline and leaves all others where they were |
| Schedule.Cancel | src/lib.rs:56-64 | the answer is `None` exactly when no entry matches, and then the schedule is unchanged; otherwise the first match is removed, its deadline is returned, and sortedness is kept |
| Schedule.Fire | src/lib.rs:75-81 | on a sorted schedule an event fires exactly when some deadline is 0; when none fires nothing changes |
| PullTimer.Update | src/lib.rs:15-26 | the loop with its early exit computes `Updated`: gaps up to and including the first entry due at or after `elapsed` lose the whole of `elapsed`, saturating, and later gaps are untouched; validity is kept |
| PullTimer.Updated | src/lib.rs:15-26 | `update` keeps length and events, never lengthens a gap, and changes nothing when `elapsed` is 0 |
| PullTimer.UpdatedZeroesDue | src/lib.rs:17-24 | every entry due before `elapsed` is due now after `update(elapsed)` |
| PullTimer.UpdatedValid | src/lib.rs:19 | `update` never increases the total of the gaps, so it keeps validity |
| UpdateFinding.UpdateExactIff | src/lib.rs:15-26 | `update(elapsed)` moves every deadline exactly `elapsed` closer if and only if one of these holds: the scan runs off the end, everything before the stopping entry is already due, or the stopping entry is due exactly at `elapsed` |
| UpdateFinding.UpdateExactWithinFrontGap | src/lib.rs:15-26 | when `elapsed` does not exceed the time to the earliest event, `update` moves every deadline exactly `elapsed` closer |
| UpdateFinding.UpdateByOneIsExact | src/lib.rs:15-26 | `update(0)` and `update(1)` always move every deadline exactly `elapsed` closer |
| UpdateFinding.UpdateOverReduces | src/lib.rs:19 | gaps `[3, 5]` with `update(4)` become `[0, 1]`, so the second event is due in 1; advancing its deadline of 8 by 4 should leave 4 |
| UpdateFinding.UpdateIntended | src/lib.rs:15-26 | corrected `update` (subtracting what is left of `elapsed`): every deadline moves exactly `elapsed` closer, saturating at 0, and validity is kept |
| UpdateFinding.IntendedAdvances | src/lib.rs:15-26 | the queue the corrected loop leaves behind stands for `Advance` of the old schedule |
| DeltaList.ValidIffBounded | src/lib.rs:4 | the invariant on the gap total holds exactly when every absolute deadline fits in a `u32` |
| DeltaList.AbsoluteSorted | src/lib.rs:4 | every delta list stands for a schedule sorted by deadline |
| DeltaList.AbsoluteOfRelative | src/lib.rs:4 | encoding a sorted schedule as gaps and reading it back gives the schedule |
| DeltaList.RelativeOfAbsolute | src/lib.rs:4 | reading a delta list as a schedule and encoding it again gives the delta list |
| DeltaList.AbsoluteInjective | src/lib.rs:4 | two delta lists that stand for the same schedule are equal |
| Scenarios.TimerPreservesFifoOrder | src/lib.rs:90-99 | two events added for now poll in insertion order, then `None` |
| Scenarios.TimerFiresInOrder | src/lib.rs:102-117 | events added latest-first all fire after `update(4)`, earliest first, then `None` |
| Scenarios.TickAndPoll | src/lib.rs:129-134 | polling and then advancing by 1, step after step, fires every event exactly at the step equal to its deadline, in deadline order, for strictly increasing deadlines that all come before the last step |
| Scenarios.Tick | src/lib.rs:130-133 | one poll then `update(1)`: the event due at this step fires and every other countdown drops by one |
| Scenarios.TimerFiresInTime | src/lib.rs:120-135 | events added out of order fire at steps 0, 10, 20, 30 and 40, each with its own deadline as value |
| Scenarios.TimerNextIn | src/lib.rs:138-156 | `next_in` reports 0, 10, 0 and 7 at the four points the unit test asserts on, and the polls return "hi" then "there" |
| Scenarios.TimerRemove | src/lib.rs:159-166 | cancelling after `update(50)` returns 50 and leaves no next event |
| Scenarios.TimerFiresAfterRemove | src/lib.rs:169-187 | cancelling the events due at 50 and 10 returns 50 and 10, and the others still fire at 20, 30 and 40 |

## Left out

- `#[derive(Debug, Clone)]` (src/lib.rs:3) has no behaviour to model.
- `VecDeque` is a Dafny `seq`. Its amortised cost and memory layout are not modelled.
- Overflow behaviour of `u32` addition. src/lib.rs:33, 37, 57 and 68 use plain `u32` `+` (`sum + delta` and `sum += delta` in `add`, `sum += delta` and `*next_delta += delta` in `remove`), which does not saturate; it panics in debug builds and wraps in release builds. The model proves that none of these additions overflows on a `Valid` queue, and every operation keeps `Valid` for any `u32` arguments, so neither overflow behaviour is reachable and neither is modelled.
- The `?` on `self.0.remove(index)` (src/lib.rs:65) cannot fail, because `index` comes from the scan. The model has no separate path for it.
- `remove` takes `T: PartialEq`. The model uses Dafny's structural equality `T(==)`, so a `PartialEq` that is not an equivalence is not modelled.
- Ownership is not modelled. `poll` moving the event out and `remove` taking `event` by value both become plain values.
- src/lib.rs:19 subtracts `elapsed` from every entry it visits, although src/lib.rs:20 counts down `remaining`. `PullTimer.Update` follows line 19 as written; the corrected form, which subtracts `remaining`, is the finding below.
- `PullTimer.Update`, `PullTimer.Updated`: the contract does not promise that every deadline moves `elapsed` closer, because the code as written does not. `UpdateFinding.UpdateExactIff` states exactly when it does.

## Findings

| source | as written | input that shows it | evidently intended | confidence | as-written member | corrected member |
|---|---|---|---|---|---|---|
| src/lib.rs:19 | `update` subtracts the whole `elapsed` from every entry it visits, including the entry where the scan stops. That entry's deadline, and every later one, then moves more than `elapsed` closer. | gaps `[3, 5]` (deadlines 3 and 8), `update(4)`: gaps become `[0, 1]`, so the second event is due in 1 instead of 4 | subtract `remaining` instead of `elapsed` on line 19, giving gaps `[0, 4]` | high; not executed | UpdateFinding.UpdateOverReduces | UpdateFinding.UpdateIntended |

The discrepancy only appears when an entry with a positive gap comes before the entry where the scan stops, and that stopping entry is due strictly after `elapsed` (`UpdateFinding.UpdateExactIff`). Every call in the unit tests is one of the exact cases: each tick is by one unit (`UpdateFinding.UpdateByOneIsExact`), stays within the front gap (`UpdateFinding.UpdateExactWithinFrontGap`), or stops on an entry due exactly at `elapsed`. The scenario methods are therefore proved against `update` as written and still reach the asserted results.
