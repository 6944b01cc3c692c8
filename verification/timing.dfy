/** The epoch timing rule of the sequencer (`genEpochTicks`) as a pure step
    function over integer nanosecond timestamps. The goroutine, ticker and
    channel around it are not modelled; only the decision and the `last`
    register it maintains. */
module EpochTiming {
  import opened Ints
  import opened Results

  /** `now.Sub(last)`: the exact difference, clamped to the `int64` range. */
  function Elapsed(last: int, now: int): Int64
  {
    SaturateInt64(now - last)
  }

  /** The forcing condition `now.Sub(last) + minElapsed >= maxElapsed`, with
      the `Duration` addition wrapping around like Go's `int64`. */
  predicate Due(last: int, now: int, minElapsed: Int64, maxElapsed: Int64)
  {
    WrapInt64(Elapsed(last, now) + minElapsed) >= maxElapsed
  }

  /** Neither the subtraction nor the addition leaves the `int64` range. */
  predicate NoOverflow(last: int, now: int, minElapsed: int)
  {
    MinInt64 <= now - last <= MaxInt64 && MinInt64 <= now - last + minElapsed <= MaxInt64
  }

  /** One decision and the value of `last` after it. */
  datatype TickStep = TickStep(force: bool, last: int)

  /** Handling of one tick arriving at time `now`: emits exactly one decision;
      `true` moves `last` to `now`, `false` leaves it unchanged. Without
      overflow the decision is the rule `(now - last) + minElapsed >= maxElapsed`. */
  function Tick(last: int, now: int, minElapsed: Int64, maxElapsed: Int64): (r: TickStep)
    ensures r.force ==> r.last == now
    ensures !r.force ==> r.last == last
    ensures NoOverflow(last, now, minElapsed) ==> (r.force <==> now - last + minElapsed >= maxElapsed)
  {
    if Due(last, now, minElapsed, maxElapsed) then TickStep(true, now) else TickStep(false, last)
  }

  /** What happens before the first tick: either a single `true` is emitted,
      or nothing. */
  datatype StartStep = StartStep(emitted: Option<bool>, last: int)

  /** The start-up check. The clock is read twice: `nowCheck` for the
      comparison and `nowReset` for the new value of `last`. */
  function Startup(last: int, nowCheck: int, nowReset: int, minElapsed: Int64, maxElapsed: Int64): (r: StartStep)
    ensures r.emitted == None || r.emitted == Some(true)
    ensures r.emitted.Some? ==> r.last == nowReset
    ensures r.emitted.None? ==> r.last == last
    ensures NoOverflow(last, nowCheck, minElapsed) ==>
      (r.emitted.Some? <==> nowCheck - last + minElapsed >= maxElapsed)
  {
    if Due(last, nowCheck, minElapsed, maxElapsed) then StartStep(Some(true), nowReset)
    else StartStep(None, last)
  }

  /** The value of `last` before each tick of `ticks`, and after the final one. */
  function Lasts(last: int, ticks: seq<int>, minElapsed: Int64, maxElapsed: Int64): (ls: seq<int>)
    ensures |ls| == |ticks| + 1 && ls[0] == last
    ensures forall i :: 0 <= i < |ticks| ==> ls[i + 1] == Tick(ls[i], ticks[i], minElapsed, maxElapsed).last
    decreases |ticks|
  {
    if |ticks| == 0 then [last]
    else [last] + Lasts(Tick(last, ticks[0], minElapsed, maxElapsed).last, ticks[1..], minElapsed, maxElapsed)
  }

  /** The decisions emitted for `ticks`: exactly one per tick, each taken
      against the `last` in force when the tick arrives. */
  function Decisions(last: int, ticks: seq<int>, minElapsed: Int64, maxElapsed: Int64): (ds: seq<bool>)
    ensures |ds| == |ticks|
    ensures forall i :: 0 <= i < |ticks| ==>
      ds[i] == Tick(Lasts(last, ticks, minElapsed, maxElapsed)[i], ticks[i], minElapsed, maxElapsed).force
  {
    var ls := Lasts(last, ticks, minElapsed, maxElapsed);
    seq(|ticks|, i requires 0 <= i < |ticks| => Tick(ls[i], ticks[i], minElapsed, maxElapsed).force)
  }

  /** Timestamps and durations small enough that no arithmetic overflows. */
  const Bound: int := 0x2000_0000_0000_0000

  predicate Small(x: int)
  {
    0 <= x <= Bound
  }

  /** If ticks arrive at most `minElapsed` apart and the first one comes no
      later than `maxElapsed` after `last`, then at every tick at most
      `maxElapsed` has passed since the last forced epoch (or the initial
      `last`): an epoch is never overdue by more than one tick interval. */
  lemma {:induction false} GapNeverExceedsMax(last: int, ticks: seq<int>, minElapsed: Int64, maxElapsed: Int64)
    requires 0 <= minElapsed <= maxElapsed && Small(maxElapsed) && Small(last)
    requires forall i :: 0 <= i < |ticks| ==> Small(ticks[i])
    requires |ticks| > 0 ==> ticks[0] - last <= maxElapsed
    requires forall i :: 0 <= i < |ticks| - 1 ==> ticks[i] <= ticks[i + 1] <= ticks[i] + minElapsed
    ensures forall i :: 0 <= i < |ticks| ==> ticks[i] - Lasts(last, ticks, minElapsed, maxElapsed)[i] <= maxElapsed
    decreases |ticks|
  {
    if |ticks| > 0 {
      var step := Tick(last, ticks[0], minElapsed, maxElapsed);
      var rest := ticks[1..];
      if |rest| > 0 {
        assert rest[0] == ticks[1];
        assert NoOverflow(last, ticks[0], minElapsed);
        assert rest[0] - step.last <= maxElapsed;
      }
      GapNeverExceedsMax(step.last, rest, minElapsed, maxElapsed);
      var ls := Lasts(last, ticks, minElapsed, maxElapsed);
      assert ls == [last] + Lasts(step.last, rest, minElapsed, maxElapsed);
      forall i | 1 <= i < |ticks|
        ensures ticks[i] - ls[i] <= maxElapsed
      {
        assert ticks[i] == rest[i - 1];
      }
    }
  }

  /** As long as every decision so far was `false`, `last` still holds its
      initial value. */
  lemma {:induction false} LastsUnchangedWhileIdle(last: int, ticks: seq<int>, minElapsed: Int64, maxElapsed: Int64, i: nat)
    requires i <= |ticks|
    requires forall j :: 0 <= j < i ==> !Decisions(last, ticks, minElapsed, maxElapsed)[j]
    ensures Lasts(last, ticks, minElapsed, maxElapsed)[i] == last
    decreases i
  {
    if i > 0 {
      LastsUnchangedWhileIdle(last, ticks, minElapsed, maxElapsed, i - 1);
      var ls := Lasts(last, ticks, minElapsed, maxElapsed);
      var step := Tick(ls[i - 1], ticks[i - 1], minElapsed, maxElapsed);
      assert !Decisions(last, ticks, minElapsed, maxElapsed)[i - 1];
      assert !step.force;
      assert ls[i] == step.last;
    }
  }

  /** An epoch is forced at least once per `maxElapsed`: once a tick arrives
      late enough that the rule holds against the initial `last`, some
      decision up to and including that tick is `true`. */
  lemma ForcedOnceDue(last: int, ticks: seq<int>, minElapsed: Int64, maxElapsed: Int64, i: nat)
    requires i < |ticks|
    requires Small(minElapsed) && Small(last) && Small(ticks[i])
    requires ticks[i] - last + minElapsed >= maxElapsed
    ensures exists j :: 0 <= j <= i && Decisions(last, ticks, minElapsed, maxElapsed)[j]
  {
    var ds := Decisions(last, ticks, minElapsed, maxElapsed);
    if forall j :: 0 <= j < i ==> !ds[j] {
      LastsUnchangedWhileIdle(last, ticks, minElapsed, maxElapsed, i);
      assert NoOverflow(last, ticks[i], minElapsed);
      assert ds[i];
    }
  }

  /** The start-up check establishes the premise of `GapNeverExceedsMax` for
      a first tick arriving within `minElapsed` of start-up. */
  lemma StartupBoundsFirstGap(last: int, nowCheck: int, nowReset: int, firstTick: int, minElapsed: Int64, maxElapsed: Int64)
    requires 0 <= minElapsed <= maxElapsed && Small(maxElapsed) && Small(last) && Small(nowCheck)
    requires nowCheck <= nowReset <= firstTick <= nowCheck + minElapsed
    ensures firstTick - Startup(last, nowCheck, nowReset, minElapsed, maxElapsed).last <= maxElapsed
  {
    assert NoOverflow(last, nowCheck, minElapsed);
  }

  /** Beyond the `int64` range the rule is not the mathematical one: a gap
      too large for a `Duration` saturates, and adding a positive
      `minElapsed` then wraps to a negative value, so nothing is forced. */
  lemma SaturatedGapSuppressesForce(last: int, now: int, minElapsed: Int64, maxElapsed: Int64)
    requires now - last > MaxInt64 && minElapsed > 0 && maxElapsed >= 0
    ensures !Tick(last, now, minElapsed, maxElapsed).force
    ensures now - last + minElapsed >= maxElapsed
  {
  }
}
