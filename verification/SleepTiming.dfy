/** How long poll_loop sleeps (sleep_time_ms) and how often it reports (the countdown). */
module SleepTiming {
  import opened Common
  import opened Limits

  const MEM_FILL_RATE: int := 6000
  const SWAP_FILL_RATE: int := 800
  const MIN_SLEEP: int := 100
  const MAX_SLEEP: int := 1000

  // ---------------------------------------------------------------------------
  // Adaptive sleep
  // ---------------------------------------------------------------------------

  /** Distance from the SIGTERM limits in KiB, before truncation; negative when below them. */
  function MemMargin(a: Args, m: MemInfo): real {
    (m.memAvailablePercent - a.memTermPercent) * m.userMemTotalKiB as real / 100.0
  }

  function SwapMargin(a: Args, m: MemInfo): real {
    (m.swapFreePercent - a.swapTermPercent) * m.swapTotalKiB as real / 100.0
  }

  function Headroom(margin: real): nat {
    if CTrunc(margin) < 0 then 0 else CTrunc(margin)
  }

  /** The sleep time before it is clamped. */
  function RawMs(a: Args, m: MemInfo): nat {
    Headroom(MemMargin(a, m)) / MEM_FILL_RATE + Headroom(SwapMargin(a, m)) / SWAP_FILL_RATE
  }

  /** sleep_time_ms */
  function SleepMs(a: Args, m: MemInfo): (ms: int)
    ensures MIN_SLEEP <= ms <= MAX_SLEEP
    ensures MIN_SLEEP <= RawMs(a, m) ==> ms <= RawMs(a, m)
  {
    var ms := RawMs(a, m);
    if ms < MIN_SLEEP then MIN_SLEEP else if ms > MAX_SLEEP then MAX_SLEEP else ms
  }

  function Distance(x: int, y: int): nat {
    if x < y then y - x else x - y
  }

  /** The sleep time is the number of milliseconds from 100 to 1000 nearest to the unclamped one. */
  lemma SleepMsIsNearest(a: Args, m: MemInfo, other: int)
    requires 100 <= other <= 1000
    ensures 100 <= SleepMs(a, m) <= 1000
    ensures Distance(SleepMs(a, m), RawMs(a, m)) <= Distance(other, RawMs(a, m))
  {
  }

  /** The unclamped sleep time in numbers: whole milliseconds of memory at 6000 KiB/ms plus
      whole milliseconds of swap at 800 KiB/ms. */
  lemma {:induction false} RawMsIs(a: Args, m: MemInfo, x: nat, y: nat)
    requires 6000.0 * x as real <= AtLeastZero(MemMargin(a, m)) < 6000.0 * (x + 1) as real
    requires 800.0 * y as real <= AtLeastZero(SwapMargin(a, m)) < 800.0 * (y + 1) as real
    ensures RawMs(a, m) == x + y
  {
    WholeUnits(MemMargin(a, m), 6000, x);
    WholeUnits(SwapMargin(a, m), 800, y);
  }

  lemma {:induction false} WholeUnits(margin: real, rate: int, x: nat)
    requires rate == 6000 || rate == 800
    requires (rate * x) as real <= AtLeastZero(margin) < (rate * x + rate) as real
    ensures Headroom(margin) / rate == x
  {
    var h := Headroom(margin);
    assert h as real <= AtLeastZero(margin) < h as real + 1.0;
    assert rate * x < h + 1 && h < rate * x + rate;
  }

  /** A reading for which the percentages make sense. */
  predicate Sound(a: Args, m: MemInfo) {
    && m.userMemTotalKiB > 0
    && m.swapTotalKiB >= 0
    && (m.swapTotalKiB == 0 ==> m.swapFreePercent == 0.0)
    && a.swapTermPercent >= 0.0
  }

  /** The situation after mem and swap KiB have been consumed, totals unchanged. */
  function After(m: MemInfo, mem: real, swap: real): MemInfo
    requires m.userMemTotalKiB > 0
  {
    m.(memAvailablePercent := m.memAvailablePercent - mem * 100.0 / m.userMemTotalKiB as real,
       swapFreePercent := if m.swapTotalKiB > 0
                          then m.swapFreePercent - swap * 100.0 / m.swapTotalKiB as real
                          else m.swapFreePercent)
  }

  /** Memory is low t ms after the reading, having consumed mem and swap KiB in a way that the
      summed fill rates allow. */
  ghost predicate LowAt(a: Args, m: MemInfo, mem: real, swap: real, t: real)
    requires m.userMemTotalKiB > 0
  {
    && mem >= 0.0 && swap >= 0.0
    && mem / 6000.0 + swap / 800.0 <= t
    && AtOrBelowTerm(a, After(m, mem, swap))
  }

  /** The same when both resources may fill at their full rate at once. */
  ghost predicate LowAtParallel(a: Args, m: MemInfo, mem: real, swap: real, t: real)
    requires m.userMemTotalKiB > 0
  {
    && mem >= 0.0 && swap >= 0.0
    && mem <= 6000.0 * t && swap <= 800.0 * t
    && AtOrBelowTerm(a, After(m, mem, swap))
  }

  function AtLeastZero(x: real): real {
    if x < 0.0 then 0.0 else x
  }

  /** Milliseconds the fill rates need to use up both margins, one after the other. */
  function FillMs(a: Args, m: MemInfo): real {
    AtLeastZero(MemMargin(a, m)) / 6000.0 + AtLeastZero(SwapMargin(a, m)) / 800.0
  }

  /** The same when they are used up in parallel. */
  function ParallelFillMs(a: Args, m: MemInfo): real {
    var mem, swap := AtLeastZero(MemMargin(a, m)) / 6000.0, AtLeastZero(SwapMargin(a, m)) / 800.0;
    if mem < swap then swap else mem
  }

  lemma ScaleShare(x: real, y: real, total: real)
    requires total > 0.0
    ensures x - y * 100.0 / total <= 0.0 <==> y >= x * total / 100.0
  {
    var d := y * 100.0 / total;
    assert d * total == y * 100.0;
    if x <= d {
      assert x * total <= d * total by { assert (d - x) * total >= 0.0; }
    } else {
      assert (x - d) * total > 0.0;
    }
  }

  /** Memory is low exactly when both margins have been consumed. */
  lemma LowNeedsBothMargins(a: Args, m: MemInfo, mem: real, swap: real)
    requires Sound(a, m) && mem >= 0.0 && swap >= 0.0
    ensures AtOrBelowTerm(a, After(m, mem, swap)) <==> mem >= MemMargin(a, m) && swap >= SwapMargin(a, m)
  {
    ScaleShare(m.memAvailablePercent - a.memTermPercent, mem, m.userMemTotalKiB as real);
    if m.swapTotalKiB > 0 {
      ScaleShare(m.swapFreePercent - a.swapTermPercent, swap, m.swapTotalKiB as real);
    }
  }

  /** Under summed fill rates low memory cannot start before t if and only if t is at most the
      fill time. */
  lemma {:induction false} NoLowBeforeIff(a: Args, m: MemInfo, wakeUp: real)
    requires Sound(a, m)
    ensures (forall mem, swap, t :: LowAt(a, m, mem, swap, t) ==> t >= wakeUp) <==> FillMs(a, m) >= wakeUp
  {
    var mem, swap := AtLeastZero(MemMargin(a, m)), AtLeastZero(SwapMargin(a, m));
    LowNeedsBothMargins(a, m, mem, swap);
    assert LowAt(a, m, mem, swap, FillMs(a, m));
    if FillMs(a, m) >= wakeUp {
      forall mem', swap', t | LowAt(a, m, mem', swap', t)
        ensures t >= wakeUp
      {
        LowNeedsBothMargins(a, m, mem', swap');
        assert mem' >= mem && swap' >= swap;
      }
    }
  }

  /** All truncations of sleep_time_ms are on the safe side. */
  lemma {:induction false} RawMsIsSafe(a: Args, m: MemInfo)
    ensures RawMs(a, m) as real <= FillMs(a, m)
  {
    var mem, swap := Headroom(MemMargin(a, m)), Headroom(SwapMargin(a, m));
    assert mem as real <= AtLeastZero(MemMargin(a, m));
    assert swap as real <= AtLeastZero(SwapMargin(a, m));
    var x, y := mem / MEM_FILL_RATE, swap / SWAP_FILL_RATE;
    assert x * 6000 <= mem && y * 800 <= swap;
    assert x as real * 6000.0 <= mem as real && y as real * 800.0 <= swap as real;
  }

  /** They cost less than 3 ms in total. */
  lemma {:induction false} RawMsIsTight(a: Args, m: MemInfo)
    ensures FillMs(a, m) < RawMs(a, m) as real + 3.0
  {
    var mem, swap := Headroom(MemMargin(a, m)), Headroom(SwapMargin(a, m));
    assert AtLeastZero(MemMargin(a, m)) < mem as real + 1.0;
    assert AtLeastZero(SwapMargin(a, m)) < swap as real + 1.0;
    var x, y := mem / MEM_FILL_RATE, swap / SWAP_FILL_RATE;
    assert mem < x * 6000 + 6000 && swap < y * 800 + 800;
    assert mem as real < x as real * 6000.0 + 6000.0 && swap as real < y as real * 800.0 + 800.0;
  }

  /** "Without risking to miss a low memory event": unless the sleep time was raised to the
      100 ms floor, memory cannot become low strictly before the wake-up. In general it cannot
      exactly when the fill time is at least the sleep time. */
  lemma {:induction false} SleepMissesNothing(a: Args, m: MemInfo)
    requires Sound(a, m)
    ensures (forall mem, swap, t :: LowAt(a, m, mem, swap, t) ==> t >= SleepMs(a, m) as real)
       <==> FillMs(a, m) >= SleepMs(a, m) as real
    ensures RawMs(a, m) >= MIN_SLEEP ==>
              forall mem, swap, t :: LowAt(a, m, mem, swap, t) ==> t >= SleepMs(a, m) as real
  {
    RawMsIsSafe(a, m);
    NoLowBeforeIff(a, m, SleepMs(a, m) as real);
  }

  /** The 100 ms floor breaks the promise for every reading with a fill time below it, so
      whenever the unclamped sleep time is at most 97 ms. */
  lemma {:induction false} FloorMisses(a: Args, m: MemInfo)
    requires Sound(a, m)
    ensures RawMs(a, m) <= 97 ==> FillMs(a, m) < 100.0
    ensures FillMs(a, m) < 100.0 <==> SleepMs(a, m) == 100 && exists mem, swap, t :: LowAt(a, m, mem, swap, t) && t < 100.0
  {
    RawMsIsSafe(a, m);
    RawMsIsTight(a, m);
    NoLowBeforeIff(a, m, 100.0);
  }

  /** One percent of 600000 KiB above the limit and no swap: memory can be low after 1 ms, the
      daemon sleeps 100 ms. */
  lemma {:induction false} FloorMiss(a: Args, m: MemInfo)
    requires a.memTermPercent == 10.0 && a.swapTermPercent == 10.0
    requires m.userMemTotalKiB == 600000 && m.memAvailablePercent == 11.0
    requires m.swapTotalKiB == 0 && m.swapFreePercent == 0.0
    ensures Sound(a, m) && RawMs(a, m) == 1 && SleepMs(a, m) == 100
    ensures LowAt(a, m, 6000.0, 0.0, 1.0)
  {
    assert MemMargin(a, m) == 6000.0 && SwapMargin(a, m) == 0.0;
    assert Headroom(6000.0) == 6000 && Headroom(0.0) == 0;
    LowNeedsBothMargins(a, m, 6000.0, 0.0);
  }

  /** When both resources fill at full rate in parallel the guarantee is weaker: it holds
      exactly when the slower of the two fill times alone reaches the sleep time. */
  lemma {:induction false} ParallelMissesNothingIff(a: Args, m: MemInfo)
    requires Sound(a, m)
    ensures (forall mem, swap, t :: LowAtParallel(a, m, mem, swap, t) ==> t >= SleepMs(a, m) as real)
       <==> ParallelFillMs(a, m) >= SleepMs(a, m) as real
  {
    var mem, swap := AtLeastZero(MemMargin(a, m)), AtLeastZero(SwapMargin(a, m));
    LowNeedsBothMargins(a, m, mem, swap);
    assert LowAtParallel(a, m, mem, swap, ParallelFillMs(a, m));
    if ParallelFillMs(a, m) >= SleepMs(a, m) as real {
      forall mem', swap', t | LowAtParallel(a, m, mem', swap', t)
        ensures t >= SleepMs(a, m) as real
      {
        LowNeedsBothMargins(a, m, mem', swap');
        assert mem' >= mem && swap' >= swap;
      }
    }
  }

  /** 500 ms worth of memory and 500 ms worth of swap: the daemon sleeps 1000 ms, but memory is
      low after 500 ms when both fill at once. */
  lemma {:induction false} ParallelMiss(a: Args, m: MemInfo)
    requires a.memTermPercent == 10.0 && a.swapTermPercent == 10.0
    requires m.userMemTotalKiB == 6000000 && m.memAvailablePercent == 60.0
    requires m.swapTotalKiB == 800000 && m.swapFreePercent == 60.0
    ensures SleepMs(a, m) == 1000
    ensures LowAtParallel(a, m, 3000000.0, 400000.0, 500.0)
  {
    assert MemMargin(a, m) == 3000000.0 && SwapMargin(a, m) == 400000.0;
    assert Headroom(3000000.0) == 3000000 && Headroom(400000.0) == 400000;
    LowNeedsBothMargins(a, m, 3000000.0, 400000.0);
  }

  // ---------------------------------------------------------------------------
  // Report cadence
  // ---------------------------------------------------------------------------

  /** One turn of poll_loop as far as reports are concerned. A low turn with --kernel-oom has
      no adaptive sleep. */
  datatype Turn = Turn(low: bool, sleepMs: int)

  predicate Turns(ts: seq<Turn>) {
    forall i :: 0 <= i < |ts| ==> (if ts[i].low then 0 else MIN_SLEEP) <= ts[i].sleepMs <= MAX_SLEEP
  }

  predicate Reports(interval: nat, countdown: int, low: bool) {
    !low && interval != 0 && countdown <= 0
  }

  /** report_countdown_ms at the end of a turn. */
  function NextCountdown(interval: nat, countdown: int, low: bool, sleepMs: int): int {
    (if Reports(interval, countdown, low) then interval else countdown) - sleepMs
  }

  /** report_countdown_ms after the given turns. */
  function Countdown(interval: nat, ts: seq<Turn>): int {
    if ts == [] then 0
    else
      var n := |ts| - 1;
      NextCountdown(interval, Countdown(interval, ts[..n]), ts[n].low, ts[n].sleepMs)
  }

  predicate ReportsAt(interval: nat, ts: seq<Turn>, i: nat)
    requires i < |ts|
  {
    Reports(interval, Countdown(interval, ts[..i]), ts[i].low)
  }

  /** Time slept in turns i up to j. */
  function Slept(ts: seq<Turn>, i: nat, j: nat): int
    requires i <= j <= |ts|
  {
    if i == j then 0 else Slept(ts, i, j - 1) + ts[j - 1].sleepMs
  }

  lemma CountdownStep(interval: nat, ts: seq<Turn>, i: nat)
    requires i < |ts|
    ensures Countdown(interval, ts[..i + 1])
         == NextCountdown(interval, Countdown(interval, ts[..i]), ts[i].low, ts[i].sleepMs)
  {
    assert ts[..i + 1][..i] == ts[..i];
  }

  /** The countdown never exceeds the interval; without low-memory turns it stays above -1000. */
  lemma {:induction false} CountdownInRange(interval: nat, ts: seq<Turn>)
    requires Turns(ts) && interval > 0
    ensures Countdown(interval, ts) <= interval
    ensures (forall i :: 0 <= i < |ts| ==> !ts[i].low) ==> Countdown(interval, ts) > -1000
  {
    if ts != [] {
      CountdownInRange(interval, ts[..|ts| - 1]);
    }
  }

  /** From a report on, until the next one, the countdown is the interval minus time slept. */
  lemma {:induction false} CountdownSinceReport(interval: nat, ts: seq<Turn>, i: nat, j: nat)
    requires i < j <= |ts| && ReportsAt(interval, ts, i)
    requires forall k :: i < k < j ==> !ReportsAt(interval, ts, k)
    ensures Countdown(interval, ts[..j]) == interval - Slept(ts, i, j)
  {
    CountdownStep(interval, ts, j - 1);
    if j == i + 1 {
      assert Slept(ts, i, i) == 0;
    } else {
      CountdownSinceReport(interval, ts, i, j - 1);
      assert !ReportsAt(interval, ts, j - 1);
    }
  }

  /** Two consecutive reports are at least the interval apart, and less than one second more
      unless a low-memory turn came in between. */
  lemma {:induction false} ReportSpacing(interval: nat, ts: seq<Turn>, i: nat, j: nat)
    requires Turns(ts) && i < j < |ts|
    requires ReportsAt(interval, ts, i) && ReportsAt(interval, ts, j)
    requires forall k :: i < k < j ==> !ReportsAt(interval, ts, k)
    ensures Slept(ts, i, j) >= interval
    ensures (forall k :: i < k < j ==> !ts[k].low) ==> Slept(ts, i, j) <= interval + 999
  {
    CountdownSinceReport(interval, ts, i, j);
    if (forall k :: i < k < j ==> !ts[k].low) && i + 1 < j {
      assert !ReportsAt(interval, ts, j - 1);
      CountdownSinceReport(interval, ts, i, j - 1);
    }
  }

  /** The first turn that is not a low-memory turn reports. */
  lemma {:induction false} FirstReport(interval: nat, ts: seq<Turn>, i: nat)
    requires Turns(ts) && interval > 0 && i < |ts|
    requires (forall k :: 0 <= k < i ==> ts[k].low) && !ts[i].low
    ensures ReportsAt(interval, ts, i)
  {
    AllLow(interval, ts[..i]);
  }

  lemma {:induction false} AllLow(interval: nat, ts: seq<Turn>)
    requires Turns(ts) && forall k :: 0 <= k < |ts| ==> ts[k].low
    ensures -1000 * |ts| <= Countdown(interval, ts) <= 0
  {
    if ts != [] {
      AllLow(interval, ts[..|ts| - 1]);
    }
  }

  const INT_MIN: int := -0x8000_0000

  /** With reports disabled the countdown is never reset: it is minus the time slept, so it
      stays representable for at least 2147483 turns and, if every turn sleeps, no longer is
      after 21474837. */
  lemma {:induction false} DisabledCountdownDrifts(ts: seq<Turn>)
    requires Turns(ts)
    ensures Countdown(0, ts) == -Slept(ts, 0, |ts|)
    ensures -1000 * |ts| <= Countdown(0, ts) <= 0
    ensures |ts| <= 2147483 ==> Countdown(0, ts) >= INT_MIN
    ensures (forall i :: 0 <= i < |ts| ==> ts[i].sleepMs >= MIN_SLEEP) ==>
              && Countdown(0, ts) <= -100 * |ts|
              && (|ts| >= 21474837 ==> Countdown(0, ts) < INT_MIN)
  {
    if ts != [] {
      var n := |ts| - 1;
      DisabledCountdownDrifts(ts[..n]);
      SleptPrefix(ts, n);
    }
  }

  lemma {:induction false} SleptSplit(ts: seq<Turn>, i: nat, j: nat)
    requires i <= j <= |ts|
    ensures Slept(ts, 0, j) == Slept(ts, 0, i) + Slept(ts, i, j)
  {
    if i < j {
      SleptSplit(ts, i, j - 1);
    }
  }

  lemma {:induction false} SleptPrefix(ts: seq<Turn>, n: nat)
    requires n <= |ts|
    ensures Slept(ts, 0, n) == Slept(ts[..n], 0, n)
  {
    SleptAgree(ts, ts[..n], n);
  }

  lemma {:induction false} SleptAgree(ts: seq<Turn>, us: seq<Turn>, n: nat)
    requires n <= |ts| && n <= |us| && forall i :: 0 <= i < n ==> ts[i] == us[i]
    ensures Slept(ts, 0, n) == Slept(us, 0, n)
  {
    if n > 0 {
      SleptAgree(ts, us, n - 1);
    }
  }
}
