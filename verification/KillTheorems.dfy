/** What kill_wait guarantees for every stream of readings, liveness answers and failures. */
module KillTheorems {
  import opened Common
  import opened Limits
  import opened KillWait

  // ---------------------------------------------------------------------------
  // Traces
  // ---------------------------------------------------------------------------

  predicate IsSignal(e: Event) { e.Signal? }
  predicate IsOpen(e: Event) { e.Open? && e.fd >= 0 }
  predicate IsClose(e: Event) { e.Close? }
  predicate IsAliveCheck(e: Event) { e.AliveCheck? }
  predicate IsNap(e: Event) { e.Nap? }

  /** The events of a kind, in order. */
  function Filter(es: Trace, p: Event -> bool): Trace {
    if es == [] then [] else (if p(es[0]) then [es[0]] else []) + Filter(es[1..], p)
  }

  lemma {:induction false} FilterConcat(es: Trace, fs: Trace, p: Event -> bool)
    ensures Filter(es + fs, p) == Filter(es, p) + Filter(fs, p)
  {
    if es == [] {
      assert es + fs == fs;
    } else {
      assert (es + fs)[0] == es[0] && (es + fs)[1..] == es[1..] + fs;
      FilterConcat(es[1..], fs, p);
      AppendTwice(if p(es[0]) then [es[0]] else [], Filter(es[1..], p), Filter(fs, p));
    }
  }

  lemma {:induction false} FilterNone(es: Trace, p: Event -> bool)
    requires forall e :: e in es ==> !p(e)
    ensures Filter(es, p) == []
  {
    if es != [] {
      assert es[0] in es;
      FilterNone(es[1..], p);
    }
  }

  lemma Filter1(x: Event, p: Event -> bool)
    ensures Filter([x], p) == if p(x) then [x] else []
  {
    assert [x][1..] == [];
  }

  lemma Filter2(x: Event, y: Event, p: Event -> bool)
    ensures Filter([x, y], p) == Filter([x], p) + Filter([y], p)
  {
    assert [x, y] == [x] + [y];
    FilterConcat([x], [y], p);
  }

  lemma ReleasedFilter(target: int, fd: int, sig: int, kill: SysResult, p: Event -> bool)
    requires forall e: Event :: e.MRelease? ==> !p(e)
    ensures Filter(Released(target, fd, sig, kill), p) == Filter([Signal(target, sig)], p)
  {
    if kill.res == 0 && fd >= 0 {
      Filter2(Signal(target, sig), MRelease(fd), p);
      Filter1(MRelease(fd), p);
    } else {
      assert Released(target, fd, sig, kill) == [Signal(target, sig)];
    }
  }

  // ---------------------------------------------------------------------------
  // Inside the wait loop
  // ---------------------------------------------------------------------------

  /** Events the wait loop is made of. */
  predicate WaitEvent(target: int, e: Event) {
    match e
    case EscalationReading(_) => true
    case MRelease(_) => true
    case AliveCheck(t, _) => t == target
    case Nap(ms) => ms == POLL_MS
    case Signal(t, s) => t == target && s == SIGKILL
    case _ => false
  }

  /** A signal directly follows a reading at or below both SIGKILL limits. */
  ghost predicate SignalsFollowReadings(a: Args, es: Trace) {
    forall k :: 0 <= k < |es| && es[k].Signal? ==>
      k > 0 && es[k - 1].EscalationReading? && AtOrBelowKill(a, es[k - 1].m)
  }

  ghost predicate WaitEvents(a: Args, target: int, es: Trace) {
    (forall e :: e in es ==> WaitEvent(target, e)) && SignalsFollowReadings(a, es)
  }

  lemma WaitEventsConcat(a: Args, target: int, es: Trace, fs: Trace)
    requires WaitEvents(a, target, es) && WaitEvents(a, target, fs)
    ensures WaitEvents(a, target, es + fs)
  {
    var all := es + fs;
    forall k | 0 <= k < |all| && all[k].Signal?
      ensures k > 0 && all[k - 1].EscalationReading? && AtOrBelowKill(a, all[k - 1].m)
    {
      if k < |es| {
        assert all[k] == es[k] && (k > 0 ==> all[k - 1] == es[k - 1]);
      } else {
        var j := k - |es|;
        assert all[k] == fs[j] && (j > 0 ==> all[k - 1] == fs[j - 1]);
      }
    }
  }

  lemma RoundStartEvents(a: Args, env: KillEnv, target: int, fd: int, sig: int, i: nat)
    ensures WaitEvents(a, target, RoundStart(a, env, target, fd, sig, i))
  {
    var es := RoundStart(a, env, target, fd, sig, i);
    if Escalates(a, env, sig, i) {
      assert es[0] == EscalationReading(env.reading(i)) && es[1] == Signal(target, SIGKILL);
    }
  }

  lemma {:induction false} RoundEvents(a: Args, env: KillEnv, target: int, fd: int, sig: int, i: nat)
    ensures var start := RoundStart(a, env, target, fd, sig, i);
            && WaitEvents(a, target, start + [AliveCheck(target, false)])
            && WaitEvents(a, target, start + [AliveCheck(target, true), Nap(POLL_MS)])
  {
    var start := RoundStart(a, env, target, fd, sig, i);
    RoundStartEvents(a, env, target, fd, sig, i);
    assert WaitEvents(a, target, [AliveCheck(target, false)]);
    assert WaitEvents(a, target, [AliveCheck(target, true), Nap(POLL_MS)]);
    WaitEventsConcat(a, target, start, [AliveCheck(target, false)]);
    WaitEventsConcat(a, target, start, [AliveCheck(target, true), Nap(POLL_MS)]);
  }

  lemma {:induction false} WaitLoopStep(a: Args, env: KillEnv, target: int, fd: int, sig: int, i: nat)
    requires i < ROUNDS
    requires WaitEvents(a, target, WaitFrom(a, env, target, fd, if Escalates(a, env, sig, i) then SIGKILL else sig, i + 1).events)
    ensures WaitEvents(a, target, WaitFrom(a, env, target, fd, sig, i).events)
  {
    if Escalates(a, env, sig, i) && env.secondKill.res != 0 {
      RoundStartEvents(a, env, target, fd, sig, i);
    } else {
      RoundEvents(a, env, target, fd, sig, i);
      if env.alive(i) {
        WaitEventsConcat(a, target,
                         RoundStart(a, env, target, fd, sig, i) + [AliveCheck(target, true), Nap(POLL_MS)],
                         WaitFrom(a, env, target, fd, if Escalates(a, env, sig, i) then SIGKILL else sig, i + 1).events);
      }
    }
  }

  lemma {:induction false} WaitLoopEvents(a: Args, env: KillEnv, target: int, fd: int, sig: int, i: nat)
    requires i <= ROUNDS
    ensures WaitEvents(a, target, WaitFrom(a, env, target, fd, sig, i).events)
    decreases ROUNDS - i
  {
    if i < ROUNDS {
      WaitLoopEvents(a, env, target, fd, if Escalates(a, env, sig, i) then SIGKILL else sig, i + 1);
      WaitLoopStep(a, env, target, fd, sig, i);
    }
  }

  lemma {:induction false} RoundStartSignals(a: Args, env: KillEnv, target: int, fd: int, sig: int, i: nat)
    ensures Filter(RoundStart(a, env, target, fd, sig, i), IsSignal)
         == if Escalates(a, env, sig, i) then [Signal(target, SIGKILL)] else []
  {
    var seen: Trace := if sig == SIGKILL then [] else [EscalationReading(env.reading(i))];
    var sent: Trace := if Escalates(a, env, sig, i) then Released(target, fd, SIGKILL, env.secondKill) else [];
    FilterConcat(seen, sent, IsSignal);
    FilterNone(seen, IsSignal);
    ReleasedFilter(target, fd, SIGKILL, env.secondKill, IsSignal);
    Filter1(Signal(target, SIGKILL), IsSignal);
  }

  /** From round i on, some round is reached with the target still alive and its reading is at
      or below both SIGKILL limits. */
  ghost predicate EscalationDue(a: Args, env: KillEnv, i: nat) {
    exists r: nat :: i <= r < 100 && AliveUntil(env, i, r)
                     && env.reading(r).memAvailablePercent <= a.memKillPercent
                     && env.reading(r).swapFreePercent <= a.swapKillPercent
  }

  ghost predicate AliveUntil(env: KillEnv, i: nat, r: nat) {
    forall q: nat :: i <= q < r ==> env.alive(q)
  }

  lemma EscalationDueStep(a: Args, env: KillEnv, i: nat)
    requires i < ROUNDS
    ensures EscalationDue(a, env, i) <==>
            AtOrBelowKill(a, env.reading(i)) || (env.alive(i) && EscalationDue(a, env, i + 1))
  {
    assert AliveUntil(env, i, i);
    assert forall r: nat :: i < r ==> (AliveUntil(env, i, r) <==> env.alive(i) && AliveUntil(env, i + 1, r));
  }

  /** One SIGKILL when an escalation is due, and none after SIGKILL. */
  lemma {:induction false} WaitLoopSignals(a: Args, env: KillEnv, target: int, fd: int, sig: int, i: nat)
    requires i <= ROUNDS
    ensures var ss := Filter(WaitFrom(a, env, target, fd, sig, i).events, IsSignal);
            ss == if sig != SIGKILL && EscalationDue(a, env, i) then [Signal(target, SIGKILL)] else []
    decreases ROUNDS - i
  {
    if i < ROUNDS {
      var start := RoundStart(a, env, target, fd, sig, i);
      RoundStartSignals(a, env, target, fd, sig, i);
      EscalationDueStep(a, env, i);
      if Escalates(a, env, sig, i) && env.secondKill.res != 0 {
      } else if !env.alive(i) {
        QuietTail(start, [AliveCheck(target, false)]);
      } else {
        var next := if Escalates(a, env, sig, i) then SIGKILL else sig;
        var head := start + [AliveCheck(target, true), Nap(POLL_MS)];
        QuietTail(start, [AliveCheck(target, true), Nap(POLL_MS)]);
        WaitLoopSignals(a, env, target, fd, next, i + 1);
        FilterConcat(head, WaitFrom(a, env, target, fd, next, i + 1).events, IsSignal);
      }
    }
  }

  lemma {:induction false} QuietTail(es: Trace, fs: Trace)
    requires forall e :: e in fs ==> !e.Signal?
    ensures Filter(es + fs, IsSignal) == Filter(es, IsSignal)
  {
    FilterConcat(es, fs, IsSignal);
    FilterNone(fs, IsSignal);
  }

  /** How the loop ends. The result is 0 exactly when the target was seen dead; otherwise errno
      is the failed kill's, or ETIME after all rounds. */
  ghost predicate WaitEnd(env: KillEnv, o: Outcome, rounds: nat) {
    && |Filter(o.events, IsAliveCheck)| <= rounds
    && |Filter(o.events, IsNap)| <= rounds
    && (o.res == 0 <==> exists e :: e in o.events && e.AliveCheck? && !e.alive)
    && (o.res != 0 ==>
          || (o.errno == ETIME && |Filter(o.events, IsAliveCheck)| == rounds)
          || (env.secondKill.res != 0 && o.res == env.secondKill.res && o.errno == env.secondKill.errno))
  }

  /** Events without a liveness poll or a nap in front change nothing about the end. */
  lemma {:induction false} WaitEndPrepend(env: KillEnv, es: Trace, o: Outcome, rounds: nat)
    requires WaitEnd(env, o, rounds)
    requires forall e :: e in es ==> !e.AliveCheck? && !e.Nap?
    ensures WaitEnd(env, Prepend(es, o), rounds)
  {
    FilterNone(es, IsAliveCheck);
    FilterNone(es, IsNap);
    FilterConcat(es, o.events, IsAliveCheck);
    FilterConcat(es, o.events, IsNap);
    if o.res == 0 {
      var e :| e in o.events && e.AliveCheck? && !e.alive;
      assert e in es + o.events;
    }
  }

  lemma {:induction false} WaitEndRound(env: KillEnv, target: int, o: Outcome, rounds: nat)
    requires WaitEnd(env, o, rounds)
    ensures WaitEnd(env, Prepend([AliveCheck(target, true), Nap(POLL_MS)], o), rounds + 1)
  {
    var x, y := AliveCheck(target, true), Nap(POLL_MS);
    Filter2(x, y, IsAliveCheck);
    Filter2(x, y, IsNap);
    Filter1(x, IsAliveCheck);
    Filter1(y, IsAliveCheck);
    Filter1(x, IsNap);
    Filter1(y, IsNap);
    FilterConcat([x, y], o.events, IsAliveCheck);
    FilterConcat([x, y], o.events, IsNap);
    if o.res == 0 {
      var e :| e in o.events && e.AliveCheck? && !e.alive;
      assert e in [x, y] + o.events;
    }
  }

  lemma {:induction false} WaitEndDead(env: KillEnv, target: int, rounds: nat)
    requires rounds > 0
    ensures WaitEnd(env, Outcome([AliveCheck(target, false)], 0, env.noise), rounds)
  {
    var dead := AliveCheck(target, false);
    Filter1(dead, IsAliveCheck);
    Filter1(dead, IsNap);
    assert dead in [dead];
  }

  lemma {:induction false} WaitEndKillFailed(env: KillEnv, es: Trace, rounds: nat)
    requires env.secondKill.res != 0 && forall e :: e in es ==> !e.AliveCheck? && !e.Nap?
    ensures WaitEnd(env, Outcome(es, env.secondKill.res, env.secondKill.errno), rounds)
  {
    FilterNone(es, IsAliveCheck);
    FilterNone(es, IsNap);
  }

  lemma {:induction false} WaitLoopEndStep(a: Args, env: KillEnv, target: int, fd: int, sig: int, i: nat)
    requires i < ROUNDS
    requires WaitEnd(env, WaitFrom(a, env, target, fd, if Escalates(a, env, sig, i) then SIGKILL else sig, i + 1), ROUNDS - i - 1)
    ensures WaitEnd(env, WaitFrom(a, env, target, fd, sig, i), ROUNDS - i)
  {
    var start := RoundStart(a, env, target, fd, sig, i);
    assert forall e :: e in start ==> !e.AliveCheck? && !e.Nap?;
    if Escalates(a, env, sig, i) && env.secondKill.res != 0 {
      WaitEndKillFailed(env, start, ROUNDS - i);
    } else if !env.alive(i) {
      WaitEndDead(env, target, ROUNDS - i);
      WaitEndPrepend(env, start, Outcome([AliveCheck(target, false)], 0, env.noise), ROUNDS - i);
    } else {
      var rest := WaitFrom(a, env, target, fd, if Escalates(a, env, sig, i) then SIGKILL else sig, i + 1);
      WaitEndRound(env, target, rest, ROUNDS - i - 1);
      var round := [AliveCheck(target, true), Nap(POLL_MS)];
      WaitEndPrepend(env, start, Prepend(round, rest), ROUNDS - i);
      PrependTwice(start, round, rest);
    }
  }

  lemma {:induction false} WaitLoopEnd(a: Args, env: KillEnv, target: int, fd: int, sig: int, i: nat)
    requires i <= ROUNDS
    ensures WaitEnd(env, WaitFrom(a, env, target, fd, sig, i), ROUNDS - i)
    decreases ROUNDS - i
  {
    if i < ROUNDS {
      WaitLoopEnd(a, env, target, fd, if Escalates(a, env, sig, i) then SIGKILL else sig, i + 1);
      WaitLoopEndStep(a, env, target, fd, sig, i);
    }
  }

  // ---------------------------------------------------------------------------
  // Pace, release and readings of the wait loop
  // ---------------------------------------------------------------------------

  /** A nap lasts 100 ms and directly follows a poll that found the target alive, and after
      such a poll there is one. */
  ghost predicate PacedAt(t: int, es: Trace, k: nat)
    requires k < |es|
  {
    && (es[k].Nap? ==> es[k].ms == 100 && k > 0 && es[k - 1] == AliveCheck(t, true))
    && (es[k].AliveCheck? ==> es[k].target == t && (es[k].alive ==> k + 1 < |es| && es[k + 1].Nap?))
  }

  ghost predicate Paced(t: int, es: Trace) {
    forall k: nat :: k < |es| ==> PacedAt(t, es, k)
  }

  /** process_mrelease directly follows a kill, and after a kill there is one if the kills of
      es succeed and there is a pidfd. */
  ghost predicate ReleasingAt(fd: int, ok: bool, es: Trace, k: nat)
    requires k < |es|
  {
    && (es[k].Signal? ==> (k + 1 < |es| && es[k + 1].MRelease? <==> ok && fd >= 0))
    && (es[k].MRelease? ==> es[k].fd == fd && k > 0 && es[k - 1].Signal?)
  }

  ghost predicate Releasing(fd: int, ok: bool, es: Trace) {
    forall k: nat :: k < |es| ==> ReleasingAt(fd, ok, es, k)
  }

  lemma PacedConcat(t: int, es: Trace, fs: Trace)
    requires Paced(t, es) && Paced(t, fs)
    ensures Paced(t, es + fs)
  {
    var all := es + fs;
    forall k: nat | k < |all|
      ensures PacedAt(t, all, k)
    {
      if k < |es| {
        assert PacedAt(t, es, k);
      } else {
        assert PacedAt(t, fs, k - |es|);
      }
    }
  }

  lemma ReleasingConcat(fd: int, ok: bool, es: Trace, fs: Trace)
    requires Releasing(fd, ok, es) && Releasing(fd, ok, fs)
    ensures Releasing(fd, ok, es + fs)
  {
    var all := es + fs;
    forall k: nat | k < |all|
      ensures ReleasingAt(fd, ok, all, k)
    {
      if k < |es| {
        assert ReleasingAt(fd, ok, es, k);
        assert fs != [] ==> ReleasingAt(fd, ok, fs, 0);
      } else {
        assert ReleasingAt(fd, ok, fs, k - |es|);
      }
    }
  }

  lemma RoundStartShape(a: Args, env: KillEnv, t: int, fd: int, sig: int, i: nat)
    ensures var start := RoundStart(a, env, t, fd, sig, i);
            Paced(t, start) && Releasing(fd, env.secondKill.res == 0, start)
  {
  }

  lemma PollShape(t: int, fd: int, ok: bool)
    ensures Paced(t, [AliveCheck(t, false)]) && Releasing(fd, ok, [AliveCheck(t, false)])
    ensures Paced(t, [AliveCheck(t, true), Nap(POLL_MS)]) && Releasing(fd, ok, [AliveCheck(t, true), Nap(POLL_MS)])
  {
  }

  lemma {:induction false} WaitLoopShape(a: Args, env: KillEnv, t: int, fd: int, sig: int, i: nat)
    requires i <= ROUNDS
    ensures var es := WaitFrom(a, env, t, fd, sig, i).events;
            Paced(t, es) && Releasing(fd, env.secondKill.res == 0, es)
    decreases ROUNDS - i
  {
    if i < ROUNDS {
      var ok, start := env.secondKill.res == 0, RoundStart(a, env, t, fd, sig, i);
      RoundStartShape(a, env, t, fd, sig, i);
      PollShape(t, fd, ok);
      if Escalates(a, env, sig, i) && !ok {
      } else if !env.alive(i) {
        PacedConcat(t, start, [AliveCheck(t, false)]);
        ReleasingConcat(fd, ok, start, [AliveCheck(t, false)]);
      } else {
        var next := if Escalates(a, env, sig, i) then SIGKILL else sig;
        var poll, rest := [AliveCheck(t, true), Nap(POLL_MS)], WaitFrom(a, env, t, fd, next, i + 1).events;
        WaitLoopShape(a, env, t, fd, next, i + 1);
        PacedConcat(t, start, poll);
        ReleasingConcat(fd, ok, start, poll);
        PacedConcat(t, start + poll, rest);
        ReleasingConcat(fd, ok, start + poll, rest);
      }
    }
  }

  /** Memory is read before each liveness poll until SIGKILL has been sent, and not after. */
  ghost predicate Watchful(sig: int, es: Trace) {
    && (sig == 9 ==> forall e :: e in es ==> !e.EscalationReading?)
    && (forall j, k :: 0 <= j < k < |es| && es[j].Signal? ==> !es[k].EscalationReading?)
    && (forall k :: 0 <= k < |es| && es[k].AliveCheck? && sig != 9 && NoSignalBefore(es, k)
          ==> k > 0 && es[k - 1].EscalationReading?)
  }

  ghost predicate NoSignalBefore(es: Trace, k: nat) {
    forall j :: 0 <= j < k && j < |es| ==> !es[j].Signal?
  }

  /** What comes before the poll in a round, when the last signal was sig and will be next. */
  ghost predicate RoundHead(sig: int, next: int, start: Trace) {
    && (next == sig || next == 9)
    && (forall e :: e in start ==> e.EscalationReading? || e.Signal? || e.MRelease?)
    && (if sig == 9 then start == []
        else start != [] && start[0].EscalationReading? && forall k :: 0 < k < |start| ==> !start[k].EscalationReading?)
    && (sig != 9 && next == sig ==> |start| == 1)
    && (sig != 9 && next == 9 ==> |start| > 1 && start[1].Signal?)
  }

  lemma RoundStartIsHead(a: Args, env: KillEnv, t: int, fd: int, sig: int, i: nat)
    ensures RoundHead(sig, if Escalates(a, env, sig, i) then SIGKILL else sig, RoundStart(a, env, t, fd, sig, i))
  {
    var start := RoundStart(a, env, t, fd, sig, i);
    if Escalates(a, env, sig, i) {
      assert start[0].EscalationReading? && start[1].Signal?;
    }
  }

  /** A round in front of what follows it. */
  lemma WatchfulRound(sig: int, next: int, start: Trace, poll: Trace, rest: Trace)
    requires Watchful(next, rest) && RoundHead(sig, next, start)
    requires poll == [] || (poll[0].AliveCheck? && forall l :: 1 <= l < |poll| ==> poll[l].Nap?)
    requires poll == [] ==> rest == []
    ensures Watchful(sig, start + poll + rest)
  {
    var es := start + poll + rest;
    var n := |start| + |poll|;
    assert forall l :: 0 <= l < |start| ==> es[l] == start[l];
    forall j, k | 0 <= j < k < |es| && es[j].Signal?
      ensures !es[k].EscalationReading?
    {
      if k < |start| {
        assert es[k] == start[k];
      } else if k < n {
        assert es[k] == poll[k - |start|];
      } else {
        assert es[k] == rest[k - n] && rest[k - n] in rest;
        if j >= n {
          assert es[j] == rest[j - n];
        } else if j >= |start| {
          assert es[j] == poll[j - |start|];
        } else {
          assert es[j] == start[j];
        }
      }
    }
    forall k | 0 <= k < |es| && es[k].AliveCheck? && sig != 9 && NoSignalBefore(es, k)
      ensures k > 0 && es[k - 1].EscalationReading?
    {
      if k >= |start| + |poll| {
        assert es[k] == rest[k - n];
        assert forall j :: 0 <= j < k - n ==> rest[j] == es[n + j];
        assert NoSignalBefore(rest, k - n);
      } else {
        assert es[k] == poll[k - |start|];
      }
    }
  }

  lemma WatchfulEnd(sig: int, next: int, start: Trace, poll: Trace)
    requires RoundHead(sig, next, start)
    requires poll == [] || (|poll| == 1 && poll[0].AliveCheck?)
    ensures Watchful(sig, start + poll)
  {
    WatchfulRound(sig, next, start, poll, []);
    assert start + poll + [] == start + poll;
  }

  lemma {:induction false} WaitLoopWatchful(a: Args, env: KillEnv, t: int, fd: int, sig: int, i: nat)
    requires i <= ROUNDS
    ensures Watchful(sig, WaitFrom(a, env, t, fd, sig, i).events)
    decreases ROUNDS - i
  {
    if i < ROUNDS {
      var start := RoundStart(a, env, t, fd, sig, i);
      var next := if Escalates(a, env, sig, i) then SIGKILL else sig;
      RoundStartIsHead(a, env, t, fd, sig, i);
      if Escalates(a, env, sig, i) && env.secondKill.res != 0 {
        WatchfulEnd(sig, next, start, []);
        assert start + [] == start;
      } else if !env.alive(i) {
        WatchfulEnd(sig, next, start, [AliveCheck(t, false)]);
      } else {
        WaitLoopWatchful(a, env, t, fd, next, i + 1);
        WatchfulRound(sig, next, start, [AliveCheck(t, true), Nap(POLL_MS)], WaitFrom(a, env, t, fd, next, i + 1).events);
      }
    }
  }

  // ---------------------------------------------------------------------------
  // How long the wait takes and how it ends
  // ---------------------------------------------------------------------------

  /** Milliseconds of naps. */
  function NapMs(es: Trace): int {
    if es == [] then 0 else (if es[0].Nap? then es[0].ms else 0) + NapMs(es[1..])
  }

  lemma {:induction false} NapMsConcat(es: Trace, fs: Trace)
    ensures NapMs(es + fs) == NapMs(es) + NapMs(fs)
  {
    if es == [] {
      assert es + fs == fs;
    } else {
      assert (es + fs)[1..] == es[1..] + fs;
      NapMsConcat(es[1..], fs);
    }
  }

  lemma {:induction false} NapMsNone(es: Trace)
    requires forall e :: e in es ==> !e.Nap?
    ensures NapMs(es) == 0
  {
    if es != [] {
      NapMsNone(es[1..]);
    }
  }

  /** Round r is the first one from round i on whose poll finds the target dead. */
  ghost predicate FirstDead(env: KillEnv, i: nat, r: nat) {
    i <= r < 100 && !env.alive(r) && AliveUntil(env, i, r)
  }

  /** The end of a wait that starts in round i after signal sig. */
  ghost predicate EndsAsDue(a: Args, env: KillEnv, sig: int, i: nat, o: Outcome) {
    if sig != 9 && env.secondKill.res != 0 && EscalationDue(a, env, i)
    then o.res == env.secondKill.res && o.errno == env.secondKill.errno
    else
      && (forall r: nat :: FirstDead(env, i, r) ==> o.res == 0 && NapMs(o.events) == 100 * (r - i))
      && (AliveUntil(env, i, 100) ==> o.res == -1 && o.errno == 62 && NapMs(o.events) == 100 * (100 - i))
  }

  lemma {:induction false} RoundNaps(start: Trace, t: int, rest: Trace)
    requires forall e :: e in start ==> !e.Nap?
    ensures NapMs(start + [AliveCheck(t, true), Nap(POLL_MS)] + rest) == 100 + NapMs(rest)
    ensures NapMs(start + [AliveCheck(t, false)]) == 0
  {
    var poll: Trace := [AliveCheck(t, true), Nap(POLL_MS)];
    NapMsNone(start);
    NapMsNone(start + [AliveCheck(t, false)]);
    NapMsConcat(start + poll, rest);
    NapMsConcat(start, poll);
    assert NapMs([Nap(POLL_MS)]) == 100;
    assert poll[1..] == [Nap(POLL_MS)];
  }

  lemma AliveStep(env: KillEnv, i: nat)
    requires env.alive(i) && i < 100
    ensures forall r: nat :: FirstDead(env, i, r) <==> FirstDead(env, i + 1, r)
    ensures AliveUntil(env, i, 100) <==> AliveUntil(env, i + 1, 100)
  {
    assert forall r: nat :: i < r ==> (AliveUntil(env, i, r) <==> AliveUntil(env, i + 1, r));
  }

  lemma DeadNow(env: KillEnv, i: nat)
    requires !env.alive(i) && i < 100
    ensures forall r: nat :: FirstDead(env, i, r) ==> r == i
    ensures !AliveUntil(env, i, 100)
  {
  }

  /** A round that finds the target alive in front of a wait that ends as due. */
  lemma {:induction false} AliveRoundEnds(a: Args, env: KillEnv, sig: int, i: nat, head: Trace, rest: Outcome)
    requires i < 100 && env.alive(i) && !(Escalates(a, env, sig, i) && env.secondKill.res != 0)
    requires NapMs(head + rest.events) == 100 + NapMs(rest.events)
    requires EndsAsDue(a, env, if Escalates(a, env, sig, i) then SIGKILL else sig, i + 1, rest)
    ensures EndsAsDue(a, env, sig, i, Prepend(head, rest))
  {
    EscalationDueStep(a, env, i);
    AliveStep(env, i);
  }

  lemma {:induction false} LastRoundEnds(a: Args, env: KillEnv, sig: int, i: nat, o: Outcome)
    requires i < 100
    requires if Escalates(a, env, sig, i) && env.secondKill.res != 0
             then o.res == env.secondKill.res && o.errno == env.secondKill.errno
             else !env.alive(i) && o.res == 0 && NapMs(o.events) == 0
    ensures EndsAsDue(a, env, sig, i, o)
  {
    EscalationDueStep(a, env, i);
    if !(Escalates(a, env, sig, i) && env.secondKill.res != 0) {
      DeadNow(env, i);
    }
  }

  lemma {:induction false} WaitEndsAsDue(a: Args, env: KillEnv, t: int, fd: int, sig: int, i: nat)
    requires i <= ROUNDS
    ensures EndsAsDue(a, env, sig, i, WaitFrom(a, env, t, fd, sig, i))
    decreases ROUNDS - i
  {
    if i < ROUNDS {
      var start := RoundStart(a, env, t, fd, sig, i);
      var rest := WaitFrom(a, env, t, fd, if Escalates(a, env, sig, i) then SIGKILL else sig, i + 1);
      RoundNaps(start, t, rest.events);
      if (Escalates(a, env, sig, i) && env.secondKill.res != 0) || !env.alive(i) {
        LastRoundEnds(a, env, sig, i, WaitFrom(a, env, t, fd, sig, i));
      } else {
        WaitEndsAsDue(a, env, t, fd, if Escalates(a, env, sig, i) then SIGKILL else sig, i + 1);
        AliveRoundEnds(a, env, sig, i, start + [AliveCheck(t, true), Nap(POLL_MS)], rest);
      }
    }
  }

  // ---------------------------------------------------------------------------
  // kill_wait as a whole
  // ---------------------------------------------------------------------------

  /** Nothing is signalled at all. */
  predicate SendsNothing(a: Args, env: KillEnv, sig: int) {
    (a.dryrun && sig != 0) || (a.killProcessGroup && env.getpgid.res < 0)
  }

  /** The signals sent, in order: none in a dry run or when getpgid fails; otherwise the
      requested one, followed by SIGKILL if and only if it is neither 0 nor SIGKILL, its kill
      succeeded and some round reached with the target still alive has a
      reading at or below both SIGKILL limits. All go to one target. */
  lemma {:induction false} SignalsSent(a: Args, env: KillEnv, pid: int, sig: int)
    ensures var ss := Filter(KillWaitOf(a, env, pid, sig).events, IsSignal);
            var t := Target(a, env, pid);
            ss == if SendsNothing(a, env, sig) then []
                  else if env.firstKill.res == 0 && sig != 0 && sig != 9 && EscalationDue(a, env, 0)
                  then [Signal(t, sig), Signal(t, 9)]
                  else [Signal(t, sig)]
    ensures a.dryrun && sig != 0 ==> KillWaitOf(a, env, pid, sig).events == []
  {
    if SendsNothing(a, env, sig) {
      FilterNone(KillWaitOf(a, env, pid, sig).events, IsSignal);
    } else {
      var t, fd := Target(a, env, pid), PidfdFor(a, env, sig);
      SignalAndWaitSignals(a, env, t, fd, sig);
      FramedFilter(Opening(a, env, pid, sig), SignalAndWait(a, env, t, fd, sig).events, Closing(a, env, sig), IsSignal);
    }
  }

  /** Filtering sees through a frame without events of the kind. */
  lemma {:induction false} FramedFilter(before: Trace, es: Trace, after: Trace, p: Event -> bool)
    requires forall e :: e in before || e in after ==> !p(e)
    ensures Filter(before + es + after, p) == Filter(es, p)
  {
    FilterNone(before, p);
    FilterNone(after, p);
    FilterConcat(before, es, p);
    FilterConcat(before + es, after, p);
  }

  lemma {:induction false} SignalAndWaitSignals(a: Args, env: KillEnv, target: int, fd: int, sig: int)
    ensures var ss := Filter(SignalAndWait(a, env, target, fd, sig).events, IsSignal);
            ss == if env.firstKill.res == 0 && sig != 0 && sig != SIGKILL && EscalationDue(a, env, 0)
                  then [Signal(target, sig), Signal(target, SIGKILL)]
                  else [Signal(target, sig)]
  {
    var es := Released(target, fd, sig, env.firstKill);
    ReleasedFilter(target, fd, sig, env.firstKill, IsSignal);
    Filter1(Signal(target, sig), IsSignal);
    if env.firstKill.res == 0 && sig != 0 {
      WaitLoopSignals(a, env, target, fd, sig, 0);
      FilterConcat(es, WaitFrom(a, env, target, fd, sig, 0).events, IsSignal);
    }
  }

  /** At most 100 liveness polls and 10 seconds of waiting. */
  lemma {:induction false} WaitIsBounded(a: Args, env: KillEnv, pid: int, sig: int)
    ensures |Filter(KillWaitOf(a, env, pid, sig).events, IsAliveCheck)| <= 100
    ensures |Filter(KillWaitOf(a, env, pid, sig).events, IsNap)| <= 100
  {
    if SendsNothing(a, env, sig) {
      FilterNone(KillWaitOf(a, env, pid, sig).events, IsAliveCheck);
      FilterNone(KillWaitOf(a, env, pid, sig).events, IsNap);
    } else {
      var t, fd := Target(a, env, pid), PidfdFor(a, env, sig);
      var es := SignalAndWait(a, env, t, fd, sig).events;
      SignalAndWaitEnd(a, env, t, fd, sig);
      FramedFilter(Opening(a, env, pid, sig), es, Closing(a, env, sig), IsAliveCheck);
      FramedFilter(Opening(a, env, pid, sig), es, Closing(a, env, sig), IsNap);
    }
  }

  /** What is known when the first kill has been sent and waited for. */
  ghost predicate SendEnd(env: KillEnv, o: Outcome, sig: int) {
    && |Filter(o.events, IsAliveCheck)| <= 100
    && |Filter(o.events, IsNap)| <= 100
    && (sig != 0 ==> (o.res == 0 <==> exists e :: e in o.events && e.AliveCheck? && !e.alive))
    && (o.res != 0 ==>
          || (env.firstKill.res != 0 && o.errno == env.firstKill.errno)
          || (env.secondKill.res != 0 && o.errno == env.secondKill.errno)
          || (o.errno == ETIME && |Filter(o.events, IsAliveCheck)| == 100))
  }

  lemma {:induction false} SignalAndWaitEnd(a: Args, env: KillEnv, target: int, fd: int, sig: int)
    ensures SendEnd(env, SignalAndWait(a, env, target, fd, sig), sig)
  {
    var es := Released(target, fd, sig, env.firstKill);
    if env.firstKill.res == 0 && sig != 0 {
      WaitLoopEnd(a, env, target, fd, sig, 0);
      WaitEndPrepend(env, es, WaitFrom(a, env, target, fd, sig, 0), 100);
    } else {
      FilterNone(es, IsAliveCheck);
      FilterNone(es, IsNap);
    }
  }

  /** For a non-zero signal outside a dry run: 0 is returned exactly when the target was observed
      not alive. */
  lemma {:induction false} ZeroIffSeenDead(a: Args, env: KillEnv, pid: int, sig: int)
    requires sig != 0 && !a.dryrun
    ensures var o := KillWaitOf(a, env, pid, sig);
            o.res == 0 <==> exists e :: e in o.events && e.AliveCheck? && !e.alive
  {
    if !SendsNothing(a, env, sig) {
      var t, fd := Target(a, env, pid), PidfdFor(a, env, sig);
      var s, o := SignalAndWait(a, env, t, fd, sig), KillWaitOf(a, env, pid, sig);
      SignalAndWaitEnd(a, env, t, fd, sig);
      forall e: Event | e.AliveCheck?
        ensures e in s.events <==> e in o.events
      {
      }
    }
  }

  /** A failure reaches kill_process with the errno of what failed (getpgid, a kill, or the
      timeout after 100 polls): never with that of close or process_mrelease. */
  lemma {:induction false} ErrnoIsTheCause(a: Args, env: KillEnv, pid: int, sig: int)
    requires KillWaitOf(a, env, pid, sig).res != 0
    ensures var o := KillWaitOf(a, env, pid, sig);
            || (a.killProcessGroup && env.getpgid.res < 0 && o.errno == env.getpgid.errno)
            || (env.firstKill.res != 0 && o.errno == env.firstKill.errno)
            || (env.secondKill.res != 0 && o.errno == env.secondKill.errno)
            || (o.errno == ETIME && |Filter(o.events, IsAliveCheck)| == 100)
  {
    if !SendsNothing(a, env, sig) {
      var t, fd := Target(a, env, pid), PidfdFor(a, env, sig);
      SignalAndWaitEnd(a, env, t, fd, sig);
      FramedFilter(Opening(a, env, pid, sig), SignalAndWait(a, env, t, fd, sig).events, Closing(a, env, sig), IsAliveCheck);
    }
  }

  /** Escalation happens only on a reading at or below both SIGKILL limits, taken directly
      before it. With -g the target is the negated answer of getpgid for the given pid. */
  lemma {:induction false} EscalationIsJustified(a: Args, env: KillEnv, pid: int, sig: int, k: nat)
    requires k < |KillWaitOf(a, env, pid, sig).events|
    requires KillWaitOf(a, env, pid, sig).events[k].Signal?
    ensures var es := KillWaitOf(a, env, pid, sig).events;
            && es[k].target == Target(a, env, pid)
            && (a.killProcessGroup ==> es[k].target <= 0 && k > 0 && es[0] == Getpgid(pid, -es[k].target))
            && (es[k].sig == sig || es[k].sig == 9)
            && (es[k].sig != sig ==>
                  && k > 0 && es[k - 1].EscalationReading?
                  && es[k - 1].m.memAvailablePercent <= a.memKillPercent
                  && es[k - 1].m.swapFreePercent <= a.swapKillPercent)
  {
    var t, fd := Target(a, env, pid), PidfdFor(a, env, sig);
    var before, after := Opening(a, env, pid, sig), Closing(a, env, sig);
    var es, inner := KillWaitOf(a, env, pid, sig).events, SignalAndWait(a, env, t, fd, sig).events;
    assert es == before + inner + after;
    var j := k - |before|;
    assert 0 <= j < |inner| && es[k] == inner[j];
    SentThenWaited(a, t, fd, sig, env, j);
    assert j > 0 ==> es[k - 1] == inner[j - 1];
  }

  lemma {:induction false} SentThenWaited(a: Args, t: int, fd: int, sig: int, env: KillEnv, k: nat)
    requires k < |SignalAndWait(a, env, t, fd, sig).events|
    requires SignalAndWait(a, env, t, fd, sig).events[k].Signal?
    ensures var es := SignalAndWait(a, env, t, fd, sig).events;
            && es[k].target == t
            && (es[k].sig == sig || es[k].sig == 9)
            && (es[k].sig != sig ==>
                  && k > 0 && es[k - 1].EscalationReading?
                  && es[k - 1].m.memAvailablePercent <= a.memKillPercent
                  && es[k - 1].m.swapFreePercent <= a.swapKillPercent)
  {
    WaitLoopEvents(a, env, t, fd, sig, 0);
    var sent, waited := Released(t, fd, sig, env.firstKill), WaitFrom(a, env, t, fd, sig, 0).events;
    var es := SignalAndWait(a, env, t, fd, sig).events;
    if k >= |sent| {
      var j := k - |sent|;
      assert es == sent + waited;
      assert es[k] == waited[j] && waited[j] in waited;
      assert j > 0 ==> es[k - 1] == waited[j - 1];
    }
  }

  /** At most one pidfd is opened, and if so it is closed once, at the very end. */
  ghost predicate PidfdBalanced(es: Trace) {
    || (Filter(es, IsOpen) == [] && Filter(es, IsClose) == [])
    || exists fd :: Filter(es, IsOpen) == [Open(fd)] && Filter(es, IsClose) == [Close(fd)] && es[|es| - 1..] == [Close(fd)]
  }

  lemma {:induction false} FrameBalanced(fd: int, es: Trace)
    requires Filter(es, IsOpen) == [] && Filter(es, IsClose) == []
    ensures PidfdBalanced([Open(fd)] + es + if fd >= 0 then [Close(fd)] else [])
  {
    var closing: Trace := if fd >= 0 then [Close(fd)] else [];
    var all := [Open(fd)] + es + closing;
    FilterConcat([Open(fd)], es, IsOpen);
    FilterConcat([Open(fd)] + es, closing, IsOpen);
    FilterConcat([Open(fd)], es, IsClose);
    FilterConcat([Open(fd)] + es, closing, IsClose);
    Filter1(Open(fd), IsOpen);
    Filter1(Open(fd), IsClose);
    Filter1(Close(fd), IsOpen);
    Filter1(Close(fd), IsClose);
    assert fd >= 0 ==> Filter(all, IsOpen) == [Open(fd)] && Filter(all, IsClose) == [Close(fd)] && all[|all| - 1..] == closing;
  }

  /** Every pidfd that was opened gets exactly one close call, on every path. */
  lemma {:induction false} PidfdIsClosedOnce(a: Args, env: KillEnv, pid: int, sig: int)
    ensures PidfdBalanced(KillWaitOf(a, env, pid, sig).events)
  {
    var es := KillWaitOf(a, env, pid, sig).events;
    if SendsNothing(a, env, sig) {
      FilterNone(es, IsOpen);
      FilterNone(es, IsClose);
    } else {
      var t, fd := Target(a, env, pid), PidfdFor(a, env, sig);
      var inner := SignalAndWait(a, env, t, fd, sig).events;
      NoPidfdInside(a, env, t, fd, sig);
      if a.killProcessGroup || sig == 0 {
        FramedFilter(Opening(a, env, pid, sig), inner, Closing(a, env, sig), IsOpen);
        FramedFilter(Opening(a, env, pid, sig), inner, Closing(a, env, sig), IsClose);
      } else {
        FrameBalanced(fd, inner);
      }
    }
  }

  lemma {:induction false} NoPidfdInside(a: Args, env: KillEnv, t: int, fd: int, sig: int)
    ensures var es := SignalAndWait(a, env, t, fd, sig).events;
            Filter(es, IsOpen) == [] && Filter(es, IsClose) == []
  {
    WaitLoopEvents(a, env, t, fd, sig, 0);
    var es := SignalAndWait(a, env, t, fd, sig).events;
    var waited := WaitFrom(a, env, t, fd, sig, 0).events;
    forall e | e in es
      ensures !e.Open? && !e.Close?
    {
      assert e in waited ==> WaitEvent(t, e);
    }
    FilterNone(es, IsOpen);
    FilterNone(es, IsClose);
  }

  /** Nothing but the signal and its release at the ends of kill_wait. */
  lemma FrameIsQuiet(a: Args, env: KillEnv, pid: int, sig: int)
    ensures var t, fd := Target(a, env, pid), PidfdFor(a, env, sig);
            && Paced(t, Opening(a, env, pid, sig))
            && Paced(t, Closing(a, env, sig))
            && Paced(t, Released(t, fd, sig, env.firstKill))
            && Releasing(fd, env.firstKill.res == 0, Released(t, fd, sig, env.firstKill))
  {
  }

  /** kill_wait naps 100 ms after each poll that found the target alive, and never otherwise. */
  lemma {:induction false} WaitIsPaced(a: Args, env: KillEnv, pid: int, sig: int)
    ensures Paced(Target(a, env, pid), KillWaitOf(a, env, pid, sig).events)
  {
    var t, fd := Target(a, env, pid), PidfdFor(a, env, sig);
    FrameIsQuiet(a, env, pid, sig);
    if !SendsNothing(a, env, sig) {
      var sent, waited := Released(t, fd, sig, env.firstKill), WaitFrom(a, env, t, fd, sig, 0).events;
      var inner := SignalAndWait(a, env, t, fd, sig).events;
      WaitLoopShape(a, env, t, fd, sig, 0);
      PacedConcat(t, sent, waited);
      PacedConcat(t, Opening(a, env, pid, sig), inner);
      PacedConcat(t, Opening(a, env, pid, sig) + inner, Closing(a, env, sig));
    }
  }

  /** The n-th event of kill_wait inside its frame. */
  lemma InsideFrame(a: Args, env: KillEnv, pid: int, sig: int, k: nat)
    requires !SendsNothing(a, env, sig)
    ensures var es, n := KillWaitOf(a, env, pid, sig).events, |Opening(a, env, pid, sig)|;
            var inner := SignalAndWait(a, env, Target(a, env, pid), PidfdFor(a, env, sig), sig).events;
            && |es| >= n + |inner|
            && (k < |inner| ==> es[n + k] == inner[k])
            && (|inner| <= k < |es| - n ==> es[n + k].Close?)
  {
  }

  /** Inside the frame the first kill comes first. */
  lemma {:induction false} InnerReleases(a: Args, env: KillEnv, t: int, fd: int, sig: int, k: nat)
    requires k < |SignalAndWait(a, env, t, fd, sig).events|
    ensures var es := SignalAndWait(a, env, t, fd, sig).events;
            && es[0] == Signal(t, sig)
            && (es[k].Signal? ==>
                  (k + 1 < |es| && es[k + 1] == MRelease(fd) <==>
                   fd >= 0 && if k == 0 then env.firstKill.res == 0 else env.secondKill.res == 0))
            && (es[k].MRelease? ==> k > 0 && es[k - 1].Signal?)
  {
    var es := SignalAndWait(a, env, t, fd, sig).events;
    var sent, waited := Released(t, fd, sig, env.firstKill), WaitFrom(a, env, t, fd, sig, 0).events;
    WaitLoopShape(a, env, t, fd, sig, 0);
    if env.firstKill.res == 0 && sig != 0 && k >= |sent| {
      var j := k - |sent|;
      assert es == sent + waited;
      assert ReleasingAt(fd, env.secondKill.res == 0, waited, j);
      assert j + 1 < |waited| ==> es[k + 1] == waited[j + 1] && ReleasingAt(fd, env.secondKill.res == 0, waited, j + 1);
      assert j > 0 ==> es[k - 1] == waited[j - 1];
    } else {
      assert waited != [] ==> ReleasingAt(fd, env.secondKill.res == 0, waited, 0);
    }
  }

  /** process_mrelease directly follows a kill exactly when that kill succeeded and there is a
      pidfd: outside -g, for a non-zero signal, if pidfd_open succeeded. It follows nothing else. */
  lemma {:induction false} ReleaseFollowsKill(a: Args, env: KillEnv, pid: int, sig: int, k: nat)
    requires k < |KillWaitOf(a, env, pid, sig).events|
    ensures var es := KillWaitOf(a, env, pid, sig).events;
            && (es[k].Signal? ==>
                  (k + 1 < |es| && es[k + 1].MRelease? <==>
                   && !a.killProcessGroup && sig != 0 && env.pidfd.res >= 0
                   && if NoSignalBefore(es, k) then env.firstKill.res == 0 else env.secondKill.res == 0))
            && (es[k].MRelease? ==> es[k].fd == env.pidfd.res && k > 0 && es[k - 1].Signal?)
  {
    if !SendsNothing(a, env, sig) {
      var t, fd, n := Target(a, env, pid), PidfdFor(a, env, sig), |Opening(a, env, pid, sig)|;
      var es, inner := KillWaitOf(a, env, pid, sig).events, SignalAndWait(a, env, t, fd, sig).events;
      InsideFrame(a, env, pid, sig, 0);
      if n <= k < n + |inner| {
        var j := k - n;
        InsideFrame(a, env, pid, sig, j);
        InsideFrame(a, env, pid, sig, j + 1);
        InnerReleases(a, env, t, fd, sig, j);
        if j + 1 < |inner| {
          InnerReleases(a, env, t, fd, sig, j + 1);
          MReleaseIsOfPidfd(a, env, t, fd, sig, j + 1);
        }
        MReleaseIsOfPidfd(a, env, t, fd, sig, j);
        if j > 0 {
          InsideFrame(a, env, pid, sig, j - 1);
          assert es[n] == Signal(t, sig);
        } else {
          assert NoSignalBefore(es, k);
        }
      } else if k >= n + |inner| {
        InsideFrame(a, env, pid, sig, k - n);
      }
    }
  }

  lemma {:induction false} MReleaseIsOfPidfd(a: Args, env: KillEnv, t: int, fd: int, sig: int, k: nat)
    requires k < |SignalAndWait(a, env, t, fd, sig).events|
    ensures var es := SignalAndWait(a, env, t, fd, sig).events;
            es[k].MRelease? ==> es[k].fd == fd && fd >= 0
  {
    var es := SignalAndWait(a, env, t, fd, sig).events;
    var sent, waited := Released(t, fd, sig, env.firstKill), WaitFrom(a, env, t, fd, sig, 0).events;
    WaitLoopShape(a, env, t, fd, sig, 0);
    if env.firstKill.res == 0 && sig != 0 && k >= |sent| {
      var j := k - |sent|;
      assert es == sent + waited;
      assert ReleasingAt(fd, env.secondKill.res == 0, waited, j);
      assert j > 0 ==> ReleasingAt(fd, env.secondKill.res == 0, waited, j - 1);
    }
  }

  /** No SIGKILL among the first k events. */
  ghost predicate NoKillBefore(es: Trace, k: nat) {
    forall j :: 0 <= j < k && j < |es| && es[j].Signal? ==> es[j].sig != 9
  }

  lemma {:induction false} InnerReads(a: Args, env: KillEnv, t: int, fd: int, sig: int, k: nat)
    requires k < |SignalAndWait(a, env, t, fd, sig).events|
    ensures var es := SignalAndWait(a, env, t, fd, sig).events;
            && (es[k].EscalationReading? ==> NoKillBefore(es, k))
            && (es[k].AliveCheck? && NoKillBefore(es, k) ==> k > 0 && es[k - 1].EscalationReading?)
  {
    var es := SignalAndWait(a, env, t, fd, sig).events;
    var sent, waited := Released(t, fd, sig, env.firstKill), WaitFrom(a, env, t, fd, sig, 0).events;
    WaitLoopWatchful(a, env, t, fd, sig, 0);
    WaitLoopEvents(a, env, t, fd, sig, 0);
    if env.firstKill.res == 0 && sig != 0 {
      assert es == sent + waited;
      assert es[0] == Signal(t, sig);
      assert forall j :: |sent| <= j < |es| ==> es[j] == waited[j - |sent|];
      if k >= |sent| {
        var i := k - |sent|;
        assert waited[i] in waited;
        if es[k].EscalationReading? {
          forall j | 0 <= j < k && es[j].Signal?
            ensures es[j].sig != 9
          {
          }
        }
        if es[k].AliveCheck? && NoKillBefore(es, k) {
          forall j | 0 <= j < i && j < |waited|
            ensures !waited[j].Signal?
          {
            assert es[|sent| + j] == waited[j] && waited[j] in waited;
          }
          assert NoSignalBefore(waited, i);
        }
      }
    }
  }

  lemma NoKillInFrame(before: Trace, es: Trace, after: Trace, k: nat)
    requires k <= |es| && forall e :: e in before ==> !e.Signal?
    ensures NoKillBefore(before + es + after, |before| + k) <==> NoKillBefore(es, k)
  {
    var all, n := before + es + after, |before|;
    assert forall j :: 0 <= j < n ==> all[j] == before[j];
    assert forall j :: 0 <= j < |es| ==> all[n + j] == es[j];
    assert forall j :: n <= j < n + |es| ==> all[j] == es[j - n];
  }

  /** Memory is read directly before every liveness poll until SIGKILL has been sent, and
      never after that. */
  lemma {:induction false} ReadsUntilKill(a: Args, env: KillEnv, pid: int, sig: int, k: nat)
    requires k < |KillWaitOf(a, env, pid, sig).events|
    ensures var es := KillWaitOf(a, env, pid, sig).events;
            && (es[k].EscalationReading? ==> NoKillBefore(es, k))
            && (es[k].AliveCheck? && NoKillBefore(es, k) ==> k > 0 && es[k - 1].EscalationReading?)
  {
    if !SendsNothing(a, env, sig) {
      var t, fd, n := Target(a, env, pid), PidfdFor(a, env, sig), |Opening(a, env, pid, sig)|;
      var es, inner := KillWaitOf(a, env, pid, sig).events, SignalAndWait(a, env, t, fd, sig).events;
      InsideFrame(a, env, pid, sig, 0);
      if n <= k < n + |inner| {
        InnerReads(a, env, t, fd, sig, k - n);
        InsideFrame(a, env, pid, sig, k - n);
        if k > n {
          InsideFrame(a, env, pid, sig, k - n - 1);
        }
        NoKillInFrame(Opening(a, env, pid, sig), inner, Closing(a, env, sig), k - n);
      } else if k >= n + |inner| {
        InsideFrame(a, env, pid, sig, k - n);
      }
    }
  }

  /** How kill_wait ends, for every input. */
  lemma {:induction false} KillWaitResult(a: Args, env: KillEnv, pid: int, sig: int)
    ensures var o := KillWaitOf(a, env, pid, sig);
            if a.dryrun && sig != 0 then o.res == 0
            else if a.killProcessGroup && env.getpgid.res < 0 then
              o.res == env.getpgid.res && o.errno == env.getpgid.errno
            else if env.firstKill.res != 0 then
              o.res == env.firstKill.res && o.errno == env.firstKill.errno && NapMs(o.events) == 0
            else if sig == 0 then
              o.res == 0 && NapMs(o.events) == 0
            else if sig != 9 && env.secondKill.res != 0 && EscalationDue(a, env, 0) then
              o.res == env.secondKill.res && o.errno == env.secondKill.errno
            else
              && (forall r: nat :: FirstDead(env, 0, r) ==> o.res == 0 && NapMs(o.events) == 100 * r)
              && (AliveUntil(env, 0, 100) ==> o.res == -1 && o.errno == 62 && NapMs(o.events) == 10000)
  {
    if !SendsNothing(a, env, sig) {
      var t, fd := Target(a, env, pid), PidfdFor(a, env, sig);
      var o := SignalAndWait(a, env, t, fd, sig);
      var sent, waited := Released(t, fd, sig, env.firstKill), WaitFrom(a, env, t, fd, sig, 0);
      WaitEndsAsDue(a, env, t, fd, sig, 0);
      NapMsNone(sent);
      NapMsConcat(sent, waited.events);
      NapMsNone(Opening(a, env, pid, sig));
      NapMsNone(Closing(a, env, sig));
      NapMsConcat(Opening(a, env, pid, sig), o.events);
      NapMsConcat(Opening(a, env, pid, sig) + o.events, Closing(a, env, sig));
    }
  }
}
