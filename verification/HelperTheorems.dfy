/** The helper processes of kill_process (hook, notifications) and the start-up self-test. */
module HelperTheorems {
  import opened Common
  import opened VictimSelection
  import opened KillWait
  import opened KillTheorems
  import opened Daemon
  import opened DaemonTheorems

  // ---------------------------------------------------------------------------
  // Helpers
  // ---------------------------------------------------------------------------

  predicate IsHelperStart(e: Event) { e.Fork? || e.PollChild? }

  /** The trace of one helper: its fork, and how long the parent waits for it. */
  function HelperStart(env: SpawnEnv, timeoutMs: int): Trace {
    [Fork(env.fork)] + if env.fork != -1 && env.pidfd != -1 then [PollChild(env.pidfd, timeoutMs)] else []
  }

  function HelperIf(wanted: bool, env: SpawnEnv, timeoutMs: int): Trace {
    if wanted then HelperStart(env, timeoutMs) else []
  }

  /** What notify_spawn_subprocess does with a child: pid, pidfd and the result of poll. */
  lemma {:induction false} ChildFilter(poll: Event, open: Event, last: Trace)
    requires poll.PollChild? && open.Open? && forall e :: e in last ==> e.Waitpid? || e.Close?
    ensures Filter([open] + ([poll] + last), IsHelperStart) == [poll]
  {
    FilterNone(last, IsHelperStart);
    Filter1(open, IsHelperStart);
    Filter1(poll, IsHelperStart);
    FilterConcat([open], [poll] + last, IsHelperStart);
    FilterConcat([poll], last, IsHelperStart);
  }

  lemma {:induction false} SpawnFrameFilter(fork: Event, rest: Trace)
    requires fork.Fork?
    ensures Filter([BlockSigchld, fork] + rest + [UnblockSigchld], IsHelperStart) == [fork] + Filter(rest, IsHelperStart)
  {
    FilterConcat([BlockSigchld, fork] + rest, [UnblockSigchld], IsHelperStart);
    FilterConcat([BlockSigchld, fork], rest, IsHelperStart);
    FilterNone([UnblockSigchld], IsHelperStart);
    Filter2(BlockSigchld, fork, IsHelperStart);
    Filter1(BlockSigchld, IsHelperStart);
    Filter1(fork, IsHelperStart);
  }

  lemma {:induction false} SpawnFilter(wanted: bool, env: SpawnEnv, timeoutMs: int)
    ensures Filter(SpawnIf(wanted, env, timeoutMs), IsHelperStart) == HelperIf(wanted, env, timeoutMs)
  {
    if wanted {
      var last := (if env.ready > 0 then [Waitpid(env.fork)] else []) + [Close(env.pidfd)];
      var open, poll := Open(env.pidfd), PollChild(env.pidfd, timeoutMs);
      var rest: Trace := if env.fork == -1 then [] else if env.pidfd == -1 then [open] else [open] + ([poll] + last);
      assert SpawnEvents(env, timeoutMs) == [BlockSigchld, Fork(env.fork)] + rest + [UnblockSigchld];
      SpawnFrameFilter(Fork(env.fork), rest);
      if env.fork != -1 && env.pidfd != -1 {
        ChildFilter(poll, open, last);
      } else {
        FilterNone(rest, IsHelperStart);
      }
    } else {
      FilterNone([], IsHelperStart);
    }
  }

  /** After a real kill, and in a dry run once a second, the notifications are due. */
  predicate NotificationDue(a: Args, clock: Option<int>, prev: int) {
    !a.dryrun || (clock.Some? && clock.value - prev >= 1)
  }

  /** The helpers due after a kill: D-Bus and script notification, and a D-Bus notification when
      the kill failed. */
  function AftermathHelpers(a: Args, env: KillProcessEnv, prev: int, failed: bool): Trace {
    (if NotificationDue(a, env.clock, prev)
     then HelperIf(a.notify, env.dbus, 0) + HelperIf(a.notifyExt, env.ext, 0) else [])
    + HelperIf(failed && a.notify, env.errorDbus, 0)
  }

  lemma {:induction false} NotifyFilter(a: Args, env: KillProcessEnv, prev: int)
    ensures Filter(NotifyEvents(a, env, prev), IsHelperStart) ==
            if NotificationDue(a, env.clock, prev) then HelperIf(a.notify, env.dbus, 0) + HelperIf(a.notifyExt, env.ext, 0)
            else []
  {
    SpawnFilter(a.notify, env.dbus, 0);
    SpawnFilter(a.notifyExt, env.ext, 0);
    FilterConcat(SpawnIf(a.notify, env.dbus, 0), SpawnIf(a.notifyExt, env.ext, 0), IsHelperStart);
    FilterNone([], IsHelperStart);
    if a.dryrun && RoundDue(env.clock, prev) {
      FilterNone([NotifyRound(env.clock.value)], IsHelperStart);
      FilterConcat([NotifyRound(env.clock.value)], NotifyHelpers(a, env), IsHelperStart);
    }
  }

  lemma {:induction false} FailureFilter(a: Args, env: KillProcessEnv, o: Outcome)
    ensures Filter(FailureEvents(a, env, o), IsHelperStart) == HelperIf(o.res != 0 && a.notify, env.errorDbus, 0)
  {
    var nap: Trace := if o.errno == EPERM then [Nap(1000)] else [];
    SpawnFilter(a.notify, env.errorDbus, 0);
    FilterNone([], IsHelperStart);
    FilterNone(nap, IsHelperStart);
    FilterConcat(SpawnIf(a.notify, env.errorDbus, 0), nap, IsHelperStart);
  }

  lemma {:induction false} FilterEnds(x: Trace, y: Trace, z: Trace, p: Event -> bool, fx: Trace, fz: Trace)
    requires Filter(x, p) == fx && Filter(y, p) == [] && Filter(z, p) == fz
    ensures Filter(x + y + z, p) == fx + fz
  {
    FilterConcat(x + y, z, p);
    FilterConcat(x, y, p);
  }

  lemma {:induction false} AftermathFilter(a: Args, sig: int, pid: int, env: KillProcessEnv, prev: int)
    ensures Filter(AftermathEvents(a, sig, pid, env, prev), IsHelperStart) ==
            AftermathHelpers(a, env, prev, KillWaitOf(a, env.kill, pid, sig).res != 0)
  {
    var o := KillWaitOf(a, env.kill, pid, sig);
    NotifyFilter(a, env, prev);
    FailureFilter(a, env, o);
    FilterConcat(NotifyEvents(a, env, prev), FailureEvents(a, env, o), IsHelperStart);
  }

  lemma {:induction false} KillStartsNoHelper(a: Args, env: KillEnv, pid: int, sig: int)
    ensures Filter(KillWaitOf(a, env, pid, sig).events, IsHelperStart) == []
  {
    KillEventsAre(a, env, pid, sig);
    FilterNone(KillWaitOf(a, env, pid, sig).events, IsHelperStart);
  }

  /** Which helpers kill_process starts for a victim, in order, and how long it waits for each:
      the pre-kill hook with 200 ms, D-Bus and script notification when due, and a D-Bus
      notification of the failure. */
  lemma {:induction false} HelpersStarted(a: Args, sig: int, pid: int, env: KillProcessEnv, prev: int)
    requires pid > 0 && sig != 0
    ensures Filter(KillProcessEvents(a, sig, pid, env, prev), IsHelperStart) ==
            HelperIf(a.prehook, env.prehook, 200)
            + AftermathHelpers(a, env, prev, KillWaitOf(a, env.kill, pid, sig).res != 0)
  {
    var o := KillWaitOf(a, env.kill, pid, sig);
    KillProcessParts(a, sig, pid, env, prev);
    SpawnFilter(a.prehook, env.prehook, PREHOOK_STARTUP_SLEEP_MS);
    KillStartsNoHelper(a, env.kill, pid, sig);
    AftermathFilter(a, sig, pid, env, prev);
    FilterEnds(SpawnIf(a.prehook, env.prehook, PREHOOK_STARTUP_SLEEP_MS), o.events, AftermathEvents(a, sig, pid, env, prev),
               IsHelperStart, HelperIf(a.prehook, env.prehook, 200), AftermathHelpers(a, env, prev, o.res != 0));
  }

  /** Without a victim kill_process starts the D-Bus notification, in a rehearsal nothing. */
  lemma {:induction false} HelpersWithoutKill(a: Args, sig: int, pid: int, env: KillProcessEnv, prev: int)
    requires pid <= 0 || sig == 0
    ensures Filter(KillProcessEvents(a, sig, pid, env, prev), IsHelperStart) ==
            if pid <= 0 then HelperIf(a.notify, env.dbus, 0) else []
  {
    if pid <= 0 {
      SpawnFilter(a.notify, env.dbus, 0);
      FilterNone([Nap(1000)], IsHelperStart);
      FilterConcat(SpawnIf(a.notify, env.dbus, 0), [Nap(1000)], IsHelperStart);
    } else {
      assert KillProcessEvents(a, sig, pid, env, prev) == [] + KillWaitOf(a, env.kill, pid, sig).events
          == KillWaitOf(a, env.kill, pid, sig).events;
      KillStartsNoHelper(a, env.kill, pid, sig);
    }
  }

  /** Where forks and signals can be in a trace of three parts. */
  lemma ForkBeforeSignal(hook: Trace, kill: Trace, after: Trace, j: nat, k: nat)
    requires forall e :: e in hook || e in after ==> !e.Signal?
    requires forall e :: e in kill ==> !e.Fork?
    requires j < |hook + kill + after| && (hook + kill + after)[j].Fork?
    requires k < |hook + kill + after| && (hook + kill + after)[k].Signal?
    ensures j < k <==> j < |hook|
    ensures j < |hook| ==> hook[j].Fork?
  {
  }

  /** The pre-kill hook is started before anything is signalled, all other helpers after. */
  lemma {:induction false} HookComesFirst(a: Args, sig: int, pid: int, env: KillProcessEnv, prev: int, j: nat, k: nat)
    requires sig != 0 && pid > 0
    requires j < |KillProcessEvents(a, sig, pid, env, prev)| && KillProcessEvents(a, sig, pid, env, prev)[j].Fork?
    requires k < |KillProcessEvents(a, sig, pid, env, prev)| && KillProcessEvents(a, sig, pid, env, prev)[k].Signal?
    ensures j < k <==> a.prehook && j == 1
  {
    var hook := SpawnIf(a.prehook, env.prehook, PREHOOK_STARTUP_SLEEP_MS);
    KillProcessParts(a, sig, pid, env, prev);
    SpawnsAreHelpers(a.prehook, env.prehook, PREHOOK_STARTUP_SLEEP_MS);
    KillEventsAre(a, env.kill, pid, sig);
    AftermathEventsAre(a, sig, pid, env, prev);
    ForkBeforeSignal(hook, KillWaitOf(a, env.kill, pid, sig).events, AftermathEvents(a, sig, pid, env, prev), j, k);
    SpawnStarts(env.prehook, PREHOOK_STARTUP_SLEEP_MS);
    if j < |hook| {
      OneForkPerSpawn(env.prehook, PREHOOK_STARTUP_SLEEP_MS, j);
    }
  }

  lemma OneForkPerSpawn(env: SpawnEnv, timeoutMs: int, j: nat)
    requires j < |SpawnEvents(env, timeoutMs)| && SpawnEvents(env, timeoutMs)[j].Fork?
    ensures j == 1
  {
  }

  lemma {:induction false} FailureThrottles(a: Args, env: KillProcessEnv, o: Outcome)
    ensures var es := FailureEvents(a, env, o);
            && (Nap(1000) in es <==> o.res != 0 && o.errno == 1)
            && (o.res != 0 && o.errno == 1 ==> es != [] && es[|es| - 1] == Nap(1000))
  {
    SpawnsAreHelpers(a.notify, env.errorDbus, 0);
  }

  lemma {:induction false} NotifyDoesNotThrottle(a: Args, env: KillProcessEnv, prev: int)
    ensures Nap(1000) !in NotifyEvents(a, env, prev)
  {
    SpawnsAreHelpers(a.notify, env.dbus, 0);
    SpawnsAreHelpers(a.notifyExt, env.ext, 0);
    InConcat(SpawnIf(a.notify, env.dbus, 0), SpawnIf(a.notifyExt, env.ext, 0));
  }

  lemma NapInThree(x: Trace, y: Trace, z: Trace, w: Trace)
    requires Nap(1000) !in x && Nap(1000) !in y && Nap(1000) !in z
    ensures Nap(1000) in x + y + (z + w) <==> Nap(1000) in w
    ensures w != [] ==> (x + y + (z + w))[|x + y + (z + w)| - 1] == w[|w| - 1]
  {
  }

  /** kill_process sleeps a second, as its last step, if and only if there was no victim or the
      kill failed with EPERM. */
  lemma {:induction false} ThrottledIff(a: Args, sig: int, pid: int, env: KillProcessEnv, prev: int)
    ensures var es, o := KillProcessEvents(a, sig, pid, env, prev), KillWaitOf(a, env.kill, pid, sig);
            var throttled := pid <= 0 || (sig != 0 && o.res != 0 && o.errno == 1);
            && (Nap(1000) in es <==> throttled)
            && (throttled ==> es != [] && es[|es| - 1] == Nap(1000))
  {
    if pid > 0 {
      var o := KillWaitOf(a, env.kill, pid, sig);
      var hook := SpawnIf(sig != 0 && a.prehook, env.prehook, PREHOOK_STARTUP_SLEEP_MS);
      NoLongNap(a, env.kill, pid, sig);
      SpawnsAreHelpers(sig != 0 && a.prehook, env.prehook, PREHOOK_STARTUP_SLEEP_MS);
      if sig == 0 {
        InConcat(hook, o.events);
      } else {
        NotifyDoesNotThrottle(a, env, prev);
        FailureThrottles(a, env, o);
        NapInThree(hook, o.events, NotifyEvents(a, env, prev), FailureEvents(a, env, o));
      }
    }
  }

  lemma {:induction false} NoLongNap(a: Args, env: KillEnv, pid: int, sig: int)
    ensures Nap(1000) !in KillWaitOf(a, env, pid, sig).events
  {
    var es := KillWaitOf(a, env, pid, sig).events;
    WaitIsPaced(a, env, pid, sig);
    forall k: nat | k < |es|
      ensures es[k] != Nap(1000)
    {
      assert PacedAt(Target(a, env, pid), es, k);
    }
  }

  // ---------------------------------------------------------------------------
  // Start-up
  // ---------------------------------------------------------------------------

  /** The self-test: --kernel-oom is kept if and only if sysrq-trigger is accessible and nothing
      else changes; in user mode one scan is followed by signal 0 to the victim, if there is one
      and with -g its group is known, and by no helper for it. */
  lemma {:induction false} StartupMeans(a: Args, env: PollEnv)
    ensures StartupArgs(a, env) == a.(kernelOom := a.kernelOom && env.sysrq.accessible)
    ensures a.kernelOom ==> StartupEvents(a, env) == []
    ensures !a.kernelOom ==>
              var es, pid := StartupEvents(a, env), VictimPid(a, env.entries);
              && es != [] && es[0] == Scan(env.entries, pid)
              && (pid > 0 ==> Filter(es, IsHelperStart) == [])
              && (pid > 0 && (a.killProcessGroup ==> env.kill.kill.getpgid.res >= 0) ==>
                    Signal(Target(a, env.kill.kill, pid), 0) in es)
  {
    SysrqResultIff(a.(dryrun := true), env.sysrq);
    if !a.kernelOom {
      var pid := VictimPid(a, env.entries);
      var scan, rest := [Scan(env.entries, pid)], KillProcessEvents(a, 0, pid, env.kill, START.prevNotify);
      HelpersWithoutKill(a, 0, pid, env.kill, START.prevNotify);
      FilterConcat(scan, rest, IsHelperStart);
      FilterNone(scan, IsHelperStart);
      if pid > 0 && !SendsNothing(a, env.kill.kill, 0) {
        RequestedSignalIsSent(a, env.kill.kill, pid, 0);
        assert Signal(Target(a, env.kill.kill, pid), 0) in rest;
      }
    }
  }
}
