/** The main loop (poll_loop in main.c) with everything it calls: kill_process, the hooks and
    notifications, the kernel OOM trigger and the start-up self-test. Each turn gets arbitrary
    readings, process lists, system call results and clock values. */
module Daemon {
  import opened Common
  import opened VictimSelection
  import opened Limits
  import opened SleepTiming
  import opened KillWait

  // ---------------------------------------------------------------------------
  // Answers of the environment
  // ---------------------------------------------------------------------------

  /** pidfd_open: a descriptor or -1 */
  type Fd = x: int | x >= -1

  /** fork in the parent: a pid or -1 */
  type ForkResult = x: int | x == -1 || x > 0 witness -1

  datatype SpawnEnv = SpawnEnv(fork: ForkResult, pidfd: Fd, ready: int)

  /** Answers to kill_process: clock is None when clock_gettime fails. */
  datatype KillProcessEnv = KillProcessEnv(
    prehook: SpawnEnv, kill: KillEnv, clock: Option<int>, dbus: SpawnEnv, ext: SpawnEnv, errorDbus: SpawnEnv)

  datatype SysrqEnv = SysrqEnv(accessible: bool, openable: bool, writable: bool, dbus: SpawnEnv)

  /** Answers to one turn of poll_loop. */
  datatype PollEnv = PollEnv(
    first: MemInfo, entries: seq<Entry>, second: MemInfo, kill: KillProcessEnv, sysrq: SysrqEnv)

  const PREHOOK_STARTUP_SLEEP_MS: int := 200
  const NOTIFY_RATELIMIT: int := 1

  // ---------------------------------------------------------------------------
  // Specification
  // ---------------------------------------------------------------------------

  /** notify_spawn_subprocess, parent side. */
  function SpawnEvents(env: SpawnEnv, timeoutMs: int): Trace {
    [BlockSigchld, Fork(env.fork)]
    + (if env.fork == -1 then [] else
         [Open(env.pidfd)]
         + if env.pidfd == -1 then [] else
             [PollChild(env.pidfd, timeoutMs)] + (if env.ready > 0 then [Waitpid(env.fork)] else []) + [Close(env.pidfd)])
    + [UnblockSigchld]
  }

  function SpawnIf(wanted: bool, env: SpawnEnv, timeoutMs: int): Trace {
    if wanted then SpawnEvents(env, timeoutMs) else []
  }

  /** A dry run skips the notification when the clock fails or less than a second has passed. */
  predicate RoundDue(clock: Option<int>, prev: int) {
    clock.Some? && clock.value - prev >= NOTIFY_RATELIMIT
  }

  /** The helpers started by notify_process_killed. */
  function NotifyHelpers(a: Args, env: KillProcessEnv): Trace {
    SpawnIf(a.notify, env.dbus, 0) + SpawnIf(a.notifyExt, env.ext, 0)
  }

  function NotifyEvents(a: Args, env: KillProcessEnv, prev: int): Trace {
    if !a.dryrun then NotifyHelpers(a, env)
    else if RoundDue(env.clock, prev) then [NotifyRound(env.clock.value)] + NotifyHelpers(a, env)
    else []
  }

  function NextNotify(a: Args, env: KillProcessEnv, prev: int): int {
    if a.dryrun && RoundDue(env.clock, prev) then env.clock.value else prev
  }

  function FailureEvents(a: Args, env: KillProcessEnv, o: Outcome): Trace {
    if o.res == 0 then []
    else SpawnIf(a.notify, env.errorDbus, 0) + if o.errno == EPERM then [Nap(1000)] else []
  }

  /** What a process dies of: hook, signals and wait. */
  function KillEvents(a: Args, sig: int, pid: int, env: KillProcessEnv): Trace {
    SpawnIf(sig != 0 && a.prehook, env.prehook, PREHOOK_STARTUP_SLEEP_MS) + KillWaitOf(a, env.kill, pid, sig).events
  }

  /** kill_process */
  function KillProcessEvents(a: Args, sig: int, pid: int, env: KillProcessEnv, prev: int): Trace {
    if pid <= 0 then SpawnIf(a.notify, env.dbus, 0) + [Nap(1000)]
    else if sig == 0 then KillEvents(a, sig, pid, env)
    else
      KillEvents(a, sig, pid, env)
      + (NotifyEvents(a, env, prev) + FailureEvents(a, env, KillWaitOf(a, env.kill, pid, sig)))
  }

  function KillProcessNotify(a: Args, sig: int, pid: int, env: KillProcessEnv, prev: int): int {
    if pid <= 0 || sig == 0 then prev else NextNotify(a, env, prev)
  }

  /** trigger_kernel_oom: its result and what it does. */
  function SysrqResult(a: Args, env: SysrqEnv): int {
    if !env.accessible then -1
    else if a.dryrun then 0
    else if env.openable && env.writable then 0 else -1
  }

  function SysrqEvents(a: Args, env: SysrqEnv): Trace {
    if !env.accessible || a.dryrun || !env.openable then []
    else [SysrqWrite] + SpawnIf(env.writable && a.notify, env.dbus, 0)
  }

  /** What the loop carries from turn to turn: report_countdown_ms, and prev_notify of
      notify_process_killed (its seconds). */
  datatype State = State(countdown: int, prevNotify: int)

  const START: State := State(0, 0)

  datatype Progress = Progress(trace: Trace, state: State)

  /** A low turn in which memory is still low after the scan kills; otherwise nothing. */
  function ReactionEvents(a: Args, st: State, env: PollEnv): Trace {
    if LowmemSig(a, env.second) == 0 then []
    else KillProcessEvents(a, LowmemSig(a, env.first), VictimPid(a, env.entries), env.kill, st.prevNotify)
  }

  function ReactionNotify(a: Args, st: State, env: PollEnv): int {
    if LowmemSig(a, env.second) == 0 then st.prevNotify
    else KillProcessNotify(a, LowmemSig(a, env.first), VictimPid(a, env.entries), env.kill, st.prevNotify)
  }

  /** A low turn with --kernel-oom. It ends in `continue`: no adaptive sleep, and the countdown
      stands still. */
  function KernelOomTurn(a: Args, st: State, env: PollEnv): Progress {
    Progress([PollReading(env.first)] + SysrqEvents(a, env.sysrq) + [Nap(500)], st)
  }

  /** A low turn in user mode. */
  function LowTurn(a: Args, st: State, env: PollEnv): Progress {
    var ms := SleepMs(a, env.second);
    Progress([PollReading(env.first), Scan(env.entries, VictimPid(a, env.entries)), RecheckReading(env.second)]
             + (ReactionEvents(a, st, env) + [AdaptiveSleep(ms)]),
             State(NextCountdown(a.reportIntervalMs, st.countdown, true, ms), ReactionNotify(a, st, env)))
  }

  /** A turn with enough memory. */
  function CalmTurn(a: Args, st: State, env: PollEnv): Progress {
    var ms := SleepMs(a, env.first);
    Progress([PollReading(env.first)]
             + (if Reports(a.reportIntervalMs, st.countdown, false) then [Report(env.first)] else [])
             + [AdaptiveSleep(ms)],
             State(NextCountdown(a.reportIntervalMs, st.countdown, false, ms), st.prevNotify))
  }

  /** One turn of poll_loop. */
  function PollOf(a: Args, st: State, env: PollEnv): Progress {
    if LowmemSig(a, env.first) == 0 then CalmTurn(a, st, env)
    else if a.kernelOom then KernelOomTurn(a, st, env)
    else LowTurn(a, st, env)
  }

  /** Any number of turns from the start of poll_loop. */
  function RunOf(a: Args, envs: seq<PollEnv>): Progress {
    if envs == [] then Progress([], START)
    else
      var n := |envs| - 1;
      var before := RunOf(a, envs[..n]);
      var turn := PollOf(a, before.state, envs[n]);
      Progress(before.trace + turn.trace, turn.state)
  }

  /** startup_selftests: a kernel OOM killer that cannot be triggered is given up for user mode;
      in user mode the scan and a kill with signal 0 are rehearsed. */
  function StartupArgs(a: Args, env: PollEnv): Args {
    if a.kernelOom && SysrqResult(a.(dryrun := true), env.sysrq) != 0 then a.(kernelOom := false) else a
  }

  function StartupEvents(a: Args, env: PollEnv): Trace {
    if a.kernelOom then []
    else [Scan(env.entries, VictimPid(a, env.entries))]
         + KillProcessEvents(a, 0, VictimPid(a, env.entries), env.kill, START.prevNotify)
  }

  /** The self-test followed by the loop. */
  function DaemonTrace(a: Args, startup: PollEnv, envs: seq<PollEnv>): Trace {
    StartupEvents(a, startup) + RunOf(StartupArgs(a, startup), envs).trace
  }

  // ---------------------------------------------------------------------------
  // The code
  // ---------------------------------------------------------------------------

  /** notify_spawn_subprocess: all exits pass through the unblocking at the end. */
  method NotifySpawnSubprocess(env: SpawnEnv, timeoutMs: int) returns (events: Trace)
    ensures events == SpawnEvents(env, timeoutMs)
  {
    events := [BlockSigchld];
    var pid := env.fork;
    events := events + [Fork(pid)];
    if pid != -1 {
      var pidfd := env.pidfd;
      events := events + [Open(pidfd)];
      if pidfd != -1 {
        events := events + [PollChild(pidfd, timeoutMs)];
        if env.ready > 0 {
          events := events + [Waitpid(pid)];
        }
        events := events + [Close(pidfd)];
      }
    }
    events := events + [UnblockSigchld];
  }

  lemma TurnAppends(x: Event, y: Event, z: Event, es: Trace, last: Event)
    ensures [x] + ([y, z] + es) + [last] == [x, y, z] + (es + [last])
  {
  }

  /** The state of the process: a local variable of poll_loop and a static variable of
      notify_process_killed. */
  class Poller {
    const a: Args
    var reportCountdownMs: int
    var prevNotify: int
    ghost var trace: Trace

    constructor (args: Args)
      ensures a == args && trace == [] && CurrentState() == START
    {
      a := args;
      reportCountdownMs, prevNotify, trace := 0, 0, [];
    }

    function CurrentState(): State
      reads this
    {
      State(reportCountdownMs, prevNotify)
    }

    /** notify_process_killed */
    method NotifyProcessKilled(env: KillProcessEnv) returns (events: Trace)
      modifies `prevNotify
      ensures events == NotifyEvents(a, env, old(prevNotify))
      ensures prevNotify == NextNotify(a, env, old(prevNotify))
    {
      events := [];
      if a.dryrun {
        if env.clock.None? {
          return;
        }
        var now := env.clock.value;
        if now - prevNotify < NOTIFY_RATELIMIT {
          return;
        }
        prevNotify := now;
        events := [NotifyRound(now)];
      }
      var dbus, ext: Trace := [], [];
      if a.notify {
        dbus := NotifySpawnSubprocess(env.dbus, 0);
      }
      if a.notifyExt {
        ext := NotifySpawnSubprocess(env.ext, 0);
      }
      events := events + (dbus + ext);
      assert [] + (dbus + ext) == dbus + ext;
    }

    /** kill_process */
    method KillProcess(sig: int, pid: int, env: KillProcessEnv) returns (events: Trace)
      modifies `prevNotify
      ensures events == KillProcessEvents(a, sig, pid, env, old(prevNotify))
      ensures prevNotify == KillProcessNotify(a, sig, pid, env, old(prevNotify))
    {
      events := [];
      if pid <= 0 {
        if a.notify {
          events := NotifySpawnSubprocess(env.dbus, 0);
        }
        events := events + [Nap(1000)];
        return;
      }
      if sig != 0 && a.prehook {
        events := NotifySpawnSubprocess(env.prehook, PREHOOK_STARTUP_SLEEP_MS);
      }
      var res, errno, killed := KillAndWait(a, env.kill, pid, sig);
      events := events + killed;
      if sig == 0 {
        return;
      }
      var notified := NotifyProcessKilled(env);
      var failure: Trace := [];
      if res != 0 {
        if a.notify {
          failure := NotifySpawnSubprocess(env.errorDbus, 0);
        }
        if errno == EPERM {
          failure := failure + [Nap(1000)];
        }
      }
      events := events + (notified + failure);
    }

    /** trigger_kernel_oom */
    method TriggerKernelOom(env: SysrqEnv) returns (res: int, events: Trace)
      ensures res == SysrqResult(a, env) && events == SysrqEvents(a, env)
    {
      events := [];
      if !env.accessible {
        return -1, events;
      }
      if a.dryrun {
        return 0, events;
      }
      if !env.openable {
        return -1, events;
      }
      events := [SysrqWrite];
      if !env.writable {
        return -1, events;
      }
      if a.notify {
        var helper := NotifySpawnSubprocess(env.dbus, 0);
        events := events + helper;
      }
      return 0, events;
    }

    /** The user-mode reaction of poll_loop to a low first reading, up to the sleep: scan,
        check memory again, kill. */
    method ReactToLowMemory(env: PollEnv, sig: int) returns (events: Trace)
      requires sig == LowmemSig(a, env.first)
      modifies `prevNotify
      ensures events == [Scan(env.entries, VictimPid(a, env.entries)), RecheckReading(env.second)]
                        + ReactionEvents(a, old(CurrentState()), env)
      ensures prevNotify == ReactionNotify(a, old(CurrentState()), env)
    {
      var victim := FindLargestProcess(a, env.entries);
      var m := env.second;
      events := [Scan(env.entries, victim.pid), RecheckReading(m)];
      if LowmemSig(a, m) != 0 {
        var reaction := KillProcess(sig, victim.pid, env.kill);
        events := events + reaction;
      }
    }

    /** One turn of poll_loop. */
    method Poll(env: PollEnv)
      modifies this
      ensures trace == old(trace) + PollOf(a, old(CurrentState()), env).trace
      ensures CurrentState() == PollOf(a, old(CurrentState()), env).state
    {
      var m := env.first;
      var events := [PollReading(m)];
      var sig := LowmemSig(a, m);
      if sig != 0 {
        if a.kernelOom {
          var _, sysrq := TriggerKernelOom(env.sysrq);
          trace := trace + (events + sysrq + [Nap(500)]);
          return;
        }
        var reaction := ReactToLowMemory(env, sig);
        TurnAppends(PollReading(m), Scan(env.entries, VictimPid(a, env.entries)), RecheckReading(env.second),
                    ReactionEvents(a, old(CurrentState()), env), AdaptiveSleep(SleepMs(a, env.second)));
        events := events + reaction;
        m := env.second;
      } else if a.reportIntervalMs != 0 && reportCountdownMs <= 0 {
        events := events + [Report(m)];
        reportCountdownMs := a.reportIntervalMs;
      }
      var sleepMs := SleepMs(a, m);
      events := events + [AdaptiveSleep(sleepMs)];
      assert events == PollOf(a, old(CurrentState()), env).trace;
      trace := trace + events;
      reportCountdownMs := reportCountdownMs - sleepMs;
    }
  }

  /** startup_selftests; may switch args->kernel_oom off. */
  method StartupSelftests(a: Args, env: PollEnv) returns (args: Args, events: Trace)
    ensures args == StartupArgs(a, env) && events == StartupEvents(a, env)
  {
    args, events := a, [];
    if args.kernelOom {
      var rehearsal := new Poller(args.(dryrun := true));
      var res, _ := rehearsal.TriggerKernelOom(env.sysrq);
      if res != 0 {
        args := args.(kernelOom := false);
      }
    } else {
      var rehearsal := new Poller(args);
      var victim := FindLargestProcess(args, env.entries);
      events := rehearsal.KillProcess(0, victim.pid, env.kill);
      events := [Scan(env.entries, victim.pid)] + events;
    }
  }

  /** poll_loop for as many turns as there are answers. */
  method PollLoop(a: Args, envs: seq<PollEnv>) returns (p: Poller)
    ensures fresh(p) && p.a == a
    ensures Progress(p.trace, p.CurrentState()) == RunOf(a, envs)
  {
    p := new Poller(a);
    for i := 0 to |envs|
      invariant fresh(p) && p.a == a
      invariant Progress(p.trace, p.CurrentState()) == RunOf(a, envs[..i])
    {
      assert envs[..i + 1][..i] == envs[..i];
      p.Poll(envs[i]);
    }
    assert envs[..|envs|] == envs;
  }
}
