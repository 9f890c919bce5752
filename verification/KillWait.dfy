/** Killing one process and waiting for it (kill_wait and kill_release in kill.c), as a trace
    of system calls and readings. What the kernel answers is arbitrary. */
module KillWait {
  import opened Common
  import opened VictimSelection
  import opened Limits

  /** Everything observable the daemon does. */
  datatype Event =
    | PollReading(m: MemInfo)              // at the top of poll_loop
    | Scan(entries: seq<Entry>, victim: int)
    | RecheckReading(m: MemInfo)           // after the scan
    | EscalationReading(m: MemInfo)        // while waiting for the victim
    | Getpgid(pid: int, group: int)        // getpgid and its result
    | Open(fd: int)                        // pidfd_open and its result
    | Close(fd: int)
    | Signal(target: int, sig: int)        // kill
    | MRelease(fd: int)                    // process_mrelease
    | AliveCheck(target: int, alive: bool)
    | Nap(ms: int)
    | BlockSigchld
    | UnblockSigchld
    | Fork(pid: int)
    | PollChild(fd: int, timeoutMs: int)
    | Waitpid(pid: int)
    | NotifyRound(second: int)
    | SysrqWrite
    | Report(m: MemInfo)
    | AdaptiveSleep(ms: int)

  type Trace = seq<Event>

  /** Return value of a system call and the errno it leaves behind when it fails. */
  datatype SysResult = SysResult(res: int, errno: int)

  /** All answers kill_wait may get. reading and alive are indexed by the round of the wait
      loop; noise is whatever errno happens to be on the successful path. */
  datatype KillEnv = KillEnv(
    getpgid: SysResult,
    pidfd: SysResult,
    firstKill: SysResult,
    secondKill: SysResult,
    reading: nat -> MemInfo,
    alive: nat -> bool,
    close: SysResult,
    noise: int)

  const ROUNDS: nat := 100
  const POLL_MS: int := 100

  datatype Outcome = Outcome(events: Trace, res: int, errno: int)

  function Prepend(es: Trace, o: Outcome): Outcome {
    o.(events := es + o.events)
  }

  lemma PrependTwice(es: Trace, fs: Trace, o: Outcome)
    ensures Prepend(es, Prepend(fs, o)) == Prepend(es + fs, o)
  {
    assert es + (fs + o.events) == es + fs + o.events;
  }

  lemma AppendTwice(es: Trace, fs: Trace, gs: Trace)
    ensures es + fs + gs == es + (fs + gs)
  {
  }

  lemma AppendPair(es: Trace, fs: Trace, x: Event, y: Event)
    ensures es + fs + [x] + [y] == es + (fs + [x, y])
  {
  }

  // ---------------------------------------------------------------------------
  // Specification
  // ---------------------------------------------------------------------------

  /** kill_release: process_mrelease follows a successful kill when there is a pidfd. */
  function Released(target: int, fd: int, sig: int, kill: SysResult): Trace {
    [Signal(target, sig)] + if kill.res == 0 && fd >= 0 then [MRelease(fd)] else []
  }

  /** Round i escalates: SIGKILL was not sent yet and the reading is at or below both SIGKILL
      limits. */
  predicate Escalates(a: Args, env: KillEnv, sig: int, i: nat) {
    sig != SIGKILL && AtOrBelowKill(a, env.reading(i))
  }

  /** Round i up to the liveness test; sig is the last signal sent. */
  function RoundStart(a: Args, env: KillEnv, target: int, fd: int, sig: int, i: nat): Trace {
    (if sig == SIGKILL then [] else [EscalationReading(env.reading(i))])
    + (if Escalates(a, env, sig, i) then Released(target, fd, SIGKILL, env.secondKill) else [])
  }

  /** Round i of the wait loop and everything after it. */
  function WaitFrom(a: Args, env: KillEnv, target: int, fd: int, sig: int, i: nat): Outcome
    requires i <= ROUNDS
    decreases ROUNDS - i, target
  {
    if i == ROUNDS then Outcome([], -1, ETIME)
    else
      var start := RoundStart(a, env, target, fd, sig, i);
      if Escalates(a, env, sig, i) && env.secondKill.res != 0 then
        Outcome(start, env.secondKill.res, env.secondKill.errno)
      else if !env.alive(i) then
        Outcome(start + [AliveCheck(target, false)], 0, env.noise)
      else
        Prepend(start + [AliveCheck(target, true), Nap(POLL_MS)],
                WaitFrom(a, env, target, fd, if Escalates(a, env, sig, i) then SIGKILL else sig, i + 1))
  }

  function SignalAndWait(a: Args, env: KillEnv, target: int, fd: int, sig: int): Outcome {
    var es := Released(target, fd, sig, env.firstKill);
    if env.firstKill.res != 0 then Outcome(es, env.firstKill.res, env.firstKill.errno)
    else if sig == 0 then Outcome(es, 0, env.noise)
    else Prepend(es, WaitFrom(a, env, target, fd, sig, 0))
  }

  /** -g addresses the whole process group by negating its id. */
  function Target(a: Args, env: KillEnv, pid: int): int {
    if a.killProcessGroup then -env.getpgid.res else pid
  }

  /** The pidfd in use, -1 without one. */
  function PidfdFor(a: Args, env: KillEnv, sig: int): int {
    if a.killProcessGroup || sig == 0 then -1 else env.pidfd.res
  }

  /** What comes before the first kill. */
  function Opening(a: Args, env: KillEnv, pid: int, sig: int): Trace {
    if a.killProcessGroup then [Getpgid(pid, env.getpgid.res)]
    else if sig == 0 then []
    else [Open(env.pidfd.res)]
  }

  function Closing(a: Args, env: KillEnv, sig: int): Trace {
    if PidfdFor(a, env, sig) >= 0 then [Close(PidfdFor(a, env, sig))] else []
  }

  function KillWaitOf(a: Args, env: KillEnv, pid: int, sig: int): Outcome {
    if a.dryrun && sig != 0 then Outcome([], 0, env.noise)
    else if a.killProcessGroup && env.getpgid.res < 0 then
      Outcome([Getpgid(pid, env.getpgid.res)], env.getpgid.res, env.getpgid.errno)
    else
      var o := SignalAndWait(a, env, Target(a, env, pid), PidfdFor(a, env, sig), sig);
      o.(events := Opening(a, env, pid, sig) + o.events + Closing(a, env, sig))
  }

  // ---------------------------------------------------------------------------
  // The code
  // ---------------------------------------------------------------------------

  method KillRelease(target: int, fd: int, sig: int, kill: SysResult) returns (res: int, events: Trace)
    ensures res == kill.res && events == Released(target, fd, sig, kill)
  {
    events := [Signal(target, sig)];
    res := kill.res;
    if res != 0 {
      return;
    }
    if fd < 0 {
      return;
    }
    events := events + [MRelease(fd)];
  }

  /** kill_wait from the first kill to out_close. */
  method SendAndWait(a: Args, env: KillEnv, target: int, fd: int, sig0: int)
    returns (res: int, errno: int, events: Trace)
    ensures Outcome(events, res, errno) == SignalAndWait(a, env, target, fd, sig0)
  {
    var sig := sig0;
    res, events := KillRelease(target, fd, sig, env.firstKill);
    if res != 0 {
      errno := env.firstKill.errno;
      return;
    }
    if sig == 0 {
      errno := env.noise;
      return;
    }
    ghost var whole := SignalAndWait(a, env, target, fd, sig0);
    for i := 0 to ROUNDS
      invariant whole == Prepend(events, WaitFrom(a, env, target, fd, sig, i))
    {
      ghost var before := events;
      ghost var start := RoundStart(a, env, target, fd, sig, i);
      if sig != SIGKILL {
        var m := env.reading(i);
        events := events + [EscalationReading(m)];
        if m.memAvailablePercent <= a.memKillPercent && m.swapFreePercent <= a.swapKillPercent {
          sig := SIGKILL;
          var more;
          res, more := KillRelease(target, fd, sig, env.secondKill);
          AppendTwice(before, [EscalationReading(m)], more);
          events := events + more;
          if res != 0 {
            errno := env.secondKill.errno;
            return;
          }
        }
      }
      assert events == before + start;
      events := events + [AliveCheck(target, env.alive(i))];
      if !env.alive(i) {
        res, errno := 0, env.noise;
        AppendTwice(before, start, [AliveCheck(target, false)]);
        return;
      }
      events := events + [Nap(POLL_MS)];
      AppendPair(before, start, AliveCheck(target, true), Nap(POLL_MS));
      PrependTwice(before, start + [AliveCheck(target, true), Nap(POLL_MS)], WaitFrom(a, env, target, fd, sig, i + 1));
    }
    res, errno := -1, ETIME;
    assert events + [] == events;
  }

  /** kill_wait */
  method KillAndWait(a: Args, env: KillEnv, pid0: int, sig: int)
    returns (res: int, errno: int, events: Trace)
    ensures Outcome(events, res, errno) == KillWaitOf(a, env, pid0, sig)
  {
    var pid, pidfd := pid0, -1;
    events := [];
    if a.dryrun && sig != 0 {
      res, errno := 0, env.noise;
      return;
    }
    if a.killProcessGroup {
      events := events + [Getpgid(pid, env.getpgid.res)];
      if env.getpgid.res < 0 {
        res, errno := env.getpgid.res, env.getpgid.errno;
        return;
      }
      pid := -env.getpgid.res;
    }
    if !a.killProcessGroup && sig != 0 {
      pidfd := env.pidfd.res;
      events := events + [Open(pidfd)];
    }
    var more;
    res, errno, more := SendAndWait(a, env, pid, pidfd, sig);
    assert events == Opening(a, env, pid0, sig);
    events := events + more;
    if pidfd >= 0 {
      var saved := errno;
      events := events + [Close(pidfd)];
      if env.close.res != 0 {
        errno := env.close.errno;
      }
      errno := saved;
    }
    assert events == Opening(a, env, pid0, sig) + more + Closing(a, env, sig);
  }
}
