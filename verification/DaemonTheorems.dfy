/** Safety of whole runs of the daemon, over every stream of readings, process lists, system
    call results and clock values. */
module DaemonTheorems {
  import opened Common
  import opened VictimSelection
  import opened VictimTheorems
  import opened Limits
  import opened SleepTiming
  import opened KillWait
  import opened KillTheorems
  import opened Daemon

  // ---------------------------------------------------------------------------
  // What the parts of a turn are made of
  // ---------------------------------------------------------------------------

  /** Events of helper processes. */
  predicate HelperEvent(e: Event) {
    e.BlockSigchld? || e.UnblockSigchld? || e.Fork? || e.Open? || e.PollChild? || e.Waitpid? || e.Close?
  }

  lemma SpawnsAreHelpers(wanted: bool, env: SpawnEnv, timeoutMs: int)
    ensures forall e :: e in SpawnIf(wanted, env, timeoutMs) ==> HelperEvent(e)
  {
  }

  /** Events of kill_wait. */
  predicate KillEvent(e: Event) {
    e.Getpgid? || e.Open? || e.Close? || e.Signal? || e.MRelease? || e.EscalationReading? || e.AliveCheck? || e.Nap?
  }

  lemma {:induction false} SendEventsAre(a: Args, env: KillEnv, t: int, fd: int, sig: int)
    ensures forall e :: e in SignalAndWait(a, env, t, fd, sig).events ==> KillEvent(e)
  {
    WaitLoopEvents(a, env, t, fd, sig, 0);
    var waited := WaitFrom(a, env, t, fd, sig, 0).events;
    forall e | e in SignalAndWait(a, env, t, fd, sig).events
      ensures KillEvent(e)
    {
      assert e in waited ==> WaitEvent(t, e);
    }
  }

  lemma {:induction false} KillEventsAre(a: Args, env: KillEnv, pid: int, sig: int)
    ensures forall e :: e in KillWaitOf(a, env, pid, sig).events ==> KillEvent(e)
  {
    SendEventsAre(a, env, Target(a, env, pid), PidfdFor(a, env, sig), sig);
  }

  /** What kill_process does after the wait: notifications and throttling. */
  function AftermathEvents(a: Args, sig: int, pid: int, env: KillProcessEnv, prev: int): Trace {
    NotifyEvents(a, env, prev) + FailureEvents(a, env, KillWaitOf(a, env.kill, pid, sig))
  }

  predicate AftermathEvent(e: Event) {
    HelperEvent(e) || e.NotifyRound? || e.Nap?
  }

  lemma AftermathEventsAre(a: Args, sig: int, pid: int, env: KillProcessEnv, prev: int)
    ensures forall e :: e in AftermathEvents(a, sig, pid, env, prev) ==> AftermathEvent(e)
  {
    SpawnsAreHelpers(a.notify, env.dbus, 0);
    SpawnsAreHelpers(a.notifyExt, env.ext, 0);
    SpawnsAreHelpers(a.notify, env.errorDbus, 0);
  }

  // ---------------------------------------------------------------------------
  // Every signal is justified
  // ---------------------------------------------------------------------------

  /** The victim of a scan: killable among the entries read, pid above 2, not earlyoom. */
  ghost predicate LegitimateVictim(a: Args, es: seq<Entry>, pid: int) {
    && pid > 2
    && pid != a.selfPid
    && exists e :: e in es && Killable(a, e) && ParsePid(e.dname) == pid
  }

  /** A signal to target at k is meant for pid: it goes to pid itself, or with -g to the group
      that getpgid answered for it, negated. */
  ghost predicate MeantFor(a: Args, es: Trace, k: nat, pid: int) {
    && k < |es| && es[k].Signal?
    && if a.killProcessGroup
       then es[k].target <= 0 && Getpgid(pid, -es[k].target) in es[..k]
       else es[k].target == pid
  }

  /** A stretch of the trace that ends with a signal and explains it: it starts with a low
      reading, the scan that chose the process it is meant for and a second low reading; no
      other turn starts in it; and the signal is the one due for the first reading, or an escalation right after a
      reading at or below both SIGKILL limits. */
  ghost predicate Explanation(a: Args, es: Trace) {
    var k := |es| - 1;
    && k >= 3
    && es[0].PollReading? && es[1].Scan? && es[2].RecheckReading? && es[k].Signal?
    && LowmemSig(a, es[0].m) != 0
    && LowmemSig(a, es[2].m) != 0
    && MeantFor(a, es, k, es[1].victim)
    && LegitimateVictim(a, es[1].entries, es[1].victim)
    && (forall i :: 1 <= i < k ==> !es[i].PollReading?)
    && (|| es[k].sig == LowmemSig(a, es[0].m)
        || (es[k].sig == 9 && es[k - 1].EscalationReading?
            && es[k - 1].m.memAvailablePercent <= a.memKillPercent && es[k - 1].m.swapFreePercent <= a.swapKillPercent))
  }

  ghost predicate ExplainedFrom(a: Args, tr: Trace, k: nat, j: nat) {
    j <= k < |tr| && Explanation(a, tr[j..k + 1])
  }

  ghost predicate AllSignalsExplained(a: Args, tr: Trace) {
    forall k: nat :: k < |tr| && tr[k].Signal? ==> Explained(a, tr, k)
  }

  lemma SliceOfPrefix(es: Trace, fs: Trace, i: nat, j: nat)
    requires i <= j <= |es|
    ensures (es + fs)[i..j] == es[i..j]
  {
  }

  lemma SliceOfSuffix(es: Trace, fs: Trace, i: nat, j: nat)
    requires i <= j <= |fs|
    ensures (es + fs)[|es| + i..|es| + j] == fs[i..j]
  {
  }

  ghost predicate Explained(a: Args, tr: Trace, k: nat) {
    exists j: nat :: ExplainedFrom(a, tr, k, j)
  }

  /** Only the stretch itself matters, not what is around it. */
  lemma ExplainedInPrefix(a: Args, es: Trace, fs: Trace, k: nat)
    requires Explained(a, es, k)
    ensures Explained(a, es + fs, k)
  {
    var j: nat :| ExplainedFrom(a, es, k, j);
    SliceOfPrefix(es, fs, j, k + 1);
    assert ExplainedFrom(a, es + fs, k, j);
  }

  lemma ExplainedInSuffix(a: Args, es: Trace, fs: Trace, k: nat)
    requires Explained(a, fs, k)
    ensures Explained(a, es + fs, |es| + k)
  {
    var j: nat :| ExplainedFrom(a, fs, k, j);
    SliceOfSuffix(es, fs, j, k + 1);
    var n := |es| + k;
    assert n + 1 == |es| + (k + 1);
    assert ExplainedFrom(a, es + fs, n, |es| + j);
  }

  lemma ExplainedConcat(a: Args, es: Trace, fs: Trace)
    requires AllSignalsExplained(a, es) && AllSignalsExplained(a, fs)
    ensures AllSignalsExplained(a, es + fs)
  {
    var all := es + fs;
    forall k: nat | k < |all| && all[k].Signal?
      ensures Explained(a, all, k)
    {
      if k < |es| {
        ExplainedInPrefix(a, es, fs, k);
      } else {
        ExplainedInSuffix(a, es, fs, k - |es|);
      }
    }
  }

  lemma NoSignalsExplained(a: Args, tr: Trace)
    requires forall e :: e in tr ==> !e.Signal?
    ensures AllSignalsExplained(a, tr)
  {
  }

  /** A signal sent by kill_process is meant for the pid it was given. */
  ghost predicate SignalFrom(a: Args, sig: int, pid: int, es: Trace, k: nat) {
    && k < |es| && es[k].Signal?
    && pid > 0
    && MeantFor(a, es, k, pid)
    && (|| es[k].sig == sig
        || (es[k].sig == 9 && k > 0 && es[k - 1].EscalationReading?
            && es[k - 1].m.memAvailablePercent <= a.memKillPercent && es[k - 1].m.swapFreePercent <= a.swapKillPercent))
  }

  lemma SignalInKill(pre: Trace, mid: Trace, post: Trace, k: nat) returns (i: nat)
    requires k < |pre + mid + post| && (pre + mid + post)[k].Signal?
    requires forall e :: e in pre || e in post ==> !e.Signal?
    ensures i < |mid| && i <= k && mid[i].Signal? && mid[i] == (pre + mid + post)[k]
    ensures i > 0 ==> mid[i - 1] == (pre + mid + post)[k - 1]
    ensures mid[0] == (pre + mid + post)[k - i]
  {
    i := k - |pre|;
  }

  lemma InConcat(es: Trace, fs: Trace)
    ensures forall e :: e in es + fs <==> e in es || e in fs
  {
  }

  /** The three parts of kill_process once there is a victim. */
  lemma KillProcessParts(a: Args, sig: int, pid: int, env: KillProcessEnv, prev: int)
    requires pid > 0 && sig != 0
    ensures KillProcessEvents(a, sig, pid, env, prev)
         == SpawnIf(a.prehook, env.prehook, PREHOOK_STARTUP_SLEEP_MS)
            + KillWaitOf(a, env.kill, pid, sig).events
            + AftermathEvents(a, sig, pid, env, prev)
  {
  }

  lemma {:induction false} KillProcessSignals(a: Args, sig: int, pid: int, env: KillProcessEnv, prev: int, k: nat)
    requires sig != 0 && pid > 0
    requires k < |KillProcessEvents(a, sig, pid, env, prev)| && KillProcessEvents(a, sig, pid, env, prev)[k].Signal?
    ensures SignalFrom(a, sig, pid, KillProcessEvents(a, sig, pid, env, prev), k)
  {
    var pre := SpawnIf(a.prehook, env.prehook, PREHOOK_STARTUP_SLEEP_MS);
    var kill := KillWaitOf(a, env.kill, pid, sig).events;
    var post := AftermathEvents(a, sig, pid, env, prev);
    KillProcessParts(a, sig, pid, env, prev);
    SpawnsAreHelpers(a.prehook, env.prehook, PREHOOK_STARTUP_SLEEP_MS);
    AftermathEventsAre(a, sig, pid, env, prev);
    var i := SignalInKill(pre, kill, post, k);
    EscalationIsJustified(a, env.kill, pid, sig, i);
    if a.killProcessGroup {
      assert (pre + kill + post)[..k][k - i] == kill[0];
    }
  }

  /** Not an event that only poll_loop itself or the kernel OOM trigger produces. */
  predicate KillProcessEvent(e: Event) {
    !e.PollReading? && !e.Scan? && !e.RecheckReading? && !e.SysrqWrite? && !e.Report? && !e.AdaptiveSleep?
  }

  ghost predicate All(es: Trace, p: Event -> bool) {
    forall e :: e in es ==> p(e)
  }

  lemma AllConcat(es: Trace, fs: Trace, p: Event -> bool)
    requires All(es, p) && All(fs, p)
    ensures All(es + fs, p)
  {
  }

  lemma SpawnInside(wanted: bool, spawn: SpawnEnv, timeoutMs: int)
    ensures All(SpawnIf(wanted, spawn, timeoutMs), KillProcessEvent)
  {
    SpawnsAreHelpers(wanted, spawn, timeoutMs);
  }

  lemma KillInside(a: Args, env: KillEnv, pid: int, sig: int)
    ensures All(KillWaitOf(a, env, pid, sig).events, KillProcessEvent)
  {
    KillEventsAre(a, env, pid, sig);
  }

  lemma AftermathInside(a: Args, sig: int, pid: int, env: KillProcessEnv, prev: int)
    ensures All(AftermathEvents(a, sig, pid, env, prev), KillProcessEvent)
  {
    AftermathEventsAre(a, sig, pid, env, prev);
  }

  lemma {:induction false} KillProcessEventsAre(a: Args, sig: int, pid: int, env: KillProcessEnv, prev: int)
    ensures All(KillProcessEvents(a, sig, pid, env, prev), KillProcessEvent)
  {
    if pid <= 0 {
      SpawnInside(a.notify, env.dbus, 0);
      AllConcat(SpawnIf(a.notify, env.dbus, 0), [Nap(1000)], KillProcessEvent);
    } else {
      var pre := SpawnIf(sig != 0 && a.prehook, env.prehook, PREHOOK_STARTUP_SLEEP_MS);
      SpawnInside(sig != 0 && a.prehook, env.prehook, PREHOOK_STARTUP_SLEEP_MS);
      KillInside(a, env.kill, pid, sig);
      AftermathInside(a, sig, pid, env, prev);
      AllConcat(pre, KillWaitOf(a, env.kill, pid, sig).events, KillProcessEvent);
      AllConcat(KillEvents(a, sig, pid, env), AftermathEvents(a, sig, pid, env, prev), KillProcessEvent);
    }
  }

  /** Without a victim, in a dry run, and with -g when there is no group, kill_process sends
      nothing (but a signal 0). */
  lemma {:induction false} KillProcessIsSilent(a: Args, sig: int, pid: int, env: KillProcessEnv, prev: int)
    requires pid <= 0 || (sig != 0 && SendsNothing(a, env.kill, sig))
    ensures forall e :: e in KillProcessEvents(a, sig, pid, env, prev) ==> !e.Signal?
  {
    if pid <= 0 {
      SpawnsAreHelpers(a.notify, env.dbus, 0);
      InConcat(SpawnIf(a.notify, env.dbus, 0), [Nap(1000)]);
    } else {
      SilentKillIsSilent(a, sig, pid, env, prev);
    }
  }

  lemma {:induction false} SilentKillIsSilent(a: Args, sig: int, pid: int, env: KillProcessEnv, prev: int)
    requires pid > 0 && sig != 0 && SendsNothing(a, env.kill, sig)
    ensures forall e :: e in KillProcessEvents(a, sig, pid, env, prev) ==> !e.Signal?
  {
    var pre := SpawnIf(a.prehook, env.prehook, PREHOOK_STARTUP_SLEEP_MS);
    var kill := KillWaitOf(a, env.kill, pid, sig).events;
    assert forall e :: e in kill ==> !e.Signal?;
    KillProcessParts(a, sig, pid, env, prev);
    SpawnsAreHelpers(a.prehook, env.prehook, PREHOOK_STARTUP_SLEEP_MS);
    AftermathEventsAre(a, sig, pid, env, prev);
    InConcat(pre, kill);
    InConcat(pre + kill, AftermathEvents(a, sig, pid, env, prev));
  }

  /** What makes a signal at k of a kill that follows readings m1 and m2 legitimate. */
  ghost predicate Warranted(a: Args, m1: MemInfo, entries: seq<Entry>, pid: int, m2: MemInfo, es: Trace, k: nat) {
    && LowmemSig(a, m1) != 0
    && LowmemSig(a, m2) != 0
    && LegitimateVictim(a, entries, pid)
    && SignalFrom(a, LowmemSig(a, m1), pid, es, k)
    && (forall e :: e in es ==> !e.PollReading?)
  }

  /** Two low readings around a scan explain every signal of the kill that follows. */
  lemma {:induction false} ReactionExplained(a: Args, m1: MemInfo, entries: seq<Entry>, pid: int, m2: MemInfo, es: Trace, last: Event, k: nat)
    requires Warranted(a, m1, entries, pid, m2, es, k)
    ensures ExplainedFrom(a, [PollReading(m1), Scan(entries, pid), RecheckReading(m2)] + (es + [last]), k + 3, 0)
  {
    var head := [PollReading(m1), Scan(entries, pid), RecheckReading(m2)];
    var tr := head + (es + [last]);
    var x := head + es[..k + 1];
    assert tr[0..k + 4] == x;
    assert x[..k + 3] == head + es[..k];
    assert x[k + 3] == es[k] && (k > 0 ==> x[k + 2] == es[k - 1]);
    assert x[0] == head[0] && x[1] == head[1] && x[2] == head[2];
    forall i | 1 <= i < k + 3
      ensures !x[i].PollReading?
    {
      assert i >= 3 ==> x[i] == es[i - 3] && es[i - 3] in es;
    }
  }

  lemma VictimIsLegitimate(a: Args, entries: seq<Entry>)
    requires VictimPid(a, entries) > 0
    ensures LegitimateVictim(a, entries, VictimPid(a, entries))
  {
    VictimIsKillable(a, entries);
  }

  lemma {:induction false} ReactionEventsAre(a: Args, st: State, env: PollEnv)
    ensures forall e :: e in ReactionEvents(a, st, env) ==> KillProcessEvent(e)
  {
    if LowmemSig(a, env.second) != 0 {
      KillProcessEventsAre(a, LowmemSig(a, env.first), VictimPid(a, env.entries), env.kill, st.prevNotify);
    }
  }

  lemma {:induction false} ReactionSignal(a: Args, st: State, env: PollEnv, k: nat)
    requires LowmemSig(a, env.first) != 0
    requires k < |ReactionEvents(a, st, env)| && ReactionEvents(a, st, env)[k].Signal?
    ensures Warranted(a, env.first, env.entries, VictimPid(a, env.entries), env.second, ReactionEvents(a, st, env), k)
  {
    var pid, sig := VictimPid(a, env.entries), LowmemSig(a, env.first);
    assert ReactionEvents(a, st, env)[k] in ReactionEvents(a, st, env);
    ReactionEventsAre(a, st, env);
    if pid <= 0 {
      KillProcessIsSilent(a, sig, pid, env.kill, st.prevNotify);
    } else {
      KillProcessSignals(a, sig, pid, env.kill, st.prevNotify, k);
      VictimIsLegitimate(a, env.entries);
    }
  }

  /** Where the signals of a low turn can be. */
  lemma SignalInMiddle(x: Event, y: Event, z: Event, es: Trace, last: Event, k: nat)
    requires !x.Signal? && !y.Signal? && !z.Signal? && !last.Signal?
    requires k < |[x, y, z] + (es + [last])| && ([x, y, z] + (es + [last]))[k].Signal?
    ensures 3 <= k < 3 + |es| && es[k - 3].Signal?
  {
  }

  /** Whatever holds of the frame of a low turn and of the reaction in it holds of the turn. */
  lemma {:induction false} LowTurnAll(a: Args, st: State, env: PollEnv, p: Event -> bool)
    requires p(PollReading(env.first)) && p(Scan(env.entries, VictimPid(a, env.entries))) && p(RecheckReading(env.second))
    requires p(AdaptiveSleep(SleepMs(a, env.second)))
    requires forall e :: e in ReactionEvents(a, st, env) ==> p(e)
    ensures forall e :: e in LowTurn(a, st, env).trace ==> p(e)
  {
  }

  lemma {:induction false} SignalExplained(a: Args, m1: MemInfo, entries: seq<Entry>, pid: int, m2: MemInfo, es: Trace, last: Event, k: nat)
    requires forall j: nat :: j < |es| && es[j].Signal? ==> Warranted(a, m1, entries, pid, m2, es, j)
    requires !last.Signal?
    requires var tr := [PollReading(m1), Scan(entries, pid), RecheckReading(m2)] + (es + [last]);
             k < |tr| && tr[k].Signal?
    ensures ExplainedFrom(a, [PollReading(m1), Scan(entries, pid), RecheckReading(m2)] + (es + [last]), k, 0)
  {
    SignalInMiddle(PollReading(m1), Scan(entries, pid), RecheckReading(m2), es, last, k);
    ReactionExplained(a, m1, entries, pid, m2, es, last, k - 3);
  }

  lemma {:induction false} LowTurnSignal(a: Args, st: State, env: PollEnv, k: nat)
    requires LowmemSig(a, env.first) != 0
    requires k < |LowTurn(a, st, env).trace| && LowTurn(a, st, env).trace[k].Signal?
    ensures ExplainedFrom(a, LowTurn(a, st, env).trace, k, 0)
  {
    var pid := VictimPid(a, env.entries);
    var es, last := ReactionEvents(a, st, env), AdaptiveSleep(SleepMs(a, env.second));
    forall j: nat | j < |es| && es[j].Signal?
      ensures Warranted(a, env.first, env.entries, pid, env.second, es, j)
    {
      ReactionSignal(a, st, env, j);
    }
    SignalExplained(a, env.first, env.entries, pid, env.second, es, last, k);
  }

  lemma {:induction false} LowTurnExplained(a: Args, st: State, env: PollEnv)
    requires LowmemSig(a, env.first) != 0
    ensures AllSignalsExplained(a, LowTurn(a, st, env).trace)
  {
    var tr := LowTurn(a, st, env).trace;
    forall k: nat | k < |tr| && tr[k].Signal?
      ensures Explained(a, tr, k)
    {
      LowTurnSignal(a, st, env, k);
    }
  }

  lemma {:induction false} TurnExplained(a: Args, st: State, env: PollEnv)
    ensures AllSignalsExplained(a, PollOf(a, st, env).trace)
  {
    if LowmemSig(a, env.first) != 0 && !a.kernelOom {
      LowTurnExplained(a, st, env);
    } else {
      SpawnsAreHelpers(env.sysrq.writable && a.notify, env.sysrq.dbus, 0);
      NoSignalsExplained(a, PollOf(a, st, env).trace);
    }
  }

  /** Whole-run safety: in every run of the loop, every signal sent follows two successive low
      readings around the scan that chose the process it is meant for, which is eligible, has a
      pid above 2 and is not earlyoom. */
  lemma {:induction false} RunSignalsExplained(a: Args, envs: seq<PollEnv>)
    ensures AllSignalsExplained(a, RunOf(a, envs).trace)
  {
    if envs != [] {
      var n := |envs| - 1;
      RunSignalsExplained(a, envs[..n]);
      TurnExplained(a, RunOf(a, envs[..n]).state, envs[n]);
      ExplainedConcat(a, RunOf(a, envs[..n]).trace, PollOf(a, RunOf(a, envs[..n]).state, envs[n]).trace);
    }
  }

  /** The first signal kill_wait sends outside a dry run. */
  lemma {:induction false} RequestedSignalIsSent(a: Args, env: KillEnv, pid: int, sig: int)
    requires !SendsNothing(a, env, sig)
    ensures Signal(Target(a, env, pid), sig) in KillWaitOf(a, env, pid, sig).events
  {
    var t, fd := Target(a, env, pid), PidfdFor(a, env, sig);
    assert Released(t, fd, sig, env.firstKill)[0] == Signal(t, sig);
    assert SignalAndWait(a, env, t, fd, sig).events[0] == Signal(t, sig);
    assert KillWaitOf(a, env, pid, sig).events[|Opening(a, env, pid, sig)|] == Signal(t, sig);
  }

  lemma {:induction false} ReactionSends(a: Args, st: State, env: PollEnv)
    requires LowmemSig(a, env.first) != 0 && LowmemSig(a, env.second) != 0
    requires !SendsNothing(a, env.kill.kill, LowmemSig(a, env.first)) && VictimPid(a, env.entries) > 0
    ensures Signal(Target(a, env.kill.kill, VictimPid(a, env.entries)), LowmemSig(a, env.first)) in ReactionEvents(a, st, env)
  {
    var sig, pid := LowmemSig(a, env.first), VictimPid(a, env.entries);
    RequestedSignalIsSent(a, env.kill.kill, pid, sig);
    KillProcessParts(a, sig, pid, env.kill, st.prevNotify);
  }

  predicate NoSignal(e: Event) { !e.Signal? }

  /** What a low turn needs besides the first low reading in order to signal somebody. */
  predicate WillSignal(a: Args, env: PollEnv) {
    && LowmemSig(a, env.second) != 0
    && VictimPid(a, env.entries) > 0
    && !a.dryrun
    && (a.killProcessGroup ==> env.kill.kill.getpgid.res >= 0)
  }

  /** The converse: a user-mode turn that starts low signals somebody if and only if memory is
      still low after the scan, the scan found a victim, this is not a dry run and with -g the
      group of the victim is known; and then the victim or its group is sent the signal due for
      the first reading. */
  lemma {:induction false} LowTurnSignalsIff(a: Args, st: State, env: PollEnv)
    requires LowmemSig(a, env.first) != 0
    ensures (exists e :: e in LowTurn(a, st, env).trace && e.Signal?) <==> WillSignal(a, env)
    ensures WillSignal(a, env) ==>
              Signal(Target(a, env.kill.kill, VictimPid(a, env.entries)), LowmemSig(a, env.first)) in LowTurn(a, st, env).trace
  {
    if WillSignal(a, env) {
      ReactionSends(a, st, env);
      assert Signal(Target(a, env.kill.kill, VictimPid(a, env.entries)), LowmemSig(a, env.first)) in LowTurn(a, st, env).trace;
    } else {
      if LowmemSig(a, env.second) != 0 {
        KillProcessIsSilent(a, LowmemSig(a, env.first), VictimPid(a, env.entries), env.kill, st.prevNotify);
      }
      assert forall e :: e in ReactionEvents(a, st, env) ==> NoSignal(e);
      LowTurnAll(a, st, env, NoSignal);
      assert forall e :: e in LowTurn(a, st, env).trace ==> NoSignal(e);
    }
  }

  // ---------------------------------------------------------------------------
  // Dry runs
  // ---------------------------------------------------------------------------

  /** Nothing that could harm a process. */
  predicate Harmless(e: Event) {
    !e.SysrqWrite? && (e.Signal? ==> e.sig == 0)
  }

  lemma {:induction false} ReactionHarmless(a: Args, st: State, env: PollEnv)
    requires a.dryrun && LowmemSig(a, env.first) != 0
    ensures forall e :: e in ReactionEvents(a, st, env) ==> Harmless(e)
  {
    ReactionEventsAre(a, st, env);
    KillProcessIsSilent(a, LowmemSig(a, env.first), VictimPid(a, env.entries), env.kill, st.prevNotify);
  }

  lemma {:induction false} LowTurnHarmless(a: Args, st: State, env: PollEnv)
    requires a.dryrun && LowmemSig(a, env.first) != 0
    ensures forall e :: e in LowTurn(a, st, env).trace ==> Harmless(e)
  {
    ReactionHarmless(a, st, env);
    LowTurnAll(a, st, env, Harmless);
  }

  lemma {:induction false} RunHarmless(a: Args, envs: seq<PollEnv>)
    requires a.dryrun
    ensures forall e :: e in RunOf(a, envs).trace ==> Harmless(e)
  {
    if envs != [] {
      var n := |envs| - 1;
      var before := RunOf(a, envs[..n]);
      RunHarmless(a, envs[..n]);
      if LowmemSig(a, envs[n].first) != 0 && !a.kernelOom {
        LowTurnHarmless(a, before.state, envs[n]);
      }
      InConcat(before.trace, PollOf(a, before.state, envs[n]).trace);
    }
  }

  lemma {:induction false} StartupHarmless(a: Args, env: PollEnv)
    ensures forall e :: e in StartupEvents(a, env) ==> Harmless(e)
  {
    var pid := VictimPid(a, env.entries);
    var es := KillProcessEvents(a, 0, pid, env.kill, START.prevNotify);
    KillProcessEventsAre(a, 0, pid, env.kill, START.prevNotify);
    forall e | e in es
      ensures Harmless(e)
    {
      if pid <= 0 {
        KillProcessIsSilent(a, 0, pid, env.kill, START.prevNotify);
      } else if e.Signal? {
        assert es == KillWaitOf(a, env.kill.kill, pid, 0).events;
        RehearsalSignals(a, env.kill.kill, pid);
      }
    }
    InConcat([Scan(env.entries, pid)], es);
  }

  lemma RehearsalSignals(a: Args, env: KillEnv, pid: int)
    ensures forall e :: e in KillWaitOf(a, env, pid, 0).events && e.Signal? ==> e.sig == 0
  {
  }

  /** A whole --dryrun run, self-test included, sends no signal but 0 and never writes
      sysrq-trigger; and the self-test is harmless in any configuration. */
  lemma {:induction false} DryRunIsHarmless(a: Args, startup: PollEnv, envs: seq<PollEnv>)
    ensures forall e :: e in StartupEvents(a, startup) ==> Harmless(e)
    ensures a.dryrun ==> forall e :: e in DaemonTrace(a, startup, envs) ==> Harmless(e)
  {
    StartupHarmless(a, startup);
    if a.dryrun {
      RunHarmless(StartupArgs(a, startup), envs);
      InConcat(StartupEvents(a, startup), RunOf(StartupArgs(a, startup), envs).trace);
    }
  }

  // ---------------------------------------------------------------------------
  // Notification rate limit
  // ---------------------------------------------------------------------------

  /** Clock seconds of the notification rounds of a dry run, in order. */
  function Rounds(tr: Trace): seq<int> {
    if tr == [] then []
    else (if tr[0].NotifyRound? then [tr[0].second] else []) + Rounds(tr[1..])
  }

  lemma {:induction false} RoundsConcat(es: Trace, fs: Trace)
    ensures Rounds(es + fs) == Rounds(es) + Rounds(fs)
  {
    if es == [] {
      assert es + fs == fs;
    } else {
      assert (es + fs)[0] == es[0];
      assert (es + fs)[1..] == es[1..] + fs;
      RoundsConcat(es[1..], fs);
    }
  }

  lemma {:induction false} RoundsNone(es: Trace)
    requires forall e :: e in es ==> !e.NotifyRound?
    ensures Rounds(es) == []
  {
    if es != [] {
      assert es[0] in es;
      RoundsNone(es[1..]);
    }
  }

  /** A call of notify_process_killed in a dry run opens a round exactly when the previous one
      was at least a second ago. */
  lemma {:induction false} NotifyRounds(a: Args, env: KillProcessEnv, prev: int)
    requires a.dryrun
    ensures Rounds(NotifyEvents(a, env, prev)) == if RoundDue(env.clock, prev) then [env.clock.value] else []
  {
    var helpers := NotifyHelpers(a, env);
    SpawnsAreHelpers(a.notify, env.dbus, 0);
    SpawnsAreHelpers(a.notifyExt, env.ext, 0);
    InConcat(SpawnIf(a.notify, env.dbus, 0), SpawnIf(a.notifyExt, env.ext, 0));
    RoundsNone(helpers);
    if RoundDue(env.clock, prev) {
      assert ([NotifyRound(env.clock.value)] + helpers)[1..] == helpers;
    }
  }

  lemma {:induction false} KillProcessRounds(a: Args, sig: int, pid: int, env: KillProcessEnv, prev: int)
    requires a.dryrun && sig != 0
    ensures Rounds(KillProcessEvents(a, sig, pid, env, prev)) ==
            if pid > 0 && RoundDue(env.clock, prev) then [env.clock.value] else []
  {
    if pid <= 0 {
      SpawnsAreHelpers(a.notify, env.dbus, 0);
      InConcat(SpawnIf(a.notify, env.dbus, 0), [Nap(1000)]);
      RoundsNone(KillProcessEvents(a, sig, pid, env, prev));
    } else {
      KillProcessParts(a, sig, pid, env, prev);
      var pre := SpawnIf(a.prehook, env.prehook, PREHOOK_STARTUP_SLEEP_MS);
      SpawnsAreHelpers(a.prehook, env.prehook, PREHOOK_STARTUP_SLEEP_MS);
      RoundsNone(pre);
      assert pre + KillWaitOf(a, env.kill, pid, sig).events == pre;
      RoundsConcat(pre, AftermathEvents(a, sig, pid, env, prev));
      NotifyRounds(a, env, prev);
      var failure := FailureEvents(a, env, KillWaitOf(a, env.kill, pid, sig));
      assert failure == [];
      assert AftermathEvents(a, sig, pid, env, prev) == NotifyEvents(a, env, prev);
    }
  }

  lemma {:induction false} TurnRounds(a: Args, st: State, env: PollEnv)
    requires a.dryrun
    ensures var run := PollOf(a, st, env);
            || (Rounds(run.trace) == [] && run.state.prevNotify == st.prevNotify)
            || (Rounds(run.trace) == [run.state.prevNotify] && run.state.prevNotify > st.prevNotify)
  {
    var run := PollOf(a, st, env);
    if LowmemSig(a, env.first) != 0 && !a.kernelOom {
      var sig, pid := LowmemSig(a, env.first), VictimPid(a, env.entries);
      var head := [PollReading(env.first), Scan(env.entries, pid), RecheckReading(env.second)];
      var es, last := ReactionEvents(a, st, env), [AdaptiveSleep(SleepMs(a, env.second))];
      RoundsNone(head);
      RoundsNone(last);
      RoundsConcat(es, last);
      RoundsConcat(head, es + last);
      if LowmemSig(a, env.second) != 0 {
        KillProcessRounds(a, sig, pid, env.kill, st.prevNotify);
      }
    } else {
      RoundsNone(run.trace);
    }
  }

  ghost predicate Increasing(ts: seq<int>) {
    forall i, j :: 0 <= i < j < |ts| ==> ts[i] < ts[j]
  }

  ghost predicate RoundsUpTo(ts: seq<int>, last: int) {
    last >= 0 && Increasing(ts) && forall t :: t in ts ==> 0 < t <= last
  }

  lemma AppendRound(ts: seq<int>, us: seq<int>, last: int, next: int)
    requires RoundsUpTo(ts, last)
    requires (us == [] && next == last) || (us == [next] && next > last)
    ensures RoundsUpTo(ts + us, next)
  {
    var all := ts + us;
    forall i, j | 0 <= i < j < |all|
      ensures all[i] < all[j]
    {
      assert all[i] == ts[i] && ts[i] in ts;
      assert j < |ts| ==> all[j] == ts[j];
    }
  }

  /** In a dry run the seconds of the rounds strictly increase, whatever the clock does. */
  lemma {:induction false} RunRoundsIncrease(a: Args, envs: seq<PollEnv>)
    requires a.dryrun
    ensures RoundsUpTo(Rounds(RunOf(a, envs).trace), RunOf(a, envs).state.prevNotify)
  {
    if envs != [] {
      var n := |envs| - 1;
      var before := RunOf(a, envs[..n]);
      var turn := PollOf(a, before.state, envs[n]);
      RunRoundsIncrease(a, envs[..n]);
      TurnRounds(a, before.state, envs[n]);
      RoundsConcat(before.trace, turn.trace);
      AppendRound(Rounds(before.trace), Rounds(turn.trace), before.state.prevNotify, turn.state.prevNotify);
    }
  }

  function CountBetween(ts: seq<int>, lo: int, hi: int): nat {
    if ts == [] then 0
    else (if lo <= ts[|ts| - 1] <= hi then 1 else 0) + CountBetween(ts[..|ts| - 1], lo, hi)
  }

  lemma {:induction false} CountIncreasing(ts: seq<int>, lo: int, hi: int)
    requires Increasing(ts)
    ensures CountBetween(ts, lo, hi) <= if lo <= hi then hi - lo + 1 else 0
  {
    if ts != [] {
      var n := |ts| - 1;
      assert Increasing(ts[..n]);
      if lo <= ts[n] <= hi {
        CountIncreasing(ts[..n], lo, ts[n] - 1);
        CountCapped(ts[..n], lo, ts[n] - 1, hi);
      } else {
        CountIncreasing(ts[..n], lo, hi);
      }
    }
  }

  lemma {:induction false} CountCapped(ts: seq<int>, lo: int, cap: int, hi: int)
    requires cap <= hi && forall i :: 0 <= i < |ts| ==> ts[i] <= cap
    ensures CountBetween(ts, lo, hi) == CountBetween(ts, lo, cap)
  {
    if ts != [] {
      CountCapped(ts[..|ts| - 1], lo, cap, hi);
    }
  }

  /** At most one notification round per second: over every dry run, the rounds whose clock
      seconds lie in [lo, hi] number at most hi - lo + 1, however often processes are chosen. */
  lemma {:induction false} NotificationRateLimit(a: Args, envs: seq<PollEnv>, lo: int, hi: int)
    requires a.dryrun && lo <= hi
    ensures CountBetween(Rounds(RunOf(a, envs).trace), lo, hi) <= hi - lo + 1
  {
    RunRoundsIncrease(a, envs);
    CountIncreasing(Rounds(RunOf(a, envs).trace), lo, hi);
  }

  /** A notification is only ever suppressed when a round in the same or a later second has
      already happened, when the clock has not reached second 1, or when reading it failed. */
  lemma {:induction false} SuppressedMeansRecentRound(a: Args, envs: seq<PollEnv>, clock: Option<int>)
    requires a.dryrun && !RoundDue(clock, RunOf(a, envs).state.prevNotify)
    ensures clock.None? || clock.value < 1 || exists t :: t in Rounds(RunOf(a, envs).trace) && t >= clock.value
  {
    LastRoundIsPrev(a, envs);
  }

  lemma {:induction false} LastRoundIsPrev(a: Args, envs: seq<PollEnv>)
    requires a.dryrun
    ensures var run := RunOf(a, envs);
            run.state.prevNotify == 0 || run.state.prevNotify in Rounds(run.trace)
  {
    if envs != [] {
      var n := |envs| - 1;
      var before := RunOf(a, envs[..n]);
      var turn := PollOf(a, before.state, envs[n]);
      LastRoundIsPrev(a, envs[..n]);
      TurnRounds(a, before.state, envs[n]);
      RoundsConcat(before.trace, turn.trace);
      assert Rounds(turn.trace) != [] ==> turn.state.prevNotify in Rounds(turn.trace);
    }
  }

  // ---------------------------------------------------------------------------
  // Descriptors and the signal mask
  // ---------------------------------------------------------------------------

  /** What the parent holds: SIGCHLD blocked or not, and open pidfds, newest last. */
  datatype Held = Held(blocked: bool, fds: seq<int>)

  /** What is held after one more event; None when it would block twice, unblock without having
      blocked, or close a descriptor other than the newest open one. */
  function AfterEvent(h: Held, e: Event): Option<Held> {
    match e
    case BlockSigchld => if h.blocked then None else Some(h.(blocked := true))
    case UnblockSigchld => if h.blocked then Some(h.(blocked := false)) else None
    case Open(fd) => Some(if fd >= 0 then h.(fds := h.fds + [fd]) else h)
    case Close(fd) =>
      if h.fds != [] && h.fds[|h.fds| - 1] == fd then Some(h.(fds := h.fds[..|h.fds| - 1])) else None
    case _ => Some(h)
  }

  function AfterEvents(h: Held, es: Trace): Option<Held>
    decreases |es|
  {
    if es == [] then Some(h)
    else
      var r := AfterEvent(h, es[0]);
      if r.None? then None else AfterEvents(r.value, es[1..])
  }

  lemma {:induction false} AfterConcat(h: Held, es: Trace, fs: Trace)
    ensures AfterEvents(h, es + fs) ==
            var r := AfterEvents(h, es);
            if r.None? then None else AfterEvents(r.value, fs)
    decreases |es|
  {
    if es == [] {
      assert es + fs == fs;
    } else {
      assert (es + fs)[1..] == es[1..] + fs;
      var r := AfterEvent(h, es[0]);
      if r.Some? {
        AfterConcat(r.value, es[1..], fs);
      }
    }
  }

  /** Started with SIGCHLD unblocked, es gives back exactly what it took. */
  ghost predicate Balanced(es: Trace) {
    forall h: Held :: !h.blocked ==> AfterEvents(h, es) == Some(h)
  }

  lemma {:induction false} BalancedConcat(es: Trace, fs: Trace)
    requires Balanced(es) && Balanced(fs)
    ensures Balanced(es + fs)
  {
    forall h: Held | !h.blocked
      ensures AfterEvents(h, es + fs) == Some(h)
    {
      AfterConcat(h, es, fs);
    }
  }

  /** Events that neither take nor give back anything. */
  predicate Untouching(e: Event) {
    !e.BlockSigchld? && !e.UnblockSigchld? && !e.Open? && !e.Close?
  }

  lemma {:induction false} UntouchingKeeps(h: Held, es: Trace)
    requires forall e :: e in es ==> Untouching(e)
    ensures AfterEvents(h, es) == Some(h)
    decreases |es|
  {
    if es != [] {
      assert es[0] in es;
      UntouchingKeeps(h, es[1..]);
    }
  }

  lemma {:induction false} UntouchingBalanced(es: Trace)
    requires forall e :: e in es ==> Untouching(e)
    ensures Balanced(es)
  {
    forall h: Held | !h.blocked
      ensures AfterEvents(h, es) == Some(h)
    {
      UntouchingKeeps(h, es);
    }
  }

  lemma AfterOne(h: Held, e: Event)
    ensures AfterEvents(h, [e]) == AfterEvent(h, e)
  {
    assert [e][1..] == [];
  }

  /** Opening a pidfd, events that touch nothing, closing it. */
  lemma {:induction false} PidfdFrameKeeps(h: Held, fd: int, es: Trace)
    requires forall e :: e in es ==> Untouching(e)
    ensures AfterEvents(h, [Open(fd)] + es + if fd >= 0 then [Close(fd)] else []) == Some(h)
  {
    var closing: Trace := if fd >= 0 then [Close(fd)] else [];
    var h1 := if fd >= 0 then h.(fds := h.fds + [fd]) else h;
    AfterConcat(h, [Open(fd)] + es, closing);
    AfterConcat(h, [Open(fd)], es);
    AfterOne(h, Open(fd));
    UntouchingKeeps(h1, es);
    if fd >= 0 {
      AfterOne(h1, Close(fd));
      assert h1.fds[..|h1.fds| - 1] == h.fds;
    } else {
      UntouchingKeeps(h1, closing);
    }
  }

  lemma {:induction false} KillWaitBalanced(a: Args, env: KillEnv, pid: int, sig: int)
    ensures Balanced(KillWaitOf(a, env, pid, sig).events)
  {
    var es := KillWaitOf(a, env, pid, sig).events;
    var fd := PidfdFor(a, env, sig);
    var inner := SignalAndWait(a, env, Target(a, env, pid), fd, sig).events;
    SendTouchesNothing(a, env, Target(a, env, pid), fd, sig);
    if SendsNothing(a, env, sig) || a.killProcessGroup || sig == 0 {
      UntouchingBalanced(es);
    } else {
      forall h: Held | !h.blocked
        ensures AfterEvents(h, es) == Some(h)
      {
        PidfdFrameKeeps(h, fd, inner);
      }
    }
  }

  lemma {:induction false} SendTouchesNothing(a: Args, env: KillEnv, t: int, fd: int, sig: int)
    ensures forall e :: e in SignalAndWait(a, env, t, fd, sig).events ==> Untouching(e)
  {
    WaitLoopEvents(a, env, t, fd, sig, 0);
    var waited := WaitFrom(a, env, t, fd, sig, 0).events;
    forall e | e in SignalAndWait(a, env, t, fd, sig).events
      ensures Untouching(e)
    {
      assert e in waited ==> WaitEvent(t, e);
    }
  }

  /** Between blocking and unblocking, notify_spawn_subprocess closes what it opened. */
  lemma {:induction false} SpawnInsideKeeps(h: Held, env: SpawnEnv, timeoutMs: int, inside: Trace)
    requires inside == if env.fork == -1 then [] else
                         [Open(env.pidfd)]
                         + if env.pidfd == -1 then [] else
                             [PollChild(env.pidfd, timeoutMs)] + (if env.ready > 0 then [Waitpid(env.fork)] else []) + [Close(env.pidfd)]
    ensures AfterEvents(h, inside) == Some(h)
  {
    if env.fork != -1 {
      if env.pidfd == -1 {
        AfterOne(h, Open(-1));
        assert inside == [Open(-1)];
      } else {
        var mid := [PollChild(env.pidfd, timeoutMs)] + if env.ready > 0 then [Waitpid(env.fork)] else [];
        assert inside == [Open(env.pidfd)] + mid + [Close(env.pidfd)];
        PidfdFrameKeeps(h, env.pidfd, mid);
      }
    }
  }

  lemma {:induction false} SpawnBalanced(wanted: bool, env: SpawnEnv, timeoutMs: int)
    ensures Balanced(SpawnIf(wanted, env, timeoutMs))
  {
    if wanted {
      var inside: Trace := if env.fork == -1 then [] else
                             [Open(env.pidfd)]
                             + if env.pidfd == -1 then [] else
                                 [PollChild(env.pidfd, timeoutMs)] + (if env.ready > 0 then [Waitpid(env.fork)] else []) + [Close(env.pidfd)];
      var es := SpawnEvents(env, timeoutMs);
      forall h: Held | !h.blocked
        ensures AfterEvents(h, es) == Some(h)
      {
        var b := h.(blocked := true);
        assert es == [BlockSigchld] + ([Fork(env.fork)] + inside) + [UnblockSigchld];
        AfterConcat(h, [BlockSigchld] + ([Fork(env.fork)] + inside), [UnblockSigchld]);
        AfterConcat(h, [BlockSigchld], [Fork(env.fork)] + inside);
        AfterConcat(b, [Fork(env.fork)], inside);
        AfterOne(h, BlockSigchld);
        AfterOne(b, Fork(env.fork));
        AfterOne(b, UnblockSigchld);
        SpawnInsideKeeps(b, env, timeoutMs, inside);
      }
    }
  }

  lemma {:induction false} AftermathBalanced(a: Args, sig: int, pid: int, env: KillProcessEnv, prev: int)
    ensures Balanced(NotifyEvents(a, env, prev))
    ensures Balanced(AftermathEvents(a, sig, pid, env, prev))
  {
    SpawnBalanced(a.notify, env.dbus, 0);
    SpawnBalanced(a.notifyExt, env.ext, 0);
    SpawnBalanced(a.notify, env.errorDbus, 0);
    var helpers := NotifyHelpers(a, env);
    BalancedConcat(SpawnIf(a.notify, env.dbus, 0), SpawnIf(a.notifyExt, env.ext, 0));
    UntouchingBalanced([]);
    if a.dryrun && RoundDue(env.clock, prev) {
      UntouchingBalanced([NotifyRound(env.clock.value)]);
      BalancedConcat([NotifyRound(env.clock.value)], helpers);
    }
    UntouchingBalanced([Nap(1000)]);
    var o := KillWaitOf(a, env.kill, pid, sig);
    if o.res != 0 {
      BalancedConcat(SpawnIf(a.notify, env.errorDbus, 0), if o.errno == EPERM then [Nap(1000)] else []);
    }
    BalancedConcat(NotifyEvents(a, env, prev), FailureEvents(a, env, o));
  }

  lemma {:induction false} KillProcessBalanced(a: Args, sig: int, pid: int, env: KillProcessEnv, prev: int)
    ensures Balanced(KillProcessEvents(a, sig, pid, env, prev))
  {
    if pid <= 0 {
      SpawnBalanced(a.notify, env.dbus, 0);
      UntouchingBalanced([Nap(1000)]);
      BalancedConcat(SpawnIf(a.notify, env.dbus, 0), [Nap(1000)]);
    } else {
      var pre := SpawnIf(sig != 0 && a.prehook, env.prehook, PREHOOK_STARTUP_SLEEP_MS);
      SpawnBalanced(sig != 0 && a.prehook, env.prehook, PREHOOK_STARTUP_SLEEP_MS);
      KillWaitBalanced(a, env.kill, pid, sig);
      BalancedConcat(pre, KillWaitOf(a, env.kill, pid, sig).events);
      AftermathBalanced(a, sig, pid, env, prev);
      if sig != 0 {
        BalancedConcat(KillEvents(a, sig, pid, env), AftermathEvents(a, sig, pid, env, prev));
      }
    }
  }

  lemma {:induction false} TurnBalanced(a: Args, st: State, env: PollEnv)
    ensures Balanced(PollOf(a, st, env).trace)
  {
    if LowmemSig(a, env.first) == 0 {
      UntouchingBalanced(PollOf(a, st, env).trace);
    } else if a.kernelOom {
      KernelOomTurnBalanced(a, st, env);
    } else {
      LowTurnBalanced(a, st, env);
    }
  }

  lemma {:induction false} KernelOomTurnBalanced(a: Args, st: State, env: PollEnv)
    ensures Balanced(KernelOomTurn(a, st, env).trace)
  {
    var spawn := SpawnIf(env.sysrq.writable && a.notify, env.sysrq.dbus, 0);
    SpawnBalanced(env.sysrq.writable && a.notify, env.sysrq.dbus, 0);
    UntouchingBalanced([]);
    UntouchingBalanced([SysrqWrite]);
    BalancedConcat([SysrqWrite], spawn);
    UntouchingBalanced([PollReading(env.first)]);
    UntouchingBalanced([Nap(500)]);
    BalancedConcat([PollReading(env.first)], SysrqEvents(a, env.sysrq));
    BalancedConcat([PollReading(env.first)] + SysrqEvents(a, env.sysrq), [Nap(500)]);
  }

  lemma {:induction false} LowTurnBalanced(a: Args, st: State, env: PollEnv)
    ensures Balanced(LowTurn(a, st, env).trace)
  {
    var pid := VictimPid(a, env.entries);
    var head := [PollReading(env.first), Scan(env.entries, pid), RecheckReading(env.second)];
    var es, last := ReactionEvents(a, st, env), [AdaptiveSleep(SleepMs(a, env.second))];
    KillProcessBalanced(a, LowmemSig(a, env.first), pid, env.kill, st.prevNotify);
    UntouchingBalanced([]);
    UntouchingBalanced(head);
    UntouchingBalanced(last);
    BalancedConcat(es, last);
    BalancedConcat(head, es + last);
  }

  /** Over every run of the loop, on every path of every turn: each pidfd that was opened is
      closed exactly once, in last-opened-first-closed order, no other pidfd is closed, SIGCHLD is
      never blocked twice and is unblocked again whenever a turn is over. */
  lemma {:induction false} RunBalanced(a: Args, envs: seq<PollEnv>)
    ensures Balanced(RunOf(a, envs).trace)
  {
    if envs == [] {
      UntouchingBalanced([]);
    } else {
      var n := |envs| - 1;
      var before := RunOf(a, envs[..n]);
      RunBalanced(a, envs[..n]);
      TurnBalanced(a, before.state, envs[n]);
      BalancedConcat(before.trace, PollOf(a, before.state, envs[n]).trace);
    }
  }

  // ---------------------------------------------------------------------------
  // Reports
  // ---------------------------------------------------------------------------

  /** A turn as the report countdown sees it. */
  function TurnOf(a: Args, env: PollEnv): (t: Turn)
    ensures Turns([t])
  {
    var low := LowmemSig(a, env.first) != 0;
    if low && a.kernelOom then Turn(true, 0)
    else Turn(low, SleepMs(a, if low then env.second else env.first))
  }

  function TurnsOf(a: Args, envs: seq<PollEnv>): (ts: seq<Turn>)
    ensures |ts| == |envs| && Turns(ts)
    ensures forall i :: 0 <= i < |ts| ==> ts[i] == TurnOf(a, envs[i])
  {
    seq(|envs|, i requires 0 <= i < |envs| => TurnOf(a, envs[i]))
  }

  predicate NoReport(e: Event) { !e.Report? }

  lemma {:induction false} LowTurnIsQuiet(a: Args, st: State, env: PollEnv)
    ensures forall e :: e in LowTurn(a, st, env).trace ==> NoReport(e)
  {
    ReactionEventsAre(a, st, env);
    LowTurnAll(a, st, env, NoReport);
  }

  ghost predicate Reported(tr: Trace) {
    exists e :: e in tr && e.Report?
  }

  /** A turn prints a report exactly when memory is not low and the countdown has run out. */
  lemma {:induction false} TurnReports(a: Args, st: State, env: PollEnv)
    ensures Reported(PollOf(a, st, env).trace)
       <==> Reports(a.reportIntervalMs, st.countdown, LowmemSig(a, env.first) != 0)
  {
    if LowmemSig(a, env.first) != 0 {
      LowTurnIsQuiet(a, st, env);
      SpawnsAreHelpers(env.sysrq.writable && a.notify, env.sysrq.dbus, 0);
    } else if Reports(a.reportIntervalMs, st.countdown, false) {
      assert Report(env.first) in PollOf(a, st, env).trace;
    }
  }

  lemma {:induction false} RunCountdown(a: Args, envs: seq<PollEnv>)
    ensures RunOf(a, envs).state.countdown == Countdown(a.reportIntervalMs, TurnsOf(a, envs))
  {
    if envs != [] {
      var n := |envs| - 1;
      RunCountdown(a, envs[..n]);
      assert TurnsOf(a, envs)[..n] == TurnsOf(a, envs[..n]);
    }
  }

  /** What turn n of a run does. */
  function TurnTrace(a: Args, envs: seq<PollEnv>, n: nat): Trace
    requires n < |envs|
  {
    PollOf(a, RunOf(a, envs[..n]).state, envs[n]).trace
  }

  /** Turn n of every run prints a report exactly when the countdown over the sleep times of
      its turns says so. */
  lemma {:induction false} RunReportsAt(a: Args, envs: seq<PollEnv>, n: nat)
    requires n < |envs|
    ensures Reported(TurnTrace(a, envs, n)) <==> ReportsAt(a.reportIntervalMs, TurnsOf(a, envs), n)
  {
    TurnReports(a, RunOf(a, envs[..n]).state, envs[n]);
    RunCountdown(a, envs[..n]);
    assert TurnsOf(a, envs)[..n] == TurnsOf(a, envs[..n]);
  }

  /** Milliseconds of adaptive sleep in a trace. */
  function AdaptiveMs(tr: Trace): int {
    if tr == [] then 0
    else
      var n := |tr| - 1;
      AdaptiveMs(tr[..n]) + if tr[n].AdaptiveSleep? then tr[n].ms else 0
  }

  lemma {:induction false} AdaptiveMsConcat(es: Trace, fs: Trace)
    ensures AdaptiveMs(es + fs) == AdaptiveMs(es) + AdaptiveMs(fs)
  {
    if fs == [] {
      assert es + fs == es;
    } else {
      var n := |fs| - 1;
      AdaptiveMsConcat(es, fs[..n]);
      assert (es + fs)[..|es| + n] == es + fs[..n];
    }
  }

  lemma {:induction false} SleeplessMs(tr: Trace)
    requires forall e :: e in tr ==> !e.AdaptiveSleep?
    ensures AdaptiveMs(tr) == 0
  {
    if tr != [] {
      SleeplessMs(tr[..|tr| - 1]);
    }
  }

  lemma {:induction false} SleepAtEnd(es: Trace, ms: int)
    requires forall e :: e in es ==> !e.AdaptiveSleep?
    ensures AdaptiveMs(es + [AdaptiveSleep(ms)]) == ms
  {
    SleeplessMs(es);
    assert (es + [AdaptiveSleep(ms)])[..|es|] == es;
  }

  lemma {:induction false} LowTurnSleeps(a: Args, st: State, env: PollEnv)
    ensures AdaptiveMs(LowTurn(a, st, env).trace) == SleepMs(a, env.second)
  {
    var head := [PollReading(env.first), Scan(env.entries, VictimPid(a, env.entries)), RecheckReading(env.second)];
    var es, ms := ReactionEvents(a, st, env), SleepMs(a, env.second);
    ReactionEventsAre(a, st, env);
    SleeplessMs(head);
    SleepAtEnd(es, ms);
    AdaptiveMsConcat(head, es + [AdaptiveSleep(ms)]);
  }

  lemma {:induction false} KernelTurnIsSleepless(a: Args, st: State, env: PollEnv)
    ensures AdaptiveMs(KernelOomTurn(a, st, env).trace) == 0
  {
    SpawnsAreHelpers(env.sysrq.writable && a.notify, env.sysrq.dbus, 0);
    SleeplessMs(KernelOomTurn(a, st, env).trace);
  }

  lemma {:induction false} TurnSleeps(a: Args, st: State, env: PollEnv)
    ensures AdaptiveMs(PollOf(a, st, env).trace) == TurnOf(a, env).sleepMs
  {
    if LowmemSig(a, env.first) == 0 {
      var report := if Reports(a.reportIntervalMs, st.countdown, false) then [Report(env.first)] else [];
      SleepAtEnd([PollReading(env.first)] + report, SleepMs(a, env.first));
    } else if a.kernelOom {
      KernelTurnIsSleepless(a, st, env);
    } else {
      LowTurnSleeps(a, st, env);
    }
  }

  lemma RunGrows(a: Args, envs: seq<PollEnv>, n: nat)
    requires n < |envs|
    ensures RunOf(a, envs[..n + 1]).trace == RunOf(a, envs[..n]).trace + TurnTrace(a, envs, n)
  {
    assert envs[..n + 1][..n] == envs[..n];
  }

  /** The adaptive sleeps of the first n turns of a run. */
  lemma {:induction false} RunSleeps(a: Args, envs: seq<PollEnv>, n: nat)
    requires n <= |envs|
    ensures AdaptiveMs(RunOf(a, envs[..n]).trace) == Slept(TurnsOf(a, envs), 0, n)
  {
    if n > 0 {
      RunSleeps(a, envs, n - 1);
      RunGrows(a, envs, n - 1);
      TurnSleeps(a, RunOf(a, envs[..n - 1]).state, envs[n - 1]);
      AdaptiveMsConcat(RunOf(a, envs[..n - 1]).trace, TurnTrace(a, envs, n - 1));
    }
  }

  /** Over every run, with or without --kernel-oom: between two consecutive reports the daemon
      sleeps at least the report interval, and at most 999 ms more if memory was never low in
      between. */
  lemma {:induction false} RunReportSpacing(a: Args, envs: seq<PollEnv>, i: nat, j: nat)
    requires i < j < |envs|
    requires Reported(TurnTrace(a, envs, i)) && Reported(TurnTrace(a, envs, j))
    requires forall k :: i < k < j ==> !Reported(TurnTrace(a, envs, k))
    ensures var slept := AdaptiveMs(RunOf(a, envs[..j]).trace) - AdaptiveMs(RunOf(a, envs[..i]).trace);
            && slept >= a.reportIntervalMs
            && ((forall k :: i < k < j ==> LowmemSig(a, envs[k].first) == 0) ==> slept <= a.reportIntervalMs + 999)
  {
    var ts := TurnsOf(a, envs);
    forall k | i <= k <= j
      ensures Reported(TurnTrace(a, envs, k)) <==> ReportsAt(a.reportIntervalMs, ts, k)
    {
      RunReportsAt(a, envs, k);
    }
    RunSleeps(a, envs, i);
    RunSleeps(a, envs, j);
    SleptSplit(ts, i, j);
    ReportSpacing(a.reportIntervalMs, ts, i, j);
  }

  /** With reports enabled, the first turn of a run in which memory is not low reports. */
  lemma {:induction false} RunFirstReport(a: Args, envs: seq<PollEnv>, n: nat)
    requires a.reportIntervalMs > 0 && n < |envs| && LowmemSig(a, envs[n].first) == 0
    requires forall k :: 0 <= k < n ==> LowmemSig(a, envs[k].first) != 0
    ensures Reported(TurnTrace(a, envs, n))
  {
    RunReportsAt(a, envs, n);
    FirstReport(a.reportIntervalMs, TurnsOf(a, envs), n);
  }

  // ---------------------------------------------------------------------------
  // What each kind of turn does
  // ---------------------------------------------------------------------------

  /** A low turn of a run in user mode reads memory, scans, reads memory again and ends with
      the adaptive sleep for the second reading. In between somebody is signalled if and only
      if memory is still low, there is a victim, it is no dry run and with -g its group is
      known; then the signal due for the first reading goes to the victim or its group. */
  lemma {:induction false} RunLowTurn(a: Args, envs: seq<PollEnv>, n: nat)
    requires n < |envs| && LowmemSig(a, envs[n].first) != 0 && !a.kernelOom
    ensures var tr, env := TurnTrace(a, envs, n), envs[n];
            && |tr| >= 4
            && tr[0] == PollReading(env.first)
            && tr[1] == Scan(env.entries, VictimPid(a, env.entries))
            && tr[2] == RecheckReading(env.second)
            && tr[|tr| - 1] == AdaptiveSleep(SleepMs(a, env.second))
            && ((exists e :: e in tr && e.Signal?) <==> WillSignal(a, env))
            && (WillSignal(a, env) ==>
                  Signal(Target(a, env.kill.kill, VictimPid(a, env.entries)), LowmemSig(a, env.first)) in tr)
            && SysrqWrite !in tr
  {
    var st := RunOf(a, envs[..n]).state;
    LowTurnSignalsIff(a, st, envs[n]);
    ReactionEventsAre(a, st, envs[n]);
    LowTurnFrame(PollReading(envs[n].first), Scan(envs[n].entries, VictimPid(a, envs[n].entries)), RecheckReading(envs[n].second),
                 ReactionEvents(a, st, envs[n]), AdaptiveSleep(SleepMs(a, envs[n].second)));
    assert TurnTrace(a, envs, n) == LowTurn(a, st, envs[n]).trace;
  }

  lemma LowTurnFrame(x: Event, y: Event, z: Event, es: Trace, last: Event)
    ensures var tr := [x, y, z] + (es + [last]);
            && |tr| >= 4 && tr[0] == x && tr[1] == y && tr[2] == z && tr[|tr| - 1] == last
            && forall e :: e in tr <==> e == x || e == y || e == z || e in es || e == last
  {
  }

  /** notify_spawn_subprocess step by step: SIGCHLD blocked, fork, and at the end unblocked.
      The child is polled if it was forked and has a pidfd, and waited for if it was ready. */
  lemma SpawnStarts(env: SpawnEnv, timeoutMs: int)
    ensures var es := SpawnEvents(env, timeoutMs);
            && |es| >= 3
            && es[0] == BlockSigchld && es[1] == Fork(env.fork) && es[|es| - 1] == UnblockSigchld
            && (Open(env.pidfd) in es <==> env.fork != -1)
            && (PollChild(env.pidfd, timeoutMs) in es <==> env.fork != -1 && env.pidfd != -1)
            && (Waitpid(env.fork) in es <==> env.fork != -1 && env.pidfd != -1 && env.ready > 0)
            && (forall e :: e in es && e.PollChild? ==> e == PollChild(env.pidfd, timeoutMs))
            && (forall e :: e in es && e.Waitpid? ==> e == Waitpid(env.fork))
  {
    var es := SpawnEvents(env, timeoutMs);
    var fork, open, poll, close := Fork(env.fork), Open(env.pidfd), PollChild(env.pidfd, timeoutMs), Close(env.pidfd);
    if env.fork == -1 {
      assert es == [BlockSigchld, fork, UnblockSigchld];
    } else if env.pidfd == -1 {
      assert es == [BlockSigchld, fork, open, UnblockSigchld];
    } else if env.ready <= 0 {
      assert es == [BlockSigchld, fork, open, poll, close, UnblockSigchld];
    } else {
      assert es == [BlockSigchld, fork, open, poll, Waitpid(env.fork), close, UnblockSigchld];
    }
  }

  /** A low turn of a run with --kernel-oom neither scans nor signals. It writes sysrq-trigger
      if and only if that is accessible, can be opened and it is no dry run; it starts a helper
      if and only if the write succeeded and -n is set; it naps 500 ms and carries the state
      over unchanged. */
  lemma {:induction false} RunKernelOomTurn(a: Args, envs: seq<PollEnv>, n: nat)
    requires n < |envs| && LowmemSig(a, envs[n].first) != 0 && a.kernelOom
    ensures var tr, env := TurnTrace(a, envs, n), envs[n].sysrq;
            && |tr| >= 2
            && tr[0] == PollReading(envs[n].first)
            && tr[|tr| - 1] == Nap(500)
            && (SysrqWrite in tr <==> env.accessible && env.openable && !a.dryrun)
            && (Fork(env.dbus.fork) in tr <==> env.accessible && env.openable && !a.dryrun && env.writable && a.notify)
            && (forall e :: e in tr ==> !e.Scan? && !e.Signal? && !e.AdaptiveSleep?)
    ensures RunOf(a, envs[..n + 1]).state == RunOf(a, envs[..n]).state
  {
    var st := RunOf(a, envs[..n]).state;
    KernelTurnIs(a, st, envs[n]);
    RunGrowsBy(a, envs, n);
  }

  /** One more turn. */
  lemma RunGrowsBy(a: Args, envs: seq<PollEnv>, n: nat)
    requires n < |envs|
    ensures RunOf(a, envs[..n + 1]).state == PollOf(a, RunOf(a, envs[..n]).state, envs[n]).state
  {
    assert envs[..n + 1][..n] == envs[..n];
  }

  lemma {:induction false} KernelTurnIs(a: Args, st: State, env: PollEnv)
    ensures var tr := KernelOomTurn(a, st, env).trace;
            && |tr| >= 2
            && tr[0] == PollReading(env.first)
            && tr[|tr| - 1] == Nap(500)
            && (SysrqWrite in tr <==> env.sysrq.accessible && env.sysrq.openable && !a.dryrun)
            && (Fork(env.sysrq.dbus.fork) in tr <==>
                env.sysrq.accessible && env.sysrq.openable && !a.dryrun && env.sysrq.writable && a.notify)
            && (forall e :: e in tr ==> !e.Scan? && !e.Signal? && !e.AdaptiveSleep?)
  {
    SysrqEventsAre(a, env.sysrq);
    KernelTurnEvents(PollReading(env.first), SysrqEvents(a, env.sysrq), Nap(500));
  }

  lemma KernelTurnEvents(first: Event, middle: Trace, last: Event)
    ensures var tr := [first] + middle + [last];
            && |tr| >= 2 && tr[0] == first && tr[|tr| - 1] == last
            && forall e :: e in tr <==> e == first || e in middle || e == last
  {
  }

  lemma {:induction false} SysrqEventsAre(a: Args, env: SysrqEnv)
    ensures var es := SysrqEvents(a, env);
            && (SysrqWrite in es <==> env.accessible && env.openable && !a.dryrun)
            && (Fork(env.dbus.fork) in es <==> env.accessible && env.openable && !a.dryrun && env.writable && a.notify)
            && (forall e :: e in es ==> HelperEvent(e) || e.SysrqWrite?)
  {
    var spawn := SpawnIf(env.writable && a.notify, env.dbus, 0);
    SpawnsAreHelpers(env.writable && a.notify, env.dbus, 0);
    SpawnStarts(env.dbus, 0);
    InConcat([SysrqWrite], spawn);
    assert SpawnEvents(env.dbus, 0)[1] in SpawnEvents(env.dbus, 0);
  }

  /** The result of trigger_kernel_oom. */
  lemma SysrqResultIff(a: Args, env: SysrqEnv)
    ensures SysrqResult(a, env) == 0 <==> env.accessible && (a.dryrun || (env.openable && env.writable))
    ensures SysrqResult(a, env) == 0 || SysrqResult(a, env) == -1
  {
  }

  /** A turn with enough memory does nothing but read memory, perhaps report it, and sleep. */
  lemma RunCalmTurn(a: Args, envs: seq<PollEnv>, n: nat)
    requires n < |envs| && LowmemSig(a, envs[n].first) == 0
    ensures var tr, m := TurnTrace(a, envs, n), envs[n].first;
            || tr == [PollReading(m), AdaptiveSleep(SleepMs(a, m))]
            || tr == [PollReading(m), Report(m), AdaptiveSleep(SleepMs(a, m))]
  {
  }
}
