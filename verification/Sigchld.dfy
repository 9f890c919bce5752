/** Who reaps a child: notify_spawn_subprocess (kill.c) forks helpers with SIGCHLD blocked and
    may wait for them itself; handle_sigchld (main.c) reaps everything else. Every interleaving
    of the parent, its signal handler, the children and the kernel is a run of this machine. */
module Sigchld {

  datatype Child = Running | Zombie | Reaped

  /** Where the parent is inside notify_spawn_subprocess; Idle is anywhere else. */
  datatype Parent =
    | Idle
    | Masked                // SIGCHLD blocked, before fork
    | Forked(child: nat)    // before pidfd_open
    | Opened(child: nat)    // before poll
    | Ready(child: nat)     // poll said the child has exited, before waitpid
    | Closing               // before close(pidfd)
    | Unmasking             // at out_unblock

  /** Where the handler is: in its waitpid loop, or after the waitpid that found nothing. */
  datatype Handler = NotRunning | Looping | Returning

  /** Children are numbered in fork order, so a number is never reused. SIGCHLD is one bit:
      exits coalesce while it is pending. useMask is true for the real program. */
  datatype State = State(
    useMask: bool,
    children: seq<Child>,
    pending: bool,
    masked: bool,
    handler: Handler,
    parent: Parent,
    reaped: seq<nat>,
    missed: bool,
    opens: nat,
    closes: nat)

  datatype Step =
    | Block
    | ForkFails
    | ForkSucceeds
    | OpenFails
    | OpenSucceeds
    | PollFails
    | PollTimesOut
    | PollReady
    | Wait
    | Close
    | Unblock
    | ChildExits(i: nat)
    | ChildStops            // any other reason for the kernel to raise SIGCHLD
    | HandlerStarts
    | HandlerReaps(i: nat)
    | HandlerFindsNone
    | HandlerReturns

  function Init(useMask: bool): State {
    State(useMask, [], false, false, NotRunning, Idle, [], false, 0, 0)
  }

  predicate IsZombie(s: State, i: nat) {
    i < |s.children| && s.children[i] == Zombie
  }

  predicate SomeZombie(s: State) {
    Zombie in s.children
  }

  /** The handler runs on the parent's thread, so the parent is stopped while it runs, and the
      kernel keeps SIGCHLD blocked until it returns. poll reports readiness only for a child
      that is no longer running. The handler leaves its loop when waitpid(-1) finds nothing;
      children may exit between that and its return. */
  predicate Enabled(s: State, step: Step) {
    match step
    case Block => s.handler.NotRunning? && s.parent == Idle
    case ForkFails | ForkSucceeds => s.handler.NotRunning? && s.parent == Masked
    case OpenFails | OpenSucceeds => s.handler.NotRunning? && s.parent.Forked?
    case PollFails | PollTimesOut => s.handler.NotRunning? && s.parent.Opened?
    case PollReady =>
      s.handler.NotRunning? && s.parent.Opened? && s.parent.child < |s.children| && s.children[s.parent.child] != Running
    case Wait => s.handler.NotRunning? && s.parent.Ready?
    case Close => s.handler.NotRunning? && s.parent == Closing
    case Unblock => s.handler.NotRunning? && s.parent == Unmasking
    case ChildExits(i) => i < |s.children| && s.children[i] == Running
    case ChildStops => Running in s.children
    case HandlerStarts => s.pending && !s.masked && s.handler.NotRunning?
    case HandlerReaps(i) => s.handler.Looping? && IsZombie(s, i)
    case HandlerFindsNone => s.handler.Looping? && !SomeZombie(s)
    case HandlerReturns => s.handler.Returning?
  }

  function Reap(s: State, i: nat): State
    requires i < |s.children|
  {
    s.(children := s.children[i := Reaped], reaped := s.reaped + [i])
  }

  function Apply(s: State, step: Step): State
    requires Enabled(s, step)
  {
    match step
    case Block => s.(parent := Masked, masked := s.useMask)
    case ForkFails => s.(parent := Unmasking)
    case ForkSucceeds => s.(parent := Forked(|s.children|), children := s.children + [Running])
    case OpenFails => s.(parent := Unmasking)
    case OpenSucceeds => s.(parent := Opened(s.parent.child), opens := s.opens + 1)
    case PollFails | PollTimesOut => s.(parent := Closing)
    case PollReady => s.(parent := Ready(s.parent.child))
    case Wait =>
      if IsZombie(s, s.parent.child) then Reap(s, s.parent.child).(parent := Closing)
      else s.(parent := Closing, missed := true)
    case Close => s.(parent := Unmasking, closes := s.closes + 1)
    case Unblock => s.(parent := Idle, masked := false)
    case ChildExits(i) => s.(children := s.children[i := Zombie], pending := true)
    case ChildStops => s.(pending := true)
    case HandlerStarts => s.(handler := Looping, pending := false)
    case HandlerReaps(i) => Reap(s, i)
    case HandlerFindsNone => s.(handler := Returning)
    case HandlerReturns => s.(handler := NotRunning)
  }

  // ---------------------------------------------------------------------------
  // The invariant
  // ---------------------------------------------------------------------------

  predicate HoldsPidfd(s: State) {
    s.parent.Opened? || s.parent.Ready? || s.parent == Closing
  }

  /** The child the parent is going to wait for, while it may still do so. */
  predicate OwnChildUnreaped(s: State) {
    match s.parent
    case Forked(c) => c < |s.children| && s.children[c] != Reaped
    case Opened(c) => c < |s.children| && s.children[c] != Reaped
    case Ready(c) => IsZombie(s, c)
    case _ => true
  }

  ghost predicate ReapedOnce(s: State) {
    && (forall j, k :: 0 <= j < k < |s.reaped| ==> s.reaped[j] != s.reaped[k])
    && (forall i :: 0 <= i < |s.children| ==> (s.children[i] == Reaped <==> i in s.reaped))
    && (forall i :: i in s.reaped ==> i < |s.children|)
  }

  ghost predicate Inv(s: State) {
    && s.useMask
    && (SomeZombie(s) ==> s.pending || s.handler.Looping?)
    && (s.masked <==> s.parent != Idle)
    && (s.masked ==> s.handler.NotRunning?)
    && OwnChildUnreaped(s)
    && !s.missed
    && ReapedOnce(s)
    && s.opens == s.closes + (if HoldsPidfd(s) then 1 else 0)
  }

  lemma ReapKeepsReapedOnce(s: State, i: nat)
    requires ReapedOnce(s) && IsZombie(s, i)
    ensures ReapedOnce(Reap(s, i))
  {
    var t := Reap(s, i);
    assert i !in s.reaped;
    forall j | 0 <= j < |t.children|
      ensures t.children[j] == Reaped <==> j in t.reaped
    {
    }
  }

  /** Every step keeps the invariant. */
  lemma StepKeepsInv(s: State, step: Step)
    requires Inv(s) && Enabled(s, step)
    ensures Inv(Apply(s, step))
  {
    var t := Apply(s, step);
    match step {
      case Wait =>
        ReapKeepsReapedOnce(s, s.parent.child);
        assert SomeZombie(s);
      case HandlerReaps(i) =>
        ReapKeepsReapedOnce(s, i);
      case ForkSucceeds =>
        assert SomeZombie(t) ==> SomeZombie(s);
      case _ =>
    }
  }

  // ---------------------------------------------------------------------------
  // Runs
  // ---------------------------------------------------------------------------

  predicate ValidRun(s: State, steps: seq<Step>)
    decreases |steps|
  {
    steps == [] || (Enabled(s, steps[0]) && ValidRun(Apply(s, steps[0]), steps[1..]))
  }

  function Exec(s: State, steps: seq<Step>): State
    requires ValidRun(s, steps)
    decreases |steps|
  {
    if steps == [] then s else Exec(Apply(s, steps[0]), steps[1..])
  }

  lemma {:induction false} RunKeepsInv(s: State, steps: seq<Step>)
    requires Inv(s) && ValidRun(s, steps)
    ensures Inv(Exec(s, steps))
    decreases |steps|
  {
    if steps != [] {
      StepKeepsInv(s, steps[0]);
      RunKeepsInv(Apply(s, steps[0]), steps[1..]);
    }
  }

  /** Under every interleaving: a zombie means SIGCHLD is pending or the handler is still in its
      loop; no child is reaped twice; the parent's waitpid after a positive poll has never failed to find its
      child; SIGCHLD is blocked exactly inside notify_spawn_subprocess; and every opened pidfd
      has been closed once, except the one in use. */
  lemma {:induction false} ProtocolIsSafe(steps: seq<Step>)
    requires ValidRun(Init(true), steps)
    ensures var s := Exec(Init(true), steps);
            && (SomeZombie(s) ==> s.pending || s.handler.Looping?)
            && (forall j, k :: 0 <= j < k < |s.reaped| ==> s.reaped[j] != s.reaped[k])
            && (forall i :: 0 <= i < |s.children| ==> (s.children[i] == Reaped <==> i in s.reaped))
            && !s.missed
            && (s.masked <==> s.parent != Idle)
            && (s.parent == Idle ==> s.opens == s.closes)
  {
    RunKeepsInv(Init(true), steps);
  }

  // ---------------------------------------------------------------------------
  // Draining
  // ---------------------------------------------------------------------------

  predicate HandlerStep(step: Step) {
    step.HandlerStarts? || step.HandlerReaps? || step.HandlerFindsNone? || step.HandlerReturns?
  }

  function CountZombies(cs: seq<Child>): nat {
    if cs == [] then 0 else (if cs[|cs| - 1] == Zombie then 1 else 0) + CountZombies(cs[..|cs| - 1])
  }

  lemma {:induction false} ReapCounts(cs: seq<Child>, i: nat)
    requires i < |cs| && cs[i] == Zombie
    ensures CountZombies(cs[i := Reaped]) == CountZombies(cs) - 1
  {
    var n := |cs| - 1;
    if i < n {
      assert cs[i := Reaped][..n] == cs[..n][i := Reaped];
      ReapCounts(cs[..n], i);
    } else {
      assert cs[i := Reaped][..n] == cs[..n];
    }
  }

  /** An upper bound on how many handler steps are left without new exits. */
  function HandlerWork(s: State): nat {
    CountZombies(s.children) + (if s.pending then 3 else 0)
    + match s.handler
      case NotRunning => 0
      case Looping => 2
      case Returning => 1
  }

  lemma {:induction false} HandlerStepsAreBounded(s: State, steps: seq<Step>)
    requires ValidRun(s, steps) && forall i :: 0 <= i < |steps| ==> HandlerStep(steps[i])
    ensures |steps| + HandlerWork(Exec(s, steps)) <= HandlerWork(s)
    decreases |steps|
  {
    if steps != [] {
      if steps[0].HandlerReaps? {
        ReapCounts(s.children, steps[0].i);
      }
      HandlerStepsAreBounded(Apply(s, steps[0]), steps[1..]);
    }
  }

  /** Coalescing loses nothing: in every reachable state outside notify_spawn_subprocess, the
      handler can take only finitely many steps, and once none is enabled no zombie is left,
      however many exits shared one pending bit. */
  lemma {:induction false} DrainedMeansNoZombie(before: seq<Step>, handling: seq<Step>)
    requires ValidRun(Init(true), before)
    requires var s := Exec(Init(true), before);
             s.parent == Idle && ValidRun(s, handling) && forall i :: 0 <= i < |handling| ==> HandlerStep(handling[i])
    ensures var s := Exec(Init(true), before);
            |handling| <= HandlerWork(s)
    ensures var t := Exec(Exec(Init(true), before), handling);
            (forall step :: HandlerStep(step) ==> !Enabled(t, step)) ==> !SomeZombie(t)
  {
    var s := Exec(Init(true), before);
    RunKeepsInv(Init(true), before);
    HandlerStepsAreBounded(s, handling);
    RunKeepsInv(s, handling);
    HandlerKeepsParent(s, handling);
    if SomeZombie(Exec(s, handling)) {
      var step := ZombieIsHandled(Exec(s, handling));
    }
  }

  /** While there is a zombie and SIGCHLD is not blocked, the handler has something to do. */
  lemma ZombieIsHandled(t: State) returns (step: Step)
    requires Inv(t) && t.parent == Idle && SomeZombie(t)
    ensures HandlerStep(step) && Enabled(t, step)
  {
    var i :| 0 <= i < |t.children| && t.children[i] == Zombie;
    step := if t.handler.Looping? then HandlerReaps(i) else if t.handler.Returning? then HandlerReturns else HandlerStarts;
  }

  lemma {:induction false} HandlerKeepsParent(s: State, steps: seq<Step>)
    requires ValidRun(s, steps) && forall i :: 0 <= i < |steps| ==> HandlerStep(steps[i])
    ensures Exec(s, steps).parent == s.parent && Exec(s, steps).masked == s.masked
    decreases |steps|
  {
    if steps != [] {
      HandlerKeepsParent(Apply(s, steps[0]), steps[1..]);
    }
  }

  // ---------------------------------------------------------------------------
  // Conservation
  // ---------------------------------------------------------------------------

  predicate IsFork(step: Step) { step.ForkSucceeds? }
  predicate IsExit(step: Step) { step.ChildExits? }
  predicate IsReap(step: Step) { step.HandlerReaps? || step.Wait? }
  predicate IsOpening(step: Step) { step.OpenSucceeds? }
  predicate IsClosing(step: Step) { step.Close? }

  function Count(steps: seq<Step>, p: Step -> bool): nat {
    if steps == [] then 0 else (if p(steps[0]) then 1 else 0) + Count(steps[1..], p)
  }

  lemma {:induction false} ExitCounts(cs: seq<Child>, i: nat)
    requires i < |cs| && cs[i] == Running
    ensures CountZombies(cs[i := Zombie]) == CountZombies(cs) + 1
  {
    var n := |cs| - 1;
    if i < n {
      assert cs[i := Zombie][..n] == cs[..n][i := Zombie];
      ExitCounts(cs[..n], i);
    } else {
      assert cs[i := Zombie][..n] == cs[..n];
    }
  }

  /** One step: forks add children, exits add zombies, reaping moves a zombie to the list. */
  lemma {:induction false} StepAccounts(s: State, step: Step)
    requires Inv(s) && Enabled(s, step)
    ensures var t := Apply(s, step);
            && |t.children| == |s.children| + (if IsFork(step) then 1 else 0)
            && |t.reaped| == |s.reaped| + (if IsReap(step) then 1 else 0)
            && CountZombies(t.children) + |t.reaped| == CountZombies(s.children) + |s.reaped| + (if IsExit(step) then 1 else 0)
            && t.opens == s.opens + (if IsOpening(step) then 1 else 0)
            && t.closes == s.closes + (if IsClosing(step) then 1 else 0)
  {
    match step {
      case ForkSucceeds =>
        assert (s.children + [Running])[..|s.children|] == s.children;
      case ChildExits(i) =>
        ExitCounts(s.children, i);
      case HandlerReaps(i) =>
        ReapCounts(s.children, i);
      case Wait =>
        ReapCounts(s.children, s.parent.child);
      case _ =>
    }
  }

  /** Over every run nothing is lost and nothing invented: there are as many children as
      successful forks; every exit is a zombie or has been reaped; each handler reap and each
      waitpid of the parent reaped one child; and pidfds were opened and closed as often as
      the parent did so. */
  lemma {:induction false} RunAccounts(s: State, steps: seq<Step>)
    requires Inv(s) && ValidRun(s, steps)
    ensures var t := Exec(s, steps);
            && |t.children| == |s.children| + Count(steps, IsFork)
            && |t.reaped| == |s.reaped| + Count(steps, IsReap)
            && CountZombies(t.children) + |t.reaped| == CountZombies(s.children) + |s.reaped| + Count(steps, IsExit)
            && t.opens == s.opens + Count(steps, IsOpening)
            && t.closes == s.closes + Count(steps, IsClosing)
    decreases |steps|
  {
    if steps != [] {
      StepAccounts(s, steps[0]);
      StepKeepsInv(s, steps[0]);
      RunAccounts(Apply(s, steps[0]), steps[1..]);
    }
  }

  // ---------------------------------------------------------------------------
  // The handler's loop
  // ---------------------------------------------------------------------------

  /** handle_sigchld without interference: waitpid(-1, WNOHANG) hands out some zombie until
      there is none. All zombies end up reaped, one waitpid each, and nothing else changes. */
  method HandleSigchld(before: State) returns (s: State)
    requires before.handler.Looping?
    ensures !SomeZombie(s)
    ensures |s.children| == |before.children|
    ensures forall i :: 0 <= i < |s.children| ==>
              s.children[i] == if before.children[i] == Zombie then Reaped else before.children[i]
    ensures |s.reaped| == |before.reaped| + CountZombies(before.children)
    ensures s == before.(children := s.children, reaped := s.reaped, handler := Returning)
  {
    s := before;
    while SomeZombie(s)
      invariant |s.children| == |before.children|
      invariant forall i :: 0 <= i < |s.children| ==>
                  s.children[i] == before.children[i] || (before.children[i] == Zombie && s.children[i] == Reaped)
      invariant |s.reaped| + CountZombies(s.children) == |before.reaped| + CountZombies(before.children)
      invariant s == before.(children := s.children, reaped := s.reaped)
      decreases CountZombies(s.children)
    {
      var i :| 0 <= i < |s.children| && s.children[i] == Zombie;
      ReapCounts(s.children, i);
      s := Reap(s, i);
    }
    NoZombieCountsZero(s.children);
    s := s.(handler := Returning);
  }

  lemma {:induction false} NoZombieCountsZero(cs: seq<Child>)
    requires Zombie !in cs
    ensures CountZombies(cs) == 0
  {
    if cs != [] {
      NoZombieCountsZero(cs[..|cs| - 1]);
    }
  }

  // ---------------------------------------------------------------------------
  // Why the signal is blocked
  // ---------------------------------------------------------------------------

  lemma {:induction false} PrependStep(s: State, step: Step, rest: seq<Step>)
    requires Enabled(s, step) && ValidRun(Apply(s, step), rest)
    ensures ValidRun(s, [step] + rest)
    ensures Exec(s, [step] + rest) == Exec(Apply(s, step), rest)
  {
    assert ([step] + rest)[1..] == rest;
  }

  /** Poll has reported the child; the handler gets there first. */
  lemma {:induction false} HandlerWinsRace(s: State) returns (steps: seq<Step>)
    requires s == State(false, [Zombie], true, false, NotRunning, Ready(0), [], false, 1, 0)
    ensures ValidRun(s, steps) && Exec(s, steps).missed
  {
    var s1 := s.(handler := Looping, pending := false);
    var s2 := s1.(children := [Reaped], reaped := [0]);
    var s3 := s2.(handler := Returning);
    var s4 := s3.(handler := NotRunning);
    assert Apply(s1, HandlerReaps(0)) == s2 by { assert [Zombie][0 := Reaped] == [Reaped]; }
    steps := [];
    PrependStep(s4, Wait, steps);
    steps := [Wait] + steps;
    PrependStep(s3, HandlerReturns, steps);
    steps := [HandlerReturns] + steps;
    PrependStep(s2, HandlerFindsNone, steps);
    steps := [HandlerFindsNone] + steps;
    PrependStep(s1, HandlerReaps(0), steps);
    steps := [HandlerReaps(0)] + steps;
    PrependStep(s, HandlerStarts, steps);
    steps := [HandlerStarts] + steps;
  }

  /** Without blocking SIGCHLD the handler can reap the child between poll and waitpid, and the
      parent's waitpid finds nothing. */
  lemma {:induction false} UnmaskedParentMissesItsChild() returns (steps: seq<Step>)
    ensures ValidRun(Init(false), steps) && Exec(Init(false), steps).missed
  {
    var s0 := Init(false);
    var s1 := s0.(parent := Masked);
    var s2 := s1.(parent := Forked(0), children := [Running]);
    var s3 := s2.(parent := Opened(0), opens := 1);
    var s4 := s3.(children := [Zombie], pending := true);
    var s5 := s4.(parent := Ready(0));
    assert Apply(s1, ForkSucceeds) == s2 by { assert [] + [Running] == [Running]; }
    assert Apply(s3, ChildExits(0)) == s4 by { assert [Running][0 := Zombie] == [Zombie]; }
    steps := HandlerWinsRace(s5);
    PrependStep(s4, PollReady, steps);
    steps := [PollReady] + steps;
    PrependStep(s3, ChildExits(0), steps);
    steps := [ChildExits(0)] + steps;
    PrependStep(s2, OpenSucceeds, steps);
    steps := [OpenSucceeds] + steps;
    PrependStep(s1, ForkSucceeds, steps);
    steps := [ForkSucceeds] + steps;
    PrependStep(s0, Block, steps);
    steps := [Block] + steps;
  }
}
