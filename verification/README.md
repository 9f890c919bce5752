# A verified model of earlyoom

earlyoom watches available memory and free swap and, when both run low, kills the process the
kernel would kill. This project models its decision code in Dafny and proves what it guarantees.
`/proc`, system call results and the clock are arbitrary inputs, so every statement holds for every
kernel and every load. `dafny verify dfyconfig.toml` checks all of it.

| file | what it models | what is proved about it |
|---|---|---|
| `VictimSelection.dfy`, `VictimTheorems.dfy` | the scan of `/proc` (`is_larger`, `find_largest_process`) | it picks the first maximum; in `--sort-by-rss` mode, exactly when it does; what `--prefer` and `--avoid` can change |
| `KillWait.dfy`, `KillTheorems.dfy` | `kill_wait`, `kill_release` as a trace of system calls | signals, escalation, bounded waiting, result, errno, descriptors |
| `Daemon.dfy`, `DaemonTheorems.dfy`, `HelperTheorems.dfy` | `poll_loop` and all it calls | whole runs: what every turn does, justified signals, harmless dry runs, notification rate, resources, reports, helpers |
| `Sigchld.dfy` | fork, wait and SIGCHLD handler as a concurrent state machine | no lost, doubly reaped or stolen child under any interleaving |
| `Utf8.dfy` | `fix_truncated_utf8` | the result against the grammar in section 4 of RFC 3629 |
| `StatParser.dfy` | `/proc/PID/stat` parsing, `is_alive` | round trip for arbitrary process names and values |
| `MeminfoText.dfy` | `/proc/meminfo` parsing | when substring search is label lookup |
| `SleepTiming.dfy` | adaptive sleep, report countdown | no missed low-memory event; report spacing |
| `Limits.dfy` | threshold options, `lowmem_sig` | order of the limits for every command line |
| `Common.dfy`, `Decimal.dfy` | shared values; decimal text as libc reads it | printing and scanning numbers |

## How the model is written

- A struct that a function fills for its caller is a class (`ProcInfo`, `StatRecord`), a buffer edited in place
  an array (`FixTruncatedUtf8`), and the variables that live across turns of the main loop are the
  fields of `Poller`. Loops are loops. Each method is tied to a function of its inputs
  (`Champion`, `Fixed`, `KillWaitOf`, `PollOf`, ...), and the theorems are about that function.
- `double` is `real`. Regular expressions and `strtod` are arbitrary functions.
- A run is the sequence of `Event`s the daemon produces. Each turn gets its own arbitrary readings,
  process list, system call results and clock value.
- Children in `Sigchld` are numbered in fork order. A pid can only be reused after its child has
  been reaped, so identifying children by number loses nothing.

## Where code and documentation differ

- `--sort-by-rss` is documented as finding the largest rss. The comparator is not transitive once
  an adjusted VmRSS is zero or negative: `RssCycle` exhibits three processes for which the order of
  `/proc` alone decides. `RssSelectsLargestIff` gives the exact condition.
- `--avoid` can select the very process it names: in `--sort-by-rss` mode below 3 GiB
  (`RssAvoidCanSelect`, exact condition in `RssAvoidIsVictimIff` and `RssAvoidSelectsIff`), and in
  oom_score mode when it is the first name option and the comm of a bigger process cannot be read
  (`AvoidCanSelectWhenNamesUnreadable`, exact condition in `AvoidSelectsIff`).
- `--prefer` can save the very process it names in `--sort-by-rss` mode (`RssPreferCanSave`, exact
  condition in `RssPreferKeepsIff`).
- MANPAGE.md:281-282 says `-S` is ignored with zero total swap. Every `-S` argument is a fatal
  parse error there (`ZeroTotalRejectsSize`).
- The comment at msg.c:165 states `term <= kill`; the code ensures `kill <= term`.
- The comment at main.c:487-491 promises a sleep that risks no missed event. That holds for summed
  fill rates unless the 100 ms floor applied (`FloorMiss`, exact condition in `FloorMisses`); it does
  not hold when memory and swap fill at full rate in parallel (`ParallelMiss`).
- Entries of `/proc/meminfo` are found by substring search, which is not label lookup; when that
  matters is said exactly by `MeminfoIsExactIff`.
- `-r 0` disables reports but not the countdown, which then leaves the range of `int`
  (`DisabledCountdownDrifts`).

## Model

| member | source | states |
|---|---|---|
| VictimSelection.CheckNumeric | kill.c:44-61 | true exactly for non-empty strings of digits |
| VictimSelection.ParsePid | kill.c:615 | within int range, and the value of the name exactly when that fits |
| VictimSelection.ProcInfo.Empty | kill.c:590-597 | all numeric fields are -9999, all others empty |
| VictimSelection.ProcInfo.Zeroed | kill.c:640 | all fields are zero |
| VictimSelection.ProcInfo.AdjustByName | kill.c:453-476 | passes iff comm is readable and not ignored; then the record holds the scores shifted by the matching name options |
| VictimSelection.ProcInfo.FillScores | kill.c:406-476 | passes iff all filters but oom_score_adj pass; then the record holds the adjusted scores |
| VictimSelection.ProcInfo.IsLarger | kill.c:404-529 | true iff the process is eligible and its adjusted score beats the victim's; then the record describes the process completely |
| VictimSelection.ScanEntries | kill.c:599-627 | the loop with sentinel and late oom_score_adj check leaves the champion of the eligible entries, or the untouched empty record |
| VictimSelection.FindLargestProcess | kill.c:576-649 | the record returned describes the champion completely; it is the empty record if nothing is eligible and all zero if the champion is earlyoom itself |
| VictimSelection.SentinelLoses | kill.c:590-599 | every eligible process beats the -9999 sentinel, in both modes |
| VictimTheorems.ChampionIff | kill.c:599-627 | both modes: an entry wins iff it is eligible, beats the leader it meets and no later eligible entry beats it |
| VictimTheorems.ChampionNoneIff | kill.c:599-627 | the sentinel survives iff nothing is eligible |
| VictimTheorems.ScanIsFirstMax | kill.c:478-527 | the lazy scan equals eager filter-then-first-maximum: by (oom_score, VmRSS) always, by (VmRSS, oom_score) when every eligible adjusted VmRSS is positive |
| VictimTheorems.OrderIndependentIff | kill.c:478-514 | over all permutations of /proc the selected score is the same iff nothing is eligible or one eligible process beats all others |
| VictimTheorems.OomOrderIndependent | kill.c:505-514 | in oom_score mode the order of /proc never matters |
| VictimTheorems.RssSelectsLargestIff | kill.c:478-504 | --sort-by-rss selects the largest (VmRSS, oom_score) for every order iff no eligible process without resident memory has a higher oom_score |
| VictimTheorems.CycleWinnerIsLast | kill.c:479-504 | around any cycle of the comparator the process read last wins |
| VictimTheorems.RssCycle | kill.c:479-504 | such a cycle exists: (oom, rss) = (99, 12), (102, 0), (103, 8) |
| VictimTheorems.AvoidSelectsIff | kill.c:453-472 | oom_score mode, every process list: a process that newly matches --avoid is the victim iff, 300 points lower, it still is the first maximum of the eligible processes with a readable comm |
| VictimTheorems.AvoidNeverSelects | kill.c:466-472 | hence, with readable names, making one process match --avoid never makes it the victim |
| VictimTheorems.PreferSelectsIff | kill.c:453-465 | oom_score mode, every process list: a process that newly matches --prefer is the victim iff, 300 points higher, it is the first maximum of the eligible processes with a readable comm |
| VictimTheorems.PreferNeverDeselects | kill.c:459-465 | oom_score mode, every process list: making the victim match --prefer never un-selects it |
| VictimTheorems.RssAvoidIsVictimIff | kill.c:453-504 | --sort-by-rss, every process list: a process that newly matches --avoid is the victim iff, 3145728 KiB lower, it beats the leader it meets and no later eligible process with a readable comm beats it |
| VictimTheorems.RssAvoidSelectsIff | kill.c:466-504 | with readable names, making a non-victim match --avoid selects it iff its VmRSS is at most 3145728 KiB and by (oom_score, lowered VmRSS) it beats the leader it meets and is beaten by no later eligible process |
| VictimTheorems.RssAvoidAmongResidentIff | kill.c:466-504 | with readable names and all others resident, the bare oom_score decides that |
| VictimTheorems.RssPreferIsVictimIff | kill.c:453-504 | --sort-by-rss, every process list: the same for a process that newly matches --prefer, 3145728 KiB higher |
| VictimTheorems.RssPreferKeepsIff | kill.c:459-504 | with readable names, making the victim match --prefer keeps it iff it was resident, stays non-resident, or now holds by VmRSS against the resident leader it meets and all later resident processes |
| VictimTheorems.RssPreferCanSave | kill.c:459-504 | a process list on which --prefer saves the process it names: (oom, rss) = (5, 4000000), (99, 0) |
| VictimTheorems.RssAvoidCanSelect | kill.c:466-504 | a process list on which --avoid selects the process it names |
| VictimTheorems.AvoidCanSelectWhenNamesUnreadable | kill.c:453-458 | a process list on which turning on --avoid selects the named process because another comm is unreadable |
| VictimTheorems.BoundedRegret | kill.c:25-28 | oom_score mode: the victim's raw oom_score is within 600, 300 or 0 of every eligible process's, depending on how many of --prefer and --avoid are set |
| VictimTheorems.KillableIff | kill.c:404-529 | the filters let through exactly the entries whose fields pass: numeric name above 2, uid above 0 with --ignore-root-user, stat readable, parent not 2, oom_score readable, oom_score_adj readable and not -1000, comm readable with a name option and not matched by --ignore |
| VictimTheorems.VictimIsKillable | kill.c:576-649 | on fields: the result is -9999 iff no entry is killable; a positive result is above 2, not earlyoom's pid and that of a killable entry; 0 stands for earlyoom itself |
| VictimTheorems.KeyMeans | kill.c:430-472 | the scores in numbers: 300 points or 3145728 KiB per matching name option, VmRSS in KiB rounded toward zero |
| VictimTheorems.SecondWinsIff | kill.c:478-514 | of two killable processes the second is selected iff it has the higher oom_score, then VmRSS; with --sort-by-rss and both resident, the larger VmRSS, then oom_score |
| VictimTheorems.OomVictimOutranks | kill.c:505-514 | oom_score mode, every list: no killable process has a higher score than the victim, or the same and more VmRSS, or both the same and an earlier place |
| VictimTheorems.RssVictimOutranks | kill.c:478-489 | the same for --sort-by-rss with VmRSS first, when all killable processes are resident |
| KillWait.KillRelease | kill.c:289-309 | returns kill's result; process_mrelease is called iff the kill succeeded and there is a pidfd |
| KillWait.SendAndWait | kill.c:342-387 | the loop with its early exits produces exactly the specified events, result and errno |
| KillWait.KillAndWait | kill.c:315-398 | kill_wait produces exactly the specified events, result and errno, whatever close answers |
| KillTheorems.SignalsSent | kill.c:320-372 | none iff dry run or getpgid failed; otherwise the requested signal, followed by SIGKILL iff it is neither 0 nor SIGKILL, its kill succeeded and some of the 100 rounds is reached with the target alive and a reading at or below both SIGKILL limits |
| KillTheorems.WaitIsBounded | kill.c:355-383 | at most 100 liveness polls and at most 100 naps |
| KillTheorems.WaitIsPaced | kill.c:317-383 | every nap lasts 100 ms and directly follows a poll that found the target alive, and after every such poll there is one |
| KillTheorems.KillWaitResult | kill.c:315-398 | result, errno and time waited for every input: failures of getpgid and of both kills, 0 after 100 r ms if poll r is the first to find the target dead, -1 with ETIME after 10000 ms if none is |
| KillTheorems.ReadsUntilKill | kill.c:360-372 | memory is read directly before every liveness poll until SIGKILL has been sent, and never after that |
| KillTheorems.ReleaseFollowsKill | kill.c:289-309 | process_mrelease directly follows a kill iff that kill succeeded and there is a pidfd, and follows nothing else |
| KillTheorems.ZeroIffSeenDead | kill.c:355-397 | for a non-zero signal outside a dry run, 0 is returned iff the target was observed not alive |
| KillTheorems.ErrnoIsTheCause | kill.c:385-397 | a failure carries the errno of getpgid, of a failed kill, or ETIME after exactly 100 polls |
| KillTheorems.EscalationIsJustified | kill.c:325-372 | a signal other than the requested one is SIGKILL and directly follows a reading at or below both SIGKILL limits; with -g every target is the negated answer of getpgid |
| KillTheorems.PidfdIsClosedOnce | kill.c:334-396 | on every path at most one pidfd is opened, and it is closed exactly once, last |
| Daemon.NotifySpawnSubprocess | kill.c:85-137 | every path of the parent produces the specified events and ends by unblocking SIGCHLD |
| Daemon.Poller.constructor | main.c:534-538 | the countdown and prev_notify start at zero |
| Daemon.Poller.NotifyProcessKilled | kill.c:194-226 | notification events and the new prev_notify |
| Daemon.Poller.KillProcess | kill.c:655-715 | hook, kill, notification, error notification and EPERM throttling in order |
| Daemon.Poller.TriggerKernelOom | kill.c:246-283 | result and events; a dry run never writes |
| Daemon.Poller.ReactToLowMemory | main.c:560-573 | scan, second reading, kill with the signal of the first reading iff still low |
| Daemon.Poller.Poll | main.c:540-584 | one turn: events, countdown and prev_notify |
| Daemon.StartupSelftests | main.c:70-86 | the rehearsal sends at most signal 0 to the victim of a scan, and --kernel-oom is given up iff sysrq-trigger is not writable |
| Daemon.PollLoop | main.c:534-585 | any number of turns produce the run RunOf describes |
| DaemonTheorems.RunSignalsExplained | main.c:540-573 | whole runs: every signal follows two low readings around the scan that chose the process it is meant for, that process is eligible, above pid 2 and not earlyoom, and the signal is the one due or a justified escalation; with -g it goes to the group getpgid answered for that process |
| DaemonTheorems.LowTurnSignalsIff | main.c:552-573 | a low turn signals iff memory is still low after the scan, a victim was found, it is no dry run and with -g getpgid succeeded; the victim or its group gets the signal of the first reading |
| DaemonTheorems.RunLowTurn | main.c:540-584 | every low user-mode turn of every run reads, scans, rereads and ends with the adaptive sleep for the second reading; it signals iff memory is still low, there is a victim, no dry run and with -g a group, and then sends the due signal |
| DaemonTheorems.RunKernelOomTurn | main.c:553-559 | every low --kernel-oom turn writes sysrq-trigger iff it is accessible, can be opened and it is no dry run, notifies iff the write succeeded and -n is set, naps 500 ms, neither scans nor signals and keeps the state |
| DaemonTheorems.RunCalmTurn | main.c:574-583 | a turn with enough memory reads, perhaps reports, and sleeps |
| DaemonTheorems.SysrqResultIff | kill.c:246-283 | 0 iff accessible and dry run or written, otherwise -1 |
| DaemonTheorems.SpawnStarts | kill.c:85-137 | SIGCHLD blocked, fork, unblocked last; the child is polled iff forked with a pidfd, and waited for iff poll was positive |
| HelperTheorems.HelpersStarted | kill.c:655-715 | the helpers of a kill in order with their timeouts: hook 200 ms, D-Bus and script when due, D-Bus when the kill failed |
| HelperTheorems.HelpersWithoutKill | kill.c:655-700 | without a victim only the D-Bus notification, in the rehearsal no helper |
| HelperTheorems.HookComesFirst | kill.c:681-707 | the hook is started before anything is signalled, every other helper after |
| HelperTheorems.ThrottledIff | kill.c:655-715 | kill_process ends with a nap of 1000 ms iff there was no victim or the kill failed with EPERM |
| HelperTheorems.StartupMeans | main.c:70-86 | --kernel-oom is kept iff sysrq-trigger is accessible; in user mode one scan, then signal 0 to the victim and no helper for it |
| DaemonTheorems.DryRunIsHarmless | kill.c:258-260 | a whole --dryrun run with self-test sends no signal but 0 and never writes sysrq-trigger; the self-test is harmless in every configuration |
| DaemonTheorems.RunRoundsIncrease | kill.c:199-215 | the clock seconds of the notification rounds of a dry run strictly increase, even if the clock does not |
| DaemonTheorems.NotificationRateLimit | kill.c:194-226 | rounds with clock seconds in [lo, hi] number at most hi - lo + 1 over every dry run |
| DaemonTheorems.SuppressedMeansRecentRound | kill.c:203-213 | a notification is suppressed only if a round in the same or a later second happened, the clock is below 1 or it failed |
| DaemonTheorems.RunBalanced | kill.c:85-136 | over every run: each pidfd opened by a helper or by kill_wait is closed exactly once, no other pidfd is closed, SIGCHLD is never blocked twice and always unblocked again |
| DaemonTheorems.TurnReports | main.c:574-577 | in every mode a turn prints a report iff memory is not low, reports are enabled and the countdown has run out |
| DaemonTheorems.RunReportsAt | main.c:538-583 | turn n of every run reports exactly when the countdown over the adaptive sleep times says so |
| DaemonTheorems.RunReportSpacing | MANPAGE.md:104-115 | over every run, between two consecutive reports the adaptive sleeps add up to at least the interval, and to at most 999 ms more if memory was never low in between |
| DaemonTheorems.RunFirstReport | main.c:536-538 | with reports enabled the first turn of a run that is not low reports |
| Sigchld.StepKeepsInv | kill.c:87-136 | every step of parent, handler, children and kernel keeps the protocol invariant |
| Sigchld.ProtocolIsSafe | kill.c:85-137 | every interleaving, including exits between the handler's last waitpid and its return: a zombie implies SIGCHLD pending or the handler still in its loop, no child is reaped twice, the parent's waitpid after poll never misses its child, the mask and the pidfds are balanced |
| Sigchld.HandlerStepsAreBounded | main.c:132-144 | without new exits the handler takes a bounded number of steps |
| Sigchld.DrainedMeansNoZombie | main.c:126-145 | once no handler step is enabled no zombie is left, although pending signals coalesce |
| Sigchld.RunAccounts | kill.c:85-137 | conservation over every run: children = forks, zombies + reaped = exits, reaped = handler reaps + waitpids of the parent, opens and closes counted |
| Sigchld.HandleSigchld | main.c:126-145 | the loop reaps every zombie once, changes no other child and ends after the waitpid that finds none |
| Sigchld.UnmaskedParentMissesItsChild | kill.c:87-92 | without blocking SIGCHLD there is a run in which the parent's waitpid finds nothing |
| Utf8.FixTruncatedUtf8 | msg.c:225-248 | the C string in the buffer becomes its repaired form; no byte but the new terminator changes |
| Utf8.FixedIsLongestIff | msg.c:219-248 | for every valid string and every cut, the result is the longest valid prefix iff at least three bytes were left or nothing was broken |
| Utf8.FixedIdempotent | msg.c:225-248 | on cuts of valid strings: identity if valid, and repairing twice is repairing once |
| Utf8.FixedTwiceIff | msg.c:225-248 | on arbitrary bytes repairing twice is repairing once iff nothing was cut, fewer than three bytes are left, or the last three left are a clean end |
| Utf8.FixedNotIdempotent | msg.c:225-248 | C3 C3 C3 C3 loses one byte per call |
| StatParser.StatRecord.Store | proc_pid.c:35-42 | assigned fields are the converted ones, in order; success iff all four |
| StatParser.StatRecord.ParseBuf | proc_pid.c:13-43 | true iff state, ppid, num_threads and rss were read from the C string, converted to their C types; fields not reached stay as they were |
| StatParser.StatRecord.ParseFile | proc_pid.c:46-75 | the result of parsing the first 511 bytes; false when the file is unreadable or empty |
| StatParser.StatRoundTrip | proc_pid.c:13-43 | for every process name, every state character but `)` and NUL, and all field values, parsing the printed line recovers state, ppid cut to int and num_threads and rss saturated to long: the values themselves iff they fit these types |
| StatParser.StatSurvivesTruncation | proc_pid.c:62-74 | so does parsing the line cut anywhere at or past the end of rss, also by a NUL |
| StatParser.StatFileRoundTrip | proc_pid.c:46-75 | 511 bytes suffice for every name of up to 55 bytes and all printed fields of up to 64 bits, signed or unsigned |
| StatParser.ReadsFirst511 | proc_pid.c:46-75 | only the first 511 bytes matter, and there must be some |
| StatParser.IsAliveIff | meminfo.c:125-149 | a group is alive iff it can be signalled; a process iff its stat can be read and parsed and it is no zombie with one thread |
| StatParser.LivenessIgnoresName | meminfo.c:138-148 | is_alive depends only on state and num_threads, whatever the process is called |
| MeminfoText.GetEntryIsFirstSuffix | meminfo.c:23-38 | over every rendered text get_entry returns the value of the first line whose label ends with the name, -ENODATA if none |
| MeminfoText.GetEntryIsExactIff | meminfo.c:23-38 | it agrees with label lookup for all values iff no longer label ending in the name comes first |
| MeminfoText.ShadowingReadsWrongLine | meminfo.c:53-61 | with a longer label first ("SwapCached" before "Cached") the wrong line is read |
| MeminfoText.ParseMeminfo | meminfo.c:67-123 | exit codes 102 and 103, otherwise the reading described by the C string in the first 8191 bytes |
| MeminfoText.FillFields | meminfo.c:96-109 | exit code 104 for missing entries; MemAvailable is replaced by the guesstimate when missing |
| MeminfoText.CalculateFields | meminfo.c:111-120 | user memory total and the two percentages |
| MeminfoText.MeminfoIsExactIff | meminfo.c:23-123 | parse_meminfo reads every file with given labels that fits 8191 bytes as the labels mean it, iff the search misses an entry anyway (exit 104), or no required name and not MemAvailable is shadowed, nor a guesstimate name when there is no MemAvailable |
| MeminfoText.FieldsMean | meminfo.c:96-115 | which entry ends up in which field, by name; available memory is MemAvailable or MemFree + Cached + Buffers - Shmem |
| MeminfoText.NoReadingMeans | meminfo.c:41-63 | exit code 104 iff a needed entry is missing; no percentages iff user memory is zero |
| MeminfoText.ReadMeminfoCases | meminfo.c:67-95 | exit 102 iff the file cannot be opened, 103 iff it cannot be read or is empty; only the first 8191 bytes matter |
| MeminfoText.RenderedReadingMeans | meminfo.c:67-123 | every file that fits and shadows nothing needed: each field is the value of the line labelled so, and the percentages are the shares of those values |
| MeminfoText.ReadNumberCases | meminfo.c:30-37 | the number printed, -ERANGE if it does not fit a long long, 0 without digits |
| MeminfoText.PercentagesMeanShares | meminfo.c:111-120 | the percentages are the shares of the totals; memory lies in [0, 100] when MemAvailable is reported |
| Limits.ParseTermKillTuple | msg.c:166-217 | accepts exactly the arguments that have a meaning and returns that meaning; otherwise the first error from left to right |
| Limits.MeaningOfOne | msg.c:133-217 | "term" is accepted iff at most 255 characters and a positive number up to the limit; the SIGKILL limit is half of it |
| Limits.MeaningOfTwo | msg.c:133-217 | "term,kill" is accepted iff at most 255 characters and both numbers lie in [0, limit], not both zero; the second is the SIGKILL limit, the larger the SIGTERM limit |
| Limits.ErrorOfOne | msg.c:136-217 | which of the six errors is reported for "term", each with its exact condition |
| Limits.ErrorOfTwo | msg.c:190-213 | for "term,kill" the first part's error wins, then the second's, then both zero |
| Limits.MeaningInRange | msg.c:133-165 | accepted values satisfy 0 <= kill <= term <= limit and term > 0 |
| Limits.MergePair | main.c:367-380 | a size option replaces the default, and the lower of size and percentage is used when both are given |
| Limits.ParseOptions | main.c:206-394 | succeeds iff every argument is accepted, with the limits of the last option of each kind; otherwise exits with the code of the first bad argument |
| Limits.OneValueAccepted | main.c:217-258 | a single value is accepted up to 99 by -m, 100 by -s and 100/99 of the total by -M and -S |
| Limits.LastOfIsLast | main.c:217-258 | the last option of each kind counts |
| Limits.EffectiveMeans | main.c:367-394 | the limits in numbers: 10 and 5 by default, the percentages, the sizes as shares of the total, or the smaller of both |
| Limits.EffectiveInRange | main.c:367-394 | every command line: 0 <= kill <= term, term > 0, memory at most 99 % with -m, swap at most 100 % with -s, at most 10000/99 % otherwise |
| Limits.LastOfIsSome | main.c:217-258 | on accepted command lines a limit is configured iff an option of its kind occurs |
| Limits.LowmemSigIff | main.c:524-531 | 9 iff at or below both SIGKILL limits, 15 iff not that but at or below both SIGTERM limits, otherwise 0 |
| Limits.LowmemRegionsNest | main.c:524-531 | for every command line the SIGKILL region lies inside the SIGTERM region, both written out on the four limits, and lowmem_sig is monotone |
| Limits.MergeIsLower | main.c:371-374 | a reading is low for the merged limits iff it is low for both options |
| Limits.ZeroTotalRejectsSize | main.c:246-254 | with zero total every size argument is rejected |
| SleepTiming.SleepMsIsNearest | main.c:492-517 | the value from 100 to 1000 nearest to the unclamped one |
| SleepTiming.RawMsIs | main.c:501-509 | the unclamped value: whole milliseconds of memory at 6000 KiB/ms plus whole milliseconds of swap at 800 KiB/ms |
| SleepTiming.RawMsIsSafe | main.c:501-509 | all truncations only shorten the sleep |
| SleepTiming.RawMsIsTight | main.c:494-509 | and by less than 3 ms in total |
| SleepTiming.SleepMissesNothing | main.c:487-517 | under summed fill rates memory cannot become low before wake-up unless the floor applied; in general iff the fill time reaches the sleep time |
| SleepTiming.FloorMisses | main.c:487-517 | the floor makes the daemon sleep past a possible low-memory event iff the fill time is below 100 ms, in particular for every unclamped sleep of at most 97 ms |
| SleepTiming.FloorMiss | main.c:487-517 | a reading that can be low after 1 ms, with a sleep of 100 ms |
| SleepTiming.ParallelMissesNothingIff | main.c:487-517 | under parallel fill rates, iff the longer of the two fill times reaches the sleep time |
| SleepTiming.ParallelMiss | main.c:487-517 | a reading for which parallel filling makes memory low 500 ms before wake-up |
| SleepTiming.CountdownInRange | main.c:574-583 | the countdown never exceeds the interval and stays above -1000 without low-memory turns |
| SleepTiming.FirstReport | main.c:536-538 | the first turn that is not low reports |
| SleepTiming.ReportSpacing | MANPAGE.md:104-115 | consecutive reports are at least the interval apart, and at most 999 ms more without a low turn in between |
| SleepTiming.DisabledCountdownDrifts | main.c:538-583 | with reports disabled the countdown is minus the time slept: within int for 2147483 turns, below it from 21474837 turns on if every turn sleeps |

## Left out

- Logging, colours, syslog, `print_mem_stats` and the informative fields of the victim: output only.
- Floating-point rounding, NaN and infinities. A reading with zero user memory, for which the code divides by zero, is the separate result `NotANumber`.
- 64-bit overflow in `rss * page_size` and in sums of meminfo entries, and 32-bit overflow of `oom_score` and of the report countdown are not modelled; `DisabledCountdownDrifts` says when the countdown would overflow.
- Digit parsing of `strtod`, compilation of regular expressions, and option parsing other than the threshold options.
- The child side of `notify_spawn_subprocess`, D-Bus and the called scripts: foreign processes.
- Which processes belong to the group that `-g` signals.
- Kernel behaviour behind `kill`, `pidfd_open`, `process_mrelease`, `getpgid`, `poll`, `fork` and `nanosleep`: only their results appear. Interrupted naps and the EINTR loop of the adaptive sleep are not modelled.
- `get_comm` and `get_cmdline` apart from `fix_truncated_utf8`: each read succeeds or fails as a whole.
- Out-of-range integers in `sscanf` are undefined in C; the model does what glibc does.
- The descriptor of `/proc/sysrq-trigger` (kill.c:262-275) is not an event.
- The second `get_comm` for a zombie main thread sees the same name as the first.
- `Poller.KillProcess`: the readings printed in debug mode are not events.
- SleepTiming.SleepMissesNothing: the user memory total and the swap total are taken as unchanged during the sleep.
