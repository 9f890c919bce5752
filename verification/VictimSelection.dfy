/** Which process dies: the lazily filtered one-pass scan of /proc (is_larger and
    find_largest_process in kill.c), proved against "drop the ineligible, then take
    the first maximum". */
module VictimSelection {
  import opened Common
  import opened Decimal

  const OOM_SCORE_PREFER: int := 300
  const OOM_SCORE_AVOID: int := -300
  const VMRSS_PREFER: int := 3145728
  const VMRSS_AVOID: int := -3145728

  /** Placeholder value for numeric fields of ProcInfo. */
  const NOT_SET: int := -9999

  /** pid_stat_t */
  datatype PidStat = PidStat(state: char, ppid: int, numThreads: int, rss: int)

  /** What zeroing a record leaves in its pid_stat_t. */
  const ZERO_STAT: PidStat := PidStat(0 as char, 0, 0, 0)

  /** One directory entry of /proc together with everything the kernel would answer
      about it. uid and oomScore are the return values of get_uid and get_oom_score,
      negative on error; the other reads either fail (None) or succeed. */
  datatype Entry = Entry(
    dname: string,
    uid: int,
    stat: Option<PidStat>,
    oomScore: int,
    comm: Option<string>,
    oomScoreAdj: Option<int>)

  // ---------------------------------------------------------------------------
  // Directory names
  // ---------------------------------------------------------------------------

  predicate IsNumeric(s: string) {
    s != [] && AllDigits(s)
  }

  /** isnumeric */
  method CheckNumeric(s: string) returns (r: bool)
    ensures r == IsNumeric(s)
  {
    if s == [] {
      return false;
    }
    var i := 0;
    while true
      invariant 0 <= i <= |s|
      invariant AllDigits(s[..i])
      decreases |s| - i
    {
      if i == |s| {
        assert s[..i] == s;
        return true;
      }
      if !IsDigit(s[i]) {
        return false;
      }
      i := i + 1;
    }
  }

  /** (int)strtol(name, NULL, 10) */
  function ParsePid(name: string): (pid: int)
    requires IsNumeric(name)
    ensures FitsInt(pid)
    ensures pid == Value(name) <==> Value(name) <= 0x7FFF_FFFF
  {
    ToInt(Value(name))
  }

  // ---------------------------------------------------------------------------
  // Specification: eligibility, adjusted scores, order
  // ---------------------------------------------------------------------------

  predicate UsesNames(a: Args) {
    a.preferRegex.Some? || a.avoidRegex.Some? || a.ignoreRegex.Some?
  }

  predicate Matches(r: Option<Regex>, e: Entry) {
    r.Some? && e.comm.Some? && r.value(e.comm.value)
  }

  /** The filters that do not depend on oom_score_adj. */
  predicate PassesEarlyFilters(a: Args, e: Entry) {
    && IsNumeric(e.dname)
    && ParsePid(e.dname) > 2
    && (a.ignoreRootUser ==> e.uid > 0)
    && e.stat.Some? && e.stat.value.ppid != 2
    && e.oomScore >= 0
    && (UsesNames(a) ==> e.comm.Some?)
    && !Matches(a.ignoreRegex, e)
  }

  /** A process that may be killed at all. */
  predicate Eligible(a: Args, e: Entry) {
    && PassesEarlyFilters(a, e)
    && e.oomScoreAdj.Some? && e.oomScoreAdj.value != -1000
  }

  /** The two numbers processes are compared by. */
  datatype Key = Key(oom: int, rss: int)

  function Shift(a: Args, e: Entry, prefer: int, avoid: int): int {
    (if Matches(a.preferRegex, e) then prefer else 0) + (if Matches(a.avoidRegex, e) then avoid else 0)
  }

  function RawRssKiB(a: Args, e: Entry): int
    requires e.stat.Some?
  {
    CDiv(e.stat.value.rss * a.pageSize, 1024)
  }

  /** Scores after --prefer and --avoid. */
  function KeyOf(a: Args, e: Entry): Key
    requires e.stat.Some?
  {
    if a.sortByRss then
      Key(e.oomScore, RawRssKiB(a, e) + Shift(a, e, VMRSS_PREFER, VMRSS_AVOID))
    else
      Key(e.oomScore + Shift(a, e, OOM_SCORE_PREFER, OOM_SCORE_AVOID), RawRssKiB(a, e))
  }

  /** Strictly greater by oom_score, then by VmRSS. */
  predicate OomAbove(x: Key, y: Key) {
    x.oom > y.oom || (x.oom == y.oom && x.rss > y.rss)
  }

  /** Strictly greater by VmRSS, then by oom_score. */
  predicate RssAbove(x: Key, y: Key) {
    x.rss > y.rss || (x.rss == y.rss && x.oom > y.oom)
  }

  /** The comparator of is_larger. In --sort-by-rss mode a process without resident
      memory (a zombie main thread) is compared by oom_score instead. */
  predicate Beats(byRss: bool, x: Key, y: Key) {
    if byRss && x.rss > 0 && y.rss > 0 then RssAbove(x, y) else OomAbove(x, y)
  }

  /** Index of the process that survives the scan of es; None when nothing is eligible. */
  function Champion(a: Args, es: seq<Entry>): (c: Option<nat>)
    ensures c.Some? ==> c.value < |es| && Eligible(a, es[c.value])
  {
    if es == [] then None
    else
      var n := |es| - 1;
      var c := Champion(a, es[..n]);
      if Eligible(a, es[n])
         && (c.None? || Beats(a.sortByRss, KeyOf(a, es[n]), KeyOf(a, es[c.value])))
      then Some(n)
      else c
  }

  /** The order each mode documents: largest oom_score, or largest VmRSS. */
  predicate Above(byRss: bool, x: Key, y: Key) {
    if byRss then RssAbove(x, y) else OomAbove(x, y)
  }

  /** Eager reference: entry i is eligible, no eligible entry is above it, and every
      eligible entry before it is strictly below it. */
  ghost predicate FirstMax(a: Args, es: seq<Entry>, i: nat) {
    && i < |es|
    && Eligible(a, es[i])
    && (forall j :: 0 <= j < |es| && Eligible(a, es[j]) ==> !Above(a.sortByRss, KeyOf(a, es[j]), KeyOf(a, es[i])))
    && (forall j :: 0 <= j < i && Eligible(a, es[j]) ==> Above(a.sortByRss, KeyOf(a, es[i]), KeyOf(a, es[j])))
  }

  ghost predicate NoneEligible(a: Args, es: seq<Entry>) {
    forall j :: 0 <= j < |es| ==> !Eligible(a, es[j])
  }

  // ---------------------------------------------------------------------------
  // The code: procinfo_t filled in place, and the scan over it
  // ---------------------------------------------------------------------------

  /** procinfo_t */
  class ProcInfo {
    var pid: int
    var uid: int
    var oomScore: int
    var oomScoreAdj: int
    var vmRssKiB: int
    var stat: Option<PidStat>
    var name: string

    /** empty_procinfo */
    constructor Empty()
      ensures HoldsOnly(NOT_SET, None)
    {
      pid, uid, oomScore, oomScoreAdj, vmRssKiB := NOT_SET, NOT_SET, NOT_SET, NOT_SET, NOT_SET;
      stat, name := None, "";
    }

    /** (const procinfo_t) { 0 } */
    constructor Zeroed()
      ensures HoldsOnly(0, Some(ZERO_STAT))
    {
      pid, uid, oomScore, oomScoreAdj, vmRssKiB := 0, 0, 0, 0, 0;
      stat, name := Some(ZERO_STAT), "";
    }

    function ScoreKey(): Key
      reads this
    {
      Key(oomScore, vmRssKiB)
    }

    /** All numeric fields are n and nothing else was read. */
    ghost predicate HoldsOnly(n: int, st: Option<PidStat>)
      reads this
    {
      && pid == uid == oomScore == oomScoreAdj == vmRssKiB == n
      && stat == st
      && name == ""
    }

    /** What a record holds when the comparison starts. */
    ghost predicate HoldsScores(a: Args, e: Entry)
      requires e.stat.Some?
      reads this
    {
      && ScoreKey() == KeyOf(a, e)
      && stat == e.stat
      && uid == (if a.ignoreRootUser then e.uid else NOT_SET)
      && (UsesNames(a) ==> e.comm == Some(name))
    }

    /** What a record holds once its process has been accepted as the new victim. */
    ghost predicate Describes(a: Args, e: Entry)
      reads this
    {
      && Eligible(a, e)
      && pid == ParsePid(e.dname)
      && HoldsScores(a, e)
      && Some(oomScoreAdj) == e.oomScoreAdj
    }

    /** The part of is_larger that looks at the process name. */
    method AdjustByName(a: Args, e: Entry) returns (passed: bool)
      requires e.stat.Some? && oomScore == e.oomScore && vmRssKiB == RawRssKiB(a, e)
      modifies `oomScore, `vmRssKiB, `name
      ensures passed <==> e.comm.Some? && !Matches(a.ignoreRegex, e)
      ensures passed ==> ScoreKey() == KeyOf(a, e) && e.comm == Some(name)
    {
      if e.comm.None? {
        return false;
      }
      name := e.comm.value;
      if a.preferRegex.Some? && a.preferRegex.value(name) {
        if a.sortByRss {
          vmRssKiB := vmRssKiB + VMRSS_PREFER;
        } else {
          oomScore := oomScore + OOM_SCORE_PREFER;
        }
      }
      if a.avoidRegex.Some? && a.avoidRegex.value(name) {
        if a.sortByRss {
          vmRssKiB := vmRssKiB + VMRSS_AVOID;
        } else {
          oomScore := oomScore + OOM_SCORE_AVOID;
        }
      }
      if a.ignoreRegex.Some? && a.ignoreRegex.value(name) {
        return false;
      }
      return true;
    }

    /** The reads and filters of is_larger that precede the comparison; `this` is `cur`. */
    method FillScores(a: Args, e: Entry) returns (passed: bool)
      requires IsNumeric(e.dname) && pid == ParsePid(e.dname)
      requires uid == NOT_SET
      modifies this
      ensures pid == old(pid) && oomScoreAdj == old(oomScoreAdj)
      ensures passed == PassesEarlyFilters(a, e)
      ensures passed ==> HoldsScores(a, e)
    {
      if pid <= 2 {
        return false;
      }
      if a.ignoreRootUser {
        if e.uid < 0 {
          return false;
        }
        uid := e.uid;
        if uid == 0 {
          return false;
        }
      }
      if e.stat.None? {
        return false;
      }
      stat := e.stat;
      vmRssKiB := CDiv(stat.value.rss * a.pageSize, 1024);
      if stat.value.ppid == 2 {
        return false;
      }
      if e.oomScore < 0 {
        return false;
      }
      oomScore := e.oomScore;
      if a.preferRegex.Some? || a.avoidRegex.Some? || a.ignoreRegex.Some? {
        passed := AdjustByName(a, e);
        return;
      }
      return true;
    }

    /** is_larger: `this` is `cur`, filled lazily from the answers in e. */
    method IsLarger(a: Args, victim: ProcInfo, e: Entry) returns (larger: bool)
      requires victim != this
      requires IsNumeric(e.dname) && pid == ParsePid(e.dname)
      requires uid == NOT_SET
      modifies this
      ensures larger <==> Eligible(a, e) && Beats(a.sortByRss, KeyOf(a, e), victim.ScoreKey())
      ensures larger ==> Describes(a, e)
    {
      var passed := FillScores(a, e);
      if !passed {
        return false;
      }
      if a.sortByRss {
        if vmRssKiB > 0 && victim.vmRssKiB > 0 {
          if vmRssKiB < victim.vmRssKiB {
            return false;
          }
          if vmRssKiB == victim.vmRssKiB && oomScore <= victim.oomScore {
            return false;
          }
        } else {
          if vmRssKiB == 0 && e.comm.Some? {
            name := e.comm.value;
          }
          if oomScore < victim.oomScore {
            return false;
          }
          if oomScore == victim.oomScore && vmRssKiB <= victim.vmRssKiB {
            return false;
          }
        }
      } else {
        if oomScore < victim.oomScore {
          return false;
        }
        if oomScore == victim.oomScore && vmRssKiB <= victim.vmRssKiB {
          return false;
        }
      }
      if e.oomScoreAdj.None? {
        return false;
      }
      oomScoreAdj := e.oomScoreAdj.value;
      if oomScoreAdj == -1000 {
        return false;
      }
      return true;
    }
  }

  /** The pid find_largest_process hands to kill_process. */
  function VictimPid(a: Args, es: seq<Entry>): (pid: int) {
    match Champion(a, es)
    case None => NOT_SET
    case Some(i) =>
      var pid := ParsePid(es[i].dname);
      if pid == a.selfPid then 0 else pid
  }

  /** Scanning one more entry. */
  lemma ChampionStep(a: Args, es: seq<Entry>, i: nat)
    requires i < |es|
    ensures var c := Champion(a, es[..i]);
            Champion(a, es[..i + 1]) ==
            if Eligible(a, es[i]) && (c.None? || Beats(a.sortByRss, KeyOf(a, es[i]), KeyOf(a, es[c.value])))
            then Some(i) else c
  {
    assert es[..i + 1][..i] == es[..i];
  }

  /** Every eligible process beats the empty record, in both modes. */
  lemma SentinelLoses(a: Args, e: Entry)
    requires Eligible(a, e)
    ensures Beats(a.sortByRss, KeyOf(a, e), Key(NOT_SET, NOT_SET))
  {
  }

  /** What the local variable `victim` holds after the first n entries. */
  ghost predicate HoldsChampion(a: Args, es: seq<Entry>, n: nat, victim: ProcInfo)
    requires n <= |es|
    reads victim
  {
    match Champion(a, es[..n])
    case None => victim.HoldsOnly(NOT_SET, None)
    case Some(c) => victim.Describes(a, es[c])
  }

  /** The scan loop of find_largest_process. */
  method ScanEntries(a: Args, es: seq<Entry>) returns (victim: ProcInfo)
    ensures fresh(victim)
    ensures HoldsChampion(a, es, |es|, victim)
  {
    victim := new ProcInfo.Empty();
    var i := 0;
    while i < |es|
      invariant 0 <= i <= |es|
      invariant fresh(victim)
      invariant HoldsChampion(a, es, i, victim)
    {
      ChampionStep(a, es, i);
      var numeric := CheckNumeric(es[i].dname);
      if numeric {
        var cur := new ProcInfo.Empty();
        cur.pid := ParsePid(es[i].dname);
        if Eligible(a, es[i]) {
          SentinelLoses(a, es[i]);
        }
        var larger := cur.IsLarger(a, victim, es[i]);
        if larger {
          victim := cur;
        }
      }
      i := i + 1;
    }
  }

  /** find_largest_process over the entries readdir returned. The -9999 sentinel and the
      late oom_score_adj test are in the code only; Champion has neither. */
  method FindLargestProcess(a: Args, es: seq<Entry>) returns (victim: ProcInfo)
    ensures fresh(victim)
    ensures victim.pid == VictimPid(a, es)
    ensures match Champion(a, es)
            case None => victim.HoldsOnly(NOT_SET, None)
            case Some(c) =>
              if ParsePid(es[c].dname) == a.selfPid then victim.HoldsOnly(0, Some(ZERO_STAT))
              else victim.Describes(a, es[c])
  {
    victim := ScanEntries(a, es);
    assert es[..|es|] == es;
    if victim.pid == a.selfPid {
      victim := new ProcInfo.Zeroed();
    }
  }
}
