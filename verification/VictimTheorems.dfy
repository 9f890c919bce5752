/** What the scan of VictimSelection guarantees: the first maximum in oom_score mode,
    the exact condition for it in --sort-by-rss mode, and how --prefer and --avoid move it. */
module VictimTheorems {
  import opened Common
  import opened Decimal
  import opened VictimSelection

  // ---------------------------------------------------------------------------
  // The scan, characterised without recursion
  // ---------------------------------------------------------------------------

  /** When entry i is read, it replaces whoever leads. */
  predicate Dethrones(a: Args, es: seq<Entry>, i: nat)
    requires i < |es|
  {
    && Eligible(a, es[i])
    && (var c := Champion(a, es[..i]);
        c.None? || Beats(a.sortByRss, KeyOf(a, es[i]), KeyOf(a, es[c.value])))
  }

  /** y does not replace x as the leader. */
  predicate Spares(a: Args, x: Entry, y: Entry) {
    Eligible(a, x) && Eligible(a, y) ==> !Beats(a.sortByRss, KeyOf(a, y), KeyOf(a, x))
  }

  /** No eligible entry between i and n beats i. */
  ghost predicate Unbeaten(a: Args, es: seq<Entry>, n: nat, i: nat)
    requires i < n <= |es|
  {
    forall j :: i < j < n ==> Spares(a, es[i], es[j])
  }

  lemma UnbeatenStep(a: Args, es: seq<Entry>, n: nat, i: nat)
    requires i < n < |es|
    ensures Unbeaten(a, es, n + 1, i) <==> Unbeaten(a, es, n, i) && Spares(a, es[i], es[n])
  {
  }

  lemma LeaderStep(a: Args, es: seq<Entry>, n: nat)
    requires n < |es|
    ensures Champion(a, es[..n + 1]) == if Dethrones(a, es, n) then Some(n) else Champion(a, es[..n])
  {
    ChampionStep(a, es, n);
  }

  lemma LeaderFalls(a: Args, es: seq<Entry>, n: nat, i: nat)
    requires i < n < |es| && Champion(a, es[..n]) == Some(i)
    ensures Dethrones(a, es, n) <==> !Spares(a, es[i], es[n])
  {
    assert es[..n][i] == es[i];
  }

  lemma {:induction false} LeadsIff(a: Args, es: seq<Entry>, n: nat, i: nat)
    requires i < n <= |es|
    ensures Champion(a, es[..n]) == Some(i) <==> Dethrones(a, es, i) && Unbeaten(a, es, n, i)
  {
    var m := n - 1;
    LeaderStep(a, es, m);
    if i < m {
      LeadsIff(a, es, m, i);
      UnbeatenStep(a, es, m, i);
      if Champion(a, es[..m]) == Some(i) {
        LeaderFalls(a, es, m, i);
      }
    }
  }

  /** i wins iff it is eligible, dethrones whoever leads when it is read, and no eligible
      entry read later beats it. Holds in both modes. */
  lemma {:induction false} ChampionIff(a: Args, es: seq<Entry>, i: nat)
    requires i < |es|
    ensures Champion(a, es) == Some(i) <==>
            && Dethrones(a, es, i)
            && (forall j :: i < j < |es| && Eligible(a, es[j])
                  ==> !Beats(a.sortByRss, KeyOf(a, es[j]), KeyOf(a, es[i])))
  {
    LeadsIff(a, es, |es|, i);
    assert es[..|es|] == es;
    assert forall j :: 0 <= j < |es| ==>
        (Spares(a, es[i], es[j]) <==>
         (Eligible(a, es[i]) && Eligible(a, es[j]) ==> !Beats(a.sortByRss, KeyOf(a, es[j]), KeyOf(a, es[i]))));
  }

  lemma {:induction false} ChampionNoneIff(a: Args, es: seq<Entry>)
    ensures Champion(a, es).None? <==> NoneEligible(a, es)
  {
    if es != [] {
      var n := |es| - 1;
      ChampionNoneIff(a, es[..n]);
      assert forall j :: 0 <= j < n ==> es[..n][j] == es[j];
    }
  }

  // ---------------------------------------------------------------------------
  // First maximum
  // ---------------------------------------------------------------------------

  ghost predicate AllResident(a: Args, es: seq<Entry>) {
    forall j :: 0 <= j < |es| && Eligible(a, es[j]) ==> KeyOf(a, es[j]).rss > 0
  }

  lemma {:induction false} FirstMaxStep(a: Args, es: seq<Entry>, i: nat)
    requires a.sortByRss ==> AllResident(a, es)
    requires es != [] && i < |es| - 1 && FirstMax(a, es[..|es| - 1], i)
    ensures var n := |es| - 1;
            FirstMax(a, es, if Eligible(a, es[n]) && Beats(a.sortByRss, KeyOf(a, es[n]), KeyOf(a, es[i])) then n else i)
  {
    var n := |es| - 1;
    assert forall j :: 0 <= j < n ==> es[..n][j] == es[j];
  }

  lemma {:induction false} ChampionIsFirstMax(a: Args, es: seq<Entry>)
    requires a.sortByRss ==> AllResident(a, es)
    ensures Champion(a, es).Some? ==> FirstMax(a, es, Champion(a, es).value)
  {
    if es != [] {
      var n := |es| - 1;
      assert forall j :: 0 <= j < n ==> es[..n][j] == es[j];
      ChampionIsFirstMax(a, es[..n]);
      var c := Champion(a, es[..n]);
      if c.Some? {
        FirstMaxStep(a, es, c.value);
      } else {
        ChampionNoneIff(a, es[..n]);
      }
    }
  }

  /** The scan picks exactly the first eligible process with the greatest score, for every
      process list: lexicographically by (adjusted oom_score, VmRSS) in oom_score mode, and
      by (adjusted VmRSS, oom_score) in --sort-by-rss mode as long as every eligible
      process has positive adjusted VmRSS. */
  lemma ScanIsFirstMax(a: Args, es: seq<Entry>)
    requires a.sortByRss ==> AllResident(a, es)
    ensures Champion(a, es).None? <==> NoneEligible(a, es)
    ensures forall i: nat :: Champion(a, es) == Some(i) <==> FirstMax(a, es, i)
  {
    ChampionIsFirstMax(a, es);
    ChampionNoneIff(a, es);
  }

  // ---------------------------------------------------------------------------
  // Order of the directory
  // ---------------------------------------------------------------------------

  /** The score of the process the scan selects. */
  function ChampionKey(a: Args, es: seq<Entry>): Option<Key> {
    match Champion(a, es)
    case None => None
    case Some(i) => Some(KeyOf(a, es[i]))
  }

  /** w beats every eligible entry whose score differs from its own. */
  ghost predicate Undisputed(a: Args, es: seq<Entry>, w: Entry) {
    && w in es
    && Eligible(a, w)
    && forall e :: e in es && Eligible(a, e) ==>
         KeyOf(a, e) == KeyOf(a, w) || Beats(a.sortByRss, KeyOf(a, w), KeyOf(a, e))
  }

  ghost predicate SameProcesses(p: seq<Entry>, es: seq<Entry>) {
    multiset(p) == multiset(es)
  }

  /** The score selected does not depend on the order of the directory. */
  ghost predicate OrderIndependent(a: Args, es: seq<Entry>) {
    forall p :: SameProcesses(p, es) ==> ChampionKey(a, p) == ChampionKey(a, es)
  }

  /** Of two different scores exactly one beats the other. */
  lemma BeatsIsTournament(byRss: bool, x: Key, y: Key)
    ensures !(Beats(byRss, x, y) && Beats(byRss, y, x))
    ensures x != y <==> Beats(byRss, x, y) || Beats(byRss, y, x)
  {
  }

  lemma SameMembers(p: seq<Entry>, es: seq<Entry>)
    requires SameProcesses(p, es)
    ensures forall e :: e in p <==> e in es
  {
    forall e
      ensures e in p <==> e in es
    {
      assert e in p <==> e in multiset(p);
      assert e in es <==> e in multiset(es);
    }
  }

  lemma {:induction false} UndisputedWins(a: Args, es: seq<Entry>, w: Entry)
    requires Undisputed(a, es, w)
    ensures ChampionKey(a, es) == Some(KeyOf(a, w))
  {
    var n := |es| - 1;
    var last := es[n];
    assert es == es[..n] + [last];
    if w in es[..n] {
      UndisputedWins(a, es[..n], w);
      if Eligible(a, last) {
        BeatsIsTournament(a.sortByRss, KeyOf(a, w), KeyOf(a, last));
      }
    } else if Champion(a, es[..n]).Some? {
      var c := es[Champion(a, es[..n]).value];
      assert c in es;
      BeatsIsTournament(a.sortByRss, KeyOf(a, w), KeyOf(a, c));
    }
  }

  /** es with entry i read last. */
  function MovedToEnd(es: seq<Entry>, i: nat): seq<Entry>
    requires i < |es|
  {
    es[..i] + es[i + 1..] + [es[i]]
  }

  lemma MovedToEndSame(es: seq<Entry>, i: nat)
    requires i < |es|
    ensures SameProcesses(MovedToEnd(es, i), es)
  {
    assert es == es[..i] + [es[i]] + es[i + 1..];
  }

  /** Reading a process last that beats score k keeps k from being selected. */
  lemma LastReadDenies(a: Args, es: seq<Entry>, i: nat, k: Key)
    requires i < |es| && Eligible(a, es[i]) && Beats(a.sortByRss, KeyOf(a, es[i]), k)
    ensures ChampionKey(a, MovedToEnd(es, i)) != Some(k)
  {
    var p := MovedToEnd(es, i);
    var n := |p| - 1;
    assert p[n] == es[i];
    BeatsIsTournament(a.sortByRss, KeyOf(a, es[i]), k);
  }

  /** In either mode the selected score is the same for every order of /proc if and only if
      nothing is eligible or some eligible process beats all others. */
  lemma OrderIndependentIff(a: Args, es: seq<Entry>)
    ensures OrderIndependent(a, es) <==> NoneEligible(a, es) || exists w :: Undisputed(a, es, w)
  {
    ChampionNoneIff(a, es);
    if !NoneEligible(a, es) {
      var c := Champion(a, es).value;
      var w := es[c];
      if !Undisputed(a, es, w) {
        var e :| e in es && Eligible(a, e) && KeyOf(a, e) != KeyOf(a, w)
                 && !Beats(a.sortByRss, KeyOf(a, w), KeyOf(a, e));
        var i :| 0 <= i < |es| && es[i] == e;
        BeatsIsTournament(a.sortByRss, KeyOf(a, e), KeyOf(a, w));
        LastReadDenies(a, es, i, KeyOf(a, w));
        MovedToEndSame(es, i);
        assert !OrderIndependent(a, es);
      }
    }
    if NoneEligible(a, es) || exists w :: Undisputed(a, es, w) {
      forall p | SameProcesses(p, es)
        ensures ChampionKey(a, p) == ChampionKey(a, es)
      {
        SameMembers(p, es);
        ChampionNoneIff(a, p);
        if NoneEligible(a, es) {
          forall j | 0 <= j < |p|
            ensures !Eligible(a, p[j])
          {
            assert p[j] in es;
          }
        } else {
          var w :| Undisputed(a, es, w);
          UndisputedWins(a, es, w);
          assert Undisputed(a, p, w);
          UndisputedWins(a, p, w);
        }
      }
    }
  }

  /** In oom_score mode the first maximum is undisputed, so order never matters there. */
  lemma OomOrderIndependent(a: Args, es: seq<Entry>)
    requires !a.sortByRss
    ensures OrderIndependent(a, es)
  {
    OrderIndependentIff(a, es);
    ChampionNoneIff(a, es);
    if !NoneEligible(a, es) {
      ChampionIsFirstMax(a, es);
      assert Undisputed(a, es, es[Champion(a, es).value]);
    }
  }

  /** No eligible entry is above m by VmRSS, then oom_score. */
  ghost predicate LargestByRss(a: Args, es: seq<Entry>, m: Entry) {
    && m in es
    && Eligible(a, m)
    && forall e :: e in es && Eligible(a, e) ==> !RssAbove(KeyOf(a, e), KeyOf(a, m))
  }

  /** Processes compared by oom_score in --sort-by-rss mode score no higher than m. */
  ghost predicate ZombiesBelow(a: Args, es: seq<Entry>, m: Entry)
    requires Eligible(a, m)
  {
    forall e :: e in es && Eligible(a, e) && KeyOf(a, e).rss <= 0 ==> KeyOf(a, e).oom <= KeyOf(a, m).oom
  }

  /** --sort-by-rss promises the process with the largest VmRSS. It delivers that score for
      every order of the directory if and only if no eligible process without resident
      memory has a higher oom_score than it. */
  lemma RssSelectsLargestIff(a: Args, es: seq<Entry>, m: Entry)
    requires a.sortByRss && LargestByRss(a, es, m)
    ensures (forall p :: SameProcesses(p, es) ==> ChampionKey(a, p) == Some(KeyOf(a, m)))
       <==> ZombiesBelow(a, es, m)
  {
    if ZombiesBelow(a, es, m) {
      forall p | SameProcesses(p, es)
        ensures ChampionKey(a, p) == Some(KeyOf(a, m))
      {
        SameMembers(p, es);
        assert Undisputed(a, p, m);
        UndisputedWins(a, p, m);
      }
    } else {
      var e :| e in es && Eligible(a, e) && KeyOf(a, e).rss <= 0 && KeyOf(a, e).oom > KeyOf(a, m).oom;
      var i :| 0 <= i < |es| && es[i] == e;
      LastReadDenies(a, es, i, KeyOf(a, m));
      MovedToEndSame(es, i);
      assert ChampionKey(a, MovedToEnd(es, i)) != Some(KeyOf(a, m));
    }
  }

  // ---------------------------------------------------------------------------
  // A cycle of the --sort-by-rss comparator
  // ---------------------------------------------------------------------------

  /** A user process with the given scores (in KiB, for 1 KiB pages). */
  function Sample(pid: nat, oom: int, rss: int): Entry {
    Entry(Print(pid), 1000, Some(PidStat('S', 1, 1, rss)), oom, Some("p"), Some(0))
  }

  function SampleArgs(byRss: bool): Args {
    Args(10.0, 5.0, 10.0, 5.0, false, false, false, false, false, byRss,
         None, None, None, 1000, false, false, 77, 1024)
  }

  lemma SampleFacts(byRss: bool, pid: nat, oom: nat, rss: nat)
    requires 2 < pid < 1000
    ensures Eligible(SampleArgs(byRss), Sample(pid, oom, rss))
    ensures KeyOf(SampleArgs(byRss), Sample(pid, oom, rss)) == Key(oom, rss)
  {
    PrintedValue(pid);
  }

  lemma Champion2(a: Args, x: Entry, y: Entry)
    requires Eligible(a, x)
    ensures Champion(a, [x, y]) ==
            if Eligible(a, y) && Beats(a.sortByRss, KeyOf(a, y), KeyOf(a, x)) then Some(1) else Some(0)
  {
    var es := [x, y];
    assert es[..1] == [x] && es[..1][..0] == [];
  }

  lemma Champion3(a: Args, x: Entry, y: Entry, z: Entry)
    requires Eligible(a, x) && Eligible(a, y) && Eligible(a, z)
    requires Beats(a.sortByRss, KeyOf(a, y), KeyOf(a, x))
    requires Beats(a.sortByRss, KeyOf(a, z), KeyOf(a, y))
    ensures Champion(a, [x, y, z]) == Some(2)
  {
    var es := [x, y, z];
    assert es[..2] == [x, y] && es[..2][..1] == [x] && es[..2][..1][..0] == [];
  }

  /** Around any cycle of the comparator, whoever is read last wins. */
  lemma CycleWinnerIsLast(a: Args, x: Entry, y: Entry, z: Entry)
    requires Eligible(a, x) && Eligible(a, y) && Eligible(a, z)
    requires Beats(a.sortByRss, KeyOf(a, y), KeyOf(a, x))
    requires Beats(a.sortByRss, KeyOf(a, z), KeyOf(a, y))
    requires Beats(a.sortByRss, KeyOf(a, x), KeyOf(a, z))
    ensures Champion(a, [x, y, z]) == Champion(a, [y, z, x]) == Champion(a, [z, x, y]) == Some(2)
    ensures !OrderIndependent(a, [x, y, z])
  {
    Champion3(a, x, y, z);
    Champion3(a, y, z, x);
    Champion3(a, z, x, y);
    assert multiset([x, y, z]) == multiset{x, y, z} == multiset([y, z, x]);
    assert SameProcesses([y, z, x], [x, y, z]);
    assert ChampionKey(a, [x, y, z]) == Some(KeyOf(a, z));
    assert ChampionKey(a, [y, z, x]) == Some(KeyOf(a, x));
  }

  /** Three processes, each beaten by the next one around: (oom, rss) of (99, 12), (102, 0)
      and (103, 8). Reading the same /proc in three orders selects three different victims. */
  lemma RssCycle() returns (x: Entry, y: Entry, z: Entry)
    ensures var a := SampleArgs(true);
            && Eligible(a, x) && Eligible(a, y) && Eligible(a, z)
            && KeyOf(a, x) == Key(99, 12) && KeyOf(a, y) == Key(102, 0) && KeyOf(a, z) == Key(103, 8)
            && Champion(a, [x, y, z]) == Champion(a, [y, z, x]) == Champion(a, [z, x, y]) == Some(2)
            && !OrderIndependent(a, [x, y, z])
  {
    var a := SampleArgs(true);
    x, y, z := Sample(100, 99, 12), Sample(101, 102, 0), Sample(102, 103, 8);
    SampleFacts(true, 100, 99, 12);
    SampleFacts(true, 101, 102, 0);
    SampleFacts(true, 102, 103, 8);
    CycleWinnerIsLast(a, x, y, z);
  }

  // ---------------------------------------------------------------------------
  // Two runs: what --prefer and --avoid do to the outcome
  // ---------------------------------------------------------------------------

  /** Turning on a name option does not drop a process because its comm cannot be read. */
  ghost predicate NamesReadable(a: Args, es: seq<Entry>) {
    UsesNames(a) || forall j :: 0 <= j < |es| && Eligible(a, es[j]) ==> es[j].comm.Some?
  }

  /** Regexes r and r' agree on every entry but i. */
  ghost predicate AgreeExcept(r: Option<Regex>, r': Option<Regex>, es: seq<Entry>, i: nat) {
    forall j :: 0 <= j < |es| && j != i ==> Matches(r', es[j]) == Matches(r, es[j])
  }

  /** Outside entry i, two configurations cannot be told apart. */
  ghost predicate SameExcept(a: Args, b: Args, es: seq<Entry>, i: nat) {
    && a.sortByRss == b.sortByRss
    && (forall j :: 0 <= j < |es| ==> Eligible(a, es[j]) == Eligible(b, es[j]))
    && (forall j :: 0 <= j < |es| && j != i && Eligible(a, es[j]) ==> KeyOf(a, es[j]) == KeyOf(b, es[j]))
  }

  lemma AvoidChangesOnly(a: Args, b: Args, es: seq<Entry>, i: nat)
    requires b == a.(avoidRegex := b.avoidRegex) && b.avoidRegex.Some?
    requires i < |es| && NamesReadable(a, es) && AgreeExcept(a.avoidRegex, b.avoidRegex, es, i)
    requires Matches(b.avoidRegex, es[i])
    ensures SameExcept(a, b, es, i)
    ensures Eligible(a, es[i]) && !Matches(a.avoidRegex, es[i]) ==>
              KeyOf(b, es[i]) == if a.sortByRss
                                 then Key(KeyOf(a, es[i]).oom, KeyOf(a, es[i]).rss + VMRSS_AVOID)
                                 else Key(KeyOf(a, es[i]).oom + OOM_SCORE_AVOID, KeyOf(a, es[i]).rss)
    ensures Eligible(a, es[i]) && Matches(a.avoidRegex, es[i]) ==> KeyOf(b, es[i]) == KeyOf(a, es[i])
  {
  }

  /** oom_score mode: making one process match --avoid never turns it into the victim. */
  lemma AvoidNeverSelects(a: Args, b: Args, es: seq<Entry>, i: nat)
    requires !a.sortByRss
    requires b == a.(avoidRegex := b.avoidRegex) && b.avoidRegex.Some?
    requires i < |es| && NamesReadable(a, es) && AgreeExcept(a.avoidRegex, b.avoidRegex, es, i)
    requires Matches(b.avoidRegex, es[i])
    requires Champion(a, es) != Some(i)
    ensures Champion(b, es) != Some(i)
  {
    AvoidChangesOnly(a, b, es, i);
    ScanIsFirstMax(a, es);
    ScanIsFirstMax(b, es);
  }

  /** Configuration b is a with an --avoid that newly matches the eligible entry i, and
      otherwise the same entries as before. */
  ghost predicate StartsAvoiding(a: Args, b: Args, es: seq<Entry>, i: nat) {
    && b == a.(avoidRegex := b.avoidRegex) && b.avoidRegex.Some?
    && i < |es| && AgreeExcept(a.avoidRegex, b.avoidRegex, es, i)
    && Eligible(a, es[i]) && !Matches(a.avoidRegex, es[i]) && Matches(b.avoidRegex, es[i])
  }

  /** What --avoid does to the scores, for every process list: it drops the processes whose
      comm cannot be read, lowers i and leaves the others alone. */
  lemma AvoidKeys(a: Args, b: Args, es: seq<Entry>, i: nat)
    requires StartsAvoiding(a, b, es, i)
    ensures KeyOf(b, es[i]) == if a.sortByRss then Key(es[i].oomScore, KeyOf(a, es[i]).rss - 3145728)
                               else Key(KeyOf(a, es[i]).oom - 300, KeyOf(a, es[i]).rss)
    ensures forall j :: 0 <= j < |es| ==> (Eligible(b, es[j]) <==> Eligible(a, es[j]) && es[j].comm.Some?)
    ensures forall j :: 0 <= j < |es| && j != i && Eligible(b, es[j]) ==> KeyOf(b, es[j]) == KeyOf(a, es[j])
  {
  }

  /** oom_score mode, every process list: a process that newly matches --avoid is the victim
      if and only if, 300 points lower, it still is the first maximum of the eligible
      processes whose comm can be read. */
  lemma AvoidSelectsIff(a: Args, b: Args, es: seq<Entry>, i: nat)
    requires !a.sortByRss && StartsAvoiding(a, b, es, i)
    ensures var k := Key(KeyOf(a, es[i]).oom - 300, KeyOf(a, es[i]).rss);
            Champion(b, es) == Some(i) <==>
            forall j :: 0 <= j < |es| && j != i && Eligible(a, es[j]) && es[j].comm.Some? ==>
              && !OomAbove(KeyOf(a, es[j]), k)
              && (j < i ==> OomAbove(k, KeyOf(a, es[j])))
  {
    AvoidKeys(a, b, es, i);
    ScanIsFirstMax(b, es);
  }

  lemma PreferKeys(a: Args, b: Args, es: seq<Entry>, i: nat)
    requires b == a.(preferRegex := b.preferRegex) && b.preferRegex.Some?
    requires i < |es| && AgreeExcept(a.preferRegex, b.preferRegex, es, i)
    requires Eligible(a, es[i]) && Matches(b.preferRegex, es[i])
    ensures var x, y := KeyOf(a, es[i]), KeyOf(b, es[i]);
            y == x || y == if a.sortByRss then Key(x.oom, x.rss + 3145728) else Key(x.oom + 300, x.rss)
    ensures !Matches(a.preferRegex, es[i]) ==> KeyOf(b, es[i]) != KeyOf(a, es[i])
    ensures forall j :: 0 <= j < |es| ==> (Eligible(b, es[j]) <==> Eligible(a, es[j]) && es[j].comm.Some?)
    ensures forall j :: 0 <= j < |es| && j != i && Eligible(b, es[j]) ==> KeyOf(b, es[j]) == KeyOf(a, es[j])
  {
  }

  /** Configuration b is a with a --prefer that newly matches the eligible entry i, and
      otherwise the same entries as before. */
  ghost predicate StartsPreferring(a: Args, b: Args, es: seq<Entry>, i: nat) {
    && b == a.(preferRegex := b.preferRegex) && b.preferRegex.Some?
    && i < |es| && AgreeExcept(a.preferRegex, b.preferRegex, es, i)
    && Eligible(a, es[i]) && !Matches(a.preferRegex, es[i]) && Matches(b.preferRegex, es[i])
  }

  /** oom_score mode, every process list: a process that newly matches --prefer is the victim
      if and only if, 300 points higher, it is the first maximum of the eligible processes
      whose comm can be read. */
  lemma PreferSelectsIff(a: Args, b: Args, es: seq<Entry>, i: nat)
    requires !a.sortByRss && StartsPreferring(a, b, es, i)
    ensures var k := Key(KeyOf(a, es[i]).oom + 300, KeyOf(a, es[i]).rss);
            Champion(b, es) == Some(i) <==>
            forall j :: 0 <= j < |es| && j != i && Eligible(a, es[j]) && es[j].comm.Some? ==>
              && !OomAbove(KeyOf(a, es[j]), k)
              && (j < i ==> OomAbove(k, KeyOf(a, es[j])))
  {
    PreferKeys(a, b, es, i);
    ScanIsFirstMax(b, es);
  }

  /** oom_score mode, every process list: making the victim match --prefer never saves it. */
  lemma PreferNeverDeselects(a: Args, b: Args, es: seq<Entry>, i: nat)
    requires !a.sortByRss
    requires b == a.(preferRegex := b.preferRegex) && b.preferRegex.Some?
    requires i < |es| && AgreeExcept(a.preferRegex, b.preferRegex, es, i)
    requires Matches(b.preferRegex, es[i])
    requires Champion(a, es) == Some(i)
    ensures Champion(b, es) == Some(i)
  {
    ScanIsFirstMax(a, es);
    assert FirstMax(a, es, i);
    PreferredStaysMax(a, b, es, i);
    ScanIsFirstMax(b, es);
  }

  lemma PreferredStaysMax(a: Args, b: Args, es: seq<Entry>, i: nat)
    requires !a.sortByRss
    requires b == a.(preferRegex := b.preferRegex) && b.preferRegex.Some?
    requires i < |es| && AgreeExcept(a.preferRegex, b.preferRegex, es, i)
    requires Matches(b.preferRegex, es[i])
    requires FirstMax(a, es, i)
    ensures FirstMax(b, es, i)
  {
    PreferKeys(a, b, es, i);
  }

  lemma {:induction false} SameKeysSameChampion(a: Args, b: Args, es: seq<Entry>)
    requires SameExcept(a, b, es, |es|)
    ensures Champion(a, es) == Champion(b, es)
  {
    if es != [] {
      var n := |es| - 1;
      assert forall j :: 0 <= j < n ==> es[..n][j] == es[j];
      SameKeysSameChampion(a, b, es[..n]);
    }
  }

  /** All eligible processes but i have positive adjusted VmRSS. */
  ghost predicate OthersResident(a: Args, es: seq<Entry>, i: nat) {
    forall j :: 0 <= j < |es| && j != i && Eligible(a, es[j]) ==> KeyOf(a, es[j]).rss > 0
  }

  /** --sort-by-rss, every process list: a process that newly matches --avoid is the victim
      if and only if, 3 GiB lower, it beats the leader it meets and no later eligible process
      whose comm can be read beats it. */
  lemma RssAvoidIsVictimIff(a: Args, b: Args, es: seq<Entry>, i: nat)
    requires a.sortByRss && StartsAvoiding(a, b, es, i)
    ensures var k := Key(es[i].oomScore, KeyOf(a, es[i]).rss - 3145728);
            Champion(b, es) == Some(i) <==>
            && (var c := Champion(b, es[..i]);
                c.Some? ==> Eligible(a, es[c.value]) && Beats(true, k, KeyOf(a, es[c.value])))
            && (forall j :: i < j < |es| && Eligible(a, es[j]) && es[j].comm.Some?
                  ==> !Beats(true, KeyOf(a, es[j]), k))
  {
    AvoidKeys(a, b, es, i);
    ChampionIff(b, es, i);
  }

  /** A process of score k read at position i beats by oom_score, then VmRSS, the leader it
      meets, and no later eligible process beats it that way. */
  ghost predicate WinsByOom(a: Args, es: seq<Entry>, i: nat, k: Key)
    requires i < |es|
  {
    && (var c := Champion(a, es[..i]); c.Some? ==> OomAbove(k, KeyOf(a, es[c.value])))
    && (forall j :: i < j < |es| && Eligible(a, es[j]) ==> !OomAbove(KeyOf(a, es[j]), k))
  }

  /** Up to entry i, name options that treat the earlier entries alike have the same leader. */
  lemma SameLeader(a: Args, b: Args, es: seq<Entry>, i: nat)
    requires i < |es| && SameExcept(a, b, es, i)
    ensures Champion(a, es[..i]) == Champion(b, es[..i])
  {
    assert forall j :: 0 <= j < i ==> es[..i][j] == es[j];
    SameKeysSameChampion(a, b, es[..i]);
  }

  lemma RssAvoidLargeNeverSelects(a: Args, b: Args, es: seq<Entry>, i: nat)
    requires a.sortByRss && StartsAvoiding(a, b, es, i) && NamesReadable(a, es)
    requires Champion(a, es) != Some(i) && KeyOf(a, es[i]).rss > 3145728
    ensures Champion(b, es) != Some(i)
  {
    AvoidChangesOnly(a, b, es, i);
    SameLeader(a, b, es, i);
    ChampionIff(a, es, i);
    ChampionIff(b, es, i);
  }

  /** --sort-by-rss: making a process that was not the victim match --avoid selects it if and
      only if the 3 GiB penalty takes its VmRSS to zero or below and, compared by oom_score,
      it beats the leader it meets and no later process beats it. In particular it is never
      selected when its VmRSS was above 3145728 KiB. */
  lemma RssAvoidSelectsIff(a: Args, b: Args, es: seq<Entry>, i: nat)
    requires a.sortByRss && StartsAvoiding(a, b, es, i) && NamesReadable(a, es)
    requires Champion(a, es) != Some(i)
    ensures Champion(b, es) == Some(i) <==>
            && KeyOf(a, es[i]).rss <= 3145728
            && WinsByOom(a, es, i, Key(es[i].oomScore, KeyOf(a, es[i]).rss - 3145728))
  {
    if KeyOf(a, es[i]).rss > 3145728 {
      RssAvoidLargeNeverSelects(a, b, es, i);
    } else {
      AvoidChangesOnly(a, b, es, i);
      SameLeader(a, b, es, i);
      RssAvoidIsVictimIff(a, b, es, i);
    }
  }

  /** i outscores, by oom_score, the leader it meets and every eligible entry after it. */
  ghost predicate OutscoresByOom(a: Args, es: seq<Entry>, i: nat)
    requires i < |es|
  {
    && (var c := Champion(a, es[..i]); c.Some? ==> es[i].oomScore > es[c.value].oomScore)
    && (forall j :: i < j < |es| && Eligible(a, es[j]) ==> es[i].oomScore > es[j].oomScore)
  }

  /** When all other processes are resident, the oom_score alone decides. */
  lemma RssAvoidAmongResidentIff(a: Args, b: Args, es: seq<Entry>, i: nat)
    requires a.sortByRss && StartsAvoiding(a, b, es, i) && NamesReadable(a, es)
    requires OthersResident(a, es, i)
    requires Champion(a, es) != Some(i)
    ensures Champion(b, es) == Some(i) <==> KeyOf(a, es[i]).rss <= 3145728 && OutscoresByOom(a, es, i)
  {
    RssAvoidSelectsIff(a, b, es, i);
    if KeyOf(a, es[i]).rss <= 3145728 {
      var k := Key(es[i].oomScore, KeyOf(a, es[i]).rss - 3145728);
      assert k.rss <= 0;
      var c := Champion(a, es[..i]);
      if c.Some? {
        assert es[..i][c.value] == es[c.value];
        assert KeyOf(a, es[c.value]).rss > 0;
        assert OomAbove(k, KeyOf(a, es[c.value])) <==> es[i].oomScore > es[c.value].oomScore;
      }
      forall j | i < j < |es| && Eligible(a, es[j])
        ensures OomAbove(KeyOf(a, es[j]), k) <==> es[j].oomScore >= es[i].oomScore
      {
      }
    }
  }

  /** --sort-by-rss, every process list: a process that newly matches --prefer is the victim
      if and only if, 3 GiB higher, it beats the leader it meets and no later eligible process
      whose comm can be read beats it. */
  lemma RssPreferIsVictimIff(a: Args, b: Args, es: seq<Entry>, i: nat)
    requires a.sortByRss && StartsPreferring(a, b, es, i)
    ensures var k := Key(es[i].oomScore, KeyOf(a, es[i]).rss + 3145728);
            Champion(b, es) == Some(i) <==>
            && (var c := Champion(b, es[..i]);
                c.Some? ==> Eligible(a, es[c.value]) && Beats(true, k, KeyOf(a, es[c.value])))
            && (forall j :: i < j < |es| && Eligible(a, es[j]) && es[j].comm.Some?
                  ==> !Beats(true, KeyOf(a, es[j]), k))
  {
    PreferKeys(a, b, es, i);
    ChampionIff(b, es, i);
  }

  /** A process of score k read at position i is above the leader it meets by VmRSS, then
      oom_score, if that leader is resident, and no later resident process is above it. */
  ghost predicate HoldsByRss(a: Args, es: seq<Entry>, i: nat, k: Key)
    requires i < |es|
  {
    && (var c := Champion(a, es[..i]);
        c.Some? && KeyOf(a, es[c.value]).rss > 0 ==> RssAbove(k, KeyOf(a, es[c.value])))
    && (forall j :: i < j < |es| && Eligible(a, es[j]) && KeyOf(a, es[j]).rss > 0
          ==> !RssAbove(KeyOf(a, es[j]), k))
  }

  /** --sort-by-rss: making the victim match --prefer keeps it the victim if and only if the
      3 GiB bonus does not make a process without resident memory resident, or, now compared
      by VmRSS, it holds against the resident leader it meets and all later processes. */
  lemma RssPreferKeepsIff(a: Args, b: Args, es: seq<Entry>, i: nat)
    requires a.sortByRss && StartsPreferring(a, b, es, i) && NamesReadable(a, es)
    requires Champion(a, es) == Some(i)
    ensures var k := Key(es[i].oomScore, KeyOf(a, es[i]).rss + 3145728);
            Champion(b, es) == Some(i) <==>
            KeyOf(a, es[i]).rss > 0 || k.rss <= 0 || HoldsByRss(a, es, i, k)
  {
    assert SameExcept(a, b, es, i);
    SameLeader(a, b, es, i);
    ChampionIff(a, es, i);
    RssPreferIsVictimIff(a, b, es, i);
  }

  /** The sample configuration with an --avoid that matches the name "p" only. */
  function SampleAvoid(byRss: bool): Args {
    SampleArgs(byRss).(avoidRegex := Some((n: string) => n == "p"))
  }

  lemma SampleAvoidFacts(byRss: bool, pid: nat, oom: nat, rss: nat)
    requires 2 < pid < 1000
    ensures var b, e := SampleAvoid(byRss), Sample(pid, oom, rss);
            && Matches(b.avoidRegex, e)
            && Eligible(b, e)
            && KeyOf(b, e) == (if byRss then Key(oom, rss - 3145728) else Key(oom - 300, rss))
            && var q := e.(comm := Some("q"));
               (!Matches(b.avoidRegex, q) && Eligible(b, q) && KeyOf(b, q) == Key(oom, rss))
  {
    SampleFacts(byRss, pid, oom, rss);
    assert "p"[0] != "q"[0];
  }

  /** The condition above can be met: below 3 GiB, --avoid can select the process it names. */
  lemma RssAvoidCanSelect() returns (es: seq<Entry>)
    ensures var a, b := SampleArgs(true), SampleAvoid(true);
            && |es| == 2
            && Matches(b.avoidRegex, es[0]) && !Matches(b.avoidRegex, es[1])
            && Champion(a, es) == Some(1) && Champion(b, es) == Some(0)
  {
    var x, y := Sample(100, 9, 12), Sample(101, 5, 20);
    SampleFacts(true, 100, 9, 12);
    SampleFacts(true, 101, 5, 20);
    SampleAvoidFacts(true, 100, 9, 12);
    SampleAvoidFacts(true, 101, 5, 20);
    var q := y.(comm := Some("q"));
    es := [x, q];
    Champion2(SampleArgs(true), x, q);
    Champion2(SampleAvoid(true), x, q);
  }

  /** The bonus of --prefer can save the process it names: (oom, rss) of (5, 4000000) and
      (99, 0), the second one preferred. */
  lemma RssPreferCanSave() returns (a: Args, b: Args, es: seq<Entry>)
    ensures a.sortByRss && StartsPreferring(a, b, es, 1) && NamesReadable(a, es) && |es| == 2
    ensures Eligible(a, es[0]) && KeyOf(a, es[0]) == Key(5, 4000000) && KeyOf(a, es[1]) == Key(99, 0)
    ensures Champion(a, es) == Some(1) && Champion(b, es) == Some(0)
  {
    a := SampleArgs(true);
    b := a.(preferRegex := Some((n: string) => n == "p"));
    SampleFacts(true, 100, 5, 4000000);
    SampleFacts(true, 101, 99, 0);
    var x, y := Sample(100, 5, 4000000).(comm := Some("q")), Sample(101, 99, 0);
    assert "p"[0] != "q"[0];
    es := [x, y];
    Champion2(a, x, y);
    Champion2(b, x, y);
  }

  /** Without readable names the promise fails even in oom_score mode: the first name option
      drops processes whose comm cannot be read, which can promote the avoided process. */
  lemma AvoidCanSelectWhenNamesUnreadable() returns (es: seq<Entry>)
    ensures var a, b := SampleArgs(false), SampleAvoid(false);
            && |es| == 2
            && Matches(b.avoidRegex, es[0]) && AgreeExcept(a.avoidRegex, b.avoidRegex, es, 0)
            && !NamesReadable(a, es)
            && Champion(a, es) == Some(1) && Champion(b, es) == Some(0)
  {
    var x, y := Sample(100, 5, 12), Sample(101, 9, 20);
    SampleFacts(false, 100, 5, 12);
    SampleFacts(false, 101, 9, 20);
    SampleAvoidFacts(false, 100, 5, 12);
    var q := y.(comm := None);
    es := [x, q];
    assert es[1].comm.None?;
    Champion2(SampleArgs(false), x, q);
    Champion2(SampleAvoid(false), x, q);
  }

  // ---------------------------------------------------------------------------
  // Bounded regret
  // ---------------------------------------------------------------------------

  /** How far name options may move the victim away from the highest oom_score. */
  function MaxRegret(a: Args): int {
    (if a.preferRegex.Some? then 300 else 0) + (if a.avoidRegex.Some? then 300 else 0)
  }

  /** oom_score mode: the victim's unadjusted oom_score is within MaxRegret of every eligible
      process's: 600 with both name options, 300 with one, 0 with neither. */
  lemma BoundedRegret(a: Args, es: seq<Entry>, i: nat, j: nat)
    requires !a.sortByRss && Champion(a, es) == Some(i)
    requires j < |es| && Eligible(a, es[j])
    ensures es[i].oomScore >= es[j].oomScore - MaxRegret(a)
  {
    ScanIsFirstMax(a, es);
    assert FirstMax(a, es, i);
  }

  // ---------------------------------------------------------------------------
  // Field by field
  // ---------------------------------------------------------------------------

  /** What an entry looks like that the filters of is_larger let through, written out on its
      fields and with the numbers of kill.c. Nothing in VictimSelection refers to it. */
  ghost predicate Killable(a: Args, e: Entry) {
    && e.dname != "" && (forall k :: 0 <= k < |e.dname| ==> '0' <= e.dname[k] <= '9')
    && ParsePid(e.dname) > 2
    && (a.ignoreRootUser ==> e.uid > 0)
    && e.stat.Some? && e.stat.value.ppid != 2
    && e.oomScore >= 0
    && e.oomScoreAdj.Some? && e.oomScoreAdj.value != -1000
    && (a.preferRegex.Some? || a.avoidRegex.Some? || a.ignoreRegex.Some? ==> e.comm.Some?)
    && (a.ignoreRegex.Some? && e.comm.Some? ==> !a.ignoreRegex.value(e.comm.value))
  }

  lemma KillableIff(a: Args, e: Entry)
    ensures Killable(a, e) <==> Eligible(a, e)
  {
  }

  /** The result is -9999 exactly when no entry is killable; any positive result is the pid of
      a killable entry other than earlyoom; and 0 stands for earlyoom itself. */
  lemma VictimIsKillable(a: Args, es: seq<Entry>)
    ensures VictimPid(a, es) == -9999 <==> forall e :: e in es ==> !Killable(a, e)
    ensures VictimPid(a, es) > 0 ==>
              && VictimPid(a, es) != a.selfPid
              && exists e :: e in es && Killable(a, e) && ParsePid(e.dname) == VictimPid(a, es)
    ensures VictimPid(a, es) == 0 ==> exists e :: e in es && Killable(a, e) && ParsePid(e.dname) == a.selfPid
    ensures VictimPid(a, es) == -9999 || VictimPid(a, es) == 0 || VictimPid(a, es) > 2
  {
    ChampionNoneIff(a, es);
    forall e
      ensures Killable(a, e) <==> Eligible(a, e)
    {
      KillableIff(a, e);
    }
    if Champion(a, es).Some? {
      assert es[Champion(a, es).value] in es;
    }
    assert NoneEligible(a, es) <==> forall e :: e in es ==> !Eligible(a, e);
  }

  /** The regex is set and matches the name. */
  ghost predicate Named(r: Option<Regex>, e: Entry) {
    r.Some? && e.comm.Some? && r.value(e.comm.value)
  }

  /** The two scores in numbers: 300 points or 3 GiB per matching name option, and VmRSS in KiB
      rounded toward zero. */
  lemma KeyMeans(a: Args, e: Entry)
    requires e.stat.Some?
    ensures var prefer, avoid := Named(a.preferRegex, e), Named(a.avoidRegex, e);
            var points := (if prefer then 1 else 0) - (if avoid then 1 else 0);
            var k := KeyOf(a, e);
            var bytes := e.stat.value.rss * a.pageSize;
            var kib := if a.sortByRss then k.rss - 3145728 * points else k.rss;
            && k.oom == (if a.sortByRss then e.oomScore else e.oomScore + 300 * points)
            && (bytes >= 0 ==> 1024 * kib <= bytes < 1024 * kib + 1024)
            && (bytes <= 0 ==> 1024 * kib - 1024 < bytes <= 1024 * kib)
  {
    CDivTruncates(e.stat.value.rss * a.pageSize, 1024);
  }

  /** Of two killable processes the one read second is selected exactly when it has the higher
      score, then the larger VmRSS; in --sort-by-rss mode, if both are resident, exactly when it
      has the larger VmRSS, then the higher oom_score. */
  lemma SecondWinsIff(a: Args, x: Entry, y: Entry)
    requires Killable(a, x) && Killable(a, y)
    ensures var p, q := KeyOf(a, x), KeyOf(a, y);
            Champion(a, [x, y]) ==
            if (if a.sortByRss && p.rss > 0 && q.rss > 0
                then q.rss > p.rss || (q.rss == p.rss && q.oom > p.oom)
                else q.oom > p.oom || (q.oom == p.oom && q.rss > p.rss))
            then Some(1) else Some(0)
  {
    KillableIff(a, x);
    KillableIff(a, y);
    Champion2(a, x, y);
  }

  /** In numbers, over every process list: in oom_score mode no killable process has a higher
      score than the victim or, with the same score, more VmRSS or, with both the same, an
      earlier place in /proc. */
  lemma OomVictimOutranks(a: Args, es: seq<Entry>, i: nat, j: nat)
    requires !a.sortByRss && Champion(a, es) == Some(i)
    requires j < |es| && Killable(a, es[j])
    ensures Killable(a, es[i])
    ensures var x, y := KeyOf(a, es[i]), KeyOf(a, es[j]);
            x.oom > y.oom || (x.oom == y.oom && (x.rss > y.rss || (x.rss == y.rss && i <= j)))
  {
    KillableIff(a, es[i]);
    KillableIff(a, es[j]);
    ScanIsFirstMax(a, es);
    assert FirstMax(a, es, i);
  }

  /** The same in --sort-by-rss mode with VmRSS first, as long as all are resident. */
  lemma RssVictimOutranks(a: Args, es: seq<Entry>, i: nat, j: nat)
    requires a.sortByRss && Champion(a, es) == Some(i)
    requires forall l :: 0 <= l < |es| && Killable(a, es[l]) ==> KeyOf(a, es[l]).rss > 0
    requires j < |es| && Killable(a, es[j])
    ensures Killable(a, es[i])
    ensures var x, y := KeyOf(a, es[i]), KeyOf(a, es[j]);
            x.rss > y.rss || (x.rss == y.rss && (x.oom > y.oom || (x.oom == y.oom && i <= j)))
  {
    forall l | 0 <= l < |es|
      ensures Killable(a, es[l]) <==> Eligible(a, es[l])
    {
      KillableIff(a, es[l]);
    }
    assert AllResident(a, es);
    ScanIsFirstMax(a, es);
    assert FirstMax(a, es, i);
  }
}
