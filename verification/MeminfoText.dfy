/** Reading /proc/meminfo (meminfo.c): entries are found by substring search for "Name:",
    which is not the same as looking up a label. */
module MeminfoText {
  import opened Common
  import opened Decimal

  // ---------------------------------------------------------------------------
  // strstr, strtoll, get_entry
  // ---------------------------------------------------------------------------

  predicate OccursAt(s: string, key: string, p: int) {
    0 <= p <= |s| && key <= s[p..]
  }

  /** strstr: the text from the first occurrence on */
  function StrStr(s: string, key: string): (r: Option<string>)
    ensures r.Some? ==> key <= r.value
  {
    if key <= s then Some(s) else if s == [] then None else StrStr(s[1..], key)
  }

  const LLONG_MAX: int := 0x7FFF_FFFF_FFFF_FFFF
  const LLONG_MIN: int := -0x8000_0000_0000_0000

  /** strtoll with its error check: text without digits reads as 0. */
  function ReadNumber(text: string): int {
    match ScanInt(text)
    case NoNumber => 0
    case Number(v, _) => if LLONG_MIN <= v <= LLONG_MAX then v else -ERANGE
  }

  /** get_entry: the value found, or a negated errno. */
  function GetEntry(name: string, buf: string): int {
    var hit := StrStr(buf, name);
    if hit.None? then -ENODATA else ReadNumber(hit.value[|name|..])
  }

  // ---------------------------------------------------------------------------
  // A rendered /proc/meminfo
  // ---------------------------------------------------------------------------

  /** "Label:   value unit" */
  datatype Line = Line(name: string, pad: string, value: nat, unit: string)

  predicate Plain(s: string) {
    ':' !in s && '\n' !in s && '\0' !in s
  }

  predicate WellFormed(l: Line) {
    && Plain(l.name)
    && Plain(l.pad) && AllSpace(l.pad)
    && l.value <= LLONG_MAX
    && Plain(l.unit) && (l.unit == [] || !IsDigit(l.unit[0]))
  }

  predicate AllWellFormed(ls: seq<Line>) {
    forall i :: 0 <= i < |ls| ==> WellFormed(ls[i])
  }

  /** What follows the colon, without the final newline. */
  function Tail(l: Line): string {
    l.pad + PrintInt(l.value) + l.unit
  }

  function LineText(l: Line): string {
    l.name + (":" + (Tail(l) + "\n"))
  }

  function Render(ls: seq<Line>): string {
    if ls == [] then [] else LineText(ls[0]) + Render(ls[1..])
  }

  predicate EndsWith(s: string, k: string) {
    |k| <= |s| && s[|s| - |k|..] == k
  }

  /** Index of the first line whose label ends with k. */
  function FirstSuffix(ls: seq<Line>, k: string): (r: Option<nat>)
    ensures r.Some? ==> r.value < |ls| && EndsWith(ls[r.value].name, k)
                        && forall i :: 0 <= i < r.value ==> !EndsWith(ls[i].name, k)
    ensures r.None? ==> forall i :: 0 <= i < |ls| ==> !EndsWith(ls[i].name, k)
  {
    if ls == [] then None
    else if EndsWith(ls[0].name, k) then Some(0)
    else
      var r := FirstSuffix(ls[1..], k);
      if r.Some? then Some(r.value + 1) else None
  }

  /** Index of the first line whose label is k. */
  function FirstExact(ls: seq<Line>, k: string): (r: Option<nat>)
    ensures r.Some? ==> r.value < |ls| && ls[r.value].name == k
                        && forall i :: 0 <= i < r.value ==> ls[i].name != k
    ensures r.None? ==> forall i :: 0 <= i < |ls| ==> ls[i].name != k
  {
    if ls == [] then None
    else if ls[0].name == k then Some(0)
    else
      var r := FirstExact(ls[1..], k);
      if r.Some? then Some(r.value + 1) else None
  }

  /** The value of a selected line, in the convention of get_entry. */
  function EntryAt(ls: seq<Line>, r: Option<nat>): int
    requires r.Some? ==> r.value < |ls|
  {
    if r.Some? then ls[r.value].value else -61
  }

  // ---------------------------------------------------------------------------
  // Where the key occurs
  // ---------------------------------------------------------------------------

  lemma OccursCharwise(s: string, key: string, p: nat)
    requires OccursAt(s, key, p)
    ensures p + |key| <= |s| && forall i :: 0 <= i < |key| ==> s[p + i] == key[i]
  {
    assert forall i :: 0 <= i < |key| ==> s[p..][i] == s[p + i];
  }

  lemma TailIsPlain(l: Line)
    requires WellFormed(l)
    ensures Plain(Tail(l))
  {
  }

  /** An occurrence of "k:" that starts inside a line ends at the colon of that line. */
  lemma OccurrenceEndsAtColon(lab: string, tail: string, more: string, k: string, p: nat)
    requires Plain(lab) && Plain(tail) && Plain(k)
    requires p < |lab| + |tail| + 2
    requires OccursAt(lab + (":" + (tail + "\n")) + more, k + ":", p)
    ensures p + |k| == |lab|
  {
    var s := lab + (":" + (tail + "\n")) + more;
    OccursCharwise(s, k + ":", p);
    var nl := |lab| + |tail| + 1;
    assert s[nl] == '\n';
    assert s[p + |k|] == ':' by { assert (k + ":")[|k|] == ':'; }
    assert forall i :: 0 <= i < |k| ==> (k + ":")[i] == k[i] != '\n';
  }

  lemma {:induction false} NoOccurrence(l: Line, more: string, k: string, p: nat)
    requires WellFormed(l) && Plain(k) && !EndsWith(l.name, k)
    requires p < |LineText(l)|
    ensures !OccursAt(LineText(l) + more, k + ":", p)
  {
    var s := LineText(l) + more;
    if OccursAt(s, k + ":", p) {
      TailIsPlain(l);
      OccurrenceEndsAtColon(l.name, Tail(l), more, k, p);
      OccursCharwise(s, k + ":", p);
      assert forall i :: 0 <= i < |k| ==> l.name[p..][i] == s[p + i] && (k + ":")[i] == k[i];
    }
  }

  /** Text in which no occurrence starts can be dropped. */
  lemma {:induction false} SearchSkips(a: string, b: string, key: string)
    requires forall p :: 0 <= p < |a| ==> !OccursAt(a + b, key, p)
    ensures StrStr(a + b, key) == StrStr(b, key)
  {
    var s := a + b;
    if a == [] {
      assert s == b;
    } else {
      assert s[1..] == a[1..] + b;
      assert !OccursAt(s, key, 0) && s[0..] == s;
      forall p | 0 <= p < |a[1..]|
        ensures !OccursAt(a[1..] + b, key, p)
      {
        assert !OccursAt(s, key, p + 1);
        assert s[p + 1..] == s[1..][p..];
      }
      SearchSkips(a[1..], b, key);
    }
  }

  // ---------------------------------------------------------------------------
  // get_entry over a rendered text
  // ---------------------------------------------------------------------------

  lemma {:induction false} ReadsValue(l: Line, more: string)
    requires WellFormed(l)
    ensures ReadNumber(Tail(l) + "\n" + more) == l.value
  {
    var rest := l.unit + "\n" + more;
    assert Tail(l) + "\n" + more == l.pad + PrintInt(l.value) + rest;
    assert rest[0] == (if l.unit == [] then '\n' else l.unit[0]);
    ScanPrinted(l.pad, l.value, rest);
  }

  /** In a line whose label ends with k, "k:" is found right before the value. */
  lemma {:induction false} FoundHere(l: Line, more: string, k: string)
    requires WellFormed(l) && Plain(k) && EndsWith(l.name, k)
    ensures StrStr(LineText(l) + more, k + ":") == Some((k + ":") + (Tail(l) + "\n" + more))
  {
    var s := LineText(l) + more;
    var front := l.name[..|l.name| - |k|];
    var hit := (k + ":") + (Tail(l) + "\n" + more);
    assert s == front + hit by { assert l.name == front + k; }
    TailIsPlain(l);
    forall p | 0 <= p < |front|
      ensures !OccursAt(front + hit, k + ":", p)
    {
      if OccursAt(s, k + ":", p) {
        OccurrenceEndsAtColon(l.name, Tail(l), more, k, p);
      }
    }
    SearchSkips(front, hit, k + ":");
  }

  lemma {:induction false} EntryHere(l: Line, more: string, k: string)
    requires WellFormed(l) && Plain(k) && EndsWith(l.name, k)
    ensures GetEntry(k + ":", LineText(l) + more) == l.value
  {
    FoundHere(l, more, k);
    ReadsValue(l, more);
    var after := Tail(l) + "\n" + more;
    assert ((k + ":") + after)[|k + ":"|..] == after;
  }

  /** Otherwise the search moves on to the next line. */
  lemma {:induction false} EntryLater(l: Line, more: string, k: string)
    requires WellFormed(l) && Plain(k) && !EndsWith(l.name, k)
    ensures GetEntry(k + ":", LineText(l) + more) == GetEntry(k + ":", more)
  {
    forall p | 0 <= p < |LineText(l)|
      ensures !OccursAt(LineText(l) + more, k + ":", p)
    {
      NoOccurrence(l, more, k, p);
    }
    SearchSkips(LineText(l), more, k + ":");
  }

  /** For every rendered meminfo text, get_entry returns the value of the first line whose
      label merely ends with the name. */
  lemma {:induction false} GetEntryIsFirstSuffix(ls: seq<Line>, k: string)
    requires AllWellFormed(ls) && Plain(k)
    ensures GetEntry(k + ":", Render(ls)) == EntryAt(ls, FirstSuffix(ls, k))
  {
    if ls == [] {
      assert StrStr("", k + ":").None?;
    } else if EndsWith(ls[0].name, k) {
      EntryHere(ls[0], Render(ls[1..]), k);
    } else {
      EntryLater(ls[0], Render(ls[1..]), k);
      GetEntryIsFirstSuffix(ls[1..], k);
    }
  }

  // ---------------------------------------------------------------------------
  // Substring search versus label lookup
  // ---------------------------------------------------------------------------

  function Labels(ls: seq<Line>): (names: seq<string>)
    ensures |names| == |ls| && forall i :: 0 <= i < |ls| ==> names[i] == ls[i].name
  {
    seq(|ls|, i requires 0 <= i < |ls| => ls[i].name)
  }

  /** Before (or at) every label that ends with k there is one that is k. */
  ghost predicate Unshadowed(names: seq<string>, k: string) {
    forall i :: 0 <= i < |names| && EndsWith(names[i], k) ==> k in names[..i + 1]
  }

  lemma {:induction false} SuffixIsExactIff(ls: seq<Line>, k: string)
    ensures FirstSuffix(ls, k) == FirstExact(ls, k) <==> Unshadowed(Labels(ls), k)
  {
    var names := Labels(ls);
    var s, e := FirstSuffix(ls, k), FirstExact(ls, k);
    assert EndsWith(k, k);
    if s == e && e.Some? {
      forall i | 0 <= i < |names| && EndsWith(names[i], k)
        ensures k in names[..i + 1]
      {
        assert names[..i + 1][e.value] == k;
      }
    }
    if s != e {
      var j := s.value;
      assert EndsWith(names[j], k);
      assert forall i :: 0 <= i < j + 1 ==> names[i] != k;
    }
  }

  /** Lines with the given labels; only those labelled k have value 1. */
  function Marked(names: seq<string>, k: string): (ls: seq<Line>)
    ensures |ls| == |names|
    ensures forall i :: 0 <= i < |ls| ==> ls[i] == Line(names[i], " ", if names[i] == k then 1 else 0, " kB")
  {
    seq(|names|, i requires 0 <= i < |names| => Line(names[i], " ", if names[i] == k then 1 else 0, " kB"))
  }

  /** get_entry agrees with looking up the label, whatever the values, if and only if no
      longer label ending in it comes first ("SwapCached:" before "Cached:"). */
  lemma {:induction false} GetEntryIsExactIff(names: seq<string>, k: string)
    requires Plain(k) && AllPlain(names)
    ensures (forall ls :: AllWellFormed(ls) && Labels(ls) == names ==>
               GetEntry(k + ":", Render(ls)) == EntryAt(ls, FirstExact(ls, k)))
       <==> Unshadowed(names, k)
  {
    if Unshadowed(names, k) {
      forall ls | AllWellFormed(ls) && Labels(ls) == names
        ensures GetEntry(k + ":", Render(ls)) == EntryAt(ls, FirstExact(ls, k))
      {
        GetEntryIsFirstSuffix(ls, k);
        SuffixIsExactIff(ls, k);
      }
    } else {
      var ls := Marked(names, k);
      assert Labels(ls) == names;
      GetEntryIsFirstSuffix(ls, k);
      SuffixIsExactIff(ls, k);
      assert GetEntry(k + ":", Render(ls)) != EntryAt(ls, FirstExact(ls, k));
    }
  }

  // ---------------------------------------------------------------------------
  // parse_meminfo
  // ---------------------------------------------------------------------------

  const MEM_TOTAL: string := "MemTotal"
  const SWAP_TOTAL: string := "SwapTotal"
  const ANON_PAGES: string := "AnonPages"
  const SWAP_FREE: string := "SwapFree"
  const MEM_AVAILABLE: string := "MemAvailable"
  const CACHED: string := "Cached"
  const MEM_FREE: string := "MemFree"
  const BUFFERS: string := "Buffers"
  const SHMEM: string := "Shmem"

  /** How the value of a named entry is found; negative when it is missing. */
  type Lookup = string -> int

  /** Lookup by substring search, as the code does it. */
  function TextLookup(buf: string): Lookup {
    k => GetEntry(k + ":", buf)
  }

  /** Lookup by label, as the file format means it. */
  function LabelLookup(ls: seq<Line>): Lookup {
    k => EntryAt(ls, FirstExact(ls, k))
  }

  /** Exit codes of fatal, a reading, or (zero user memory) percentages that are not numbers. */
  datatype Parsed = Fatal(code: int) | NotANumber | Reading(m: MemInfo)

  function Percent(part: int, whole: int): real
    requires whole != 0
  {
    part as real * 100.0 / whole as real
  }

  /** The reading a lookup gives. */
  function MeminfoOf(get: Lookup): Parsed {
    if get(MEM_TOTAL) < 0 || get(SWAP_TOTAL) < 0 || get(ANON_PAGES) < 0 || get(SWAP_FREE) < 0 then Fatal(104)
    else if get(MEM_AVAILABLE) < 0 && AvailableGuesstimate(get).None? then Fatal(104)
    else
      var available := if get(MEM_AVAILABLE) >= 0 then get(MEM_AVAILABLE) else AvailableGuesstimate(get).value;
      Calculated(MemInfo(get(MEM_TOTAL), available, get(SWAP_TOTAL), get(SWAP_FREE), get(ANON_PAGES), 0, 0.0, 0.0))
  }

  /** The calculated fields, from the raw ones. */
  function Calculated(m: MemInfo): Parsed {
    var user := m.memAvailableKiB + m.anonPagesKiB;
    if user == 0 then NotANumber
    else Reading(m.(userMemTotalKiB := user,
                    memAvailablePercent := Percent(m.memAvailableKiB, user),
                    swapFreePercent := if m.swapTotalKiB > 0 then Percent(m.swapFreeKiB, m.swapTotalKiB) else 0.0))
  }

  const BUF_CAP: nat := 8191

  /** What parse_meminfo makes of a file: text is the content of /proc/meminfo, None when it
      cannot be opened; readError stands for ferror. */
  function ReadMeminfo(text: Option<string>, readError: bool): Parsed {
    if text.None? then Fatal(102)
    else if readError || text.value == [] then Fatal(103)
    else
      var len := if |text.value| < BUF_CAP then |text.value| else BUF_CAP;
      MeminfoOf(TextLookup(CString(text.value[..len])))
  }

  /** parse_meminfo */
  method ParseMeminfo(text: Option<string>, readError: bool) returns (r: Parsed)
    ensures r == ReadMeminfo(text, readError)
  {
    if text.None? {
      return Fatal(102);
    }
    var len := if |text.value| < BUF_CAP then |text.value| else BUF_CAP;
    var buf := text.value[..len];
    if readError {
      return Fatal(103);
    }
    if len == 0 {
      return Fatal(103);
    }
    r := FillFields(TextLookup(CString(buf)));
  }

  /** The part of parse_meminfo after the file has been read: fills m field by field. */
  method FillFields(get: Lookup) returns (r: Parsed)
    ensures r == MeminfoOf(get)
  {
    var m := MemInfo(0, 0, 0, 0, 0, 0, 0.0, 0.0);
    m := m.(memTotalKiB := get(MEM_TOTAL));
    if m.memTotalKiB < 0 {
      return Fatal(104);
    }
    m := m.(swapTotalKiB := get(SWAP_TOTAL));
    if m.swapTotalKiB < 0 {
      return Fatal(104);
    }
    m := m.(anonPagesKiB := get(ANON_PAGES));
    if m.anonPagesKiB < 0 {
      return Fatal(104);
    }
    m := m.(swapFreeKiB := get(SWAP_FREE));
    if m.swapFreeKiB < 0 {
      return Fatal(104);
    }
    m := m.(memAvailableKiB := get(MEM_AVAILABLE));
    if m.memAvailableKiB < 0 {
      var guess := AvailableGuesstimate(get);
      if guess.None? {
        return Fatal(104);
      }
      m := m.(memAvailableKiB := guess.value);
    }
    r := CalculateFields(m);
  }

  /** The calculated values of parse_meminfo. */
  method CalculateFields(raw: MemInfo) returns (r: Parsed)
    requires raw.userMemTotalKiB == 0 && raw.memAvailablePercent == 0.0 && raw.swapFreePercent == 0.0
    ensures r == Calculated(raw)
  {
    var m := raw;
    m := m.(userMemTotalKiB := m.memAvailableKiB + m.anonPagesKiB);
    if m.userMemTotalKiB == 0 {
      return NotANumber;
    }
    m := m.(memAvailablePercent := Percent(m.memAvailableKiB, m.userMemTotalKiB));
    if m.swapTotalKiB > 0 {
      m := m.(swapFreePercent := Percent(m.swapFreeKiB, m.swapTotalKiB));
    } else {
      m := m.(swapFreePercent := 0.0);
    }
    return Reading(m);
  }

  /** available_guesstimate, None where get_entry_fatal exits. */
  function AvailableGuesstimate(get: Lookup): Option<int> {
    if get(CACHED) < 0 || get(MEM_FREE) < 0 || get(BUFFERS) < 0 || get(SHMEM) < 0 then None
    else Some(get(MEM_FREE) + get(CACHED) + get(BUFFERS) - get(SHMEM))
  }

  // ---------------------------------------------------------------------------
  // When the whole reading is the one the labels describe
  // ---------------------------------------------------------------------------

  /** The entries parse_meminfo cannot do without. */
  predicate Required(k: string) {
    k == MEM_TOTAL || k == SWAP_TOTAL || k == ANON_PAGES || k == SWAP_FREE
  }

  /** The entries of the guesstimate. */
  predicate OfGuess(k: string) {
    k == CACHED || k == MEM_FREE || k == BUFFERS || k == SHMEM
  }

  predicate Asked(k: string) {
    Required(k) || OfGuess(k) || k == MEM_AVAILABLE
  }

  /** The search finds something for k. */
  ghost predicate Found(names: seq<string>, k: string) {
    exists i :: 0 <= i < |names| && EndsWith(names[i], k)
  }

  /** The search finds enough entries for a reading. */
  ghost predicate Sufficient(names: seq<string>) {
    && (forall k :: Required(k) ==> Found(names, k))
    && (Found(names, MEM_AVAILABLE) || forall k :: OfGuess(k) ==> Found(names, k))
  }

  /** The names that matter are not shadowed: the required ones and MemAvailable, and those
      of the guesstimate when there is no MemAvailable. */
  ghost predicate NeededUnshadowed(names: seq<string>) {
    && (forall k :: Required(k) ==> Unshadowed(names, k))
    && Unshadowed(names, MEM_AVAILABLE)
    && (MEM_AVAILABLE !in names ==> forall k :: OfGuess(k) ==> Unshadowed(names, k))
  }

  ghost predicate AllPlain(names: seq<string>) {
    forall i :: 0 <= i < |names| ==> Plain(names[i])
  }

  lemma NamesArePlain(k: string)
    requires Asked(k)
    ensures Plain(k)
  {
  }

  /** A lookup over a rendered text, in terms of the labels. */
  lemma {:induction false} TextLookupIs(ls: seq<Line>, k: string)
    requires AllWellFormed(ls) && Asked(k)
    ensures TextLookup(Render(ls))(k) == EntryAt(ls, FirstSuffix(ls, k))
    ensures TextLookup(Render(ls))(k) < 0 <==> !Found(Labels(ls), k)
    ensures LabelLookup(ls)(k) < 0 <==> k !in Labels(ls)
    ensures Unshadowed(Labels(ls), k) ==> TextLookup(Render(ls))(k) == LabelLookup(ls)(k)
    ensures k in Labels(ls) ==> Found(Labels(ls), k)
  {
    NamesArePlain(k);
    GetEntryIsFirstSuffix(ls, k);
    SuffixIsExactIff(ls, k);
    var e := FirstExact(ls, k);
    assert e.Some? ==> Labels(ls)[e.value] == k;
    assert EndsWith(k, k);
    var s := FirstSuffix(ls, k);
    assert s.Some? ==> EndsWith(Labels(ls)[s.value], k);
  }

  /** Only the entries that are needed decide the reading. */
  lemma NeededDecide(f: Lookup, g: Lookup)
    requires forall k :: Required(k) ==> f(k) == g(k)
    requires f(MEM_AVAILABLE) == g(MEM_AVAILABLE)
    requires f(MEM_AVAILABLE) < 0 ==> forall k :: OfGuess(k) ==> f(k) == g(k)
    ensures MeminfoOf(f) == MeminfoOf(g)
  {
    assert Required(MEM_TOTAL) && Required(SWAP_TOTAL) && Required(ANON_PAGES) && Required(SWAP_FREE);
    assert OfGuess(CACHED) && OfGuess(MEM_FREE) && OfGuess(BUFFERS) && OfGuess(SHMEM);
  }

  /** Exit code 104 exactly when an entry is missing. */
  lemma FatalIff(get: Lookup)
    ensures MeminfoOf(get).Fatal? <==>
            || (exists k :: Required(k) && get(k) < 0)
            || (get(MEM_AVAILABLE) < 0 && exists k :: OfGuess(k) && get(k) < 0)
    ensures MeminfoOf(get).Fatal? ==> MeminfoOf(get) == Fatal(104)
  {
    assert Required(MEM_TOTAL) && Required(SWAP_TOTAL) && Required(ANON_PAGES) && Required(SWAP_FREE);
    assert OfGuess(CACHED) && OfGuess(MEM_FREE) && OfGuess(BUFFERS) && OfGuess(SHMEM);
  }

  /** When the search does not find enough, the labels do not either. */
  lemma MissingIsFatal(names: seq<string>, f: Lookup, h: Lookup)
    requires forall k :: Asked(k) ==> (f(k) < 0 <==> !Found(names, k)) && (f(k) < 0 ==> h(k) < 0)
    requires !Sufficient(names)
    ensures MeminfoOf(f) == MeminfoOf(h) == Fatal(104)
  {
    FatalIff(f);
    FatalIff(h);
  }

  /** The search reads everything that is needed as the labels mean it. */
  lemma NeededAgree(names: seq<string>, f: Lookup, h: Lookup)
    requires forall k :: Asked(k) && Unshadowed(names, k) ==> f(k) == h(k)
    requires h(MEM_AVAILABLE) < 0 <==> MEM_AVAILABLE !in names
    requires NeededUnshadowed(names)
    ensures MeminfoOf(f) == MeminfoOf(h)
  {
    assert Asked(MEM_AVAILABLE);
    NeededDecide(f, h);
  }

  lemma {:induction false} MeminfoIsExact(ls: seq<Line>)
    requires AllWellFormed(ls)
    requires !Sufficient(Labels(ls)) || NeededUnshadowed(Labels(ls))
    ensures MeminfoOf(TextLookup(Render(ls))) == MeminfoOf(LabelLookup(ls))
  {
    var f, h := TextLookup(Render(ls)), LabelLookup(ls);
    var names := Labels(ls);
    forall k | Asked(k)
      ensures (f(k) < 0 <==> !Found(names, k)) && (f(k) < 0 ==> h(k) < 0)
      ensures Unshadowed(names, k) ==> f(k) == h(k)
      ensures h(k) < 0 <==> k !in names
    {
      TextLookupIs(ls, k);
    }
    if !Sufficient(names) {
      MissingIsFatal(names, f, h);
    } else {
      assert Asked(MEM_AVAILABLE);
      NeededAgree(names, f, h);
    }
  }

  /** Lines with the given labels, as short as possible; those labelled k have value 2, the
      others 1. */
  function Doubled(names: seq<string>, k: string): (ls: seq<Line>)
    ensures |ls| == |names|
    ensures forall i :: 0 <= i < |ls| ==> ls[i] == Line(names[i], "", if names[i] == k then 2 else 1, "")
  {
    seq(|names|, i requires 0 <= i < |names| => Line(names[i], "", if names[i] == k then 2 else 1, ""))
  }

  lemma DoubledIsWellFormed(names: seq<string>, k: string)
    requires AllPlain(names)
    ensures AllWellFormed(Doubled(names, k)) && Labels(Doubled(names, k)) == names
  {
  }

  /** What looking up g in those lines gives: x from the text, y by label. */
  ghost predicate SeenDoubled(names: seq<string>, k: string, g: string, x: int, y: int) {
    && (if Found(names, g) then 1 <= x <= 2 else x < 0)
    && (Found(names, g) && !EndsWith(k, g) ==> x == 1)
    && (g == k && !Unshadowed(names, k) ==> x == 1)
    && (if g in names then y == (if g == k then 2 else 1) else y < 0)
  }

  ghost predicate SeesDoubled(names: seq<string>, k: string, f: Lookup, h: Lookup) {
    forall g :: Asked(g) ==> SeenDoubled(names, k, g, f(g), h(g))
  }

  lemma {:induction false} LookupSeesDoubled(names: seq<string>, k: string, g: string)
    requires AllPlain(names) && Asked(g)
    ensures SeenDoubled(names, k, g, TextLookup(Render(Doubled(names, k)))(g), LabelLookup(Doubled(names, k))(g))
  {
    var ls := Doubled(names, k);
    DoubledIsWellFormed(names, k);
    TextLookupIs(ls, g);
    SuffixIsExactIff(ls, g);
  }

  lemma {:induction false} LookupsSeeDoubled(names: seq<string>, k: string)
    requires AllPlain(names)
    ensures SeesDoubled(names, k, TextLookup(Render(Doubled(names, k))), LabelLookup(Doubled(names, k)))
  {
    forall g | Asked(g)
      ensures SeenDoubled(names, k, g, TextLookup(Render(Doubled(names, k)))(g), LabelLookup(Doubled(names, k))(g))
    {
      LookupSeesDoubled(names, k, g);
    }
  }

  /** No name of the guesstimate ends with another one. */
  lemma GuessNamesApart(k: string, g: string)
    requires OfGuess(k) && OfGuess(g) && EndsWith(k, g)
    ensures k == g
  {
    assert k[|k| - 1] == k[|k| - |g|..][|g| - 1];
    assert CACHED[5] == 'd' && MEM_FREE[6] == 'e' && BUFFERS[6] == 's' && SHMEM[4] == 'm';
  }

  lemma ReadsSmallValues(f: Lookup)
    requires forall k :: Required(k) ==> f(k) >= 1
    requires f(MEM_AVAILABLE) >= 1 || forall k :: OfGuess(k) ==> 1 <= f(k) <= 2
    ensures MeminfoOf(f).Reading?
  {
    assert Required(MEM_TOTAL) && Required(SWAP_TOTAL) && Required(ANON_PAGES) && Required(SWAP_FREE);
    assert OfGuess(CACHED) && OfGuess(MEM_FREE) && OfGuess(BUFFERS) && OfGuess(SHMEM);
  }

  lemma DoubledReads(names: seq<string>, k: string, f: Lookup, h: Lookup)
    requires SeesDoubled(names, k, f, h) && Sufficient(names)
    ensures MeminfoOf(f).Reading?
  {
    assert Asked(MEM_AVAILABLE);
    ReadsSmallValues(f);
  }

  lemma RequiredDiffers(names: seq<string>, k: string, f: Lookup, h: Lookup)
    requires SeesDoubled(names, k, f, h) && Sufficient(names)
    requires Required(k) && !Unshadowed(names, k)
    ensures MeminfoOf(f) != MeminfoOf(h)
  {
    DoubledReads(names, k, f, h);
    assert Asked(k) && f(k) == 1 && h(k) != 1;
  }

  lemma GuessOfOnes(h: Lookup)
    requires forall g :: OfGuess(g) ==> h(g) < 0 || h(g) == 1
    ensures AvailableGuesstimate(h) != Some(1)
  {
    assert OfGuess(CACHED) && OfGuess(MEM_FREE) && OfGuess(BUFFERS) && OfGuess(SHMEM);
  }

  lemma AvailableDecides(f: Lookup, h: Lookup)
    requires f(MEM_AVAILABLE) == 1 && MeminfoOf(f).Reading?
    requires h(MEM_AVAILABLE) == 2 || (h(MEM_AVAILABLE) < 0 && AvailableGuesstimate(h) != Some(1))
    ensures MeminfoOf(f) != MeminfoOf(h)
  {
  }

  /** Without a line labelled MemAvailable the labels say 1 + 1 + 1 - 1, the text says 1. */
  lemma AvailableDiffers(names: seq<string>, f: Lookup, h: Lookup)
    requires SeesDoubled(names, MEM_AVAILABLE, f, h) && Sufficient(names)
    requires !Unshadowed(names, MEM_AVAILABLE)
    ensures MeminfoOf(f) != MeminfoOf(h)
  {
    DoubledReads(names, MEM_AVAILABLE, f, h);
    assert SeenDoubled(names, MEM_AVAILABLE, MEM_AVAILABLE, f(MEM_AVAILABLE), h(MEM_AVAILABLE));
    forall g | OfGuess(g)
      ensures h(g) < 0 || h(g) == 1
    {
      assert SeenDoubled(names, MEM_AVAILABLE, g, f(g), h(g));
      assert |g| < |MEM_AVAILABLE|;
    }
    GuessOfOnes(h);
    AvailableDecides(f, h);
  }

  lemma GuessIs2(f: Lookup)
    requires forall g :: OfGuess(g) ==> f(g) == 1
    ensures AvailableGuesstimate(f) == Some(2)
  {
    assert OfGuess(CACHED) && OfGuess(MEM_FREE) && OfGuess(BUFFERS) && OfGuess(SHMEM);
  }

  /** If one entry of the guesstimate is 2 and the others are 1, the sum is not 2. */
  lemma GuessIsNot2(h: Lookup, k: string)
    requires OfGuess(k)
    requires forall g :: OfGuess(g) ==> h(g) < 0 || h(g) == if g == k then 2 else 1
    ensures AvailableGuesstimate(h) != Some(2)
  {
    assert OfGuess(CACHED) && OfGuess(MEM_FREE) && OfGuess(BUFFERS) && OfGuess(SHMEM);
    assert CACHED[0] == 'C' && MEM_FREE[0] == 'M' && BUFFERS[0] == 'B' && SHMEM[0] == 'S';
  }

  lemma GuessDecides(f: Lookup, h: Lookup)
    requires f(MEM_AVAILABLE) < 0 && h(MEM_AVAILABLE) < 0 && MeminfoOf(f).Reading?
    requires AvailableGuesstimate(f) != AvailableGuesstimate(h)
    ensures MeminfoOf(f) != MeminfoOf(h)
  {
  }

  lemma GuessDiffers(names: seq<string>, k: string, f: Lookup, h: Lookup)
    requires SeesDoubled(names, k, f, h) && Sufficient(names)
    requires OfGuess(k) && !Unshadowed(names, k)
    requires !Found(names, MEM_AVAILABLE) && MEM_AVAILABLE !in names
    ensures MeminfoOf(f) != MeminfoOf(h)
  {
    DoubledReads(names, k, f, h);
    forall g | OfGuess(g)
      ensures f(g) == 1
      ensures h(g) < 0 || h(g) == if g == k then 2 else 1
    {
      assert SeenDoubled(names, k, g, f(g), h(g));
      if EndsWith(k, g) {
        GuessNamesApart(k, g);
      }
    }
    GuessIs2(f);
    GuessIsNot2(h, k);
    assert SeenDoubled(names, k, MEM_AVAILABLE, f(MEM_AVAILABLE), h(MEM_AVAILABLE));
    GuessDecides(f, h);
  }

  /** Some values make the reading differ from what the labels say. */
  lemma {:induction false} ShadowedDiffers(names: seq<string>) returns (k: string)
    requires AllPlain(names) && Sufficient(names) && !NeededUnshadowed(names)
    ensures MeminfoOf(TextLookup(Render(Doubled(names, k)))) != MeminfoOf(LabelLookup(Doubled(names, k)))
  {
    if x :| Required(x) && !Unshadowed(names, x) {
      k := x;
    } else if !Unshadowed(names, MEM_AVAILABLE) {
      k := MEM_AVAILABLE;
    } else {
      k :| OfGuess(k) && !Unshadowed(names, k);
    }
    var f, h := TextLookup(Render(Doubled(names, k))), LabelLookup(Doubled(names, k));
    LookupsSeeDoubled(names, k);
    if Required(k) {
      RequiredDiffers(names, k, f, h);
    } else if k == MEM_AVAILABLE {
      AvailableDiffers(names, f, h);
    } else {
      GuessDiffers(names, k, f, h);
    }
  }

  /** Shortest text with these labels: a colon, a digit and a newline each. */
  function ShortestLength(names: seq<string>): nat {
    if names == [] then 0 else |names[0]| + 3 + ShortestLength(names[1..])
  }

  lemma {:induction false} RenderLength(ls: seq<Line>)
    ensures |Render(ls)| >= ShortestLength(Labels(ls))
    ensures (forall i :: 0 <= i < |ls| ==> ls[i].pad == ls[i].unit == "" && ls[i].value < 10)
              ==> |Render(ls)| == ShortestLength(Labels(ls))
  {
    if ls != [] {
      RenderLength(ls[1..]);
      assert Labels(ls)[1..] == Labels(ls[1..]);
    }
  }

  lemma {:induction false} RenderHasNoNul(ls: seq<Line>)
    requires AllWellFormed(ls)
    ensures '\0' !in Render(ls)
  {
    if ls != [] {
      RenderHasNoNul(ls[1..]);
      TailIsPlain(ls[0]);
      assert '\0' !in ":" && '\0' !in "\n";
    }
  }

  lemma {:induction false} ReadsText(text: string)
    requires text != [] && '\0' !in text && |text| <= BUF_CAP
    ensures ReadMeminfo(Some(text), false) == MeminfoOf(TextLookup(text))
  {
    assert text[..|text|] == text;
    CStringIsAll(text);
  }

  lemma {:induction false} ReadsRendered(ls: seq<Line>)
    requires AllWellFormed(ls) && ls != [] && |Render(ls)| <= BUF_CAP
    ensures ReadMeminfo(Some(Render(ls)), false) == MeminfoOf(TextLookup(Render(ls)))
  {
    RenderLength(ls);
    RenderHasNoNul(ls);
    ReadsText(Render(ls));
  }

  lemma {:induction false} DoubledIsRead(names: seq<string>, k: string)
    requires names != [] && AllPlain(names) && ShortestLength(names) <= BUF_CAP
    ensures var ls := Doubled(names, k);
            && AllWellFormed(ls) && Labels(ls) == names && |Render(ls)| <= BUF_CAP
            && ReadMeminfo(Some(Render(ls)), false) == MeminfoOf(TextLookup(Render(ls)))
  {
    var ls := Doubled(names, k);
    DoubledIsWellFormed(names, k);
    RenderLength(ls);
    ReadsRendered(ls);
  }

  /** parse_meminfo reads every file with the given labels that fits its buffer the way the
      labels are meant if and only if the search does not find enough entries anyway (exit
      104 either way) or no name that is needed is shadowed. */
  lemma {:induction false} MeminfoIsExactIff(names: seq<string>)
    requires names != [] && AllPlain(names)
    ensures (forall ls :: AllWellFormed(ls) && Labels(ls) == names && |Render(ls)| <= 8191 ==>
               ReadMeminfo(Some(Render(ls)), false) == MeminfoOf(LabelLookup(ls)))
       <==> ShortestLength(names) > 8191 || !Sufficient(names) || NeededUnshadowed(names)
  {
    if ShortestLength(names) > BUF_CAP || !Sufficient(names) || NeededUnshadowed(names) {
      forall ls | AllWellFormed(ls) && Labels(ls) == names && |Render(ls)| <= BUF_CAP
        ensures ReadMeminfo(Some(Render(ls)), false) == MeminfoOf(LabelLookup(ls))
      {
        RenderLength(ls);
        ReadsRendered(ls);
        MeminfoIsExact(ls);
      }
    } else {
      var k := ShadowedDiffers(names);
      DoubledIsRead(names, k);
    }
  }

  /** With a longer label listed before the one it ends with, the wrong line is read. */
  lemma {:induction false} ShadowingReadsWrongLine(longer: string, k: string)
    requires Plain(longer) && Plain(k) && longer != k && EndsWith(longer, k)
    ensures !Unshadowed([longer, k], k)
    ensures var ls := Marked([longer, k], k);
            && GetEntry(k + ":", Render(ls)) == ls[0].value == 0
            && EntryAt(ls, FirstExact(ls, k)) == ls[1].value == 1
  {
    var names := [longer, k];
    var ls := Marked(names, k);
    assert EndsWith(names[0], k) && names[..1] == [longer];
    GetEntryIsFirstSuffix(ls, k);
    assert ls[1].name == k;
  }

  // ---------------------------------------------------------------------------
  // What a reading says, in terms of the labelled lines
  // ---------------------------------------------------------------------------

  /** Which entry ends up in which field. */
  lemma FieldsMean(get: Lookup)
    requires MeminfoOf(get).Reading?
    ensures var m := MeminfoOf(get).m;
            && m.memTotalKiB == get("MemTotal") >= 0
            && m.swapTotalKiB == get("SwapTotal") >= 0
            && m.anonPagesKiB == get("AnonPages") >= 0
            && m.swapFreeKiB == get("SwapFree") >= 0
            && m.memAvailableKiB == (if get("MemAvailable") >= 0 then get("MemAvailable")
                                     else get("MemFree") + get("Cached") + get("Buffers") - get("Shmem"))
            && m.userMemTotalKiB == m.memAvailableKiB + m.anonPagesKiB != 0
  {
  }

  /** When there is no reading: exit code 104 exactly when a needed entry is missing, and no
      percentages exactly when available and anonymous memory add up to zero. */
  lemma NoReadingMeans(get: Lookup)
    ensures MeminfoOf(get).Fatal? ==> MeminfoOf(get).code == 104
    ensures MeminfoOf(get).Fatal? <==>
            || get("MemTotal") < 0 || get("SwapTotal") < 0 || get("AnonPages") < 0 || get("SwapFree") < 0
            || (get("MemAvailable") < 0
                && (get("Cached") < 0 || get("MemFree") < 0 || get("Buffers") < 0 || get("Shmem") < 0))
    ensures MeminfoOf(get).NotANumber? <==>
            && !MeminfoOf(get).Fatal?
            && get("AnonPages") + (if get("MemAvailable") >= 0 then get("MemAvailable")
                                   else get("MemFree") + get("Cached") + get("Buffers") - get("Shmem")) == 0
  {
  }

  /** The exit codes of parse_meminfo, and how much of the file it looks at. */
  lemma {:induction false} ReadMeminfoCases(text: Option<string>, readError: bool)
    ensures ReadMeminfo(text, readError) == Fatal(102) <==> text.None?
    ensures ReadMeminfo(text, readError) == Fatal(103) <==> text.Some? && (readError || text.value == "")
    ensures text.Some? && |text.value| > 8191 ==>
              ReadMeminfo(text, readError) == ReadMeminfo(Some(text.value[..8191]), readError)
  {
    if text.Some? && |text.value| > 8191 {
      assert text.value[..8191][..8191] == text.value[..8191];
    }
  }

  /** i is the first line labelled so. */
  ghost predicate FirstLine(ls: seq<Line>, lab: string, i: nat) {
    && i < |ls| && ls[i].name == lab
    && forall j :: 0 <= j < i ==> ls[j].name != lab
  }

  /** There is a line labelled k, and the value of the first one is v. */
  ghost predicate LineSays(ls: seq<Line>, k: string, v: int) {
    exists i: nat :: FirstLine(ls, k, i) && ls[i].value == v
  }

  /** Without MemAvailable, available memory is MemFree + Cached + Buffers - Shmem. */
  ghost predicate GuessSaid(ls: seq<Line>, available: int) {
    exists free, cached, buffers, shmem ::
      && LineSays(ls, "MemFree", free) && LineSays(ls, "Cached", cached)
      && LineSays(ls, "Buffers", buffers) && LineSays(ls, "Shmem", shmem)
      && available == free + cached + buffers - shmem
  }

  /** The percentages are the shares of available memory in available plus anonymous memory and
      of free swap in all swap. */
  ghost predicate SharesHold(m: MemInfo) {
    && m.memAvailablePercent * (m.memAvailableKiB + m.anonPagesKiB) as real == 100.0 * m.memAvailableKiB as real
    && (m.swapTotalKiB > 0 ==> m.swapFreePercent * m.swapTotalKiB as real == 100.0 * m.swapFreeKiB as real)
    && (m.swapTotalKiB == 0 ==> m.swapFreePercent == 0.0)
  }

  /** What the labelled lines say about a reading. */
  ghost predicate LinesSay(ls: seq<Line>, m: MemInfo) {
    && LineSays(ls, "MemTotal", m.memTotalKiB)
    && LineSays(ls, "SwapTotal", m.swapTotalKiB)
    && LineSays(ls, "AnonPages", m.anonPagesKiB)
    && LineSays(ls, "SwapFree", m.swapFreeKiB)
    && (if "MemAvailable" in Labels(ls) then LineSays(ls, "MemAvailable", m.memAvailableKiB)
        else GuessSaid(ls, m.memAvailableKiB))
    && SharesHold(m)
  }

  lemma LookupIsSaid(ls: seq<Line>, k: string)
    ensures LabelLookup(ls)(k) >= 0 ==> LineSays(ls, k, LabelLookup(ls)(k))
    ensures k in Labels(ls) <==> LabelLookup(ls)(k) >= 0
  {
    var e := FirstExact(ls, k);
    if e.Some? {
      assert FirstLine(ls, k, e.value);
      assert Labels(ls)[e.value] == k;
    }
  }

  lemma ReadingShares(get: Lookup, m: MemInfo)
    requires MeminfoOf(get) == Reading(m)
    ensures SharesHold(m)
  {
    PercentagesMeanShares(get);
  }

  lemma GuessIsSaid(ls: seq<Line>, get: Lookup)
    requires forall k :: get(k) >= 0 ==> LineSays(ls, k, get(k))
    requires get("MemFree") >= 0 && get("Cached") >= 0 && get("Buffers") >= 0 && get("Shmem") >= 0
    ensures GuessSaid(ls, get("MemFree") + get("Cached") + get("Buffers") - get("Shmem"))
  {
    assert LineSays(ls, "MemFree", get("MemFree")) && LineSays(ls, "Cached", get("Cached"));
    assert LineSays(ls, "Buffers", get("Buffers")) && LineSays(ls, "Shmem", get("Shmem"));
  }

  lemma {:induction false} SaidReadingMeans(ls: seq<Line>, get: Lookup, m: MemInfo)
    requires forall k :: get(k) >= 0 ==> LineSays(ls, k, get(k))
    requires MEM_AVAILABLE in Labels(ls) <==> get(MEM_AVAILABLE) >= 0
    requires MeminfoOf(get) == Reading(m)
    ensures LinesSay(ls, m)
  {
    FieldsMean(get);
    ReadingShares(get, m);
    NoReadingMeans(get);
    if MEM_AVAILABLE !in Labels(ls) {
      GuessIsSaid(ls, get);
    }
  }

  lemma {:induction false} LabelReadingMeans(ls: seq<Line>, m: MemInfo)
    requires MeminfoOf(LabelLookup(ls)) == Reading(m)
    ensures LinesSay(ls, m)
  {
    var get := LabelLookup(ls);
    forall k
      ensures get(k) >= 0 ==> LineSays(ls, k, get(k))
    {
      LookupIsSaid(ls, k);
    }
    LookupIsSaid(ls, MEM_AVAILABLE);
    SaidReadingMeans(ls, get, m);
  }

  /** Every file that fits the buffer and shadows nothing needed is read as its lines say. */
  lemma {:induction false} RenderedReadingMeans(ls: seq<Line>, m: MemInfo)
    requires AllWellFormed(ls) && ls != [] && |Render(ls)| <= 8191 && NeededUnshadowed(Labels(ls))
    requires ReadMeminfo(Some(Render(ls)), false) == Reading(m)
    ensures LinesSay(ls, m)
  {
    ReadsRendered(ls);
    MeminfoIsExact(ls);
    LabelReadingMeans(ls, m);
  }

  /** A number that does not fit is an error, and text without digits reads as 0. */
  lemma {:induction false} ReadNumberCases(ws: string, n: int, rest: string)
    requires AllSpace(ws) && (rest == [] || !IsDigit(rest[0]))
    ensures ReadNumber(ws + PrintInt(n) + rest) ==
            if -0x8000_0000_0000_0000 <= n <= 0x7FFF_FFFF_FFFF_FFFF then n else -34
    ensures (rest == [] || !(IsSpace(rest[0]) || rest[0] == '-' || rest[0] == '+')) ==> ReadNumber(ws + rest) == 0
  {
    ScanPrinted(ws, n, rest);
    if rest == [] || !(IsSpace(rest[0]) || rest[0] == '-' || rest[0] == '+') {
      ScanSkipsSpace(ws, rest);
    }
  }

  /** A reading's percentages: memory in [0, 100] whenever the kernel reports MemAvailable, and
      consistent with the totals always. */
  lemma PercentagesMeanShares(get: Lookup)
    requires MeminfoOf(get).Reading?
    ensures var m := MeminfoOf(get).m;
            && m.memAvailablePercent * m.userMemTotalKiB as real == 100.0 * m.memAvailableKiB as real
            && m.userMemTotalKiB == m.memAvailableKiB + m.anonPagesKiB
            && (m.swapTotalKiB > 0 ==> m.swapFreePercent * m.swapTotalKiB as real == 100.0 * m.swapFreeKiB as real)
            && (m.swapTotalKiB == 0 ==> m.swapFreePercent == 0.0)
            && (get(MEM_AVAILABLE) >= 0 ==> 0.0 <= m.memAvailablePercent <= 100.0)
  {
    var m := MeminfoOf(get).m;
    if get(MEM_AVAILABLE) >= 0 {
      var p, u := m.memAvailablePercent, m.userMemTotalKiB as real;
      assert p * u == 100.0 * m.memAvailableKiB as real;
      assert p < 0.0 ==> p * u < 0.0;
      assert p > 100.0 ==> (p - 100.0) * u > 0.0;
    }
  }
}
