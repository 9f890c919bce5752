/** Reading /proc/PID/stat (proc_pid.c) and the liveness test built on it (is_alive in
    meminfo.c). The process name is chosen by the process and may contain anything but NUL,
    so the parser must not be led astray by it. */
module StatParser {
  import opened Common
  import opened Decimal
  import opened VictimSelection

  // ---------------------------------------------------------------------------
  // sscanf, restricted to the format used
  // ---------------------------------------------------------------------------

  /** How an integer field is converted: "%*d" or "%*u" (suppressed), "%d", "%ld". */
  datatype Conversion = Skip | Int | Long

  /** One integer conversion of the format and whether a blank follows it there. */
  datatype Field = Field(conv: Conversion, blankAfter: bool)

  const PPID: nat := 0
  const NUM_THREADS: nat := 16
  const VSIZE: nat := 19
  const RSS: nat := 20
  const FIELDS: nat := 21

  function ConversionAt(i: nat): Conversion {
    if i == PPID then Int else if i == NUM_THREADS || i == RSS then Long else Skip
  }

  /** The integer fields from ppid to rss. Only "%*d" for vsize is not followed by a blank. */
  function Format(): (f: seq<Field>)
    ensures |f| == FIELDS
    ensures forall i :: 0 <= i < FIELDS ==> f[i] == Field(ConversionAt(i), i != VSIZE)
  {
    seq(FIELDS, i requires 0 <= i => Field(ConversionAt(i), i != VSIZE))
  }

  datatype Item = C(c: char) | I(i: int)

  /** What is stored for a field of value v: nothing, or what fits its type. sscanf converts
      like strtol and, for "%d", keeps the low 32 bits. */
  function Assigned(f: Field, v: int): seq<Item> {
    match f.conv
    case Skip => []
    case Int => [I(ToInt(v))]
    case Long => [I(ToLong(v))]
  }

  /** The values sscanf stores for a list of integer conversions before it stops. */
  function ScanFields(fields: seq<Field>, s: string): seq<Item> {
    if fields == [] then []
    else match ScanInt(s)
      case NoNumber => []
      case Number(v, rest) =>
        Assigned(fields[0], v)
        + ScanFields(fields[1..], if fields[0].blankAfter then rest[SpaceRun(rest)..] else rest)
  }

  /** "%c ", then the integer fields. */
  function ScanState(s: string): seq<Item> {
    if s == [] then [] else [C(s[0])] + ScanFields(Format(), s[1..][SpaceRun(s[1..])..])
  }

  // ---------------------------------------------------------------------------
  // parse_proc_pid_stat_buf and parse_proc_pid_stat
  // ---------------------------------------------------------------------------

  /** strrchr */
  function LastIndex(s: string, c: char): (r: Option<nat>)
    ensures r.None? ==> c !in s
    ensures r.Some? ==> r.value < |s| && s[r.value] == c && c !in s[r.value + 1..]
  {
    if s == [] then None
    else if s[|s| - 1] == c then Some(|s| - 1)
    else
      var r := LastIndex(s[..|s| - 1], c);
      if r.Some? then
        assert s[r.value + 1..] == s[..|s| - 1][r.value + 1..] + [s[|s| - 1]];
        r
      else r
  }

  /** What sscanf stores for the text of /proc/PID/stat. */
  function StatValues(text: string): seq<Item> {
    match LastIndex(text, ')')
    case None => []
    case Some(i) => if i + 1 == |text| then [] else ScanState(text[i + 2..])
  }

  function StatOf(vs: seq<Item>): Option<PidStat> {
    if |vs| == 4 && vs[0].C? && vs[1].I? && vs[2].I? && vs[3].I?
    then Some(PidStat(vs[0].c, vs[1].i, vs[2].i, vs[3].i))
    else None
  }

  /** The meaning of a buffer: a C string. */
  function ParseStat(buf: string): Option<PidStat> {
    StatOf(StatValues(CString(buf)))
  }

  /** The kinds of the stored values: one character, then integers, at most four in all. */
  ghost predicate Shaped(vs: seq<Item>) {
    |vs| <= 4 && forall k :: 0 <= k < |vs| ==> if k == 0 then vs[k].C? else vs[k].I?
  }

  /** pid_stat_t as the output parameter of the parser. */
  class StatRecord {
    var state: char
    var ppid: int
    var numThreads: int
    var rss: int

    function Contents(): PidStat
      reads this
    {
      PidStat(state, ppid, numThreads, rss)
    }

    /** parse_proc_pid_stat_buf: true exactly when all four fields were read; then the record
        holds them. A failed parse leaves the fields it did not reach untouched. */
    method ParseBuf(buf: string) returns (ok: bool)
      modifies this
      ensures ok <==> ParseStat(buf).Some?
      ensures ok ==> Some(Contents()) == ParseStat(buf)
      ensures |StatValues(CString(buf))| < 1 ==> state == old(state)
      ensures |StatValues(CString(buf))| < 2 ==> ppid == old(ppid)
      ensures |StatValues(CString(buf))| < 3 ==> numThreads == old(numThreads)
      ensures |StatValues(CString(buf))| < 4 ==> rss == old(rss)
    {
      var text := CString(buf);
      var closingBracket := LastIndex(text, ')');
      if closingBracket.None? {
        return false;
      }
      if closingBracket.value + 1 == |text| {
        return false;
      }
      ScanStateShape(text[closingBracket.value + 2..]);
      ok := Store(ScanState(text[closingBracket.value + 2..]));
    }

    /** sscanf assigns what it converted, in order; the parse succeeds when that is all four. */
    method Store(vs: seq<Item>) returns (ok: bool)
      requires Shaped(vs)
      modifies this
      ensures ok <==> StatOf(vs).Some?
      ensures ok ==> Some(Contents()) == StatOf(vs)
      ensures |vs| < 1 ==> state == old(state)
      ensures |vs| < 2 ==> ppid == old(ppid)
      ensures |vs| < 3 ==> numThreads == old(numThreads)
      ensures |vs| < 4 ==> rss == old(rss)
    {
      if |vs| > 0 {
        state := vs[0].c;
      }
      if |vs| > 1 {
        ppid := vs[1].i;
      }
      if |vs| > 2 {
        numThreads := vs[2].i;
      }
      if |vs| > 3 {
        rss := vs[3].i;
      }
      return |vs| == 4;
    }

    /** parse_proc_pid_stat: file is the content of /proc/PID/stat, None when it cannot be
        opened or read. Only the first 511 bytes are looked at. */
    method ParseFile(file: Option<string>) returns (ok: bool)
      modifies this
      ensures ok <==> ReadStat(file).Some?
      ensures ok ==> Some(Contents()) == ReadStat(file)
    {
      if file.None? {
        return false;
      }
      var buf := FirstBytes(file.value);
      if |buf| == 0 {
        return false;
      }
      ok := ParseBuf(buf);
    }
  }

  const BUF_CAP: nat := 511

  /** What fread leaves in the buffer. */
  function FirstBytes(content: string): string {
    content[..if |content| < BUF_CAP then |content| else BUF_CAP]
  }

  function ReadStat(file: Option<string>): Option<PidStat> {
    if file.None? || |FirstBytes(file.value)| == 0 then None else ParseStat(FirstBytes(file.value))
  }

  /** is_alive. For a process group (pid < 0) the answer is whether signal 0 could be sent. */
  function IsAlive(pid: int, signalable: bool, file: Option<string>): bool {
    if pid < 0 then signalable
    else match ReadStat(file)
      case None => false
      case Some(stat) => !(stat.state == 'Z' && stat.numThreads == 1)
  }

  // ---------------------------------------------------------------------------
  // Shape of the scanned values
  // ---------------------------------------------------------------------------

  function CountAssigned(fields: seq<Field>): nat {
    if fields == [] then 0 else (if fields[0].conv.Skip? then 0 else 1) + CountAssigned(fields[1..])
  }

  lemma {:induction false} ScanFieldsShape(fields: seq<Field>, s: string)
    ensures var vs := ScanFields(fields, s);
            |vs| <= CountAssigned(fields) && forall k :: 0 <= k < |vs| ==> vs[k].I?
  {
    if fields != [] {
      match ScanInt(s)
      case NoNumber =>
      case Number(v, rest) =>
        ScanFieldsShape(fields[1..], if fields[0].blankAfter then rest[SpaceRun(rest)..] else rest);
    }
  }

  lemma {:induction false} CountSkips(fields: seq<Field>, k: nat)
    requires k <= |fields| && forall j :: 0 <= j < k ==> fields[j].conv.Skip?
    ensures CountAssigned(fields) == CountAssigned(fields[k..])
  {
    if k == 0 {
      assert fields[k..] == fields;
    } else {
      CountSkips(fields[1..], k - 1);
      assert fields[1..][k - 1..] == fields[k..];
    }
  }

  lemma {:induction false} CountFormat()
    ensures CountAssigned(Format()) == 3
  {
    CountSkips(Format()[1..], 15);
    assert Format()[1..][15..] == Format()[16..] && Format()[16..][1..] == Format()[17..];
    CountSkips(Format()[17..], 3);
    assert Format()[17..][3..] == Format()[20..] && Format()[20..][1..] == [];
  }

  lemma {:induction false} ScanStateShape(s: string)
    ensures Shaped(ScanState(s))
  {
    if s != [] {
      ScanFieldsShape(Format(), s[1..][SpaceRun(s[1..])..]);
      CountFormat();
    }
  }

  // ---------------------------------------------------------------------------
  // Round trip
  // ---------------------------------------------------------------------------

  /** What may follow rss: nothing, or the remaining fields. */
  predicate StatTail(rest: string) {
    ')' !in rest && (rest == [] || !IsDigit(rest[0]))
  }

  /** Integer fields separated by single blanks, then the rest of the line. */
  function FieldsText(nums: seq<int>, rest: string): (s: string)
    requires nums != []
    ensures s != [] && !IsSpace(s[0])
    ensures ')' !in rest ==> ')' !in s
  {
    PrintInt(nums[0]) + if |nums| == 1 then rest else " " + FieldsText(nums[1..], rest)
  }

  /** A line of /proc/PID/stat; rest is what follows rss. */
  function StatLine(pid: int, name: string, state: char, nums: seq<int>, rest: string): string
    requires |nums| == FIELDS
  {
    (PrintInt(pid) + " (" + name) + ") " + ([state, ' '] + FieldsText(nums, rest))
  }

  /** What is stored when the fields have values nums. */
  function Stored(fields: seq<Field>, nums: seq<int>): seq<Item>
    requires |fields| == |nums|
  {
    if nums == [] then [] else Assigned(fields[0], nums[0]) + Stored(fields[1..], nums[1..])
  }

  lemma {:induction false} StoredSkips(fields: seq<Field>, nums: seq<int>, k: nat)
    requires k <= |nums| == |fields| && forall j :: 0 <= j < k ==> fields[j].conv.Skip?
    ensures Stored(fields, nums) == Stored(fields[k..], nums[k..])
  {
    if k == 0 {
      assert nums[k..] == nums && fields[k..] == fields;
    } else {
      StoredSkips(fields[1..], nums[1..], k - 1);
      assert nums[1..][k - 1..] == nums[k..] && fields[1..][k - 1..] == fields[k..];
    }
  }

  lemma {:induction false} StoredAre(nums: seq<int>)
    requires |nums| == FIELDS
    ensures Stored(Format(), nums) == [I(ToInt(nums[PPID])), I(ToLong(nums[NUM_THREADS])), I(ToLong(nums[RSS]))]
  {
    StoredSkips(Format()[1..], nums[1..], 15);
    assert Format()[1..][15..] == Format()[16..] && Format()[16..][1..] == Format()[17..];
    assert nums[1..][15..] == nums[16..] && nums[16..][1..] == nums[17..];
    StoredSkips(Format()[17..], nums[17..], 3);
    assert Format()[17..][3..] == Format()[20..] && nums[17..][3..] == nums[20..] && nums[20..][1..] == [];
  }

  lemma Reassociate(a: string, b: string, c: string)
    ensures a + (b + c) == a + b + c
  {
  }

  lemma {:induction false} ScanPrintedFields(ws: string, fields: seq<Field>, nums: seq<int>, rest: string)
    requires nums != [] && |fields| == |nums| && AllSpace(ws) && StatTail(rest)
    ensures ScanFields(fields, ws + FieldsText(nums, rest)) == Stored(fields, nums)
    decreases |nums|
  {
    if |nums| == 1 {
      Reassociate(ws, PrintInt(nums[0]), rest);
      ScanPrinted(ws, nums[0], rest);
    } else {
      var more := FieldsText(nums[1..], rest);
      var after := " " + more;
      Reassociate(ws, PrintInt(nums[0]), after);
      ScanPrinted(ws, nums[0], after);
      SpaceRunExact(" ", more);
      assert after[1..] == more == "" + more;
      ScanPrintedFields(if fields[0].blankAfter then "" else " ", fields[1..], nums[1..], rest);
    }
  }

  lemma LastIndexIs(s: string, c: char, i: nat)
    requires i < |s| && s[i] == c && c !in s[i + 1..]
    ensures LastIndex(s, c) == Some(i)
  {
    assert c in s;
  }

  /** Nothing before the last closing bracket matters. */
  lemma {:induction false} NameIsSkipped(front: string, text: string)
    requires ')' !in text
    ensures StatValues(front + ") " + text) == ScanState(text)
  {
    var buf := front + ") " + text;
    var i := |front|;
    assert buf[i] == ')' && buf[i + 1..] == " " + text;
    LastIndexIs(buf, ')', i);
    assert buf[i + 2..] == text;
  }

  lemma {:induction false} ScanStateText(state: char, t: string)
    requires t != [] && !IsSpace(t[0])
    ensures ScanState([state, ' '] + t) == [C(state)] + ScanFields(Format(), t)
  {
    var text := [state, ' '] + t;
    assert text[1..] == " " + t;
    SpaceRunExact(" ", t);
    assert text[1..][1..] == t;
  }

  lemma {:induction false} ScanFormat(nums: seq<int>, rest: string)
    requires |nums| == FIELDS && StatTail(rest)
    ensures ScanFields(Format(), FieldsText(nums, rest)) == Stored(Format(), nums)
  {
    assert "" + FieldsText(nums, rest) == FieldsText(nums, rest);
    ScanPrintedFields("", Format(), nums, rest);
  }

  lemma InFront(x: Item, vs: seq<Item>, p: Item, q: Item, r: Item)
    requires vs == [p, q, r]
    ensures [x] + vs == [x, p, q, r]
  {
  }

  lemma {:induction false} ScanLineEnd(state: char, nums: seq<int>, rest: string)
    requires |nums| == FIELDS && StatTail(rest)
    ensures ScanState([state, ' '] + FieldsText(nums, rest))
         == [C(state), I(ToInt(nums[PPID])), I(ToLong(nums[NUM_THREADS])), I(ToLong(nums[RSS]))]
  {
    var t := FieldsText(nums, rest);
    ScanStateText(state, t);
    ScanFormat(nums, rest);
    StoredAre(nums);
    InFront(C(state), ScanFields(Format(), t), I(ToInt(nums[PPID])), I(ToLong(nums[NUM_THREADS])), I(ToLong(nums[RSS])));
  }

  lemma {:induction false} LineValues(pid: int, name: string, state: char, nums: seq<int>, rest: string)
    requires |nums| == FIELDS && state != ')' && StatTail(rest)
    ensures StatValues(StatLine(pid, name, state, nums, rest))
         == [C(state), I(ToInt(nums[PPID])), I(ToLong(nums[NUM_THREADS])), I(ToLong(nums[RSS]))]
  {
    NameIsSkipped(PrintInt(pid) + " (" + name, [state, ' '] + FieldsText(nums, rest));
    ScanLineEnd(state, nums, rest);
  }

  lemma StatOfFour(vs: seq<Item>, state: char, ppid: int, numThreads: int, rss: int)
    requires vs == [C(state), I(ppid), I(numThreads), I(rss)]
    ensures StatOf(vs) == Some(PidStat(state, ppid, numThreads, rss))
  {
  }

  /** The record a line describes, as far as the C types can hold its values. */
  function Described(state: char, nums: seq<int>): PidStat
    requires |nums| == FIELDS
  {
    PidStat(state, ToInt(nums[PPID]), ToLong(nums[NUM_THREADS]), ToLong(nums[RSS]))
  }

  /** They can hold them all. */
  predicate Representable(nums: seq<int>)
    requires |nums| == FIELDS
  {
    FitsInt(nums[PPID]) && FitsLong(nums[NUM_THREADS]) && FitsLong(nums[RSS])
  }

  /** The string before the first NUL is determined by that. */
  lemma CStringIs(buf: string, s: string)
    requires s <= buf && '\0' !in s && (|s| < |buf| ==> buf[|s|] == '\0')
    ensures CString(buf) == s
  {
    assert |CString(buf)| == |s|;
  }

  lemma CStringConcat(s: string, t: string)
    requires '\0' !in s
    ensures CString(s + t) == s + CString(t)
  {
    CStringIs(s + t, s + CString(t));
  }

  lemma {:induction false} FieldsHaveNoNul(nums: seq<int>)
    requires nums != []
    ensures '\0' !in FieldsText(nums, "")
  {
    if |nums| > 1 {
      FieldsHaveNoNul(nums[1..]);
    }
  }

  /** A NUL after rss only shortens the rest of the line. */
  lemma {:induction false} LineAsCString(pid: int, name: string, state: char, nums: seq<int>, rest: string)
    requires |nums| == FIELDS && '\0' !in name && state != '\0'
    ensures CString(StatLine(pid, name, state, nums, rest)) == StatLine(pid, name, state, nums, CString(rest))
  {
    var header := StatLine(pid, name, state, nums, "");
    StatLineSplits(pid, name, state, nums, rest);
    StatLineSplits(pid, name, state, nums, CString(rest));
    FieldsHaveNoNul(nums);
    assert '\0' !in " (" && '\0' !in ") ";
    CStringConcat(header, rest);
  }

  /** Every process name, however hostile, and all field values: parsing the printed line
      recovers state, ppid, num_threads and rss if and only if their C types can hold them;
      otherwise num_threads and rss saturate and ppid is cut to 32 bits. */
  lemma {:induction false} StatRoundTrip(pid: int, name: string, state: char, nums: seq<int>, rest: string)
    requires |nums| == FIELDS && '\0' !in name && state != '\0' && state != ')' && StatTail(rest)
    ensures ParseStat(StatLine(pid, name, state, nums, rest)) == Some(Described(state, nums))
    ensures Described(state, nums) == PidStat(state, nums[PPID], nums[NUM_THREADS], nums[RSS]) <==> Representable(nums)
  {
    var text := StatLine(pid, name, state, nums, CString(rest));
    LineAsCString(pid, name, state, nums, rest);
    LineValues(pid, name, state, nums, CString(rest));
    StatOfFour(StatValues(text), state, ToInt(nums[PPID]), ToLong(nums[NUM_THREADS]), ToLong(nums[RSS]));
  }

  lemma {:induction false} FieldsTextSplits(nums: seq<int>, rest: string)
    requires nums != []
    ensures FieldsText(nums, rest) == FieldsText(nums, "") + rest
  {
    var p := PrintInt(nums[0]);
    if |nums| == 1 {
      assert p + "" == p;
    } else {
      FieldsTextSplits(nums[1..], rest);
      var t := FieldsText(nums[1..], "");
      Reassociate(" ", t, rest);
      Reassociate(p, " " + t, rest);
    }
  }

  /** The rest of the line is a suffix of it. */
  lemma {:induction false} StatLineSplits(pid: int, name: string, state: char, nums: seq<int>, rest: string)
    requires |nums| == FIELDS
    ensures StatLine(pid, name, state, nums, rest) == StatLine(pid, name, state, nums, "") + rest
  {
    var front := PrintInt(pid) + " (" + name + ") ";
    FieldsTextSplits(nums, rest);
    var t := FieldsText(nums, "");
    Reassociate([state, ' '], t, rest);
    Reassociate(front, [state, ' '] + t, rest);
  }

  /** A line cut at or past the end of rss is a line with a shorter tail. */
  lemma {:induction false} CutLine(pid: int, name: string, state: char, nums: seq<int>, rest: string, n: nat) returns (cut: string)
    requires |nums| == FIELDS && StatTail(rest)
    requires |StatLine(pid, name, state, nums, "")| <= n <= |StatLine(pid, name, state, nums, rest)|
    ensures StatTail(cut) && StatLine(pid, name, state, nums, rest)[..n] == StatLine(pid, name, state, nums, cut)
  {
    var header := StatLine(pid, name, state, nums, "");
    StatLineSplits(pid, name, state, nums, rest);
    cut := rest[..n - |header|];
    StatLineSplits(pid, name, state, nums, cut);
    PrefixOfConcat(header, rest, n);
  }

  /** Cutting the line anywhere at or past the end of rss does not change the result. */
  lemma {:induction false} StatSurvivesTruncation(pid: int, name: string, state: char, nums: seq<int>, rest: string, n: nat)
    requires |nums| == FIELDS && '\0' !in name && state != '\0' && state != ')' && StatTail(rest)
    requires |StatLine(pid, name, state, nums, "")| <= n <= |StatLine(pid, name, state, nums, rest)|
    ensures ParseStat(StatLine(pid, name, state, nums, rest)[..n]) == Some(Described(state, nums))
  {
    var cut := CutLine(pid, name, state, nums, rest, n);
    StatRoundTrip(pid, name, state, nums, cut);
  }

  lemma PrefixOfConcat(a: string, b: string, n: nat)
    requires |a| <= n <= |a| + |b|
    ensures (a + b)[..n] == a + b[..n - |a|]
  {
  }

  // ---------------------------------------------------------------------------
  // The 511-byte buffer
  // ---------------------------------------------------------------------------

  function Pow10(k: nat): nat {
    if k == 0 then 1 else 10 * Pow10(k - 1)
  }

  lemma {:induction false} PrintLength(n: nat, k: nat)
    requires k > 0 && n < Pow10(k)
    ensures |Print(n)| <= k
  {
    if n >= 10 {
      PrintLength(n / 10, k - 1);
    }
  }

  predicate Fits64(n: int) {
    -0x8000_0000_0000_0000 <= n <= 0xFFFF_FFFF_FFFF_FFFF
  }

  lemma PrintInt64Length(n: int)
    requires Fits64(n)
    ensures |PrintInt(n)| <= 20
  {
    assert Pow10(5) == 100000 && Pow10(10) == 10000000000;
    assert Pow10(15) == 1000000000000000 && Pow10(19) == 10000000000000000000;
    if n < 0 {
      PrintLength(-n, 19);
    } else {
      assert Pow10(20) == 100000000000000000000;
      PrintLength(n, 20);
    }
  }

  lemma {:induction false} FieldsLength(nums: seq<int>)
    requires nums != [] && forall i :: 0 <= i < |nums| ==> Fits64(nums[i])
    ensures |FieldsText(nums, "")| <= 21 * |nums| - 1
  {
    PrintInt64Length(nums[0]);
    if |nums| > 1 {
      FieldsLength(nums[1..]);
    }
  }

  lemma {:induction false} PidLength(pid: nat)
    requires pid < 0x8000_0000
    ensures |PrintInt(pid)| <= 10
  {
    assert Pow10(5) == 100000 && Pow10(10) == 10000000000;
    PrintLength(pid, 10);
  }

  lemma {:induction false} HeaderFits(pid: nat, name: string, state: char, nums: seq<int>)
    requires pid < 0x8000_0000 && |name| <= 55
    requires |nums| == FIELDS && forall i :: 0 <= i < |nums| ==> Fits64(nums[i])
    ensures 0 < |StatLine(pid, name, state, nums, "")| <= BUF_CAP
  {
    FieldsLength(nums);
    PidLength(pid);
  }

  /** For every process name of at most 55 bytes (comm has at most 15) and all fields of up to
      64 bits, signed or unsigned, the 511 bytes that are read contain everything needed: the
      file yields the record described, whatever follows rss. */
  lemma {:induction false} StatFileRoundTrip(pid: int, name: string, state: char, nums: seq<int>, rest: string)
    requires |nums| == FIELDS && '\0' !in name && state != '\0' && state != ')' && StatTail(rest)
    requires 0 <= pid < 0x8000_0000 && |name| <= 55
    requires forall i :: 0 <= i < |nums| ==> Fits64(nums[i])
    ensures ReadStat(Some(StatLine(pid, name, state, nums, rest))) == Some(Described(state, nums))
  {
    var line := StatLine(pid, name, state, nums, rest);
    HeaderFits(pid, name, state, nums);
    StatLineSplits(pid, name, state, nums, rest);
    StatSurvivesTruncation(pid, name, state, nums, rest, if |line| < BUF_CAP then |line| else BUF_CAP);
    assert FirstBytes(line) != [];
  }

  /** Only the first 511 bytes of a file matter, and there must be some. */
  lemma {:induction false} ReadsFirst511(content: string)
    ensures |content| > 511 ==> ReadStat(Some(content)) == ReadStat(Some(content[..511]))
    ensures 0 < |content| <= 511 ==> ReadStat(Some(content)) == ParseStat(content)
    ensures ReadStat(Some("")) == None && ReadStat(None) == None
  {
    if |content| > 511 {
      assert content[..511][..511] == content[..511];
    } else {
      assert content[..|content|] == content;
    }
  }

  /** A group is alive when it can be signalled; a process when its stat file can be read and
      parsed, unless it is a zombie with a single thread. */
  lemma IsAliveIff(pid: int, signalable: bool, file: Option<string>)
    ensures pid < 0 ==> (IsAlive(pid, signalable, file) <==> signalable)
    ensures pid >= 0 ==>
              (IsAlive(pid, signalable, file) <==>
               ReadStat(file).Some? && (ReadStat(file).value.state != 'Z' || ReadStat(file).value.numThreads != 1))
  {
  }

  /** Liveness depends on the state and the thread count alone: a process cannot fake its own
      death, or survival, through its name. */
  lemma {:induction false} LivenessIgnoresName(pid: int, name: string, state: char, nums: seq<int>, rest: string, signalable: bool)
    requires |nums| == FIELDS && '\0' !in name && state != '\0' && state != ')' && StatTail(rest)
    requires 0 <= pid < 0x8000_0000 && |name| <= 55
    requires forall i :: 0 <= i < |nums| ==> Fits64(nums[i])
    ensures IsAlive(pid, signalable, Some(StatLine(pid, name, state, nums, rest)))
       <==> !(state == 'Z' && nums[NUM_THREADS] == 1)
  {
    StatFileRoundTrip(pid, name, state, nums, rest);
  }
}
