/** Values shared by all components of the daemon: options, signals, errno codes,
    the run-time configuration and one parsed /proc/meminfo reading. */
module Common {

  datatype Option<+T> = None | Some(value: T)

  const SIGKILL: int := 9
  const SIGTERM: int := 15

  const EPERM: int := 1
  const ERANGE: int := 34
  const ENODATA: int := 61
  const ETIME: int := 62

  /** A compiled regular expression is an arbitrary predicate on process names. */
  type Regex = string -> bool

  /** poll_loop_args_t, plus the two facts about the host the code asks for while
      it runs: its own pid and the page size in bytes. The three program paths only
      matter as "set or not set". */
  datatype Args = Args(
    memTermPercent: real,
    memKillPercent: real,
    swapTermPercent: real,
    swapKillPercent: real,
    notify: bool,
    notifyExt: bool,
    prehook: bool,
    killProcessGroup: bool,
    ignoreRootUser: bool,
    sortByRss: bool,
    preferRegex: Option<Regex>,
    avoidRegex: Option<Regex>,
    ignoreRegex: Option<Regex>,
    reportIntervalMs: nat,
    dryrun: bool,
    kernelOom: bool,
    selfPid: nat,
    pageSize: nat)

  /** meminfo_t */
  datatype MemInfo = MemInfo(
    memTotalKiB: int,
    memAvailableKiB: int,
    swapTotalKiB: int,
    swapFreeKiB: int,
    anonPagesKiB: int,
    userMemTotalKiB: int,
    memAvailablePercent: real,
    swapFreePercent: real)

  /** What C string functions see of a buffer: the characters before the first NUL. */
  function CString(buf: string): (s: string)
    ensures s <= buf && '\0' !in s
    ensures |s| < |buf| ==> buf[|s|] == '\0'
  {
    if buf == [] || buf[0] == '\0' then [] else [buf[0]] + CString(buf[1..])
  }

  lemma CStringIsAll(buf: string)
    requires '\0' !in buf
    ensures CString(buf) == buf
  {
    assert |CString(buf)| == |buf|;
  }

  /** C integer division: truncates toward zero. */
  function CDiv(a: int, b: int): (q: int)
    requires b > 0
  {
    if a >= 0 then a / b else -((-a) / b)
  }

  lemma CDivTruncates(a: int, b: int)
    requires b > 0
    ensures a >= 0 ==> b * CDiv(a, b) <= a < b * CDiv(a, b) + b
    ensures a <= 0 ==> b * CDiv(a, b) - b < a <= b * CDiv(a, b)
  {
  }

  /** C cast from a floating-point value to an integer: truncates toward zero. */
  function CTrunc(x: real): (n: int)
    ensures x >= 0.0 ==> n as real <= x < n as real + 1.0
    ensures x < 0.0 ==> n as real - 1.0 < x <= n as real
  {
    if x >= 0.0 then x.Floor else -((-x).Floor)
  }
}
