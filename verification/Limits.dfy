/** The memory and swap limits: parsing "term[,kill]" arguments (msg.c), folding and merging
    the options (main in main.c), and the comparison with a reading (lowmem_sig). */
module Limits {
  import opened Common

  // ---------------------------------------------------------------------------
  // One argument
  // ---------------------------------------------------------------------------

  /** What strtod makes of a text: the value, the unconverted rest and errno. */
  datatype Conversion = Conversion(value: real, rest: string, errno: int)

  /** strtod is a parameter: any function from text to conversions. */
  type StrToD = string -> Conversion

  datatype ParseError = TooLong | TrailingGarbage | ConversionError | ExceedsLimit | BelowZero | BothZero

  /** parse_part: the value, or the error stored in tuple->err. */
  datatype Part = Bad(err: ParseError) | Good(value: real)

  function ParsePart(strtod: StrToD, part: string, limit: int): Part {
    var c := strtod(part);
    if c.rest != "" then Bad(TrailingGarbage)
    else if c.errno != 0 then Bad(ConversionError)
    else if c.value > limit as real then Bad(ExceedsLimit)
    else if c.value < 0.0 then Bad(BelowZero)
    else Good(c.value)
  }

  /** strchr(s, ',') */
  function CommaIndex(s: string): (n: nat)
    ensures n <= |s| && ',' !in s[..n]
    ensures n < |s| ==> s[n] == ','
  {
    if s == "" || s[0] == ',' then 0 else 1 + CommaIndex(s[1..])
  }

  /** term_kill_tuple_t */
  datatype Tuple = Tuple(err: Option<ParseError>, term: real, kill: real)

  const MSG_LEN: nat := 256

  /** The limits an argument stands for: the second part is the SIGKILL limit (half of the
      first when missing), and the SIGTERM limit is never below it. */
  function Meaning(strtod: StrToD, arg: string, limit: int): Option<(real, real)> {
    var n := CommaIndex(arg);
    var first := ParsePart(strtod, arg[..n], limit);
    var second := if n == |arg| || first.Bad? then first else ParsePart(strtod, arg[n + 1..], limit);
    if |arg| >= MSG_LEN || first.Bad? || second.Bad? then None
    else
      var kill := if n == |arg| then first.value / 2.0 else second.value;
      var term := if first.value < kill then kill else first.value;
      if term == 0.0 then None else Some((term, kill))
  }

  /** The error reported for an argument without a meaning: the first one met from left to right. */
  function FirstError(strtod: StrToD, arg: string, limit: int): Option<ParseError> {
    var n := CommaIndex(arg);
    var first := ParsePart(strtod, arg[..n], limit);
    if |arg| >= MSG_LEN then Some(TooLong)
    else if first.Bad? then Some(first.err)
    else if n < |arg| && ParsePart(strtod, arg[n + 1..], limit).Bad? then Some(ParsePart(strtod, arg[n + 1..], limit).err)
    else if Meaning(strtod, arg, limit).None? then Some(BothZero)
    else None
  }

  /** parse_term_kill_tuple: fills the tuple step by step and stops at the first error. */
  method ParseTermKillTuple(strtod: StrToD, arg: string, limit: int) returns (tuple: Tuple)
    ensures tuple.err.None? <==> Meaning(strtod, arg, limit).Some?
    ensures tuple.err.None? ==> Meaning(strtod, arg, limit) == Some((tuple.term, tuple.kill))
    ensures tuple.err == FirstError(strtod, arg, limit)
  {
    tuple := Tuple(None, 0.0, 0.0);
    if |arg| > MSG_LEN - 1 {
      tuple := tuple.(err := Some(TooLong));
      return;
    }
    var comma := CommaIndex(arg);
    var part1 := arg[..comma];
    var r1 := ParsePart(strtod, part1, limit);
    match r1 {
      case Bad(e) =>
        tuple := tuple.(err := Some(e));
        return;
      case Good(v) =>
        tuple := tuple.(term := v);
    }
    if comma < |arg| {
      var part2 := arg[comma + 1..];
      var r2 := ParsePart(strtod, part2, limit);
      match r2 {
        case Bad(e) =>
          tuple := tuple.(err := Some(e));
          return;
        case Good(v) =>
          tuple := tuple.(kill := v);
      }
    } else {
      tuple := tuple.(kill := tuple.term / 2.0);
    }
    if tuple.term < tuple.kill {
      tuple := tuple.(term := tuple.kill);
    }
    if tuple.kill == 0.0 && tuple.term == 0.0 {
      tuple := tuple.(err := Some(BothZero));
    }
  }

  /** Accepted limits satisfy 0 <= kill <= term <= limit and are not both zero. */
  lemma MeaningInRange(strtod: StrToD, arg: string, limit: int)
    ensures var t := Meaning(strtod, arg, limit);
            t.Some? ==> 0.0 <= t.value.1 <= t.value.0 <= limit as real && t.value.0 > 0.0
  {
  }

  /** A text that strtod converts completely and without error. */
  predicate Converts(c: Conversion) {
    c.rest == "" && c.errno == 0
  }

  lemma CommaIndexIs(s: string, n: nat)
    requires n <= |s| && ',' !in s[..n] && (n < |s| ==> s[n] == ',')
    ensures CommaIndex(s) == n
  {
  }

  /** "term": accepted exactly when it is at most 255 characters long and a positive number up
      to the limit; then the SIGKILL limit is half of it. */
  lemma MeaningOfOne(strtod: StrToD, arg: string, limit: int)
    requires ',' !in arg
    ensures var c := strtod(arg);
            && (Meaning(strtod, arg, limit).Some? <==>
                  |arg| <= 255 && Converts(c) && 0.0 < c.value <= limit as real)
            && (Meaning(strtod, arg, limit).Some? ==>
                  Meaning(strtod, arg, limit).value.0 == c.value && 2.0 * Meaning(strtod, arg, limit).value.1 == c.value)
  {
    CommaIndexIs(arg, |arg|);
    assert arg[..|arg|] == arg;
  }

  /** "term,kill": accepted exactly when it is at most 255 characters long, both parts are
      numbers from 0 to the limit and not both zero; then the second is the SIGKILL limit and
      the larger of both the SIGTERM limit. */
  lemma MeaningOfTwo(strtod: StrToD, x: string, y: string, limit: int)
    requires ',' !in x
    ensures var c, d, t := strtod(x), strtod(y), Meaning(strtod, x + "," + y, limit);
            && (t.Some? <==>
                  && |x| + |y| <= 254
                  && Converts(c) && 0.0 <= c.value <= limit as real
                  && Converts(d) && 0.0 <= d.value <= limit as real
                  && (c.value > 0.0 || d.value > 0.0))
            && (t.Some? ==>
                  && t.value.1 == d.value
                  && (t.value.0 == c.value || t.value.0 == d.value)
                  && t.value.0 >= c.value && t.value.0 >= d.value)
  {
    var arg := x + "," + y;
    assert arg[..|x|] == x && arg[|x| + 1..] == y;
    CommaIndexIs(arg, |x|);
  }

  /** Which error is reported for "term": length, garbage, conversion, range, zero. */
  lemma ErrorOfOne(strtod: StrToD, arg: string, limit: int)
    requires ',' !in arg
    ensures var c, e := strtod(arg), FirstError(strtod, arg, limit);
            && (e == Some(TooLong) <==> |arg| > 255)
            && (|arg| <= 255 ==>
                  && (e == Some(TrailingGarbage) <==> c.rest != "")
                  && (e == Some(ConversionError) <==> c.rest == "" && c.errno != 0)
                  && (e == Some(ExceedsLimit) <==> Converts(c) && c.value > limit as real)
                  && (e == Some(BelowZero) <==> Converts(c) && c.value <= limit as real && c.value < 0.0)
                  && (e == Some(BothZero) <==> Converts(c) && c.value == 0.0 <= limit as real))
  {
    CommaIndexIs(arg, |arg|);
    assert arg[..|arg|] == arg;
  }

  /** For "term,kill" the first part is checked before the second. */
  lemma ErrorOfTwo(strtod: StrToD, x: string, y: string, limit: int)
    requires ',' !in x && |x| + |y| <= 254
    ensures var e, first, second := FirstError(strtod, x + "," + y, limit), ParsePart(strtod, x, limit), ParsePart(strtod, y, limit);
            && (first.Bad? ==> e == Some(first.err))
            && (first.Good? && second.Bad? ==> e == Some(second.err))
            && (first.Good? && second.Good? ==> (e == Some(BothZero) <==> first.value == second.value == 0.0))
            && (first.Good? && second.Good? ==> (e.None? <==> !(first.value == second.value == 0.0)))
  {
    var arg := x + "," + y;
    assert arg[..|x|] == x && arg[|x| + 1..] == y;
    CommaIndexIs(arg, |x|);
  }

  // ---------------------------------------------------------------------------
  // The option loop
  // ---------------------------------------------------------------------------

  /** One option of the command line; everything that is not a threshold is Other. */
  datatype Opt = MemPercent(arg: string) | SwapPercent(arg: string) | MemSize(arg: string) | SwapSize(arg: string) | Other

  /** The four limits of poll_loop_args_t. */
  datatype Thresholds = Thresholds(memTerm: real, memKill: real, swapTerm: real, swapKill: real)

  const DEFAULTS: Thresholds := Thresholds(10.0, 5.0, 10.0, 5.0)

  /** Largest size accepted by -M or -S, given the total. */
  function SizeLimit(total: nat): int {
    CDiv(total * 100, 99)
  }

  function Limit(o: Opt, memTotal: nat, swapTotal: nat): int {
    match o
    case MemPercent(_) => 99
    case SwapPercent(_) => 100
    case MemSize(_) => SizeLimit(memTotal)
    case SwapSize(_) => SizeLimit(swapTotal)
    case Other => 0
  }

  /** The host the daemon starts on, and its strtod. */
  datatype Host = Host(strtod: StrToD, memTotal: nat, swapTotal: nat)

  function OptMeaning(h: Host, o: Opt): Option<(real, real)> {
    if o.Other? then None else Meaning(h.strtod, o.arg, Limit(o, h.memTotal, h.swapTotal))
  }

  predicate Accepted(h: Host, o: Opt) {
    o.Other? || OptMeaning(h, o).Some?
  }

  datatype Kind = KindM | KindS | KindBigM | KindBigS

  predicate IsKind(o: Opt, k: Kind) {
    match k
    case KindM => o.MemPercent?
    case KindS => o.SwapPercent?
    case KindBigM => o.MemSize?
    case KindBigS => o.SwapSize?
  }

  /** The last option of a kind wins. */
  function LastOf(h: Host, opts: seq<Opt>, k: Kind): Option<(real, real)> {
    if opts == [] then None
    else if IsKind(opts[|opts| - 1], k) then OptMeaning(h, opts[|opts| - 1])
    else LastOf(h, opts[..|opts| - 1], k)
  }

  lemma LastStep(h: Host, opts: seq<Opt>, i: nat)
    requires i < |opts|
    ensures forall k :: LastOf(h, opts[..i + 1], k) ==
                        if IsKind(opts[i], k) then OptMeaning(h, opts[i]) else LastOf(h, opts[..i], k)
  {
    assert opts[..i + 1][..i] == opts[..i];
  }

  function Min(x: real, y: real): real {
    if x < y then x else y
  }

  /** A size in KiB as a percentage of the total. */
  function ToPercent(kib: real, total: nat): real
    requires total > 0
  {
    100.0 * kib / total as real
  }

  /** One pair of limits: percentage option, size option, or the lower of both. */
  function Merge(percent: Option<(real, real)>, size: Option<(real, real)>, total: nat, default: (real, real)): (real, real)
    requires size.Some? ==> total > 0
  {
    if size.None? then (if percent.Some? then percent.value else default)
    else
      var fromSize := (ToPercent(size.value.0, total), ToPercent(size.value.1, total));
      if percent.None? then fromSize
      else (Min(percent.value.0, fromSize.0), Min(percent.value.1, fromSize.1))
  }

  datatype Startup = Fatal(code: int) | Run(limits: Thresholds)

  /** With zero total swap every -S argument is a parse error, whatever it says: the branch
      that would fall back to the default percentages cannot be reached. */
  lemma ZeroTotalRejectsSize(strtod: StrToD, arg: string)
    ensures Meaning(strtod, arg, SizeLimit(0)).None?
  {
    MeaningInRange(strtod, arg, SizeLimit(0));
  }

  lemma {:induction false} SizeNeedsTotal(h: Host, opts: seq<Opt>)
    ensures LastOf(h, opts, KindBigM).Some? ==> h.memTotal > 0
    ensures LastOf(h, opts, KindBigS).Some? ==> h.swapTotal > 0
  {
    if opts != [] {
      var o := opts[|opts| - 1];
      SizeNeedsTotal(h, opts[..|opts| - 1]);
      if o.MemSize? && h.memTotal == 0 {
        ZeroTotalRejectsSize(h.strtod, o.arg);
      }
      if o.SwapSize? && h.swapTotal == 0 {
        ZeroTotalRejectsSize(h.strtod, o.arg);
      }
    }
  }

  /** The limits a command line stands for, once all its arguments are accepted. */
  function Effective(h: Host, opts: seq<Opt>): Thresholds {
    SizeNeedsTotal(h, opts);
    var mem := Merge(LastOf(h, opts, KindM), LastOf(h, opts, KindBigM), h.memTotal, (DEFAULTS.memTerm, DEFAULTS.memKill));
    var swap := Merge(LastOf(h, opts, KindS), LastOf(h, opts, KindBigS), h.swapTotal, (DEFAULTS.swapTerm, DEFAULTS.swapKill));
    Thresholds(mem.0, mem.1, swap.0, swap.1)
  }

  /** The merge of a size option with a percentage option in main. */
  method MergePair(havePercent: bool, haveSize: bool, term: real, kill: real, termKib: real, killKib: real, total: nat)
    returns (newTerm: real, newKill: real)
    requires haveSize ==> total > 0
    ensures (newTerm, newKill) ==
            Merge(if havePercent then Some((term, kill)) else None,
                  if haveSize then Some((termKib, killKib)) else None, total, (term, kill))
  {
    newTerm, newKill := term, kill;
    if haveSize {
      var termPercent, killPercent := ToPercent(termKib, total), ToPercent(killKib, total);
      if havePercent {
        newTerm, newKill := Min(newTerm, termPercent), Min(newKill, killPercent);
      } else {
        newTerm, newKill := termPercent, killPercent;
      }
    }
  }

  /** The threshold options of main: a loop over the options, then the merge of -M with -m and
      of -S with -s. Exits at the first bad argument. */
  method ParseOptions(h: Host, opts: seq<Opt>) returns (r: Startup)
    ensures r.Run? <==> forall i :: 0 <= i < |opts| ==> Accepted(h, opts[i])
    ensures r.Run? ==> r.limits == Effective(h, opts)
    ensures r.Fatal? ==> exists i :: 0 <= i < |opts| && !Accepted(h, opts[i]) && r.code == (if opts[i].MemPercent? || opts[i].MemSize? then 15 else 16)
                                     && forall j :: 0 <= j < i ==> Accepted(h, opts[j])
  {
    var limits := DEFAULTS;
    var haveM, haveBigM, haveS, haveBigS := false, false, false, false;
    var memTermKib, memKillKib, swapTermKib, swapKillKib := 0.0, 0.0, 0.0, 0.0;
    for i := 0 to |opts|
      invariant forall j :: 0 <= j < i ==> Accepted(h, opts[j])
      invariant LastOf(h, opts[..i], KindM) == if haveM then Some((limits.memTerm, limits.memKill)) else None
      invariant LastOf(h, opts[..i], KindS) == if haveS then Some((limits.swapTerm, limits.swapKill)) else None
      invariant LastOf(h, opts[..i], KindBigM) == if haveBigM then Some((memTermKib, memKillKib)) else None
      invariant LastOf(h, opts[..i], KindBigS) == if haveBigS then Some((swapTermKib, swapKillKib)) else None
      invariant !haveM ==> limits.memTerm == DEFAULTS.memTerm && limits.memKill == DEFAULTS.memKill
      invariant !haveS ==> limits.swapTerm == DEFAULTS.swapTerm && limits.swapKill == DEFAULTS.swapKill
    {
      LastStep(h, opts, i);
      match opts[i] {
        case MemPercent(arg) =>
          var tuple := ParseTermKillTuple(h.strtod, arg, 99);
          if tuple.err.Some? {
            return Fatal(15);
          }
          limits := limits.(memTerm := tuple.term, memKill := tuple.kill);
          haveM := true;
        case SwapPercent(arg) =>
          var tuple := ParseTermKillTuple(h.strtod, arg, 100);
          if tuple.err.Some? {
            return Fatal(16);
          }
          limits := limits.(swapTerm := tuple.term, swapKill := tuple.kill);
          haveS := true;
        case MemSize(arg) =>
          var tuple := ParseTermKillTuple(h.strtod, arg, SizeLimit(h.memTotal));
          if tuple.err.Some? {
            return Fatal(15);
          }
          memTermKib, memKillKib, haveBigM := tuple.term, tuple.kill, true;
        case SwapSize(arg) =>
          var tuple := ParseTermKillTuple(h.strtod, arg, SizeLimit(h.swapTotal));
          if tuple.err.Some? {
            return Fatal(16);
          }
          if h.swapTotal == 0 {
            ZeroTotalRejectsSize(h.strtod, arg);
            assert false;
          } else {
            swapTermKib, swapKillKib, haveBigS := tuple.term, tuple.kill, true;
          }
        case Other =>
      }
    }
    assert opts[..|opts|] == opts;
    SizeNeedsTotal(h, opts);
    var memTerm, memKill := MergePair(haveM, haveBigM, limits.memTerm, limits.memKill, memTermKib, memKillKib, h.memTotal);
    var swapTerm, swapKill := MergePair(haveS, haveBigS, limits.swapTerm, limits.swapKill, swapTermKib, swapKillKib, h.swapTotal);
    limits := Thresholds(memTerm, memKill, swapTerm, swapKill);
    return Run(limits);
  }

  // ---------------------------------------------------------------------------
  // What holds of every accepted command line
  // ---------------------------------------------------------------------------

  lemma {:induction false} LastInRange(h: Host, opts: seq<Opt>, k: Kind)
    ensures var t := LastOf(h, opts, k);
            t.Some? ==>
              && 0.0 <= t.value.1 <= t.value.0 && t.value.0 > 0.0
              && (k == KindM ==> t.value.0 <= 99.0)
              && (k == KindS ==> t.value.0 <= 100.0)
              && (k == KindBigM ==> t.value.0 <= SizeLimit(h.memTotal) as real)
              && (k == KindBigS ==> t.value.0 <= SizeLimit(h.swapTotal) as real)
  {
    if opts != [] {
      var o := opts[|opts| - 1];
      LastInRange(h, opts[..|opts| - 1], k);
      if IsKind(o, k) {
        MeaningInRange(h.strtod, o.arg, Limit(o, h.memTotal, h.swapTotal));
      }
    }
  }

  lemma ToPercentMonotone(x: real, y: real, total: nat)
    requires total > 0
    ensures x <= y ==> ToPercent(x, total) <= ToPercent(y, total)
    ensures x > 0.0 ==> ToPercent(x, total) > 0.0
    ensures x >= 0.0 ==> ToPercent(x, total) >= 0.0
  {
    var t := total as real;
    assert ToPercent(y, total) - ToPercent(x, total) == 100.0 * (y - x) / t;
  }

  /** The largest accepted size is at most 10000/99 percent of the total. */
  lemma SizeLimitPercent(total: nat)
    requires total > 0
    ensures ToPercent(SizeLimit(total) as real, total) <= 10000.0 / 99.0
  {
    var t, x := total as real, SizeLimit(total) as real;
    var p := ToPercent(x, total);
    assert SizeLimit(total) * 99 <= total * 100;
    assert x * 99.0 <= t * 100.0;
    assert p * t == 100.0 * x;
    assert (10000.0 - 99.0 * p) * t >= 0.0;
    assert 10000.0 - 99.0 * p < 0.0 ==> (10000.0 - 99.0 * p) * t < 0.0;
  }

  lemma SizePairInRange(size: (real, real), total: nat)
    requires total > 0 && 0.0 <= size.1 <= size.0 <= SizeLimit(total) as real && size.0 > 0.0
    ensures 0.0 <= ToPercent(size.1, total) <= ToPercent(size.0, total) <= 10000.0 / 99.0
    ensures ToPercent(size.0, total) > 0.0
  {
    ToPercentMonotone(size.1, size.0, total);
    ToPercentMonotone(size.0, SizeLimit(total) as real, total);
    SizeLimitPercent(total);
  }

  /** Every command line whose threshold arguments are all accepted, in any order and number:
      0 <= kill <= term and term > 0, for memory and for swap. The memory limit is at most 99 %
      if -m was given and at most 10000/99 % otherwise; the swap limit likewise with 100 %. */
  lemma {:induction false} EffectiveInRange(h: Host, opts: seq<Opt>)
    ensures var t := Effective(h, opts);
            && 0.0 <= t.memKill <= t.memTerm <= 10000.0 / 99.0 && t.memTerm > 0.0
            && 0.0 <= t.swapKill <= t.swapTerm <= 10000.0 / 99.0 && t.swapTerm > 0.0
            && (LastOf(h, opts, KindM).Some? ==> t.memTerm <= 99.0)
            && (LastOf(h, opts, KindS).Some? ==> t.swapTerm <= 100.0)
  {
    LastInRange(h, opts, KindM);
    LastInRange(h, opts, KindS);
    LastInRange(h, opts, KindBigM);
    LastInRange(h, opts, KindBigS);
    SizeNeedsTotal(h, opts);
    var bigM, bigS := LastOf(h, opts, KindBigM), LastOf(h, opts, KindBigS);
    if bigM.Some? {
      SizePairInRange(bigM.value, h.memTotal);
    }
    if bigS.Some? {
      SizePairInRange(bigS.value, h.swapTotal);
    }
  }

  /** Which options were given at all decides which limits are the defaults. */
  lemma {:induction false} LastOfIsSome(h: Host, opts: seq<Opt>, k: Kind)
    requires forall i :: 0 <= i < |opts| ==> Accepted(h, opts[i])
    ensures LastOf(h, opts, k).Some? <==> exists i :: 0 <= i < |opts| && IsKind(opts[i], k)
  {
    if opts != [] {
      var n := |opts| - 1;
      LastOfIsSome(h, opts[..n], k);
      if IsKind(opts[n], k) {
      } else if exists i :: 0 <= i < |opts| && IsKind(opts[i], k) {
        var i :| 0 <= i < |opts| && IsKind(opts[i], k);
        assert opts[..n][i] == opts[i];
      }
    }
  }

  /** How an option without a comma is judged: -m up to 99, -s up to 100, -M and -S up to
      100/99 of the total, rounded down. */
  lemma OneValueAccepted(h: Host, o: Opt)
    requires !o.Other? && ',' !in o.arg && |o.arg| <= 255 && Converts(h.strtod(o.arg))
    ensures var v := h.strtod(o.arg).value;
            match o
            case MemPercent(_) => Accepted(h, o) <==> 0.0 < v <= 99.0
            case SwapPercent(_) => Accepted(h, o) <==> 0.0 < v <= 100.0
            case MemSize(_) => Accepted(h, o) <==> 0.0 < v <= (h.memTotal * 100 / 99) as real
            case SwapSize(_) => Accepted(h, o) <==> 0.0 < v <= (h.swapTotal * 100 / 99) as real
  {
    MeaningOfOne(h.strtod, o.arg, Limit(o, h.memTotal, h.swapTotal));
  }

  /** The last option of each kind counts. */
  lemma {:induction false} LastOfIsLast(h: Host, opts: seq<Opt>, k: Kind, i: nat)
    requires i < |opts| && IsKind(opts[i], k)
    requires forall j :: i < j < |opts| ==> !IsKind(opts[j], k)
    ensures LastOf(h, opts, k) == OptMeaning(h, opts[i])
  {
    var n := |opts| - 1;
    if i < n {
      assert forall j :: 0 <= j < n ==> opts[..n][j] == opts[j];
      LastOfIsLast(h, opts[..n], k, i);
    }
  }

  /** A pair of limits in numbers: 10 and 5 by default, the percentages given, the sizes given
      as shares of the total, or the smaller of both. */
  ghost predicate PairIs(term: real, kill: real, percent: Option<(real, real)>, size: Option<(real, real)>, total: nat) {
    && (percent.None? && size.None? ==> term == 10.0 && kill == 5.0)
    && (percent.Some? && size.None? ==> term == percent.value.0 && kill == percent.value.1)
    && (percent.None? && size.Some? ==>
          term * total as real == 100.0 * size.value.0 && kill * total as real == 100.0 * size.value.1)
    && (percent.Some? && size.Some? ==>
          && term <= percent.value.0 && term * total as real <= 100.0 * size.value.0
          && (term == percent.value.0 || term * total as real == 100.0 * size.value.0)
          && kill <= percent.value.1 && kill * total as real <= 100.0 * size.value.1
          && (kill == percent.value.1 || kill * total as real == 100.0 * size.value.1))
  }

  lemma ShareIff(x: real, kib: real, total: nat)
    requires total > 0
    ensures ToPercent(kib, total) * total as real == 100.0 * kib
    ensures x <= ToPercent(kib, total) <==> x * total as real <= 100.0 * kib
  {
    var p, t := ToPercent(kib, total), total as real;
    assert p * t == 100.0 * kib;
    assert x <= p ==> (p - x) * t >= 0.0;
    assert x > p ==> (x - p) * t > 0.0;
  }

  lemma MergedPairIs(percent: Option<(real, real)>, size: Option<(real, real)>, total: nat)
    requires size.Some? ==> total > 0
    ensures var t := Merge(percent, size, total, (10.0, 5.0));
            PairIs(t.0, t.1, percent, size, total)
  {
    if size.Some? {
      var p := if percent.Some? then percent.value else (0.0, 0.0);
      ShareIff(p.0, size.value.0, total);
      ShareIff(p.1, size.value.1, total);
    }
  }

  /** What a command line stands for, in numbers: -m and -M decide the memory limits, -s and -S
      the swap limits. */
  lemma {:induction false} EffectiveMeans(h: Host, opts: seq<Opt>)
    ensures var t := Effective(h, opts);
            && PairIs(t.memTerm, t.memKill, LastOf(h, opts, KindM), LastOf(h, opts, KindBigM), h.memTotal)
            && PairIs(t.swapTerm, t.swapKill, LastOf(h, opts, KindS), LastOf(h, opts, KindBigS), h.swapTotal)
  {
    SizeNeedsTotal(h, opts);
    MergedPairIs(LastOf(h, opts, KindM), LastOf(h, opts, KindBigM), h.memTotal);
    MergedPairIs(LastOf(h, opts, KindS), LastOf(h, opts, KindBigS), h.swapTotal);
  }

  // ---------------------------------------------------------------------------
  // lowmem_sig
  // ---------------------------------------------------------------------------

  predicate AtOrBelowKill(a: Args, m: MemInfo) {
    m.memAvailablePercent <= a.memKillPercent && m.swapFreePercent <= a.swapKillPercent
  }

  predicate AtOrBelowTerm(a: Args, m: MemInfo) {
    m.memAvailablePercent <= a.memTermPercent && m.swapFreePercent <= a.swapTermPercent
  }

  function LowmemSig(a: Args, m: MemInfo): int {
    if AtOrBelowKill(a, m) then SIGKILL else if AtOrBelowTerm(a, m) then SIGTERM else 0
  }

  function WithLimits(a: Args, t: Thresholds): Args {
    a.(memTermPercent := t.memTerm, memKillPercent := t.memKill,
       swapTermPercent := t.swapTerm, swapKillPercent := t.swapKill)
  }

  /** The signal in numbers: 9 at or below both SIGKILL limits, otherwise 15 at or below both
      SIGTERM limits, otherwise none. */
  lemma LowmemSigIff(a: Args, m: MemInfo)
    ensures LowmemSig(a, m) == 9 <==>
            m.memAvailablePercent <= a.memKillPercent && m.swapFreePercent <= a.swapKillPercent
    ensures LowmemSig(a, m) == 15 <==>
            && (m.memAvailablePercent > a.memKillPercent || m.swapFreePercent > a.swapKillPercent)
            && m.memAvailablePercent <= a.memTermPercent && m.swapFreePercent <= a.swapTermPercent
    ensures LowmemSig(a, m) == 9 || LowmemSig(a, m) == 15 || LowmemSig(a, m) == 0
  {
  }

  /** With the limits of any command line, the SIGKILL region lies inside the SIGTERM region:
      a signal is due exactly at or below both SIGTERM limits, and getting worse on both
      resources never weakens it. */
  lemma {:induction false} LowmemRegionsNest(h: Host, opts: seq<Opt>, a: Args, m: MemInfo, worse: MemInfo)
    requires worse.memAvailablePercent <= m.memAvailablePercent && worse.swapFreePercent <= m.swapFreePercent
    ensures var t := Effective(h, opts);
            var b := WithLimits(a, t);
            && (LowmemSig(b, m) != 0 <==> m.memAvailablePercent <= t.memTerm && m.swapFreePercent <= t.swapTerm)
            && (LowmemSig(b, m) == 9 <==> m.memAvailablePercent <= t.memKill && m.swapFreePercent <= t.swapKill)
            && (LowmemSig(b, m) != 0 ==> LowmemSig(b, worse) != 0)
            && (LowmemSig(b, m) == 9 ==> LowmemSig(b, worse) == 9)
  {
    EffectiveInRange(h, opts);
  }

  /** "If you pass both, the lower value is used": a reading is low for the merged limits
      exactly when it is low for the percentage option and for the size option. */
  lemma {:induction false} MergeIsLower(percent: (real, real), size: (real, real), total: nat, default: (real, real), reading: real)
    requires total > 0
    ensures var t := Merge(Some(percent), Some(size), total, default);
            && (reading <= t.0 <==> reading <= percent.0 && reading <= ToPercent(size.0, total))
            && (reading <= t.1 <==> reading <= percent.1 && reading <= ToPercent(size.1, total))
  {
  }
}
