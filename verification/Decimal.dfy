/** Decimal text as libc reads it (strtol, strtoll, sscanf) and as the kernel prints it. */
module Decimal {

  predicate IsDigit(c: char) {
    '0' <= c <= '9'
  }

  /** isspace in the C locale */
  predicate IsSpace(c: char) {
    c == ' ' || c == '\t' || c == '\n' || c == '\U{0B}' || c == '\U{0C}' || c == '\r'
  }

  predicate AllDigits(s: string) {
    forall i :: 0 <= i < |s| ==> IsDigit(s[i])
  }

  predicate AllSpace(s: string) {
    forall i :: 0 <= i < |s| ==> IsSpace(s[i])
  }

  function DigitValue(c: char): nat
    requires IsDigit(c)
  {
    c as int - '0' as int
  }

  /** The number a run of digits denotes. */
  function Value(ds: string): nat
    requires AllDigits(ds)
  {
    if ds == [] then 0 else 10 * Value(ds[..|ds| - 1]) + DigitValue(ds[|ds| - 1])
  }

  /** printf("%u") */
  function Print(n: nat): (s: string)
    ensures s != [] && AllDigits(s)
  {
    if n < 10 then [('0' as int + n) as char] else Print(n / 10) + [('0' as int + n % 10) as char]
  }

  lemma {:induction false} PrintedValue(n: nat)
    ensures Value(Print(n)) == n
  {
    var s := Print(n);
    if n < 10 {
      assert s[..|s| - 1] == [];
    } else {
      PrintedValue(n / 10);
      assert s[..|s| - 1] == Print(n / 10);
    }
  }

  /** printf("%d") */
  function PrintInt(n: int): (s: string)
    ensures s != [] && forall i :: 0 <= i < |s| ==> IsDigit(s[i]) || s[i] == '-'
  {
    if n < 0 then "-" + Print(-n) else Print(n)
  }

  /** Length of the longest prefix of s made of white space. */
  function SpaceRun(s: string): (n: nat)
    ensures n <= |s|
  {
    if s == [] || !IsSpace(s[0]) then 0 else 1 + SpaceRun(s[1..])
  }

  /** Length of the longest prefix of s made of digits. */
  function DigitRun(s: string): (n: nat)
    ensures n <= |s| && AllDigits(s[..n])
  {
    if s == [] || !IsDigit(s[0]) then 0 else 1 + DigitRun(s[1..])
  }

  const LONG_MAX: int := 0x7FFF_FFFF_FFFF_FFFF
  const LONG_MIN: int := -0x8000_0000_0000_0000

  predicate FitsLong(v: int) {
    LONG_MIN <= v <= LONG_MAX
  }

  predicate FitsInt(v: int) {
    -0x8000_0000 <= v <= 0x7FFF_FFFF
  }

  /** strtol saturates. */
  function ToLong(v: int): (r: int)
    ensures FitsLong(r)
    ensures r == v <==> FitsLong(v)
    ensures v < r ==> r == -0x8000_0000_0000_0000
    ensures v > r ==> r == 0x7FFF_FFFF_FFFF_FFFF
  {
    if v > LONG_MAX then LONG_MAX else if v < LONG_MIN then LONG_MIN else v
  }

  /** (int)strtol(...): the cast keeps the low 32 bits. */
  function ToInt(v: int): (r: int)
    ensures FitsInt(r)
    ensures r == v <==> FitsInt(v)
  {
    var low := ToLong(v) % 0x1_0000_0000;
    if low >= 0x8000_0000 then low - 0x1_0000_0000 else low
  }

  lemma ToIntKeepsLowBits(v: int)
    ensures (ToLong(v) - ToInt(v)) % 0x1_0000_0000 == 0
  {
  }

  /** What strtoll or one integer conversion of sscanf does to its input. */
  datatype Scanned = NoNumber | Number(value: int, rest: string)

  /** Digits only, after white space and sign are gone. */
  function ScanDigits(s: string, negative: bool): Scanned {
    var n := DigitRun(s);
    if n == 0 then NoNumber
    else
      var v: int := Value(s[..n]);
      Number(if negative then -v else v, s[n..])
  }

  /** Optional white space, optional sign, at least one digit. */
  function ScanInt(s: string): Scanned {
    var t := s[SpaceRun(s)..];
    if t != [] && (t[0] == '-' || t[0] == '+') then ScanDigits(t[1..], t[0] == '-')
    else ScanDigits(t, false)
  }

  lemma {:induction false} SpaceRunExact(ws: string, rest: string)
    requires AllSpace(ws) && (rest == [] || !IsSpace(rest[0]))
    ensures SpaceRun(ws + rest) == |ws|
  {
    if ws == [] {
      assert ws + rest == rest;
    } else {
      assert (ws + rest)[1..] == ws[1..] + rest;
      SpaceRunExact(ws[1..], rest);
    }
  }

  lemma {:induction false} DigitRunExact(ds: string, rest: string)
    requires AllDigits(ds) && (rest == [] || !IsDigit(rest[0]))
    ensures DigitRun(ds + rest) == |ds|
  {
    if ds == [] {
      assert ds + rest == rest;
    } else {
      assert (ds + rest)[1..] == ds[1..] + rest;
      DigitRunExact(ds[1..], rest);
    }
  }

  lemma {:induction false} ScanDigitString(ds: string, rest: string, negative: bool)
    requires AllDigits(ds) && ds != []
    requires rest == [] || !IsDigit(rest[0])
    ensures ScanDigits(ds + rest, negative)
         == Number(if negative then -(Value(ds) as int) else Value(ds), rest)
  {
    DigitRunExact(ds, rest);
    assert (ds + rest)[..|ds|] == ds;
    assert (ds + rest)[|ds|..] == rest;
  }

  lemma {:induction false} ScanUnsigned(ds: string, rest: string)
    requires AllDigits(ds) && ds != []
    requires rest == [] || !IsDigit(rest[0])
    ensures ScanInt(ds + rest) == Number(Value(ds), rest)
  {
    var body := ds + rest;
    assert IsDigit(body[0]);
    assert body[SpaceRun(body)..] == body;
    ScanDigitString(ds, rest, false);
  }

  lemma {:induction false} ScanNegative(ds: string, rest: string)
    requires AllDigits(ds) && ds != []
    requires rest == [] || !IsDigit(rest[0])
    ensures ScanInt("-" + ds + rest) == Number(-(Value(ds) as int), rest)
  {
    var body := "-" + ds + rest;
    assert body[0] == '-';
    assert body[SpaceRun(body)..] == body;
    assert body[1..] == ds + rest;
    ScanDigitString(ds, rest, true);
  }

  lemma {:induction false} ScanPrintedBare(n: int, rest: string)
    requires rest == [] || !IsDigit(rest[0])
    ensures ScanInt(PrintInt(n) + rest) == Number(n, rest)
  {
    if n < 0 {
      ScanNegative(Print(-n), rest);
      PrintedValue(-n);
    } else {
      ScanUnsigned(Print(n), rest);
      PrintedValue(n);
    }
  }

  /** Leading white space is invisible to ScanInt. */
  lemma {:induction false} ScanSkipsSpace(ws: string, s: string)
    requires AllSpace(ws) && (s == [] || !IsSpace(s[0]))
    ensures ScanInt(ws + s) == ScanInt(s)
  {
    SpaceRunExact(ws, s);
    assert (ws + s)[|ws|..] == s;
    assert s[SpaceRun(s)..] == s;
  }

  /** Printing a number and scanning it back recovers it and leaves exactly what followed. */
  lemma {:induction false} ScanPrinted(ws: string, n: int, rest: string)
    requires AllSpace(ws) && (rest == [] || !IsDigit(rest[0]))
    ensures ScanInt(ws + PrintInt(n) + rest) == Number(n, rest)
  {
    var body := PrintInt(n) + rest;
    assert ws + PrintInt(n) + rest == ws + body;
    assert body[0] == PrintInt(n)[0];
    ScanSkipsSpace(ws, body);
    ScanPrintedBare(n, rest);
  }
}
