/** fix_truncated_utf8 (msg.c): repairing a UTF-8 string that was cut at an arbitrary byte,
    checked against the byte-sequence grammar of section 4 of RFC 3629. */
module Utf8 {

  type Byte = bv8
  type Bytes = seq<Byte>

  // ---------------------------------------------------------------------------
  // The grammar
  // ---------------------------------------------------------------------------

  /** UTF8-tail */
  predicate Tail(b: Byte) {
    0x80 <= b <= 0xBF
  }

  /** Second byte of a three-byte sequence, given the first. */
  predicate Second3(b0: Byte, b1: Byte) {
    if b0 == 0xE0 then 0xA0 <= b1 <= 0xBF
    else if b0 == 0xED then 0x80 <= b1 <= 0x9F
    else Tail(b1)
  }

  /** Second byte of a four-byte sequence, given the first. */
  predicate Second4(b0: Byte, b1: Byte) {
    if b0 == 0xF0 then 0x90 <= b1 <= 0xBF
    else if b0 == 0xF4 then 0x80 <= b1 <= 0x8F
    else Tail(b1)
  }

  /** Length of the UTF8-char that s starts with, 0 if there is none. */
  function CharLen(s: Bytes): (k: nat)
    ensures k <= 4 && k <= |s|
  {
    if |s| >= 1 && s[0] <= 0x7F then 1
    else if |s| >= 2 && 0xC2 <= s[0] <= 0xDF && Tail(s[1]) then 2
    else if |s| >= 3 && 0xE0 <= s[0] <= 0xEF && Second3(s[0], s[1]) && Tail(s[2]) then 3
    else if |s| >= 4 && 0xF0 <= s[0] <= 0xF4 && Second4(s[0], s[1]) && Tail(s[2]) && Tail(s[3]) then 4
    else 0
  }

  /** UTF8-octets = *( UTF8-char ) */
  predicate Valid(s: Bytes) {
    s == [] || (CharLen(s) > 0 && Valid(s[CharLen(s)..]))
  }

  /** p is the longest valid prefix of t. */
  ghost predicate LongestValidPrefix(p: Bytes, t: Bytes) {
    && p <= t
    && Valid(p)
    && forall n :: |p| < n <= |t| ==> !Valid(t[..n])
  }

  // ---------------------------------------------------------------------------
  // The code
  // ---------------------------------------------------------------------------

  /** How many bytes fix_truncated_utf8 cuts off the string s. */
  function CutLength(s: Bytes): (n: nat)
    ensures n <= |s|
  {
    if |s| < 3 then 0
    else
      var b := s[|s| - 3..];
      if b[2] & 0x80 == 0 then 0
      else if b[2] & 0x40 != 0 then 1
      else if b[1] & 0xE0 == 0xE0 then 2
      else if b[0] & 0xF0 == 0xF0 then 3
      else 0
  }

  function Fixed(s: Bytes): Bytes {
    s[..|s| - CutLength(s)]
  }

  /** strlen: index of the first NUL */
  function StrLen(s: Bytes): (n: nat)
    requires 0 in s
    ensures n < |s| && s[n] == 0 && 0 !in s[..n]
  {
    if s[0] == 0 then 0 else 1 + StrLen(s[1..])
  }

  /** The C string stored in a buffer. */
  function CString(s: Bytes): Bytes
    requires 0 in s
  {
    s[..StrLen(s)]
  }

  lemma {:induction false} StrLenIs(s: Bytes, n: nat)
    requires n < |s| && s[n] == 0 && 0 !in s[..n]
    ensures 0 in s && StrLen(s) == n
  {
  }

  /** fix_truncated_utf8: writes at most one NUL into the buffer. */
  method FixTruncatedUtf8(str: array<Byte>)
    requires 0 in str[..]
    modifies str
    ensures 0 in str[..]
    ensures CString(str[..]) == Fixed(old(CString(str[..])))
    ensures forall i :: 0 <= i < str.Length && i != |CString(str[..])| ==> str[i] == old(str[i])
  {
    ghost var before := str[..];
    var len := StrLen(str[..]);
    if len < 3 {
      return;
    }
    var b := len - 3;
    if str[b + 2] & 0x80 == 0 {
      return;
    }
    ghost var cut := len;
    if str[b + 2] & 0x40 != 0 {
      cut := b + 2;
      str[b + 2] := 0;
    } else if str[b + 1] & 0xE0 == 0xE0 {
      cut := b + 1;
      str[b + 1] := 0;
    } else if str[b] & 0xF0 == 0xF0 {
      cut := b;
      str[b] := 0;
    }
    assert str[..][..cut] == before[..cut];
    assert 0 !in before[..cut] by { assert before[..cut] <= before[..len]; }
    StrLenIs(str[..], cut);
    assert before[..len][b..] == before[b..len];
  }

  // ---------------------------------------------------------------------------
  // Parsing facts
  // ---------------------------------------------------------------------------

  /** The masks of the code as byte ranges. */
  lemma MaskRanges(b: Byte)
    ensures b & 0x80 == 0 <==> b <= 0x7F
    ensures b > 0x7F ==> (b & 0x40 != 0 <==> b >= 0xC0)
    ensures b & 0xE0 == 0xE0 <==> b >= 0xE0
    ensures b & 0xF0 == 0xF0 <==> b >= 0xF0
  {
  }

  /** CutLength in terms of the last three bytes and their ranges. */
  function CutBy(b0: Byte, b1: Byte, b2: Byte): nat {
    if b2 <= 0x7F then 0 else if b2 >= 0xC0 then 1 else if b1 >= 0xE0 then 2 else if b0 >= 0xF0 then 3 else 0
  }

  lemma CutLengthByRange(s: Bytes)
    requires |s| >= 3
    ensures CutLength(s) == CutBy(s[|s| - 3], s[|s| - 2], s[|s| - 1])
  {
    MaskRanges(s[|s| - 3]);
    MaskRanges(s[|s| - 2]);
    MaskRanges(s[|s| - 1]);
  }

  /** A character is decided by its own bytes alone. */
  lemma CharLenLocal(s: Bytes, t: Bytes)
    requires CharLen(s) > 0 && CharLen(s) <= |t| && t[..CharLen(s)] == s[..CharLen(s)]
    ensures CharLen(t) == CharLen(s)
  {
    var k := CharLen(s);
    assert forall i :: 0 <= i < k ==> t[i] == t[..k][i] == s[..k][i] == s[i];
  }

  /** A proper prefix of a character is not a character. */
  lemma CharLenPrefix(s: Bytes, n: nat)
    requires n <= |s| && CharLen(s[..n]) > 0
    ensures CharLen(s) == CharLen(s[..n])
  {
    var k := CharLen(s[..n]);
    assert s[..n][..k] == s[..k];
    CharLenLocal(s[..n], s);
  }

  /** The first character of s followed by a valid string is valid. */
  lemma {:induction false} PrependChar(s: Bytes, m: nat)
    requires 0 < CharLen(s) <= m <= |s| && Valid(s[CharLen(s)..][..m - CharLen(s)])
    ensures Valid(s[..m])
  {
    var k := CharLen(s);
    assert s[..m][..k] == s[..k];
    CharLenLocal(s, s[..m]);
    assert s[..m][k..] == s[k..][..m - k];
  }

  /** Removing a valid prefix from a valid string leaves a valid string. */
  lemma {:induction false} ValidSuffix(s: Bytes, m: nat)
    requires m <= |s| && Valid(s) && Valid(s[..m])
    ensures Valid(s[m..])
    decreases |s|
  {
    if m == 0 {
      assert s[m..] == s;
    } else {
      var k := CharLen(s[..m]);
      CharLenPrefix(s, m);
      assert s[..m][k..] == s[k..][..m - k];
      ValidSuffix(s[k..], m - k);
      assert s[k..][m - k..] == s[m..];
    }
  }

  /** Start of the character that a cut at n falls into (n itself at a boundary). */
  function Boundary(s: Bytes, n: nat): (m: nat)
    requires n <= |s| && Valid(s)
    ensures m <= n
    decreases |s|
  {
    if s == [] || n < CharLen(s) then 0
    else CharLen(s) + Boundary(s[CharLen(s)..], n - CharLen(s))
  }

  /** m is a character boundary, and the cut at n falls inside the next character or on m. */
  ghost predicate Splits(s: Bytes, n: nat, m: nat) {
    && m <= n <= |s|
    && Valid(s[..m])
    && Valid(s[m..])
    && (m < n ==> n - m < CharLen(s[m..]))
  }

  lemma {:induction false} SplitsAfterChar(s: Bytes, n: nat, m: nat)
    requires 0 < CharLen(s) <= n <= |s|
    requires Splits(s[CharLen(s)..], n - CharLen(s), m)
    ensures Splits(s, n, CharLen(s) + m)
  {
    var k := CharLen(s);
    assert s[k..][m..] == s[k + m..];
    PrependChar(s, k + m);
  }

  lemma {:induction false} BoundarySplits(s: Bytes, n: nat)
    requires n <= |s| && Valid(s)
    ensures Splits(s, n, Boundary(s, n))
    decreases |s|
  {
    if s == [] || n < CharLen(s) {
      assert s[..0] == [] && s[0..] == s;
    } else {
      BoundarySplits(s[CharLen(s)..], n - CharLen(s));
      SplitsAfterChar(s, n, Boundary(s[CharLen(s)..], n - CharLen(s)));
    }
  }

  /** The boundary at or before the cut is where the longest valid prefix ends. */
  lemma {:induction false} BoundaryIsLongest(s: Bytes, n: nat)
    requires n <= |s| && Valid(s)
    ensures LongestValidPrefix(s[..Boundary(s, n)], s[..n])
  {
    var m := Boundary(s, n);
    BoundarySplits(s, n);
    forall q | m < q <= n
      ensures !Valid(s[..n][..q])
    {
      assert s[..n][..q] == s[..q];
      if Valid(s[..q]) {
        assert s[..q][..m] == s[..m];
        assert s[..q][m..] == s[m..][..q - m];
        ValidSuffix(s[..q], m);
        assert false;
      }
    }
  }

  /** A valid, non-empty string ends in an ASCII byte, or in a lead byte followed by tails. */
  lemma {:induction false} LastChar(s: Bytes) returns (k: nat)
    requires Valid(s) && s != []
    ensures 0 < k <= |s| && CharLen(s[|s| - k..]) == k && Valid(s[..|s| - k])
    decreases |s|
  {
    var c := CharLen(s);
    if c == |s| {
      k := c;
      assert s[|s| - k..] == s && s[..|s| - k] == [];
    } else {
      k := LastChar(s[c..]);
      assert s[c..][|s| - c - k..] == s[|s| - k..];
      PrependChar(s, |s| - k);
    }
  }

  /** The last byte of a valid string is never a lead byte of a longer sequence. */
  lemma {:induction false} LastByte(s: Bytes)
    requires Valid(s) && s != []
    ensures s[|s| - 1] <= 0xBF
  {
    var k := LastChar(s);
    assert s[|s| - 1] == s[|s| - k..][k - 1];
  }

  // ---------------------------------------------------------------------------
  // What fix_truncated_utf8 does to a cut string
  // ---------------------------------------------------------------------------

  /** The last bytes of a complete character, as CutBy sees them. */
  lemma {:induction false} CompleteCharUncut(b0: Byte, b1: Byte, b2: Byte, c: Bytes)
    requires 0 < |c| == CharLen(c)
    requires b2 == c[|c| - 1] && (|c| >= 2 ==> b1 == c[|c| - 2])
    requires if |c| >= 3 then b0 == c[|c| - 3] else |c| == 2 ==> b0 <= 0xBF
    ensures CutBy(b0, b1, b2) == 0
  {
  }

  /** The last character of a valid string of at least three bytes, and what is before it. */
  lemma {:induction false} LastCharInside(s: Bytes) returns (k: nat)
    requires Valid(s) && |s| >= 3
    ensures 0 < k <= |s| && CharLen(s[|s| - k..]) == k
    ensures k == 2 ==> s[|s| - 3] <= 0xBF
  {
    k := LastChar(s);
    if k == 2 {
      LastByte(s[..|s| - 2]);
    }
  }

  /** Nothing is cut from a valid string. */
  lemma {:induction false} ValidUncut(s: Bytes)
    requires Valid(s)
    ensures CutLength(s) == 0
  {
    if |s| >= 3 {
      var k := LastCharInside(s);
      TailBytes(s, k);
      CutLengthByRange(s);
      CompleteCharUncut(s[|s| - 3], s[|s| - 2], s[|s| - 1], s[|s| - k..]);
    }
  }

  lemma TailBytes(s: Bytes, k: nat)
    requires 0 < k <= |s|
    ensures var n, c := |s|, s[|s| - k..];
            && |c| == k && c[k - 1] == s[n - 1]
            && (k >= 2 ==> c[k - 2] == s[n - 2])
            && (k >= 3 ==> c[k - 3] == s[n - 3])
  {
  }

  /** A character cut short after n - m of its bytes is removed entirely. */
  lemma {:induction false} CutCharRemoved(s: Bytes, m: nat, n: nat)
    requires 3 <= n <= |s| && m < n
    requires n - m < CharLen(s[m..])
    ensures CutLength(s[..n]) == n - m
  {
    var c := s[m..];
    CutLengthByRange(s[..n]);
    assert c[0] == s[m] && c[n - m - 1] == s[n - 1];
    assert n - m == 3 ==> c[1] == s[m + 1];
  }

  /** Identity on valid strings. */
  lemma {:induction false} FixedKeepsValid(s: Bytes)
    requires Valid(s)
    ensures Fixed(s) == s
  {
    ValidUncut(s);
    assert s[..|s|] == s;
  }

  /** With at least three bytes left, repairing goes back to the last character boundary. */
  lemma {:induction false} FixedIsBoundary(s: Bytes, n: nat)
    requires Valid(s) && 3 <= n <= |s|
    ensures Fixed(s[..n]) == s[..Boundary(s, n)]
  {
    var m := Boundary(s, n);
    BoundarySplits(s, n);
    if m == n {
      FixedKeepsValid(s[..n]);
    } else {
      CutCharRemoved(s, m, n);
      assert s[..n][..m] == s[..m];
    }
  }

  /** For every valid string s and every cut at n bytes, the repaired prefix is exactly the
      longest valid prefix of what was left, if and only if at least three bytes were left or
      nothing was broken. */
  lemma {:induction false} FixedIsLongestIff(s: Bytes, n: nat)
    requires Valid(s) && n <= |s|
    ensures LongestValidPrefix(Fixed(s[..n]), s[..n]) <==> n >= 3 || Valid(s[..n])
  {
    if n >= 3 {
      FixedIsBoundary(s, n);
      BoundaryIsLongest(s, n);
    } else {
      ShortUnchanged(s[..n]);
    }
  }

  lemma {:induction false} ShortUnchanged(t: Bytes)
    requires |t| < 3
    ensures Fixed(t) == t
    ensures LongestValidPrefix(t, t) <==> Valid(t)
  {
    assert t[..|t|] == t;
  }

  /** On every cut of a valid string: identity if it is valid, and repairing twice is
      repairing once. */
  lemma {:induction false} FixedIdempotent(s: Bytes, n: nat)
    requires Valid(s) && n <= |s|
    ensures Valid(s[..n]) ==> Fixed(s[..n]) == s[..n]
    ensures Fixed(Fixed(s[..n])) == Fixed(s[..n])
  {
    if n >= 3 {
      FixedIsBoundary(s, n);
      BoundarySplits(s, n);
      FixedKeepsValid(s[..Boundary(s, n)]);
    } else {
      ShortUnchanged(s[..n]);
    }
    if Valid(s[..n]) {
      FixedKeepsValid(s[..n]);
    }
  }

  /** On arbitrary bytes repairing twice is repairing once if and only if nothing was cut, too
      little is left to look at, or what is left ends in no broken character. */
  lemma {:induction false} FixedTwiceIff(t: Bytes)
    ensures Fixed(Fixed(t)) == Fixed(t) <==>
            CutLength(t) == 0 || |t| - CutLength(t) < 3 || Clean(t[|t| - CutLength(t) - 3..|t| - CutLength(t)])
  {
    var p := Fixed(t);
    if CutLength(t) == 0 {
      assert p == t;
    } else if |p| >= 3 {
      assert p[|p| - 3..] == t[|p| - 3..|p|];
    }
    assert Fixed(p) == p <==> CutLength(p) == 0 by { assert p[..|p|] == p; }
  }

  /** Three bytes that end in ASCII, or in a continuation byte of a character that is complete
      as far as the lead bytes among them tell. */
  predicate Clean(b: Bytes)
    requires |b| == 3
  {
    || b[2] < 0x80
    || (Tail(b[2]) && b[1] < 0xE0 && b[0] < 0xF0)
  }

  /** Four lead bytes in a row: each call cuts one. */
  lemma {:induction false} FixedNotIdempotent()
    ensures var t: Bytes := [0xC3, 0xC3, 0xC3, 0xC3];
            Fixed(t) == t[..3] && Fixed(Fixed(t)) == t[..2]
  {
    var t: Bytes := [0xC3, 0xC3, 0xC3, 0xC3];
    assert t[1..] == [0xC3, 0xC3, 0xC3];
    assert Fixed(t) == t[..3] == [0xC3, 0xC3, 0xC3];
    assert t[..3][0..] == [0xC3, 0xC3, 0xC3];
  }
}
