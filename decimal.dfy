/**
 * Decimal text of integers, as Python's str() writes them into the reference
 * CSV files, and the two ways the scorer reads that text back: a joint key is
 * matched by exact string equality, a coordinate is read as int(float(text)).
 */
module Decimal {
  import opened Wrappers

  predicate IsDigit(c: char) { '0' <= c <= '9' }

  /** Every character of s is a digit (stated recursively, last character first). */
  predicate AllDigits(s: string)
    decreases |s|
  {
    s == [] || (AllDigits(s[..|s| - 1]) && IsDigit(s[|s| - 1]))
  }

  lemma {:induction false} AllDigitsAppend(s: string, c: char)
    requires AllDigits(s) && IsDigit(c)
    ensures AllDigits(s + [c])
  {
    assert (s + [c])[..|s|] == s;
  }

  lemma {:induction false} AllDigitsFirst(s: string)
    requires |s| > 0 && AllDigits(s)
    ensures IsDigit(s[0])
    decreases |s|
  {
    if |s| > 1 {
      AllDigitsFirst(s[..|s| - 1]);
    }
  }

  function DigitValue(c: char): (d: nat)
    requires IsDigit(c)
    ensures d < 10
  {
    (c as int) - ('0' as int)
  }

  function DigitChar(d: nat): (c: char)
    requires d < 10
    ensures IsDigit(c) && DigitValue(c) == d
  {
    (('0' as int) + d) as char
  }

  /** str(n) for a non-negative int: most significant digit first, no leading zeros. */
  function NatToString(n: nat): (s: string)
    ensures |s| > 0 && AllDigits(s)
    decreases n
  {
    if n < 10 then
      assert [DigitChar(n)][..0] == [];
      [DigitChar(n)]
    else
      AllDigitsAppend(NatToString(n / 10), DigitChar(n % 10));
      NatToString(n / 10) + [DigitChar(n % 10)]
  }

  /** str(i) for any int: a minus sign before the digits of |i| when i < 0. */
  function IntToString(i: int): (s: string)
    ensures |s| > 0
    ensures s[0] == '-' <==> i < 0
    ensures i >= 0 ==> AllDigits(s)
  {
    AllDigitsFirst(NatToString(if i < 0 then -i else i));
    if i < 0 then "-" + NatToString(-i) else NatToString(i)
  }

  /** Value of a digit string (the empty string reads as 0). */
  function DigitsValue(s: string): nat
    requires AllDigits(s)
    decreases |s|
  {
    if s == [] then 0 else 10 * DigitsValue(s[..|s| - 1]) + DigitValue(s[|s| - 1])
  }

  /** Text that str() produces for some non-negative int. */
  predicate IsCanonical(s: string) {
    |s| > 0 && AllDigits(s) && (s[0] == '0' ==> |s| == 1)
  }

  /**
   * The joint a key cell names. The source keeps joint keys as the strings
   * str(0) .. str(17) and looks a cell up by string equality, so a cell names
   * joint n exactly when it is the canonical text of n (see ParseKeyExact).
   */
  function ParseKey(s: string): (r: Option<nat>)
    ensures r.Some? <==> IsCanonical(s)
  {
    if IsCanonical(s) then Some(DigitsValue(s)) else None
  }

  lemma {:induction false} LeadingDigitNonzero(s: string)
    requires |s| > 0 && AllDigits(s) && s[0] != '0'
    ensures DigitsValue(s) >= 1
    decreases |s|
  {
    if |s| > 1 {
      LeadingDigitNonzero(s[..|s| - 1]);
    }
  }

  lemma {:induction false} NatToStringCanonical(n: nat)
    ensures IsCanonical(NatToString(n))
    ensures DigitsValue(NatToString(n)) == n
    decreases n
  {
    var s := NatToString(n);
    if n >= 10 {
      NatToStringCanonical(n / 10);
      var t := NatToString(n / 10);
      assert s == t + [DigitChar(n % 10)];
      assert s[..|s| - 1] == t;
      assert t[0] != '0';
    }
  }

  lemma {:induction false} CanonicalIsNatToString(s: string)
    requires IsCanonical(s)
    ensures NatToString(DigitsValue(s)) == s
    decreases |s|
  {
    var v := DigitsValue(s);
    var last := s[|s| - 1];
    if |s| == 1 {
      assert s[..0] == [];
      assert DigitsValue(s[..0]) == 0;
      assert v == DigitValue(last);
      assert DigitChar(v) == last;
    } else {
      var t := s[..|s| - 1];
      assert t[0] == s[0];
      assert IsCanonical(t);
      CanonicalIsNatToString(t);
      LeadingDigitNonzero(t);
      assert v == 10 * DigitsValue(t) + DigitValue(last);
      assert v / 10 == DigitsValue(t) && v % 10 == DigitValue(last);
      assert DigitChar(v % 10) == last;
      assert s == t + [last];
    }
  }

  /** Reading back the key written for joint n names joint n. */
  lemma KeyTextRoundTrip(n: nat)
    ensures ParseKey(NatToString(n)) == Some(n)
  {
    NatToStringCanonical(n);
  }

  /** A key cell names joint n exactly when it equals str(n). */
  lemma ParseKeyExact(s: string, n: nat)
    ensures ParseKey(s) == Some(n) <==> s == NatToString(n)
  {
    if ParseKey(s) == Some(n) {
      CanonicalIsNatToString(s);
    }
    if s == NatToString(n) {
      KeyTextRoundTrip(n);
    }
  }

  /** Every key cell names at most one joint n, the one whose str(n) it equals. */
  lemma KeyTextNames(s: string)
    ensures forall n: nat :: ParseKey(s) == Some(n) <==> s == NatToString(n)
  {
    forall n: nat ensures ParseKey(s) == Some(n) <==> s == NatToString(n) {
      ParseKeyExact(s, n);
    }
  }

  /** Index of the first '.' in s, or |s| when there is none. */
  function DotIndex(s: string): (k: nat)
    ensures k <= |s|
    decreases |s|
  {
    if s == [] then 0
    else
      var k := DotIndex(s[..|s| - 1]);
      if k < |s| - 1 then k else if s[|s| - 1] == '.' then |s| - 1 else |s|
  }

  lemma {:induction false} DotIndexOfDigits(s: string)
    requires AllDigits(s)
    ensures DotIndex(s) == |s|
    decreases |s|
  {
    if s != [] {
      DotIndexOfDigits(s[..|s| - 1]);
    }
  }

  /** int(float(s)) of unsigned float text: digits, optionally '.' and more digits. */
  function ParseUnsignedTruncated(s: string): (r: Option<nat>)
    ensures r.Some? ==> AllDigits(s[..DotIndex(s)]) && r.value == DigitsValue(s[..DotIndex(s)])
  {
    var k := DotIndex(s);
    var whole := s[..k];
    var fraction := if k < |s| then s[k + 1..] else [];
    if AllDigits(whole) && AllDigits(fraction) && |whole| + |fraction| > 0
    then Some(DigitsValue(whole))
    else None
  }

  /**
   * int(float(s)): an optional sign, then unsigned float text. The fraction is
   * dropped, which is truncation toward zero, as int() does: the magnitude of
   * the result is the value of the digits before the '.', and the result is
   * negative only after a '-' and never positive after one.
   */
  function ParseTruncated(s: string): (r: Option<int>)
    ensures r.Some? ==> |s| > 0 && (r.value < 0 ==> s[0] == '-')
    ensures r.Some? && s[0] == '-' ==> r.value <= 0
    ensures r.Some? ==>
              var u := if s[0] == '-' || s[0] == '+' then s[1..] else s;
              && AllDigits(u[..DotIndex(u)])
              && (if r.value < 0 then -r.value else r.value) == DigitsValue(u[..DotIndex(u)])
  {
    if |s| > 0 && (s[0] == '-' || s[0] == '+') then
      match ParseUnsignedTruncated(s[1..])
      case None => None
      case Some(v) => var w: int := v; Some(if s[0] == '-' then -w else w)
    else
      match ParseUnsignedTruncated(s)
      case None => None
      case Some(v) => Some(v)
  }

  lemma UnsignedRoundTrip(n: nat, suffix: string)
    requires suffix == [] || suffix == ".0"
    ensures ParseUnsignedTruncated(NatToString(n) + suffix) == Some(n)
  {
    var d := NatToString(n);
    var s := d + suffix;
    NatToStringCanonical(n);
    DotIndexOfDigits(d);
    if suffix == [] {
      assert s == d;
    } else {
      assert s[..|d| + 1] == d + ".";
      assert (d + ".")[..|d|] == d;
      assert s[..|s| - 1] == d + ".";
      assert DotIndex(d + ".") == |d|;
      assert s[|d| + 1..] == "0";
      assert "0"[..0] == [];
    }
    assert s[..|d|] == d;
  }

  /**
   * Reading back what str(i) wrote gives i; the same holds for the text a
   * float with no fraction is written as, such as "12.0" and "-1.0".
   */
  lemma {:induction false} CoordinateRoundTrip(i: int, suffix: string)
    requires suffix == [] || suffix == ".0"
    ensures ParseTruncated(IntToString(i) + suffix) == Some(i)
  {
    var s := IntToString(i) + suffix;
    if i < 0 {
      var d := NatToString(-i);
      assert s == "-" + (d + suffix);
      assert s[1..] == d + suffix;
      UnsignedRoundTrip(-i, suffix);
      NegativeText(s, -i);
    } else {
      var d := NatToString(i);
      assert s == d + suffix;
      AllDigitsFirst(d);
      assert s[0] == d[0];
      UnsignedRoundTrip(i, suffix);
      UnsignedText(s, i);
    }
  }

  /** Text led by '-' reads as the negated value of the rest. */
  lemma NegativeText(s: string, v: nat)
    requires |s| > 0 && s[0] == '-'
    requires ParseUnsignedTruncated(s[1..]) == Some(v)
    ensures ParseTruncated(s) == Some(-(v as int))
  {
  }

  /** Text led by a digit reads as its unsigned value. */
  lemma UnsignedText(s: string, v: nat)
    requires |s| > 0 && IsDigit(s[0])
    requires ParseUnsignedTruncated(s) == Some(v)
    ensures ParseTruncated(s) == Some(v)
  {
  }
}
