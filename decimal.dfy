/**
 * Branch-length text. The reader in tree_utils.py hands the text after ":"
 * to `eval` once surrounding white space is stripped; here that text must be
 * a plain decimal literal: an optional sign, digits with at most one ".",
 * at least one digit, and an optional exponent ("e" or "E", an optional
 * sign, digits). Anything else is rejected.
 */
module Decimal {
  import opened Wrappers

  predicate IsDigit(c: char) {
    '0' <= c <= '9'
  }

  predicate AllDigits(s: string) {
    forall k :: 0 <= k < |s| ==> IsDigit(s[k])
  }

  /** The white space `str.strip` removes (its ASCII part). */
  predicate IsSpace(c: char) {
    c == ' ' || c == '\t' || c == '\n' || c == '\r' || c == '\U{B}' || c == '\U{C}' ||
    '\U{1C}' <= c <= '\U{1F}'
  }

  /** `str.strip`: the text without leading and trailing white space. */
  function Strip(s: string): (r: string)
    ensures |r| <= |s|
    ensures r == [] || (!IsSpace(r[0]) && !IsSpace(r[|r| - 1]))
    ensures s == [] || (!IsSpace(s[0]) && !IsSpace(s[|s| - 1])) ==> r == s
  {
    if s == [] then s
    else if IsSpace(s[0]) then Strip(s[1..])
    else if IsSpace(s[|s| - 1]) then Strip(s[..|s| - 1])
    else s
  }

  /** Only white space lies before lo and from hi on. */
  predicate SpaceOutside(s: string, lo: nat, hi: nat)
    requires lo <= hi <= |s|
  {
    (forall k :: 0 <= k < lo ==> IsSpace(s[k])) && (forall k :: hi <= k < |s| ==> IsSpace(s[k]))
  }

  /** Strip removes white space from the two ends and nothing else. */
  lemma StripRemovesOnlySpace(s: string)
    ensures exists lo: nat, hi: nat :: lo <= hi <= |s| && Strip(s) == s[lo..hi] && SpaceOutside(s, lo, hi)
  {
    var lo, hi := StripCuts(s);
  }

  /** Where Strip cuts s. */
  lemma {:induction false} StripCuts(s: string) returns (lo: nat, hi: nat)
    ensures lo <= hi <= |s| && Strip(s) == s[lo..hi] && SpaceOutside(s, lo, hi)
    decreases |s|
  {
    if s == [] {
      lo, hi := 0, 0;
    } else if IsSpace(s[0]) {
      var l, h := StripCuts(s[1..]);
      lo, hi := LeadingCut(s, l, h);
    } else if IsSpace(s[|s| - 1]) {
      var l, h := StripCuts(s[..|s| - 1]);
      lo, hi := TrailingCut(s, l, h);
    } else {
      lo, hi := 0, |s|;
      assert Strip(s) == s[0..|s|];
    }
  }

  /** A leading space: the cuts of the rest, one further on. */
  lemma LeadingCut(s: string, l: nat, h: nat) returns (lo: nat, hi: nat)
    requires |s| > 0 && IsSpace(s[0])
    requires l <= h <= |s| - 1 && Strip(s[1..]) == s[1..][l..h] && SpaceOutside(s[1..], l, h)
    ensures lo <= hi <= |s| && Strip(s) == s[lo..hi] && SpaceOutside(s, lo, hi)
  {
    var t := s[1..];
    lo, hi := l + 1, h + 1;
    assert Strip(s) == Strip(t);
    assert t[l..h] == s[lo..hi];
    forall k | 0 <= k < lo ensures IsSpace(s[k]) {
      if k > 0 { assert s[k] == t[k - 1]; }
    }
    forall k | hi <= k < |s| ensures IsSpace(s[k]) {
      assert s[k] == t[k - 1];
    }
  }

  /** A trailing space after a non-space start: the same cuts as without it. */
  lemma TrailingCut(s: string, l: nat, h: nat) returns (lo: nat, hi: nat)
    requires |s| > 0 && !IsSpace(s[0]) && IsSpace(s[|s| - 1])
    requires l <= h <= |s| - 1 && Strip(s[..|s| - 1]) == s[..|s| - 1][l..h] && SpaceOutside(s[..|s| - 1], l, h)
    ensures lo <= hi <= |s| && Strip(s) == s[lo..hi] && SpaceOutside(s, lo, hi)
  {
    var t := s[..|s| - 1];
    lo, hi := l, h;
    assert Strip(s) == Strip(t);
    assert t[l..h] == s[lo..hi];
    forall k | hi <= k < |s| ensures IsSpace(s[k]) {
      if k < |t| { assert s[k] == t[k]; }
    }
  }

  /** The value of a string of decimal digits. */
  function DigitsValue(s: string): (n: nat)
    requires AllDigits(s)
    ensures n < Pow10(|s|)
  {
    if s == [] then 0
    else DigitsValue(s[..|s| - 1]) * 10 + (s[|s| - 1] as int - '0' as int)
  }

  function Pow10(n: nat): (p: nat)
    ensures p >= 1
  {
    if n == 0 then 1 else 10 * Pow10(n - 1)
  }

  /** The first position of one of the given characters, or |s| if none occurs. */
  function IndexOfAny(s: string, cs: string): (i: nat)
    ensures i <= |s|
  {
    if s == [] || s[0] in cs then 0 else 1 + IndexOfAny(s[1..], cs)
  }

  /** IndexOfAny stops at the first of the characters: none before it, one at it. */
  lemma {:induction false} IndexOfAnyFirst(s: string, cs: string)
    ensures forall k :: 0 <= k < IndexOfAny(s, cs) ==> s[k] !in cs
    ensures IndexOfAny(s, cs) < |s| ==> s[IndexOfAny(s, cs)] in cs
  {
    if s != [] && s[0] !in cs {
      IndexOfAnyFirst(s[1..], cs);
      forall k | 0 < k < IndexOfAny(s, cs)
        ensures s[k] !in cs
      {
        assert s[k] == s[1..][k - 1];
      }
    }
  }

  /** Digits with at most one ".", and at least one digit in all. */
  function ParseMantissa(s: string): (r: Option<real>)
    ensures r.Some? ==> r.value >= 0.0
  {
    var dot := IndexOfAny(s, ".");
    var whole := s[..dot];
    var fraction := if dot < |s| then s[dot + 1..] else [];
    if |whole| + |fraction| == 0 || !AllDigits(whole) || !AllDigits(fraction) then None
    else
      ScaleNonNegative(DigitsValue(fraction) as real, -|fraction|);
      Some(DigitsValue(whole) as real + Scale(DigitsValue(fraction) as real, -|fraction|))
  }

  /** An optionally signed, non-empty run of digits. */
  function ParseExponent(s: string): Option<int> {
    var negative := |s| > 0 && s[0] == '-';
    var digits := if |s| > 0 && (s[0] == '-' || s[0] == '+') then s[1..] else s;
    if digits == [] || !AllDigits(digits) then None
    else
      var v: int := DigitsValue(digits);
      Some(if negative then -v else v)
  }

  /** v * 10^e, one factor of ten at a time. */
  function Scale(v: real, e: int): real
    decreases if e >= 0 then e else -e
  {
    if e == 0 then v
    else if e > 0 then Scale(v, e - 1) * 10.0
    else Scale(v, e + 1) / 10.0
  }

  /** Scaling by a power of ten keeps the sign. */
  lemma {:induction false} ScaleNonNegative(v: real, e: int)
    requires v >= 0.0
    ensures Scale(v, e) >= 0.0
    decreases if e >= 0 then e else -e
  {
    if e > 0 {
      ScaleNonNegative(v, e - 1);
    } else if e < 0 {
      ScaleNonNegative(v, e + 1);
    }
  }

  function ParseUnsigned(s: string): (r: Option<real>)
    ensures r.Some? ==> r.value >= 0.0
  {
    var e := IndexOfAny(s, "eE");
    match ParseMantissa(s[..e])
    case None => None
    case Some(m) =>
      if e == |s| then Some(m)
      else match ParseExponent(s[e + 1..])
        case None => None
        case Some(x) => ScaleNonNegative(m, x); Some(Scale(m, x))
  }

  /** The value of a decimal literal, or None when s is not one. */
  function ParseDecimal(s: string): (r: Option<real>)
    ensures r.Some? && |s| > 0 && s[0] == '-' ==> r.value <= 0.0
    ensures r.Some? && (|s| == 0 || s[0] != '-') ==> r.value >= 0.0
  {
    if |s| > 0 && (s[0] == '-' || s[0] == '+') then
      match ParseUnsigned(s[1..])
      case None => None
      case Some(v) => Some(if s[0] == '-' then -v else v)
    else ParseUnsigned(s)
  }

  lemma {:induction false} NoneOfAny(s: string, cs: string)
    requires forall k :: 0 <= k < |s| ==> s[k] !in cs
    ensures IndexOfAny(s, cs) == |s|
  {
    if s != [] {
      NoneOfAny(s[1..], cs);
    }
  }

  /** A run of digits without a "." is a mantissa worth the number it spells. */
  lemma MantissaOfDigits(s: string)
    requires |s| > 0 && AllDigits(s)
    ensures ParseMantissa(s) == Some(DigitsValue(s) as real)
  {
    NoneOfAny(s, ".");
    assert s[..|s|] == s;
    assert DigitsValue([]) == 0 && Scale(0.0, 0) == 0.0;
  }

  /** A plain run of digits reads as the natural number it spells. */
  lemma ParseDecimalOfDigits(s: string)
    requires |s| > 0 && AllDigits(s)
    ensures ParseDecimal(s) == Some(DigitsValue(s) as real)
  {
    assert IsDigit(s[0]);
    assert ParseDecimal(s) == ParseUnsigned(s);
    NoneOfAny(s, "eE");
    assert s[..|s|] == s;
    MantissaOfDigits(s);
  }

  /** A leading "-" negates the value of the unsigned literal after it. */
  lemma ParseDecimalNegative(s: string)
    requires ParseUnsigned(s).Some?
    ensures ParseDecimal("-" + s) == Some(-ParseUnsigned(s).value)
  {
    var t := "-" + s;
    assert t[0] == '-' && t[1..] == s;
  }
}
