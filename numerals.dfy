/** Python's `int(s, base)` on a plain digit string and its inverse, the
    lower-case digit string of a natural number. Used for the year headers of
    the wide table (base 10) and for the colour channels (base 16). */
module Numerals {
  import opened Wrappers

  predicate IsBase(base: nat)
  {
    2 <= base <= 36
  }

  /** Value of one digit character; letters count from 10 in either case. */
  function DigitValue(c: char): (d: Option<nat>)
    ensures d.Some? ==> d.value < 36
  {
    if '0' <= c <= '9' then Some(c as nat - '0' as nat)
    else if 'a' <= c <= 'z' then Some(c as nat - 'a' as nat + 10)
    else if 'A' <= c <= 'Z' then Some(c as nat - 'A' as nat + 10)
    else None
  }

  predicate IsDigit(c: char, base: nat)
  {
    DigitValue(c).Some? && DigitValue(c).value < base
  }

  /** The lower-case character of a digit value. */
  function DigitChar(d: nat): (c: char)
    requires d < 36
    ensures DigitValue(c) == Some(d)
    ensures !('A' <= c <= 'Z')
  {
    if d < 10 then ('0' as nat + d) as char else ('a' as nat + d - 10) as char
  }

  /** Lower-casing of one character, as Python's `str.lower` does on ASCII. */
  function LowerChar(c: char): char
  {
    if 'A' <= c <= 'Z' then (c as nat - 'A' as nat + 'a' as nat) as char else c
  }

  function Lower(s: string): (r: string)
    ensures |r| == |s| && forall i :: 0 <= i < |s| ==> r[i] == LowerChar(s[i])
  {
    seq(|s|, i requires 0 <= i < |s| => LowerChar(s[i]))
  }

  /** `int(s, base)` for a non-empty string of digits of `base`; None where
      Python raises ValueError. */
  function ParseInt(s: string, base: nat): (r: Option<nat>)
    requires IsBase(base)
    ensures r.Some? <==> s != [] && forall i :: 0 <= i < |s| ==> IsDigit(s[i], base)
    decreases |s|
  {
    if s == [] then None
    else
      var last := s[|s| - 1];
      AllDigitsSnoc(s, base);
      if !IsDigit(last, base) then None
      else if |s| == 1 then Some(DigitValue(last).value)
      else match ParseInt(s[..|s| - 1], base)
        case None => None
        case Some(v) => Some(v * base + DigitValue(last).value)
  }

  predicate AllDigits(s: string, base: nat)
  {
    forall i :: 0 <= i < |s| ==> IsDigit(s[i], base)
  }

  /** A non-empty string is all digits when its front is and its last
      character is. */
  lemma AllDigitsSnoc(s: string, base: nat)
    requires s != []
    ensures AllDigits(s, base) <==> AllDigits(s[..|s| - 1], base) && IsDigit(s[|s| - 1], base)
  {
    var front := s[..|s| - 1];
    assert forall i :: 0 <= i < |s| - 1 ==> front[i] == s[i];
  }

  /** The shortest lower-case digit string of `n` ("0" for zero). */
  function ToDigits(n: nat, base: nat): (s: string)
    requires IsBase(base)
    ensures s != []
    decreases n
  {
    if n < base then [DigitChar(n)]
    else
      DivBelow(n, base);
      ToDigits(n / base, base) + [DigitChar(n % base)]
  }

  /** Dividing by the base shrinks a number, and the remainder is a digit. */
  lemma DivBelow(n: nat, base: nat)
    requires 2 <= base <= n
    ensures n / base < n && n % base < base
  {
  }

  lemma {:induction false} ParseToDigits(n: nat, base: nat)
    requires IsBase(base)
    ensures ParseInt(ToDigits(n, base), base) == Some(n)
    decreases n
  {
    if n >= base {
      assert n / base < n;
      ParseToDigits(n / base, base);
      ParseToDigitsStep(n, base);
    }
  }

  /** One step of ParseToDigits: the last digit is the remainder. */
  lemma ParseToDigitsStep(n: nat, base: nat)
    requires IsBase(base) && n >= base
    requires ParseInt(ToDigits(n / base, base), base) == Some(n / base)
    ensures ParseInt(ToDigits(n, base), base) == Some(n)
  {
    var q, d := n / base, n % base;
    DivMod(n, base);
    assert ToDigits(n, base) == ToDigits(q, base) + [DigitChar(d)];
    ParseSnoc(ToDigits(q, base), DigitChar(d), base);
  }

  /** Appending a digit multiplies the value read so far by the base. */
  lemma ParseSnoc(front: string, c: char, base: nat)
    requires IsBase(base) && ParseInt(front, base).Some? && IsDigit(c, base)
    ensures ParseInt(front + [c], base) == Some(ParseInt(front, base).value * base + DigitValue(c).value)
  {
    var s := front + [c];
    assert s[..|s| - 1] == front;
  }

  lemma DivMod(n: nat, base: nat)
    requires base > 0
    ensures n / base * base + n % base == n
  {
  }

  /** Reading two digits: the first counts `base` times the second. */
  lemma ParseTwoDigits(s: string, base: nat)
    requires IsBase(base) && |s| == 2 && IsDigit(s[0], base) && IsDigit(s[1], base)
    ensures ParseInt(s, base) == Some(DigitValue(s[0]).value * base + DigitValue(s[1]).value)
  {
    assert s[..1] == [s[0]];
  }

  /** The character DigitChar writes back for a digit is the lower-cased
      digit read. */
  lemma DigitCharOfValue(c: char, base: nat)
    requires IsBase(base) && IsDigit(c, base)
    ensures DigitChar(DigitValue(c).value) == LowerChar(c)
  {
  }
}
