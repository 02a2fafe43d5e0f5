/**
 * Decimal rendering of integers, as JavaScript's `Number.prototype.toString()`
 * writes an integer-valued number below 10^21 in magnitude: an optional '-'
 * and the digits without leading zeros. `Parse` is the strict reader that
 * accepts exactly those renderings.
 */
module Decimal {
  import opened Wrappers

  predicate IsDigit(c: char) {
    '0' <= c <= '9'
  }

  function DigitChar(d: int): (c: char)
    requires 0 <= d < 10
    ensures IsDigit(c) && c as int - '0' as int == d
  {
    ('0' as int + d) as char
  }

  /** The digits of a natural number, most significant first. */
  function Digits(n: nat): (s: string)
    ensures |s| > 0
    decreases n
  {
    if n < 10 then [DigitChar(n)] else Digits(n / 10) + [DigitChar(n % 10)]
  }

  /** The value of a string of digits. */
  function DigitsValue(s: string): nat
    requires forall k :: 0 <= k < |s| ==> IsDigit(s[k])
  {
    if s == [] then 0
    else
      assert IsDigit(s[|s| - 1]);
      DigitsValue(s[..|s| - 1]) * 10 + (s[|s| - 1] as int - '0' as int)
  }

  /** Digits only, and no leading zero unless the number is zero itself. */
  predicate Canonical(s: string) {
    && |s| > 0
    && (forall k :: 0 <= k < |s| ==> IsDigit(s[k]))
    && (s[0] == '0' ==> |s| == 1)
  }

  /** `n.toString()` for an integer `n`. */
  function Show(n: int): string {
    if n < 0 then "-" + Digits(-n) else Digits(n)
  }

  /** The integer a canonical decimal string stands for; None for anything
      `Show` never produces (empty, stray characters, leading zeros, "-0"). */
  function Parse(s: string): Option<int>
  {
    if |s| > 0 && s[0] == '-' then
      var body := s[1..];
      if Canonical(body) && body != "0" then Some(0 - DigitsValue(body)) else None
    else if Canonical(s) then Some(DigitsValue(s))
    else None
  }

  lemma {:induction false} DigitsCanonical(n: nat)
    ensures Canonical(Digits(n))
    ensures DigitsValue(Digits(n)) == n
    ensures Digits(n) == "0" <==> n == 0
    decreases n
  {
    if n >= 10 {
      DigitsCanonical(n / 10);
      var s := Digits(n);
      assert s[..|s| - 1] == Digits(n / 10);
    }
  }

  lemma {:induction false} DigitsOfValue(s: string)
    requires Canonical(s)
    ensures Digits(DigitsValue(s)) == s
    decreases |s|
  {
    if |s| > 1 {
      var init := s[..|s| - 1];
      assert Canonical(init);
      DigitsOfValue(init);
      DigitsPositive(init);
      var last := s[|s| - 1] as int - '0' as int;
      assert (DigitsValue(init) * 10 + last) / 10 == DigitsValue(init);
      assert s == init + [s[|s| - 1]];
    }
  }

  lemma {:induction false} DigitsPositive(s: string)
    requires Canonical(s) && s[0] != '0'
    ensures DigitsValue(s) > 0
    decreases |s|
  {
    if |s| > 1 {
      var init := s[..|s| - 1];
      DigitsPositive(init);
    }
  }

  /** Reading back a rendering gives the number. */
  lemma ParseShow(n: int)
    ensures Parse(Show(n)) == Some(n)
  {
    if n < 0 {
      DigitsCanonical(-n);
      assert Show(n)[1..] == Digits(-n);
    } else {
      DigitsCanonical(n);
    }
  }

  /** Rendering a parsed number gives back the very string parsed. */
  lemma ShowParse(s: string)
    requires Parse(s).Some?
    ensures Show(Parse(s).value) == s
  {
    if |s| > 0 && s[0] == '-' {
      var body := s[1..];
      DigitsOfValue(body);
      DigitsPositive(body);
      assert s == "-" + body;
    } else {
      DigitsOfValue(s);
    }
  }
}
