/**
  Numbers as text: what `printf` writes for `%d`, `%u` and `%#llx`, and what the digit-reading
  part of `strtol`, `strtoull` and `scanf` reads back (ISO/IEC 9899:2011, sections 7.21.6.1,
  7.21.6.2 and 7.22.1.4).
 */
module Numerals {
  import opened Arithmetic

  /** The value of a digit or letter; 36 for every other character. */
  function DigitValue(c: char): nat {
    if '0' <= c <= '9' then c as int - '0' as int
    else if 'a' <= c <= 'z' then c as int - 'a' as int + 10
    else if 'A' <= c <= 'Z' then c as int - 'A' as int + 10
    else 36
  }

  function DigitChar(d: nat): char
    requires d < 16
  {
    if d < 10 then ('0' as int + d) as char else ('a' as int + d - 10) as char
  }

  predicate IsDigit(c: char, base: nat) {
    DigitValue(c) < base
  }

  /** The digits of the three bases, and their values in either case. */
  lemma DigitsAre(c: char)
    ensures IsDigit(c, 8) <==> c in "01234567"
    ensures IsDigit(c, 10) <==> c in "0123456789"
    ensures IsDigit(c, 16) <==> c in "0123456789abcdefABCDEF"
    ensures forall i :: 0 <= i < 16 ==>
              && DigitValue("0123456789abcdef"[i]) == i && DigitValue("0123456789ABCDEF"[i]) == i
              && DigitChar(i) == "0123456789abcdef"[i]
  {
  }

  predicate AllDigits(s: string, base: nat) {
    forall i :: 0 <= i < |s| ==> IsDigit(s[i], base)
  }

  /** The digits of `n`, most significant first, without leading zeros. */
  function Digits(n: nat, base: nat): string
    requires 2 <= base <= 16
    decreases n
  {
    if n < base then [DigitChar(n)] else Digits(n / base, base) + [DigitChar(n % base)]
  }

  /** The number that a string of digits stands for. */
  function Value(s: string, base: nat): nat
    requires AllDigits(s, base)
  {
    if s == [] then 0
    else
      var n := |s| - 1;
      MulNonNegative(Value(s[..n], base), base);
      Value(s[..n], base) * base + DigitValue(s[n])
  }

  function Power(base: nat, k: nat): nat {
    if k == 0 then 1 else Power(base, k - 1) * base
  }

  lemma DigitOfValue(d: nat, base: nat)
    requires d < base <= 16
    ensures DigitValue(DigitChar(d)) == d
    ensures DigitChar(d) == '0' <==> d == 0
  {
  }

  /** Reading the digits of a number gives the number. */
  lemma {:induction false} ValueOfDigits(n: nat, base: nat)
    requires 2 <= base <= 16
    ensures AllDigits(Digits(n, base), base)
    ensures Value(Digits(n, base), base) == n
    decreases n
  {
    if n < base {
      DigitOfValue(n, base);
    } else {
      ValueOfDigits(n / base, base);
      DigitOfValue(n % base, base);
      DivMod(n, base);
      var s := Digits(n / base, base);
      assert (s + [DigitChar(n % base)])[..|s|] == s;
    }
  }

  /** The first digit is 0 only for the number 0, whose text is exactly "0". */
  lemma {:induction false} LeadingDigit(n: nat, base: nat)
    requires 2 <= base <= 16
    ensures Digits(n, base) != ""
    ensures if n == 0 then Digits(n, base) == "0" else Digits(n, base)[0] != '0'
    decreases n
  {
    if n < base {
      DigitOfValue(n, base);
    } else {
      LeadingDigit(n / base, base);
      DivMod(n, base);
    }
  }

  /** A number below `base^k` has at most `k` digits. */
  lemma {:induction false} DigitsLength(n: nat, base: nat, k: nat)
    requires 2 <= base <= 16 && 1 <= k && n < Power(base, k)
    ensures |Digits(n, base)| <= k
    decreases k
  {
    if n < base {
    } else {
      DivMod(n, base);
      assert k > 1;
      if n / base >= Power(base, k - 1) {
        MulMonotone(Power(base, k - 1), n / base, base);
      }
      DigitsLength(n / base, base, k - 1);
    }
  }

  /** How many leading characters are digits. */
  function Span(s: string, base: nat): (k: nat)
    ensures k <= |s|
    ensures AllDigits(s[..k], base)
    ensures k < |s| ==> !IsDigit(s[k], base)
  {
    if s == [] || !IsDigit(s[0], base) then 0
    else
      var k := 1 + Span(s[1..], base);
      assert s[..k] == [s[0]] + s[1..][..k - 1];
      k
  }

  predicate EndsNumber(rest: string, base: nat) {
    rest == "" || !IsDigit(rest[0], base)
  }

  /** Digits followed by something that is no digit are read completely and no further. */
  lemma {:induction false} SpanOfDigits(s: string, rest: string, base: nat)
    requires AllDigits(s, base) && EndsNumber(rest, base)
    ensures Span(s + rest, base) == |s|
    ensures (s + rest)[..|s|] == s && (s + rest)[|s|..] == rest
  {
    if s == "" {
      assert s + rest == rest;
    } else {
      assert (s + rest)[1..] == s[1..] + rest;
      SpanOfDigits(s[1..], rest, base);
    }
  }

  /** Cutting digits off the end of a number without leading zeros makes it smaller. */
  lemma {:induction false} PrefixIsLess(s: string, k: nat, base: nat)
    requires AllDigits(s, base) && 2 <= base && 0 < k < |s| && s[0] != '0'
    ensures 0 < Value(s[..k], base) < Value(s, base)
    decreases |s|
  {
    var n := |s| - 1;
    if k < n {
      assert s[..n][..k] == s[..k];
      PrefixIsLess(s[..n], k, base);
    } else if n > 1 {
      PrefixIsLess(s[..n], n - 1, base);
      assert s[..n][..n - 1] == s[..n - 1];
    } else {
      assert s[..1][..0] == "" && s[..1][0] == s[0];
      assert DigitValue(s[0]) > 0;
    }
    MulAtLeastDouble(Value(s[..n], base), base);
  }
}
