/**
  The number readers of the C library that the tool relies on, from their definition in
  ISO/IEC 9899:2011: section 7.22.1.4 (`strtol`, `strtoull`) and section 7.21.6.2 (the `%d`
  and `%u` conversions of `sscanf`).  `long` and `unsigned long long` have 64 bits, `int` 32.
 */
module CNumbers {
  import opened Numerals

  const LONG_MAX: int := 0x7FFF_FFFF_FFFF_FFFF
  const LONG_MIN: int := -0x8000_0000_0000_0000
  const ULLONG_MAX: nat := 0xFFFF_FFFF_FFFF_FFFF
  const INT_MAX: int := 0x7FFF_FFFF

  predicate IsSpace(c: char) {
    c == ' ' || '\t' <= c <= '\r'
  }

  function SkipSpace(s: string): (r: string)
    ensures r == "" || !IsSpace(r[0])
  {
    if s != "" && IsSpace(s[0]) then SkipSpace(s[1..]) else s
  }

  /** A number that was read, with what follows it in the text. */
  datatype Parsed = NoNumber | Parsed(negative: bool, magnitude: nat, rest: string)

  function ReadDigits(negative: bool, s: string, base: nat): Parsed {
    var k := Span(s, base);
    if k == 0 then NoNumber else Parsed(negative, Value(s[..k], base), s[k..])
  }

  predicate HasHexPrefix(s: string) {
    |s| >= 3 && s[0] == '0' && (s[1] == 'x' || s[1] == 'X') && IsDigit(s[2], 16)
  }

  predicate IsSign(s: string) {
    s != "" && (s[0] == '-' || s[0] == '+')
  }

  /** The digits, which choose their base themselves if `anyBase` (that is, base 0). */
  function ReadUnsigned(negative: bool, s: string, anyBase: bool): Parsed {
    if anyBase && HasHexPrefix(s) then ReadDigits(negative, s[2..], 16)
    else ReadDigits(negative, s, if anyBase && s != "" && s[0] == '0' then 8 else 10)
  }

  /** White space, an optional sign, digits. */
  function ReadNumber(s: string, anyBase: bool): Parsed {
    var t := SkipSpace(s);
    if IsSign(t) then ReadUnsigned(t[0] == '-', t[1..], anyBase) else ReadUnsigned(false, t, anyBase)
  }

  function ClampLong(negative: bool, magnitude: nat): int {
    var value: int := if negative then -(magnitude as int) else magnitude;
    if value < LONG_MIN then LONG_MIN
    else if value > LONG_MAX then LONG_MAX
    else value
  }

  function ClampUnsigned(negative: bool, magnitude: nat): nat {
    if magnitude > ULLONG_MAX then ULLONG_MAX
    else if negative && magnitude > 0 then ULLONG_MAX + 1 - magnitude
    else magnitude
  }

  /** `strtol(s, &end, 0)` */
  function Strtol(s: string): int {
    match ReadNumber(s, true)
    case NoNumber => 0
    case Parsed(negative, magnitude, _) => ClampLong(negative, magnitude)
  }

  /** `strtoull(s, &end, 0)` */
  function Strtoull(s: string): nat {
    match ReadNumber(s, true)
    case NoNumber => 0
    case Parsed(negative, magnitude, _) => ClampUnsigned(negative, magnitude)
  }

  /** Assignment of a `long` to a `u64` field. */
  function ToU64(x: int): nat {
    x % (ULLONG_MAX + 1)
  }

  /** Conversion of a `long` to `int`, keeping the low 32 bits. */
  function ToInt(x: int): int {
    (x + INT_MAX + 1) % (2 * (INT_MAX + 1)) - (INT_MAX + 1)
  }

  // ----- reading what was printed

  /** `%d` */
  function IntText(n: int): string {
    if n < 0 then "-" + Digits(-n, 10) else Digits(n, 10)
  }

  /** `%#llx` */
  function HexText(n: nat): string {
    if n == 0 then "0" else "0x" + Digits(n, 16)
  }

  lemma DigitsStart(n: nat, rest: string)
    ensures var t := Digits(n, 10) + rest;
            t != "" && IsDigit(t[0], 10) && SkipSpace(t) == t && !IsSign(t) && (t[0] == '0' <==> n == 0)
  {
  }

  lemma ReadDigitsOf(negative: bool, n: nat, base: nat, rest: string)
    requires 2 <= base <= 16 && EndsNumber(rest, base)
    ensures ReadDigits(negative, Digits(n, base) + rest, base) == Parsed(negative, n, rest)
  {
    ValueOfDigits(n, base);
    LeadingDigit(n, base);
    SpanOfDigits(Digits(n, base), rest, base);
  }

  lemma ReadUnsignedDecimal(negative: bool, n: nat, rest: string, anyBase: bool)
    requires EndsNumber(rest, 10)
    requires anyBase && n == 0 && rest != "" ==> rest[0] != 'x' && rest[0] != 'X'
    ensures ReadUnsigned(negative, Digits(n, 10) + rest, anyBase) == Parsed(negative, n, rest)
  {
    DigitsStart(n, rest);
    if anyBase && n == 0 {
      assert Digits(0, 8) == "0" == Digits(0, 10) && EndsNumber(rest, 8);
      ReadDigitsOf(negative, 0, 8, rest);
      assert !HasHexPrefix("0" + rest);
    } else {
      ReadDigitsOf(negative, n, 10, rest);
    }
  }

  /** A decimal number is read back as itself, in base 10 and also where the digits may choose
      the base: decimals written without leading zeros are never taken as octal or hex. */
  lemma ReadDecimal(n: nat, rest: string, anyBase: bool)
    requires EndsNumber(rest, 10)
    requires anyBase && n == 0 && rest != "" ==> rest[0] != 'x' && rest[0] != 'X'
    ensures ReadNumber(Digits(n, 10) + rest, anyBase) == Parsed(false, n, rest)
  {
    DigitsStart(n, rest);
    ReadUnsignedDecimal(false, n, rest, anyBase);
  }

  lemma ReadBehindMinus(u: string, anyBase: bool)
    ensures ReadNumber("-" + u, anyBase) == ReadUnsigned(true, u, anyBase)
  {
    var t := "-" + u;
    assert t[0] == '-' && t[1..] == u;
  }

  lemma MinusFirst(digits: string, rest: string)
    ensures "-" + digits + rest == "-" + (digits + rest)
  {
  }

  lemma ReadNegative(n: nat, rest: string, anyBase: bool)
    requires EndsNumber(rest, 10)
    requires anyBase && n == 0 && rest != "" ==> rest[0] != 'x' && rest[0] != 'X'
    ensures ReadNumber("-" + Digits(n, 10) + rest, anyBase) == Parsed(true, n, rest)
  {
    ReadUnsignedDecimal(true, n, rest, anyBase);
    ReadBehindMinus(Digits(n, 10) + rest, anyBase);
    MinusFirst(Digits(n, 10), rest);
  }

  lemma ReadInt(n: int, rest: string, anyBase: bool)
    requires EndsNumber(rest, 10)
    requires anyBase && n == 0 && rest != "" ==> rest[0] != 'x' && rest[0] != 'X'
    ensures ReadNumber(IntText(n) + rest, anyBase) == Parsed(n < 0, if n < 0 then -n else n, rest)
  {
    if n < 0 {
      ReadNegative(-n, rest, anyBase);
    } else {
      ReadDecimal(n, rest, anyBase);
    }
  }

  lemma ReadHex(n: nat)
    ensures ReadNumber(HexText(n), true) == Parsed(false, n, "")
  {
    if n == 0 {
      ReadDecimal(0, "", true);
      assert Digits(0, 10) + "" == HexText(n);
    } else {
      var t, ds := HexText(n), Digits(n, 16);
      ValueOfDigits(n, 16);
      LeadingDigit(n, 16);
      assert t[0] == '0' && t[1] == 'x' && t[2] == ds[0] && t[2..] == ds;
      assert SkipSpace(t) == t && HasHexPrefix(t);
      ReadDigitsOf(false, n, 16, "");
      assert ds + "" == ds;
    }
  }

  /** Counters: what `%#llx` prints is read back by `strtol` as the number itself below 2^63,
      and as 2^63 - 1 from there on. */
  lemma HexRoundTrip(n: nat)
    ensures Strtol(HexText(n)) == if n < 0x8000_0000_0000_0000 then n else 0x7FFF_FFFF_FFFF_FFFF
  {
    ReadHex(n);
  }

  /** A decimal number alone is read by `strtoull` as itself while it fits, else as the maximum. */
  lemma DecimalRoundTrip(n: nat)
    ensures Strtoull(Digits(n, 10)) == if n < 0x1_0000_0000_0000_0000 then n else 0xFFFF_FFFF_FFFF_FFFF
  {
    ReadDecimal(n, "", true);
    assert Digits(n, 10) + "" == Digits(n, 10);
  }

  /** With a minus sign `strtoull` reads a number that fits as its complement, else as the maximum. */
  lemma NegativeRoundTrip(n: nat)
    requires n > 0
    ensures Strtoull("-" + Digits(n, 10)) ==
              if n < 0x1_0000_0000_0000_0000 then 0x1_0000_0000_0000_0000 - n else 0xFFFF_FFFF_FFFF_FFFF
  {
    ReadNegative(n, "", true);
    assert "-" + Digits(n, 10) + "" == "-" + Digits(n, 10);
  }

  /** `strtol` reads the text of an integer as the integer, or as the end of the range next to it. */
  lemma LongRoundTrip(n: int)
    ensures Strtol(IntText(n)) ==
              if n < -0x8000_0000_0000_0000 then -0x8000_0000_0000_0000
              else if n < 0x8000_0000_0000_0000 then n else 0x7FFF_FFFF_FFFF_FFFF
  {
    ReadInt(n, "", true);
    assert IntText(n) + "" == IntText(n);
  }

  // ----- which texts are read as a number

  /** Blank, tab, newline, vertical tab, form feed and carriage return. */
  predicate AllSpace(s: string) {
    forall c :: c in s ==> c in " \t\n\U{0B}\U{0C}\r"
  }

  lemma SpaceIs(c: char)
    ensures IsSpace(c) <==> c in " \t\n\U{0B}\U{0C}\r"
  {
    var spaces := " \t\n\U{0B}\U{0C}\r";
    assert spaces[0] == ' ' && spaces[1] == '\t' && spaces[2] == '\n' && spaces[3] == '\U{0B}'
           && spaces[4] == '\U{0C}' && spaces[5] == '\r';
  }

  predicate SignOrNone(s: string) {
    s == "" || s == "+" || s == "-"
  }

  /** `u` starts with the digits `d`, and they end before `rest`. */
  predicate StartsWithDigits(u: string, d: string, rest: string, base: nat) {
    u == d + rest && d != "" && AllDigits(d, base) && EndsNumber(rest, base)
  }

  /** Prefix and at least one digit of a hexadecimal number. */
  predicate StartsHex(u: string) {
    |u| > 2 && (u[..2] == "0x" || u[..2] == "0X") && u[2] in "0123456789abcdefABCDEF"
  }

  /** The digits that a reader in base 10, or in the base that the digits choose, takes. */
  predicate UnsignedForm(u: string, anyBase: bool, d: string, magnitude: nat, rest: string) {
    || (StartsWithDigits(u, d, rest, 10) && magnitude == Value(d, 10) && (anyBase ==> d[0] != '0'))
    || (anyBase && StartsWithDigits(u, d, rest, 8) && magnitude == Value(d, 8) && d[0] == '0' && !StartsHex(u))
    || (anyBase && StartsHex(u) && StartsWithDigits(u[2..], d, rest, 16) && magnitude == Value(d, 16))
  }

  /** White space, a sign or none, and digits. */
  predicate NumberForm(s: string, anyBase: bool, w: string, g: string, u: string, d: string, p: Parsed) {
    && p.Parsed? && s == w + (g + u) && AllSpace(w) && SignOrNone(g)
    && (p.negative <==> g == "-") && UnsignedForm(u, anyBase, d, p.magnitude, p.rest)
  }

  lemma ReadDigitsIff(negative: bool, u: string, base: nat, d: string, rest: string)
    requires StartsWithDigits(u, d, rest, base)
    ensures ReadDigits(negative, u, base) == Parsed(negative, Value(d, base), rest)
  {
    SpanOfDigits(d, rest, base);
  }

  lemma DigitsWereRead(negative: bool, u: string, base: nat) returns (d: string)
    requires ReadDigits(negative, u, base).Parsed?
    ensures var p := ReadDigits(negative, u, base);
            StartsWithDigits(u, d, p.rest, base) && p == Parsed(negative, Value(d, base), p.rest)
  {
    var k := Span(u, base);
    d := u[..k];
    assert u == d + u[k..];
  }

  lemma HexPrefixIs(u: string)
    ensures HasHexPrefix(u) <==> StartsHex(u)
  {
    if |u| > 2 {
      DigitsAre(u[2]);
      assert u[..2] == [u[0], u[1]];
    }
  }

  lemma UnsignedFormIsRead(negative: bool, u: string, anyBase: bool, d: string, magnitude: nat, rest: string)
    requires UnsignedForm(u, anyBase, d, magnitude, rest)
    ensures ReadUnsigned(negative, u, anyBase) == Parsed(negative, magnitude, rest)
    ensures u != "" && !IsSpace(u[0]) && !IsSign(u)
  {
    HexPrefixIs(u);
    DigitsAre(u[0]);
    if anyBase && StartsHex(u) && StartsWithDigits(u[2..], d, rest, 16) && magnitude == Value(d, 16) {
      assert u[0] == u[..2][0];
      ReadDigitsIff(negative, u[2..], 16, d, rest);
    } else {
      assert u[0] == d[0] && IsDigit(d[0], 10);
      ReadDigitsIff(negative, u, if anyBase && u[0] == '0' then 8 else 10, d, rest);
    }
  }

  lemma UnsignedReadHasForm(negative: bool, u: string, anyBase: bool) returns (d: string)
    requires ReadUnsigned(negative, u, anyBase).Parsed?
    ensures var p := ReadUnsigned(negative, u, anyBase);
            p.negative == negative && UnsignedForm(u, anyBase, d, p.magnitude, p.rest)
  {
    HexPrefixIs(u);
    if anyBase && HasHexPrefix(u) {
      d := DigitsWereRead(negative, u[2..], 16);
    } else {
      d := DigitsWereRead(negative, u, if anyBase && u != "" && u[0] == '0' then 8 else 10);
      assert d[0] == u[0];
    }
  }

  lemma {:induction false} SkipAllSpace(w: string, t: string)
    requires AllSpace(w) && (t == "" || !IsSpace(t[0]))
    ensures SkipSpace(w + t) == t
  {
    if w == "" {
      assert w + t == t;
    } else {
      SpaceIs(w[0]);
      assert (w + t)[1..] == w[1..] + t;
      SkipAllSpace(w[1..], t);
    }
  }

  lemma {:induction false} SpaceSkipped(s: string) returns (w: string)
    ensures AllSpace(w) && s == w + SkipSpace(s)
  {
    if s != "" && IsSpace(s[0]) {
      SpaceIs(s[0]);
      w := SpaceSkipped(s[1..]);
      w := [s[0]] + w;
    } else {
      w := "";
    }
  }

  lemma FormIsRead(s: string, anyBase: bool, w: string, g: string, u: string, d: string, p: Parsed)
    requires NumberForm(s, anyBase, w, g, u, d, p)
    ensures ReadNumber(s, anyBase) == p
  {
    UnsignedFormIsRead(p.negative, u, anyBase, d, p.magnitude, p.rest);
    var t := g + u;
    if g == "" {
      assert t == u;
    } else {
      assert t[0] == g[0] && t[1..] == u;
    }
    SkipAllSpace(w, t);
  }

  lemma ReadHasForm(s: string, anyBase: bool) returns (w: string, g: string, u: string, d: string)
    requires ReadNumber(s, anyBase).Parsed?
    ensures NumberForm(s, anyBase, w, g, u, d, ReadNumber(s, anyBase))
  {
    w := SpaceSkipped(s);
    var t := SkipSpace(s);
    if IsSign(t) {
      g, u := t[..1], t[1..];
      assert t == g + u;
    } else {
      g, u := "", t;
      assert t == g + u;
    }
    d := UnsignedReadHasForm(g == "-", u, anyBase);
  }

  /** The readers, in base 10 and in base 0, take exactly the texts of this form, with the sign, the
      value and the rest that the form says. */
  lemma ReadIffForm(s: string, anyBase: bool, p: Parsed)
    requires p.Parsed?
    ensures ReadNumber(s, anyBase) == p <==> exists w, g, u, d :: NumberForm(s, anyBase, w, g, u, d, p)
  {
    if ReadNumber(s, anyBase) == p {
      var w, g, u, d := ReadHasForm(s, anyBase);
    }
    if w, g, u, d :| NumberForm(s, anyBase, w, g, u, d, p) {
      FormIsRead(s, anyBase, w, g, u, d, p);
    }
  }

  predicate IsIntForm(s: string, w: string, g: string, d: string, rest: string) {
    s == w + (g + (d + rest)) && AllSpace(w) && SignOrNone(g) && d != "" && AllDigits(d, 10)
  }

  /** `s` is an integer as `%d` accepts it, followed by `rest`. */
  ghost predicate IntForm(s: string, rest: string) {
    EndsNumber(rest, 10) && exists w, g, d :: IsIntForm(s, w, g, d, rest)
  }

  /** `%d` takes exactly these texts, and stops exactly at the rest. */
  lemma ReadIffIntForm(s: string, rest: string)
    ensures IntForm(s, rest) <==> ReadNumber(s, false).Parsed? && ReadNumber(s, false).rest == rest
  {
    if IntForm(s, rest) {
      var w, g, d :| IsIntForm(s, w, g, d, rest);
      FormIsRead(s, false, w, g, d + rest, d, Parsed(g == "-", Value(d, 10), rest));
    }
    if ReadNumber(s, false).Parsed? && ReadNumber(s, false).rest == rest {
      var w, g, u, d := ReadHasForm(s, false);
      assert IsIntForm(s, w, g, d, rest);
    }
  }
}
