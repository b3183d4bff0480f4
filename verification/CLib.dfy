/** The C library conversions the modelled code relies on. */
module CLib {

  const LONG_MAX: int := 0x7FFF_FFFF_FFFF_FFFF
  const LONG_MIN: int := -LONG_MAX - 1

  predicate IsSpace(c: char) {
    c == ' ' || 9 <= c as int <= 13
  }

  predicate IsDigit(c: char) {
    '0' <= c <= '9'
  }

  predicate IsHexDigit(c: char) {
    IsDigit(c) || 'a' <= c <= 'f' || 'A' <= c <= 'F'
  }

  function HexDigit(c: char): (d: nat)
    requires IsHexDigit(c)
    ensures d < 16
  {
    if IsDigit(c) then c as int - '0' as int
    else if 'a' <= c then c as int - 'a' as int + 10
    else c as int - 'A' as int + 10
  }

  function SkipSpaces(s: string): (r: string)
    ensures |r| <= |s|
    ensures r != [] ==> !IsSpace(r[0])
  {
    if s != [] && IsSpace(s[0]) then SkipSpaces(s[1..]) else s
  }

  /** Value of the leading decimal digits of `s`, continuing from `acc`. */
  function DigitsValue(s: string, acc: nat): nat {
    if s != [] && IsDigit(s[0]) then
      DigitsValue(s[1..], acc * 10 + (s[0] as int - '0' as int))
    else
      acc
  }

  function Atoi(s: string): int {
    var t := SkipSpaces(s);
    if t != [] && t[0] == '-' then 0 - DigitsValue(t[1..], 0)
    else if t != [] && t[0] == '+' then DigitsValue(t[1..], 0)
    else DigitsValue(t, 0)
  }

  /** `str2u`: leading decimal digits in 32-bit unsigned arithmetic. */
  function Str2u(s: string, acc: nat := 0): (r: nat)
    requires acc < 0x1_0000_0000
    ensures r < 0x1_0000_0000
  {
    if s != [] && IsDigit(s[0]) then
      Str2u(s[1..], (acc * 10 + (s[0] as int - '0' as int)) % 0x1_0000_0000)
    else
      acc
  }

  /** Conversion of an unsigned 32-bit value to a signed one. */
  function ToInt32(n: nat): (r: int)
    requires n < 0x1_0000_0000
    ensures -0x8000_0000 <= r < 0x8000_0000
    ensures r >= 0 <==> n < 0x8000_0000
    ensures r >= 0 ==> r == n
  {
    if n < 0x8000_0000 then n else n - 0x1_0000_0000
  }

  /** Value of the leading hexadecimal digits of `s`, continuing from `acc`. */
  function HexValue(s: string, acc: nat): nat {
    if s != [] && IsHexDigit(s[0]) then HexValue(s[1..], acc * 16 + HexDigit(s[0])) else acc
  }

  function SkipHexPrefix(s: string): string {
    if |s| >= 2 && s[0] == '0' && (s[1] == 'x' || s[1] == 'X') then s[2..] else s
  }

  /** `strtol(s, NULL, 16)`, saturating at the bounds of a 64-bit `long`. */
  function Strtol16(s: string): (r: int)
    ensures LONG_MIN <= r <= LONG_MAX
  {
    var t := SkipSpaces(s);
    var negative := t != [] && t[0] == '-';
    var digits := SkipHexPrefix(if t != [] && (t[0] == '-' || t[0] == '+') then t[1..] else t);
    var v: int := HexValue(digits, 0);
    if negative then (if -v < LONG_MIN then LONG_MIN else -v)
    else if v > LONG_MAX then LONG_MAX else v
  }

  function ToLower(c: char): char {
    if 'A' <= c <= 'Z' then (c as int + 32) as char else c
  }

  function LowerCase(s: string): (r: string)
    ensures |r| == |s|
  {
    seq(|s|, i requires 0 <= i < |s| => ToLower(s[i]))
  }

  // ---- letters up to case ---------------------------------------------------------------------------

  /** An upper-case letter of ASCII and its lower-case form. */
  predicate UpperAndLower(a: char, b: char) {
    'A' <= a <= 'Z' && b as int - a as int == 'a' as int - 'A' as int
  }

  predicate SameLetter(a: char, b: char) {
    a == b || UpperAndLower(a, b) || UpperAndLower(b, a)
  }

  predicate EqualUpToCase(s: string, t: string) {
    |s| == |t| && forall i | 0 <= i < |s| :: SameLetter(s[i], t[i])
  }

  predicate NoUpperCase(s: string) {
    forall i | 0 <= i < |s| :: !('A' <= s[i] <= 'Z')
  }

  lemma LowerStays(s: string)
    requires NoUpperCase(s)
    ensures LowerCase(s) == s
  {
  }

  /** `tolower` brings together exactly the names that are equal up to case. */
  lemma LowerMeans(s: string, t: string)
    ensures LowerCase(s) == LowerCase(t) <==> EqualUpToCase(s, t)
  {
    if LowerCase(s) == LowerCase(t) {
      forall i | 0 <= i < |s|
        ensures SameLetter(s[i], t[i])
      {
        assert LowerCase(s)[i] == LowerCase(t)[i];
      }
    }
  }

  lemma LowerIs(s: string, t: string)
    requires NoUpperCase(t)
    ensures LowerCase(s) == t <==> EqualUpToCase(s, t)
  {
    LowerStays(t);
    LowerMeans(s, t);
  }

  // ---- decimal numbers --------------------------------------------------------------------------------

  /** Decimal notation, as `%u` prints it. */
  function Decimal(n: nat): (s: string)
    ensures s != [] && forall i | 0 <= i < |s| :: IsDigit(s[i])
    ensures |s| == 1 <==> n < 10
  {
    var digit := ('0' as int + n % 10) as char;
    if n < 10 then [digit] else Decimal(n / 10) + [digit]
  }

  lemma {:induction false} DigitsAppend(a: string, b: string, acc: nat)
    requires forall i | 0 <= i < |a| :: IsDigit(a[i])
    ensures DigitsValue(a + b, acc) == DigitsValue(b, DigitsValue(a, acc))
  {
    if a == [] {
      assert a + b == b;
    } else {
      assert (a + b)[1..] == a[1..] + b;
      DigitsAppend(a[1..], b, acc * 10 + (a[0] as int - '0' as int));
    }
  }

  /** Reading back a printed number, whatever non-digit follows it. */
  lemma {:induction false} DecimalRoundTrip(n: nat, rest: string)
    requires rest == [] || !IsDigit(rest[0])
    ensures DigitsValue(Decimal(n) + rest, 0) == n
  {
    DigitsAppend(Decimal(n), rest, 0);
    if n >= 10 {
      var digit := Decimal(n)[|Decimal(n / 10)|];
      DecimalRoundTrip(n / 10, []);
      assert Decimal(n / 10) + [] == Decimal(n / 10);
      DigitsAppend(Decimal(n / 10), [digit], 0);
      assert Decimal(n) == Decimal(n / 10) + [digit];
    }
  }

  /** Leading spaces and a sign are read as C does. */
  lemma AtoiReadsDecimal(n: nat, rest: string)
    requires rest == [] || !IsDigit(rest[0])
    ensures Atoi(Decimal(n) + rest) == n
    ensures Atoi("+" + (Decimal(n) + rest)) == n && Atoi("-" + (Decimal(n) + rest)) == 0 - n
  {
    var s := Decimal(n) + rest;
    DecimalRoundTrip(n, rest);
    assert s[0] == Decimal(n)[0];
    assert SkipSpaces(s) == s;
    assert SkipSpaces("+" + s) == "+" + s && ("+" + s)[1..] == s;
    assert SkipSpaces("-" + s) == "-" + s && ("-" + s)[1..] == s;
  }

  lemma {:induction false} Str2uIsModulo(s: string, acc: nat, v: nat)
    requires acc == v % 0x1_0000_0000
    ensures Str2u(s, acc) == DigitsValue(s, v) % 0x1_0000_0000
  {
    if s != [] && IsDigit(s[0]) {
      var d := s[0] as int - '0' as int;
      ModuloStep(v, d);
      Str2uIsModulo(s[1..], (acc * 10 + d) % 0x1_0000_0000, v * 10 + d);
    }
  }

  lemma ModuloStep(v: nat, d: nat)
    ensures (v % 0x1_0000_0000 * 10 + d) % 0x1_0000_0000 == (v * 10 + d) % 0x1_0000_0000
  {
    var q := v / 0x1_0000_0000;
    assert v * 10 + d == (v % 0x1_0000_0000 * 10 + d) + 0x1_0000_0000 * (q * 10);
  }

  /** A printed number is read back modulo 2^32, and so exactly if it is smaller. */
  lemma Str2uReadsDecimal(n: nat, rest: string)
    requires rest == [] || !IsDigit(rest[0])
    ensures Str2u(Decimal(n) + rest) == n % 0x1_0000_0000
  {
    DecimalRoundTrip(n, rest);
    Str2uIsModulo(Decimal(n) + rest, 0, 0);
  }

  /** As a signed 32-bit integer it is what is left of it, or negative if that is out of range. */
  lemma Int32ReadsDecimal(s: string, n: nat)
    requires s == Decimal(n)
    ensures var m := n % 0x1_0000_0000;
      ToInt32(Str2u(s)) == if m < 0x8000_0000 then m else m - 0x1_0000_0000
  {
    Str2uReadsWhole(s, n);
  }

  lemma Str2uReadsWhole(s: string, n: nat)
    requires s == Decimal(n)
    ensures Str2u(s) == n % 0x1_0000_0000
  {
    assert s + [] == s;
    Str2uReadsDecimal(n, []);
  }

  // ---- hexadecimal numbers ----------------------------------------------------------------------------

  /** Lower-case hexadecimal without leading zeros, as `%x` prints it. */
  function ToHex(n: nat): (s: string)
    ensures s != []
    ensures forall i | 0 <= i < |s| :: IsHexDigit(s[i])
  {
    if n < 16 then [LowerHexDigit(n)] else ToHex(n / 16) + [LowerHexDigit(n % 16)]
  }

  lemma {:induction false} HexValueAppend(a: string, b: string, acc: nat)
    requires forall i | 0 <= i < |a| :: IsHexDigit(a[i])
    ensures HexValue(a + b, acc) == HexValue(b, HexValue(a, acc))
  {
    if a == [] {
      assert a + b == b;
    } else {
      assert (a + b)[1..] == a[1..] + b;
      HexValueAppend(a[1..], b, acc * 16 + HexDigit(a[0]));
    }
  }

  function LowerHexDigit(d: nat): (c: char)
    requires d < 16
    ensures IsHexDigit(c) && HexDigit(c) == d
  {
    if d < 10 then (d + '0' as int) as char else (d - 10 + 'a' as int) as char
  }

  /** Reading back a printed number, whatever non-digit follows it. */
  lemma {:induction false} HexRoundTrip(n: nat, rest: string)
    requires rest == [] || !IsHexDigit(rest[0])
    ensures HexValue(ToHex(n) + rest, 0) == n
    ensures ToHex(n)[0] == '0' ==> n == 0
  {
    HexValueAppend(ToHex(n), rest, 0);
    if n >= 16 {
      HexRoundTrip(n / 16, []);
      assert ToHex(n / 16) + [] == ToHex(n / 16);
      HexValueAppend(ToHex(n / 16), [LowerHexDigit(n % 16)], 0);
    }
  }

  lemma {:induction false} HexLength(n: nat, k: nat)
    requires n < Pow16(k) && k > 0
    ensures |ToHex(n)| <= k
  {
    if n >= 16 {
      HexLength(n / 16, k - 1);
    }
  }

  function Pow16(k: nat): nat {
    if k == 0 then 1 else 16 * Pow16(k - 1)
  }

  lemma {:induction false} HexUpToCase(s: string, t: string, acc: nat)
    requires EqualUpToCase(s, t)
    ensures HexValue(s, acc) == HexValue(t, acc)
  {
    if s != [] && IsHexDigit(s[0]) {
      assert SameLetter(s[0], t[0]);
      HexUpToCase(s[1..], t[1..], acc * 16 + HexDigit(s[0]));
    }
  }

  lemma HexTextParts(n: nat, rest: string)
    requires rest == [] || (!IsHexDigit(rest[0]) && rest[0] != 'x' && rest[0] != 'X')
    ensures var s := ToHex(n) + rest;
      SkipSpaces(s) == s && SkipHexPrefix(s) == s && HexValue(s, 0) == n && s[0] != '-' && s[0] != '+'
  {
    var s := ToHex(n) + rest;
    assert s[0] == ToHex(n)[0] && !IsSpace(s[0]);
    HexRoundTrip(n, rest);
    if |s| >= 2 && s[0] == '0' {
      assert n == 0 && ToHex(n) == "0";
      assert s[1] == rest[0];
    }
  }

  /** What a sender prints for a chunk size is what `strtol` reads, possibly before an extension. */
  lemma StrtolReadsHex(n: nat, rest: string)
    requires n < LONG_MAX
    requires rest == [] || (!IsHexDigit(rest[0]) && rest[0] != 'x' && rest[0] != 'X')
    ensures Strtol16(ToHex(n) + rest) == n
    ensures |ToHex(n)| <= 16
  {
    HexTextParts(n, rest);
    assert Pow16(16) == 0x1_0000_0000_0000_0000 by {
      assert Pow16(4) == 0x1_0000;
      assert Pow16(8) == 0x1_0000_0000;
      assert Pow16(12) == 0x1_0000_0000_0000;
    }
    HexLength(n, 16);
  }

  /** Signs, the prefix and numbers out of range; a chunk size like that is refused or read as C reads it. */
  lemma StrtolOtherForms(n: nat, rest: string)
    requires rest == [] || (!IsHexDigit(rest[0]) && rest[0] != 'x' && rest[0] != 'X')
    ensures var s := ToHex(n) + rest;
      && (n > LONG_MAX ==> Strtol16(s) == LONG_MAX)
      && (n <= LONG_MAX ==> Strtol16("+" + s) == n && Strtol16("-" + s) == 0 - n && Strtol16("0x" + s) == n)
  {
    var s := ToHex(n) + rest;
    HexTextParts(n, rest);
    assert SkipSpaces("+" + s) == "+" + s && ("+" + s)[1..] == s;
    assert SkipSpaces("-" + s) == "-" + s && ("-" + s)[1..] == s;
    assert SkipSpaces("0x" + s) == "0x" + s && ("0x" + s)[2..] == s;
  }

  /** The white space of C: blank, tab, line feed, vertical tab, form feed and carriage return. */
  lemma WhiteSpace(c: char)
    ensures IsSpace(c) <==> c in [' ', '\t', '\n', 11 as char, 12 as char, '\r']
  {
  }

  /** Spaces in front do not matter. */
  lemma {:induction false} SpacesSkipped(spaces: string, s: string)
    requires (forall i | 0 <= i < |spaces| :: IsSpace(spaces[i])) && (s == [] || !IsSpace(s[0]))
    ensures SkipSpaces(spaces + s) == s
    ensures Strtol16(spaces + s) == Strtol16(s) && Atoi(spaces + s) == Atoi(s)
    decreases |spaces|
  {
    if spaces == [] {
      assert spaces + s == s;
    } else {
      assert (spaces + s)[1..] == spaces[1..] + s;
      SpacesSkipped(spaces[1..], s);
    }
  }
}
