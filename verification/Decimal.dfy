/** Decimal text of integers as Go's strconv prints and reads it: 64-bit, an optional sign, digits only. */
module Decimal {
  import opened Bytes

  const MAX_INT: int := 0x7FFF_FFFF_FFFF_FFFF
  const MIN_INT: int := -0x8000_0000_0000_0000

  predicate IsInt(n: int) {
    MIN_INT <= n <= MAX_INT
  }

  predicate IsDigit(c: char) {
    '0' <= c <= '9'
  }

  predicate AllDigits(s: string) {
    forall i :: 0 <= i < |s| ==> IsDigit(s[i])
  }

  function Digit(n: nat): (c: char)
    requires n < 10
    ensures IsDigit(c)
  {
    '0' + n as char
  }

  function DigitValue(c: char): (n: nat)
    requires IsDigit(c)
    ensures n < 10 && Digit(n) == c
  {
    (c - '0') as nat
  }

  function NatText(n: nat): (s: string)
    ensures s != "" && AllDigits(s)
  {
    if n < 10 then [Digit(n)] else NatText(n / 10) + [Digit(n % 10)]
  }

  function NatValue(s: string): nat
    requires AllDigits(s)
  {
    if s == "" then 0 else NatValue(s[..|s| - 1]) * 10 + DigitValue(s[|s| - 1])
  }

  lemma {:induction false} NatValueText(n: nat)
    ensures NatValue(NatText(n)) == n
  {
    if n >= 10 {
      NatValueText(n / 10);
      assert NatText(n)[..|NatText(n)| - 1] == NatText(n / 10);
    }
  }

  function Itoa(n: int): string {
    if n < 0 then "-" + NatText(-n) else NatText(n)
  }

  // The text after an optional sign.
  function Unsigned(s: string): string {
    if s != "" && (s[0] == '+' || s[0] == '-') then s[1..] else s
  }

  function Atoi(s: string): (r: Option<int>)
    ensures r.Some? ==> IsInt(r.value)
  {
    var digits := Unsigned(s);
    if digits == "" || !AllDigits(digits) then None else
      var n: int := NatValue(digits);
      var n := if s[0] == '-' then -n else n;
      if IsInt(n) then Some(n) else None
  }

  lemma AtoiDigits(s: string)
    requires s != "" && AllDigits(s)
    ensures Unsigned(s) == s && s[0] != '-'
  {
    assert IsDigit(s[0]);
  }

  /** Reading back a printed integer gives the integer. */
  lemma AtoiItoa(n: int)
    requires IsInt(n)
    ensures Atoi(Itoa(n)) == Some(n)
  {
    if n < 0 {
      NatValueText(-n);
      assert Unsigned("-" + NatText(-n)) == NatText(-n);
    } else {
      NatValueText(n);
      AtoiDigits(NatText(n));
    }
  }

  /** Printing is decimal: the ten digits, one more digit at the end for each power of ten, a sign in front. */
  lemma ItoaIs(n: nat, d: nat)
    requires d < 10
    ensures Itoa(d) == ["0123456789"[d]]
    ensures n > 0 ==> Itoa(10 * n + d) == Itoa(n) + ["0123456789"[d]]
    ensures n > 0 ==> Itoa(0 - n) == "-" + Itoa(n)
  {
    DigitIs(d);
    assert (10 * n + d) / 10 == n && (10 * n + d) % 10 == d;
  }

  lemma DigitIs(d: nat)
    requires d < 10
    ensures Digit(d) == "0123456789"[d]
  {
    assert '0' + 1 as char == '1' && '0' + 2 as char == '2' && '0' + 3 as char == '3' && '0' + 4 as char == '4';
    assert '0' + 5 as char == '5' && '0' + 6 as char == '6' && '0' + 7 as char == '7' && '0' + 8 as char == '8';
  }

  /** Reading takes a plus sign and leading zeros, and nothing past 64 bits. */
  lemma AtoiIs(s: string)
    requires s != "" && AllDigits(s)
    ensures Atoi("") == Atoi("+") == Atoi("-") == None
    ensures Atoi("0" + s) == Atoi("+" + s) == Atoi(s)
    ensures Atoi(s) == if NatValue(s) <= 0x7FFF_FFFF_FFFF_FFFF then Some(NatValue(s)) else None
    ensures Atoi("-" + s) == if NatValue(s) <= 0x8000_0000_0000_0000 then Some(0 - NatValue(s)) else None
  {
    AtoiUnsigned(s);
    LeadingZero(s);
    AtoiUnsigned("0" + s);
    AtoiSigned(s);
  }

  lemma AtoiUnsigned(s: string)
    requires s != "" && AllDigits(s)
    ensures Atoi(s) == if NatValue(s) <= MAX_INT then Some(NatValue(s)) else None
  {
    AtoiDigits(s);
  }

  lemma AtoiSigned(s: string)
    requires s != "" && AllDigits(s)
    ensures Atoi("+" + s) == if NatValue(s) <= MAX_INT then Some(NatValue(s)) else None
    ensures Atoi("-" + s) == if 0 - NatValue(s) >= MIN_INT then Some(0 - NatValue(s)) else None
  {
    assert Unsigned("+" + s) == s && Unsigned("-" + s) == s;
  }

  lemma {:induction false} LeadingZero(s: string)
    requires AllDigits(s)
    ensures AllDigits("0" + s) && NatValue("0" + s) == NatValue(s)
  {
    var z := "0" + s;
    if s != "" {
      LeadingZero(s[..|s| - 1]);
      assert z[..|z| - 1] == "0" + s[..|s| - 1];
    } else {
      assert z[..0] == "";
    }
  }

  /** A character that is no digit spoils a number, but for a sign in front. */
  lemma AtoiSpoiled(s: string, i: nat)
    requires i < |s| && !IsDigit(s[i]) && (i > 0 || (s[0] != '+' && s[0] != '-'))
    ensures Atoi(s) == None
  {
    var digits := Unsigned(s);
    if digits == s {
      assert !IsDigit(digits[i]);
    } else {
      assert !IsDigit(digits[i - 1]);
    }
  }

  // Exactly `width` digits.
  function Fixed(n: nat, width: nat): (s: string)
    ensures |s| == width && AllDigits(s)
  {
    if width == 0 then "" else Fixed(n / 10, width - 1) + [Digit(n % 10)]
  }

  lemma {:induction false} NatValueFixed(n: nat, width: nat, limit: nat)
    requires n < limit && limit == Power10(width)
    ensures NatValue(Fixed(n, width)) == n
  {
    if width > 0 {
      NatValueFixed(n / 10, width - 1, Power10(width - 1));
      assert Fixed(n, width)[..width - 1] == Fixed(n / 10, width - 1);
    }
  }

  lemma {:induction false} FixedValue(s: string)
    requires AllDigits(s)
    ensures Fixed(NatValue(s), |s|) == s
  {
    if s != "" {
      var front, last := s[..|s| - 1], DigitValue(s[|s| - 1]);
      FixedValue(front);
      assert (NatValue(front) * 10 + last) / 10 == NatValue(front) && (NatValue(front) * 10 + last) % 10 == last;
      assert s == front + [s[|s| - 1]];
    }
  }

  function Power10(k: nat): nat {
    if k == 0 then 1 else 10 * Power10(k - 1)
  }
}
