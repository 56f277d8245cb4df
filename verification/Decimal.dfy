/** Printing and reading the 64-bit ids that travel inside button ids and database rows. */
module Decimal {
  import opened Strings

  const MAX_ID := 0xFFFF_FFFF_FFFF_FFFF

  /** `dpp::snowflake`: an unsigned 64-bit number. */
  type UserId = n: int | 0 <= n <= 0xFFFF_FFFF_FFFF_FFFF

  predicate IsDigit(c: char) {
    '0' <= c <= '9'
  }

  function DigitChar(d: nat): (c: char)
    requires d < 10
    ensures IsDigit(c) && DigitValue(c) == d
  {
    (48 + d) as char
  }

  function DigitValue(c: char): (d: nat)
    requires IsDigit(c)
    ensures d < 10
  {
    c as int - 48
  }

  predicate AllDigits(s: string) {
    forall c :: c in s ==> IsDigit(c)
  }

  /** `std::to_string` of an unsigned number. */
  function ToString(n: nat): (s: string)
    ensures s != "" && AllDigits(s)
  {
    if n < 10 then [DigitChar(n)] else ToString(n / 10) + [DigitChar(n % 10)]
  }

  function Number(s: string): nat
    requires AllDigits(s)
  {
    if s == "" then 0
    else
      assert s[|s| - 1] in s;
      10 * Number(s[..|s| - 1]) + DigitValue(s[|s| - 1])
  }

  lemma {:induction false} NumberToString(n: nat)
    ensures Number(ToString(n)) == n
    decreases n
  {
    if n < 10 {
      assert [DigitChar(n)][..0] == "";
    } else {
      NumberToString(n / 10);
      var s := ToString(n);
      assert s[..|s| - 1] == ToString(n / 10);
    }
  }

  /** Different numbers print differently. */
  lemma ToStringInjective(m: nat, n: nat)
    requires ToString(m) == ToString(n)
    ensures m == n
  {
    NumberToString(m);
    NumberToString(n);
  }

  /** Digit by digit: the last digit is appended to the text of the rest. */
  lemma DigitByDigit(n: nat, d: nat)
    requires d < 10
    ensures ToString(d) == ["0123456789"[d]]
    ensures n > 0 ==> ToString(10 * n + d) == ToString(n) + ["0123456789"[d]]
  {
    assert DigitChar(d) == "0123456789"[d];
    assert (10 * n + d) / 10 == n && (10 * n + d) % 10 == d;
  }

  predicate IsSpace(c: char) {
    c == ' ' || 9 as char <= c <= 13 as char
  }

  function SkipSpaces(s: string): string {
    if s != "" && IsSpace(s[0]) then SkipSpaces(s[1..]) else s
  }

  /** The longest run of digits at the front. */
  function LeadingDigits(s: string): (w: string)
    ensures AllDigits(w)
  {
    if s != "" && IsDigit(s[0]) then [s[0]] + LeadingDigits(s[1..]) else ""
  }

  datatype Parsed = Value(id: UserId) | InvalidArgument | OutOfRange

  /** `std::stoull`: leading spaces, an optional sign, then as many digits as there are. A minus sign
      negates modulo 2^64. The two error cases are the exceptions it throws. */
  function Stoull(text: string): Parsed {
    var s := SkipSpaces(text);
    var signed := s != "" && (s[0] == '-' || s[0] == '+');
    var digits := LeadingDigits(if signed then s[1..] else s);
    if digits == "" then InvalidArgument
    else
      var n := Number(digits);
      if n > MAX_ID then OutOfRange
      else if signed && s[0] == '-' then Value(if n == 0 then 0 else MAX_ID + 1 - n)
      else Value(n)
  }

  lemma {:induction false} LeadingDigitsOf(w: string, rest: string)
    requires AllDigits(w) && (rest == "" || !IsDigit(rest[0]))
    ensures LeadingDigits(w + rest) == w
    decreases |w|
  {
    if w == "" {
      assert w + rest == rest;
    } else {
      var c, t := w[0], w[1..];
      assert w == [c] + t;
      assert IsDigit(c);
      TailOfConcat(w, rest);
      LeadingDigitsOf(t, rest);
    }
  }

  /** Reading a printed id returns the id, whatever non-digit follows it. */
  lemma ReadPrinted(id: UserId, rest: string)
    requires rest == "" || !IsDigit(rest[0])
    ensures Stoull(ToString(id) + rest) == Value(id)
  {
    var w := ToString(id);
    var s := w + rest;
    assert s[0] == w[0] && w[0] in w;
    assert SkipSpaces(s) == s;
    LeadingDigitsOf(w, rest);
    NumberToString(id);
  }

  /** A sign is accepted; a minus negates modulo 2^64. */
  lemma ReadSigned(id: UserId, sign: char, rest: string)
    requires (sign == '-' || sign == '+') && (rest == "" || !IsDigit(rest[0]))
    ensures Stoull([sign] + (ToString(id) + rest)) == Value(if sign == '+' || id == 0 then id else 0x1_0000_0000_0000_0000 - id)
  {
    var w := ToString(id);
    var s := [sign] + (w + rest);
    assert s[1..] == w + rest;
    assert SkipSpaces(s) == s;
    LeadingDigitsOf(w, rest);
    NumberToString(id);
  }

  /** Leading white space is skipped. */
  lemma ReadSpaces(c: char, s: string)
    requires c == ' ' || 9 as char <= c <= 13 as char
    ensures Stoull([c] + s) == Stoull(s)
  {
    assert ([c] + s)[1..] == s;
  }

  /** Text that begins with nothing that can be read is no number. */
  lemma ReadNoNumber(s: string)
    requires s == "" || (s[0] != '-' && s[0] != '+' && !(9 as char <= s[0] <= 13 as char) && s[0] != ' ' && !('0' <= s[0] <= '9'))
    ensures Stoull(s) == InvalidArgument
  {
    assert SkipSpaces(s) == s;
  }

  /** A number of more than 64 bits is out of range. */
  lemma ReadTooLarge(n: nat)
    requires n >= 0x1_0000_0000_0000_0000
    ensures Stoull(ToString(n)) == OutOfRange
  {
    var w := ToString(n);
    assert w[0] in w;
    assert SkipSpaces(w) == w;
    LeadingDigitsOf(w, "");
    assert w + "" == w;
    NumberToString(n);
  }
}
