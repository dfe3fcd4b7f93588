/** Port numbers in a URL: `std::stoi` and decimal output. */
module UrlNumbers {
  import opened Common
  import opened UrlScan

  const INT_MAX := 0x7FFF_FFFF
  const INT_MIN := -0x8000_0000
  const UINT_RANGE := 0x1_0000_0000

  function DigitOf(n: nat): char
    requires n < 10
  {
    "0123456789"[n]
  }

  function ValueOf(c: char): nat
    requires Digit.Has(c)
  {
    c as int - '0' as int
  }

  /** Decimal output of an `unsigned`. */
  function Decimal(n: nat): (s: string)
    ensures s != "" && Digit.All(s)
  {
    if n < 10 then [DigitOf(n)] else Decimal(n / 10) + [DigitOf(n % 10)]
  }

  function Number(s: string): nat
    requires Digit.All(s)
  {
    if s == "" then 0 else 10 * Number(s[..|s| - 1]) + ValueOf(s[|s| - 1])
  }

  lemma NumberOfMore(s: string, c: char)
    requires Digit.All(s) && Digit.Has(c)
    ensures Digit.All(s + [c]) && Number(s + [c]) == 10 * Number(s) + ValueOf(c)
  {
    assert (s + [c])[..|s|] == s;
  }

  lemma DigitValue(n: nat)
    requires n < 10
    ensures Digit.Has(DigitOf(n)) && ValueOf(DigitOf(n)) == n
  {
  }

  lemma NoDigits()
    ensures Digit.All("") && Number("") == 0
  {
  }

  lemma {:induction false} NumberOfDecimal(n: nat)
    ensures Number(Decimal(n)) == n
  {
    hide DigitOf, ValueOf, Number, Class.All, Class.Has;
    DigitValue(n % 10);
    if n < 10 {
      NoDigits();
      NumberOfMore("", DigitOf(n));
      assert "" + [DigitOf(n)] == [DigitOf(n)];
    } else {
      NumberOfDecimal(n / 10);
      NumberOfMore(Decimal(n / 10), DigitOf(n % 10));
    }
  }

  /** A number with this sign, if it fits an `int`. */
  function Fitting(value: int, negative: bool): (r: Option<int>)
    ensures r.Some? ==> INT_MIN <= r.value <= INT_MAX
  {
    var n := if negative then -value else value;
    if INT_MIN <= n <= INT_MAX then Some(n) else None
  }

  /** The digits at the front, if they fit an `int` with this sign. */
  function Signed(s: string, negative: bool): Option<int> {
    var digits := s[..Leading(s, Digit)];
    if digits == "" then None else Fitting(Number(digits), negative)
  }

  /**
   * `std::stoi`: blanks are skipped, there may be a sign, and what follows the digits is ignored.
   * None is one of its exceptions: no digits, or out of range.
   */
  function Stoi(s: string): (r: Option<int>)
    ensures r.Some? ==> INT_MIN <= r.value <= INT_MAX
  {
    var t := s[Leading(s, Space)..];
    if t != "" && t[0] == '-' then Signed(t[1..], true)
    else if t != "" && t[0] == '+' then Signed(t[1..], false)
    else Signed(t, false)
  }

  /** Conversion of an `int` to `unsigned`. */
  function ToUnsigned(n: int): (u: nat)
    requires INT_MIN <= n <= INT_MAX
    ensures u < UINT_RANGE
  {
    n % UINT_RANGE
  }

  lemma SignedOfDigits(digits: string, rest: string, negative: bool)
    requires Digit.All(digits) && (rest == "" || !Digit.Has(rest[0]))
    ensures Signed(digits + rest, negative) == if digits == "" then None else Fitting(Number(digits), negative)
  {
    hide Number, Leading;
    LeadingIs(digits, rest, Digit);
    assert (digits + rest)[..|digits|] == digits;
  }

  /** What can follow blanks and a sign: digits, and then anything that is none. */
  predicate IsNumeral(sign: string, digits: string, rest: string) {
    && (sign == "" || sign == "+" || sign == "-")
    && Digit.All(digits)
    && (rest == "" || !Digit.Has(rest[0]))
    && (sign + digits == "" && rest != "" ==> !Space.Has(rest[0]) && rest[0] != '+' && rest[0] != '-')
  }

  /** Any number at the front is read, after blanks and a sign, and whatever follows; without digits nothing is. */
  lemma StoiOfNumeral(blanks: string, sign: string, digits: string, rest: string)
    requires Space.All(blanks) && IsNumeral(sign, digits, rest)
    ensures Stoi(blanks + (sign + (digits + rest)))
         == if digits == "" then None else Fitting(Number(digits), sign == "-")
  {
    var t := sign + (digits + rest);
    SignOrDigitFirst(sign, digits, rest);
    hide Signed, Number, Leading;
    LeadingIs(blanks, t, Space);
    assert (blanks + t)[|blanks|..] == t;
    assert sign != "" ==> t[1..] == digits + rest;
    SignedOfDigits(digits, rest, sign == "-");
  }

  lemma SignOrDigitFirst(sign: string, digits: string, rest: string)
    requires IsNumeral(sign, digits, rest)
    ensures var t := sign + (digits + rest);
            && (t != "" ==> !Space.Has(t[0]))
            && (t != "" && t[0] == '-' ==> sign == "-")
            && (t != "" && t[0] == '+' ==> sign == "+")
            && (sign == "" ==> t == digits + rest)
  {
    if sign == "" && digits != "" {
      assert (digits + rest)[0] == digits[0];
    }
  }

  lemma DecimalIsNumeral(n: nat, sign: string)
    requires sign == "" || sign == "-"
    ensures IsNumeral(sign, Decimal(n), "") && "" + (sign + (Decimal(n) + "")) == sign + Decimal(n)
  {
  }

  /** A printed `unsigned` is read back exactly if it fits an `int`. */
  lemma StoiOfDecimal(n: nat)
    ensures Stoi(Decimal(n)) == if n <= INT_MAX then Some(n) else None
  {
    hide Stoi, IsNumeral;
    DecimalIsNumeral(n, "");
    NumberOfDecimal(n);
    StoiOfNumeral("", "", Decimal(n), "");
    assert "" + Decimal(n) == Decimal(n);
  }

  /** A negative number, too, is read if it fits an `int`. */
  lemma StoiOfNegative(n: nat)
    ensures var value: int := n;
            Stoi("-" + Decimal(n)) == if value <= -INT_MIN then Some(-value) else None
  {
    hide Stoi, IsNumeral;
    DecimalIsNumeral(n, "-");
    NumberOfDecimal(n);
    StoiOfNumeral("", "-", Decimal(n), "");
  }

  /** Ports that come from negative numbers are those that are not read back. */
  lemma NegativePorts(n: int)
    requires INT_MIN <= n <= INT_MAX
    ensures ToUnsigned(n) <= INT_MAX <==> n >= 0
    ensures ToUnsigned(n) == if n >= 0 then n else n + UINT_RANGE
  {
  }
}
