/** `std::stoi` on a cell's text, as the C++ library defines it: leading
    white space is skipped, an optional sign and at least one decimal digit
    must follow, the digits end at the first other character (which is
    ignored with the rest of the text), and a value outside the range of a
    32-bit `int` is refused. The two refusals are the exceptions the call
    throws. */
module IntParse {
  import opened Wrappers

  datatype ConversionError =
    | InvalidArgument  // std::invalid_argument: no digits to convert
    | OutOfRange       // std::out_of_range: the value does not fit in an int

  const INT_MIN: int := -0x8000_0000
  const INT_MAX: int := 0x7fff_ffff

  predicate IsSpace(c: char)
  {
    c == ' ' || '\t' <= c <= '\r'
  }

  predicate IsDigit(c: char)
  {
    '0' <= c <= '9'
  }

  /** The text after the leading white space. */
  function SkipSpaces(s: string): (t: string)
    ensures t == [] || !IsSpace(t[0])
  {
    if s != [] && IsSpace(s[0]) then SkipSpaces(s[1..]) else s
  }

  /** Length of the run of digits at the start of `s`. */
  function DigitRun(s: string): (n: nat)
    ensures n <= |s|
    ensures forall k :: 0 <= k < n ==> IsDigit(s[k])
    ensures n < |s| ==> !IsDigit(s[n])
  {
    if s != [] && IsDigit(s[0]) then 1 + DigitRun(s[1..]) else 0
  }

  /** The value of a string of decimal digits. */
  function DigitsValue(ds: string): nat
    requires forall k :: 0 <= k < |ds| ==> IsDigit(ds[k])
  {
    if ds == [] then 0
    else
      assert IsDigit(ds[|ds| - 1]);
      DigitsValue(ds[..|ds| - 1]) * 10 + (ds[|ds| - 1] as int - '0' as int)
  }

  function Stoi(s: string): (r: Result<int, ConversionError>)
    ensures r.Success? ==> INT_MIN <= r.value <= INT_MAX
    ensures s == [] ==> r == Failure(InvalidArgument)
  {
    var t := SkipSpaces(s);
    if t != [] && t[0] == '-' then Convert(true, t[1..])
    else if t != [] && t[0] == '+' then Convert(false, t[1..])
    else Convert(false, t)
  }

  /** The conversion of the text after the sign: the leading digits, negated
      for a '-', checked against the int range. */
  function Convert(negative: bool, u: string): (r: Result<int, ConversionError>)
    ensures r.Success? ==> INT_MIN <= r.value <= INT_MAX
    ensures DigitRun(u) == 0 <==> r == Failure(InvalidArgument)
  {
    var n := DigitRun(u);
    if n == 0 then Failure(InvalidArgument)
    else
      var magnitude: int := DigitsValue(u[..n]);
      RangeChecked(if negative then -magnitude else magnitude)
  }

  /** The value when it fits in an int, OutOfRange otherwise. */
  function RangeChecked(v: int): Result<int, ConversionError>
  {
    if v < INT_MIN || v > INT_MAX then Failure(OutOfRange) else Success(v)
  }

  /** The decimal digit for 0 <= d < 10. */
  function Digit(d: nat): (c: char)
    requires d < 10
    ensures IsDigit(c) && c as int - '0' as int == d
  {
    ('0' as int + d) as char
  }

  /** The decimal digits of a natural number, without leading zeros. */
  function NatDigits(n: nat): (ds: string)
    ensures |ds| >= 1 && forall k :: 0 <= k < |ds| ==> IsDigit(ds[k])
  {
    if n < 10 then [Digit(n)] else NatDigits(n / 10) + [Digit(n % 10)]
  }

  /** The usual decimal text of an integer, with a '-' for negative ones. */
  function Decimal(n: int): string
  {
    if n < 0 then "-" + NatDigits(-n) else NatDigits(n)
  }

  lemma {:induction false} DigitsValueOfNatDigits(n: nat)
    ensures DigitsValue(NatDigits(n)) == n
  {
    if n >= 10 {
      var ds := NatDigits(n);
      assert ds[..|ds| - 1] == NatDigits(n / 10);
      DigitsValueOfNatDigits(n / 10);
    }
  }

  /** The digit run of digits followed by a non-digit (or nothing) is all of the digits. */
  lemma {:induction false} DigitRunOfDigits(ds: string, rest: string)
    requires forall k :: 0 <= k < |ds| ==> IsDigit(ds[k])
    requires rest == [] || !IsDigit(rest[0])
    ensures DigitRun(ds + rest) == |ds|
  {
    if ds == [] {
      assert ds + rest == rest;
    } else {
      assert (ds + rest)[0] == ds[0];
      assert (ds + rest)[1..] == ds[1..] + rest;
      DigitRunOfDigits(ds[1..], rest);
    }
  }

  /** Digits followed by a non-digit (or nothing) convert to their value. */
  lemma ConvertDigits(negative: bool, ds: string, rest: string)
    requires |ds| >= 1 && forall k :: 0 <= k < |ds| ==> IsDigit(ds[k])
    requires rest == [] || !IsDigit(rest[0])
    ensures Convert(negative, ds + rest) ==
            RangeChecked(if negative then -(DigitsValue(ds) as int) else DigitsValue(ds))
  {
    var u := ds + rest;
    DigitRunOfDigits(ds, rest);
    assert u[..DigitRun(u)] == ds;
  }

  /** A text that starts with '-' converts what follows it, negated. */
  lemma StoiOfMinus(u: string)
    ensures Stoi(['-'] + u) == Convert(true, u)
  {
    assert (['-'] + u)[0] == '-';
    assert (['-'] + u)[1..] == u;
  }

  /** A text that starts with a digit converts as it stands. */
  lemma StoiOfDigitFirst(s: string)
    requires s != [] && IsDigit(s[0])
    ensures Stoi(s) == Convert(false, s)
  {
  }

  /** The decimal text of a negative number: a '-', then the digits of its magnitude. */
  lemma DecimalOfNegative(n: int, rest: string)
    requires n < 0
    ensures Decimal(n) + rest == ['-'] + (NatDigits(-n) + rest)
  {
  }

  /** The digits of a magnitude, followed by a non-digit (or nothing), convert to it. */
  lemma ConvertNatDigits(negative: bool, m: nat, rest: string)
    requires rest == [] || !IsDigit(rest[0])
    ensures Convert(negative, NatDigits(m) + rest) == RangeChecked(if negative then -(m as int) else m)
  {
    DigitsValueOfNatDigits(m);
    ConvertDigits(negative, NatDigits(m), rest);
  }

  /** stoi reads back the decimal text of an integer, whatever non-digit text
      follows it, and refuses it exactly when it lies outside the int range. */
  lemma StoiOfDecimal(n: int, rest: string)
    requires rest == [] || !IsDigit(rest[0])
    ensures Stoi(Decimal(n) + rest) ==
            if INT_MIN <= n <= INT_MAX then Success(n) else Failure(OutOfRange)
  {
    if n < 0 {
      DecimalOfNegative(n, rest);
      StoiOfMinus(NatDigits(-n) + rest);
      ConvertNatDigits(true, -n, rest);
    } else {
      assert (NatDigits(n) + rest)[0] == NatDigits(n)[0];
      StoiOfDigitFirst(NatDigits(n) + rest);
      ConvertNatDigits(false, n, rest);
    }
  }
}
