/** The x-axis labels of the hourly-orders chart:
    `[f'{h} AM' if h < 12 else f'{h-12} PM' if h != 12 else '12 PM' for h in range(9, 16)]`. */
module HourLabels {
  import opened Options

  predicate IsDigit(c: char) {
    '0' <= c <= '9'
  }

  function DigitChar(d: nat): (c: char)
    requires d < 10
    ensures IsDigit(c)
  {
    (d + '0' as int) as char
  }

  function DigitValue(c: char): (d: nat)
    requires IsDigit(c)
    ensures d < 10 && DigitChar(d) == c
  {
    c as int - '0' as int
  }

  /** `str(n)` for a natural number: its decimal digits, without leading zeros. */
  function Decimal(n: nat): (s: string)
    ensures s != []
    ensures forall i :: 0 <= i < |s| ==> IsDigit(s[i])
    ensures s[0] == '0' ==> s == "0"
    decreases n
  {
    if n < 10 then [DigitChar(n)] else Decimal(n / 10) + [DigitChar(n % 10)]
  }

  function DigitsValue(s: string): nat
    requires forall i :: 0 <= i < |s| ==> IsDigit(s[i])
  {
    if s == [] then 0 else 10 * DigitsValue(s[..|s| - 1]) + DigitValue(s[|s| - 1])
  }

  /** The reference inverse of `Decimal`: the value of a non-empty string of
      decimal digits; `None` for anything else. */
  function ParseDecimal(s: string): (r: Option<nat>)
    ensures r.Some? <==> s != [] && forall i :: 0 <= i < |s| ==> IsDigit(s[i])
  {
    if s != [] && forall i :: 0 <= i < |s| ==> IsDigit(s[i]) then Some(DigitsValue(s)) else None
  }

  /** Parsing the decimal form of a number gives the number back. */
  lemma {:induction false} DecimalRoundTrip(n: nat)
    ensures ParseDecimal(Decimal(n)) == Some(n)
    decreases n
  {
    var s := Decimal(n);
    if n >= 10 {
      DecimalRoundTrip(n / 10);
      assert s[..|s| - 1] == Decimal(n / 10);
      assert DigitsValue(s) == 10 * (n / 10) + n % 10;
    } else {
      assert s[..0] == [];
    }
  }

  /** The label of hour `h` (0 to 23): the hour itself then " AM" before noon,
      so midnight is "0 AM" rather than "12 AM"; "12 PM" at noon; `h - 12`
      then " PM" after noon. */
  function HourLabel(h: nat): (r: string)
    ensures |r| >= 4
    ensures r[|r| - 3..] == if h < 12 then " AM" else " PM"
    ensures r[..|r| - 3] == Decimal(if h <= 12 then h else h - 12)
  {
    if h < 12 then
      SplitLabel(Decimal(h), " AM");
      Decimal(h) + " AM"
    else if h != 12 then
      SplitLabel(Decimal(h - 12), " PM");
      Decimal(h - 12) + " PM"
    else
      TwelveDigits();
      SplitLabel(Decimal(12), " PM");
      "12 PM"
  }

  lemma TwelveDigits()
    ensures Decimal(12) + " PM" == "12 PM"
  {
    assert Decimal(12) == Decimal(1) + [DigitChar(2)];
  }

  /** The rule labels midnight "0 AM", not "12 AM" as a 12-hour clock would. */
  lemma MidnightLabel()
    ensures HourLabel(0) == "0 AM"
  {
  }

  /** Reads a label back as an hour of the 24-hour clock. */
  function ParseHourLabel(s: string): (r: Option<nat>)
    ensures r.Some? ==> r.value < 24
  {
    if |s| < 4 then None
    else
      var number, suffix := s[..|s| - 3], s[|s| - 3..];
      match ParseDecimal(number)
      case None => None
      case Some(n) =>
        if suffix == " AM" && n < 12 then Some(n)
        else if suffix == " PM" && n == 12 then Some(12)
        else if suffix == " PM" && 1 <= n < 12 then Some(n + 12)
        else None
  }

  lemma SplitLabel(digits: string, suffix: string)
    requires |suffix| == 3 && digits != []
    ensures (digits + suffix)[..|digits + suffix| - 3] == digits
    ensures (digits + suffix)[|digits + suffix| - 3..] == suffix
  {
  }

  /** Every hour of the day gets a label of its own, from which it can be read
      back: "h AM" before noon, "12 PM" at noon, "(h - 12) PM" after. */
  lemma HourLabelRoundTrip(h: nat)
    requires h < 24
    ensures ParseHourLabel(HourLabel(h)) == Some(h)
  {
    DecimalRoundTrip(if h <= 12 then h else h - 12);
  }

  /** Distinct hours of the day have distinct labels. */
  lemma HourLabelInjective(h: nat, h': nat)
    requires h < 24 && h' < 24 && HourLabel(h) == HourLabel(h')
    ensures h == h'
  {
    HourLabelRoundTrip(h);
    HourLabelRoundTrip(h');
  }

  /** `hours`: the labels of the seven hourly buckets, `range(9, 16)`. */
  function Hours(): (r: seq<string>)
    ensures |r| == 7
    ensures forall i :: 0 <= i < 7 ==> ParseHourLabel(r[i]) == Some(9 + i)
  {
    var r := seq(7, i requires 0 <= i < 7 => HourLabel(9 + i));
    forall i | 0 <= i < 7
      ensures ParseHourLabel(r[i]) == Some(9 + i)
    {
      HourLabelRoundTrip(9 + i);
    }
    r
  }

  lemma SmallDecimals()
    ensures Decimal(1) == "1" && Decimal(2) == "2" && Decimal(3) == "3" && Decimal(9) == "9"
    ensures Decimal(10) == "10" && Decimal(11) == "11"
  {
    assert Decimal(10) == Decimal(1) + "0";
    assert Decimal(11) == Decimal(1) + "1";
  }

  lemma MorningLabels()
    ensures HourLabel(9) == "9 AM" && HourLabel(10) == "10 AM" && HourLabel(11) == "11 AM"
  {
    SmallDecimals();
  }

  lemma AfternoonLabels()
    ensures HourLabel(12) == "12 PM" && HourLabel(13) == "1 PM"
    ensures HourLabel(14) == "2 PM" && HourLabel(15) == "3 PM"
  {
    SmallDecimals();
  }

  /** The chart's labels run from "9 AM" to "3 PM": the bucket after 11 AM
      is "12 PM" and the last one is 3 PM, not 4 PM. */
  lemma HoursAreNineToThree()
    ensures Hours() == ["9 AM", "10 AM", "11 AM", "12 PM", "1 PM", "2 PM", "3 PM"]
  {
    MorningLabels();
    AfternoonLabels();
    assert Hours() == [HourLabel(9), HourLabel(10), HourLabel(11), HourLabel(12),
                       HourLabel(13), HourLabel(14), HourLabel(15)];
  }
}
