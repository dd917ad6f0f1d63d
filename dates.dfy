/** get_date: today's date as `<year>-<MM>-<DD>`. The clock itself is not
    modelled; the caller supplies the year, the month index (0 for January,
    as `Date.getMonth` returns it) and the day of the month. */
module Dates {
  import opened Wrappers

  predicate IsDigit(c: char) {
    '0' <= c <= '9'
  }

  function Digit(n: nat): (c: char)
    requires n < 10
    ensures IsDigit(c) && (c == '0' <==> n == 0)
  {
    "0123456789"[n]
  }

  function DigitValue(c: char): nat {
    if IsDigit(c) then (c - '0') as nat else 0
  }

  /** A number in a template literal: its decimal digits, no leading zero. */
  function NatToString(n: nat): (s: string)
    ensures 1 <= |s|
    ensures forall i :: 0 <= i < |s| ==> IsDigit(s[i])
    ensures n >= 10 ==> s[0] != '0'
    ensures n < 10 ==> |s| == 1
    ensures 10 <= n < 100 ==> |s| == 2
    decreases n
  {
    if n < 10 then [Digit(n)] else NatToString(n / 10) + [Digit(n % 10)]
  }

  /** Reads a string of decimal digits back as a number. */
  function ParseNat(s: string): nat
    decreases |s|
  {
    if s == [] then 0 else ParseNat(s[..|s| - 1]) * 10 + DigitValue(s[|s| - 1])
  }

  lemma {:induction false} ParseNatToString(n: nat)
    ensures ParseNat(NatToString(n)) == n
    decreases n
  {
    var s := NatToString(n);
    if n >= 10 {
      ParseNatToString(n / 10);
      assert s[..|s| - 1] == NatToString(n / 10);
    }
  }

  /** A month or a day: a leading '0' exactly when below 10. */
  function Pad2(n: nat): (r: string)
    ensures n < 100 ==> |r| == 2
    ensures n < 100 ==> (r[0] == '0' <==> n < 10)
    ensures forall i :: 0 <= i < |r| ==> IsDigit(r[i])
  {
    if n < 10 then "0" + NatToString(n) else NatToString(n)
  }

  lemma Pad2RoundTrip(n: nat)
    ensures ParseNat(Pad2(n)) == n
  {
    ParseNatToString(n);
    if n < 10 {
      var r := Pad2(n);
      assert r[..|r| - 1] == "0";
      assert ParseNat("0") == 0;
    }
  }

  /** get_date, with the clock reading passed in. */
  function GetDate(year: nat, monthIndex: nat, day: nat): string {
    NatToString(year) + "-" + Pad2(monthIndex + 1) + "-" + Pad2(day)
  }

  datatype DateParts = DateParts(year: nat, month: nat, day: nat)

  /** The reader a date column applies to `<year>-<MM>-<DD>`: the last six
      characters are `-MM-DD`, everything before them is the year. */
  function ParseDate(s: string): Option<DateParts> {
    if 7 <= |s| && s[|s| - 6] == '-' && s[|s| - 3] == '-' then
      Some(DateParts(ParseNat(s[..|s| - 6]), ParseNat(s[|s| - 5..|s| - 3]), ParseNat(s[|s| - 2..])))
    else
      None
  }

  /** How `<y>-<mm>-<dd>` with a two-character month and day splits. */
  lemma SplitDate(y: string, mm: string, dd: string)
    requires |mm| == 2 && |dd| == 2
    ensures var s := y + "-" + mm + "-" + dd;
      && |s| == |y| + 6
      && s[|s| - 6] == '-' && s[|s| - 3] == '-'
      && s[|s| - 5] == mm[0] && s[|s| - 2] == dd[0]
      && s[..|s| - 6] == y && s[|s| - 5..|s| - 3] == mm && s[|s| - 2..] == dd
  {
  }

  /** For every clock reading the date is `<year>-<MM>-<DD>` with two-digit
      month and day, and reading it back gives the year, the month index
      plus one and the day. */
  lemma GetDateRoundTrip(year: nat, monthIndex: nat, day: nat)
    requires monthIndex < 12 && 1 <= day <= 31
    ensures var s := GetDate(year, monthIndex, day);
      && |s| == |NatToString(year)| + 6
      && s[|s| - 6] == '-' && s[|s| - 3] == '-'
      && (s[|s| - 5] == '0' <==> monthIndex + 1 < 10)
      && (s[|s| - 2] == '0' <==> day < 10)
      && ParseDate(s) == Some(DateParts(year, monthIndex + 1, day))
  {
    var y, mm, dd := NatToString(year), Pad2(monthIndex + 1), Pad2(day);
    SplitDate(y, mm, dd);
    ParseNatToString(year);
    Pad2RoundTrip(monthIndex + 1);
    Pad2RoundTrip(day);
  }
}
