/** The top panel's clock text (script.js `updateClock`): weekday, month,
    day of the month, and the time as two-digit hours and minutes, e.g.
    `Tue Mar 5 09:07`.  The date fields come from the platform's clock and
    are parameters here. */
module Clock {
  import opened Common

  const Days: seq<string> := ["Sun", "Mon", "Tue", "Wed", "Thu", "Fri", "Sat"]
  const Months: seq<string> :=
    ["Jan", "Feb", "Mar", "Apr", "May", "Jun", "Jul", "Aug", "Sep", "Oct", "Nov", "Dec"]

  predicate IsDigit(c: char) {
    '0' <= c <= '9'
  }

  /** Every character of `s` is a decimal digit. */
  predicate Digits(s: string) {
    forall i :: 0 <= i < |s| ==> IsDigit(s[i])
  }

  /** The character of a decimal digit. */
  function DigitChar(d: nat): (c: char)
    requires d < 10
    ensures IsDigit(c)
  {
    ('0' as int + d) as char
  }

  /** The value of a decimal digit character. */
  function DigitValue(c: char): (d: nat)
    requires IsDigit(c)
    ensures d < 10
  {
    c as int - '0' as int
  }

  /** `String(n)`: the decimal digits of `n`, with no leading zero. */
  function Decimal(n: nat): (s: string)
    ensures |s| >= 1
    ensures Digits(s)
    ensures |s| > 1 ==> s[0] != '0'
    ensures n < 10 ==> |s| == 1
    ensures 10 <= n < 100 ==> |s| == 2
  {
    if n < 10 then [DigitChar(n)] else Decimal(n / 10) + [DigitChar(n % 10)]
  }

  /** Reading a string of decimal digits (leading zeros allowed). */
  function Value(s: string): nat
    requires Digits(s)
  {
    if |s| == 0 then 0 else 10 * Value(s[..|s| - 1]) + DigitValue(s[|s| - 1])
  }

  /** Printing then reading a number gives it back. */
  lemma {:induction false} ValueOfDecimal(n: nat)
    ensures Value(Decimal(n)) == n
  {
    var s := Decimal(n);
    if n >= 10 {
      ValueOfDecimal(n / 10);
      assert s[..|s| - 1] == Decimal(n / 10);
    } else {
      assert s[..0] == "";
    }
  }

  /** A leading zero does not change the value read. */
  lemma {:induction false} ValueLeadingZero(s: string)
    requires Digits(s)
    ensures Value("0" + s) == Value(s)
    decreases |s|
  {
    var z := "0" + s;
    if |s| == 0 {
      assert z[..0] == "";
    } else {
      assert z[..|z| - 1] == "0" + s[..|s| - 1];
      ValueLeadingZero(s[..|s| - 1]);
    }
  }

  /** `padStart(2, '0')`: zeros in front up to two characters. */
  function PadTwo(s: string): (r: string)
    ensures |r| == if |s| >= 2 then |s| else 2
    ensures r[|r| - |s|..] == s
    ensures forall i :: 0 <= i < |r| - |s| ==> r[i] == '0'
  {
    if |s| >= 2 then s else if |s| == 1 then "0" + s else "00"
  }

  /** A number below 100 printed and padded is two digits reading back to
      it. */
  lemma TwoDigits(n: nat)
    requires n < 100
    ensures |PadTwo(Decimal(n))| == 2
    ensures Digits(PadTwo(Decimal(n)))
    ensures Value(PadTwo(Decimal(n))) == n
  {
    ValueOfDecimal(n);
    if n < 10 {
      ValueLeadingZero(Decimal(n));
    }
  }

  /** The five fields of a clock text, as printed. */
  datatype Fields = Fields(dayName: string, monthName: string, date: string, hh: string, mm: string)

  /** The clock text: `day month date HH:MM`. */
  function Render(f: Fields): (r: string)
    ensures |r| == |f.dayName| + |f.monthName| + |f.date| + |f.hh| + |f.mm| + 4
  {
    f.dayName + " " + f.monthName + " " + f.date + " " + f.hh + ":" + f.mm
  }

  /** Splitting a clock text back into its fields, assuming three-letter
      names and two-digit times; `None` when the separators are not where
      that layout puts them. */
  function Parse(r: string): (f: Option<Fields>)
    ensures f.Some? ==> |f.value.dayName| == 3 && |f.value.monthName| == 3
    ensures f.Some? ==> |f.value.hh| == 2 && |f.value.mm| == 2
  {
    if |r| >= 14 && r[3] == ' ' && r[7] == ' ' && r[|r| - 6] == ' ' && r[|r| - 3] == ':' then
      Some(Fields(r[..3], r[4..7], r[8..|r| - 6], r[|r| - 5..|r| - 3], r[|r| - 2..]))
    else None
  }

  /** Rendering then parsing gives the fields back, for three-letter names
      and two-character times. */
  lemma ParseRender(f: Fields)
    requires |f.dayName| == 3 && |f.monthName| == 3 && |f.hh| == 2 && |f.mm| == 2
    ensures Parse(Render(f)) == Some(f)
  {
    var head := f.dayName + " " + f.monthName + " ";
    var tail := f.date + " " + f.hh + ":" + f.mm;
    var r := Render(f);
    assert r == head + tail;
    assert r[..3] == f.dayName by { assert r[..3] == head[..3]; }
    assert r[4..7] == f.monthName by { assert r[4..7] == head[4..7]; }
    assert r[8..|r| - 6] == f.date by { assert r[8..|r| - 6] == tail[..|f.date|]; }
    assert r[|r| - 5..|r| - 3] == f.hh by { assert r[|r| - 5..|r| - 3] == tail[|f.date| + 1..|f.date| + 3]; }
    assert r[|r| - 2..] == f.mm by { assert r[|r| - 2..] == tail[|f.date| + 4..]; }
  }

  /** What a reader takes from a clock text: the names and the three numbers. */
  datatype Reading = Reading(dayName: string, monthName: string, date: nat, hours: nat, minutes: nat)

  /** Reading a clock text: parse it and read the numeric fields. */
  function Read(r: string): (x: Option<Reading>)
    ensures x.Some? ==> Parse(r).Some?
  {
    match Parse(r)
    case None => None
    case Some(f) =>
      if Digits(f.date) && Digits(f.hh) && Digits(f.mm) then
        Some(Reading(f.dayName, f.monthName, Value(f.date), Value(f.hh), Value(f.mm)))
      else None
  }

  /** Every weekday name has three letters. */
  lemma DayNameLength(day: nat)
    requires day < |Days|
    ensures |Days[day]| == 3
  {
  }

  /** Every month name has three letters. */
  lemma MonthNameLength(month: nat)
    requires month < |Months|
    ensures |Months[month]| == 3
  {
  }

  /** `updateClock`'s text for weekday `day` (0 = Sunday), month `month`
      (0 = January), day of the month `date`, and the time of day as the
      platform's clock reports it.  The text reads back as the names and the
      numbers it was printed from: hours and minutes are padded to two
      digits, so the layout is unambiguous; the day of the month is printed
      unpadded. */
  function Format(day: nat, month: nat, date: nat, hours: nat, minutes: nat): (r: string)
    requires day < |Days| && month < |Months|
    requires hours < 24 && minutes < 60
    ensures Read(r) == Some(Reading(Days[day], Months[month], date, hours, minutes))
    ensures Parse(r).Some? && Parse(r).value.date == Decimal(date)
  {
    var f := Fields(Days[day], Months[month], Decimal(date), PadTwo(Decimal(hours)), PadTwo(Decimal(minutes)));
    DayNameLength(day);
    MonthNameLength(month);
    TwoDigits(hours);
    TwoDigits(minutes);
    ValueOfDecimal(date);
    ParseRender(f);
    Render(f)
  }
}
