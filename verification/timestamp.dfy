/** The completion timestamp text: how a stored completion is written (the
    database adapter's `YYYY-MM-DD HH:MM:SS`, with `.ffffff` appended when
    the time has a fraction of a second) and how the streak calculator reads
    it back (`YYYY-MM-DD HH:MM:SS` and nothing else). */
module Timestamp {
  import opened Outcomes
  import opened Calendar

  predicate IsDigit(c: char) {
    '0' <= c <= '9'
  }

  predicate AllDigits(s: string) {
    forall i :: 0 <= i < |s| ==> IsDigit(s[i])
  }

  function Pow10(n: nat): nat {
    if n == 0 then 1 else 10 * Pow10(n - 1)
  }

  /** The number a string of decimal digits denotes. */
  function DecimalValue(s: string): (v: nat)
    requires AllDigits(s)
    ensures v < Pow10(|s|)
  {
    if |s| == 0 then 0
    else 10 * DecimalValue(s[..|s| - 1]) + (s[|s| - 1] as int - '0' as int)
  }

  /** n written with exactly `width` decimal digits, padded with leading zeros. */
  function ZeroPadded(n: nat, width: nat): (s: string)
    ensures |s| == width && AllDigits(s)
  {
    if width == 0 then []
    else ZeroPadded(n / 10, width - 1) + [('0' as int + n % 10) as char]
  }

  lemma {:induction false} DecimalOfZeroPadded(n: nat, width: nat)
    requires n < Pow10(width)
    ensures DecimalValue(ZeroPadded(n, width)) == n
    decreases width
  {
    if width > 0 {
      var s := ZeroPadded(n, width);
      assert s[..width - 1] == ZeroPadded(n / 10, width - 1);
      DecimalOfZeroPadded(n / 10, width - 1);
    }
  }

  lemma {:induction false} ZeroPaddedOfDecimal(s: string)
    requires AllDigits(s)
    ensures ZeroPadded(DecimalValue(s), |s|) == s
    decreases |s|
  {
    if |s| > 0 {
      var init := s[..|s| - 1];
      assert AllDigits(init);
      ZeroPaddedOfDecimal(init);
      assert s == init + [s[|s| - 1]];
    }
  }

  /** Six fields joined as `Y-M-D H:M:S`. */
  function Layout(year: string, month: string, day: string, hour: string, minute: string, second: string): string {
    year + "-" + month + "-" + day + " " + hour + ":" + minute + ":" + second
  }

  /** The text the store keeps for a completion, as the database adapter
      writes a timestamp: the fixed-width `YYYY-MM-DD HH:MM:SS`, then the
      microseconds as `.ffffff` unless they are 0. */
  function Format(t: DateTime): string
    requires ValidDateTime(t)
  {
    Layout(ZeroPadded(t.date.year, 4), ZeroPadded(t.date.month, 2), ZeroPadded(t.date.day, 2),
           ZeroPadded(t.hour, 2), ZeroPadded(t.minute, 2), ZeroPadded(t.second, 2))
    + Fraction(t.microsecond)
  }

  /** The fractional part of a written timestamp: nothing for a whole second. */
  function Fraction(microsecond: nat): string {
    if microsecond == 0 then "" else "." + ZeroPadded(microsecond, 6)
  }

  /** Nineteen characters: digits in the field positions, the separators
      '-', '-', ' ', ':', ':' at positions 4, 7, 10, 13 and 16. */
  predicate WellShaped(s: string) {
    && |s| == 19
    && AllDigits(s[0..4]) && s[4] == '-' && AllDigits(s[5..7]) && s[7] == '-' && AllDigits(s[8..10])
    && s[10] == ' '
    && AllDigits(s[11..13]) && s[13] == ':' && AllDigits(s[14..16]) && s[16] == ':' && AllDigits(s[17..19])
  }

  /** Reads `YYYY-MM-DD HH:MM:SS`, rejecting any other shape (a fraction of a
      second included) and any field out of range (month 1-12, a day that
      exists in that month, year from 1, hour 0-23, minute and second 0-59). */
  function Parse(s: string): (r: Result<DateTime>)
    ensures r.Ok? ==> ValidDateTime(r.value) && r.value.date.year < 10000 && r.value.microsecond == 0
    ensures r.Err? ==> r.error == MalformedTimestamp(s)
  {
    if !WellShaped(s) then Err(MalformedTimestamp(s))
    else
      var t := DateTime(
        Date(DecimalValue(s[0..4]), DecimalValue(s[5..7]), DecimalValue(s[8..10])),
        DecimalValue(s[11..13]), DecimalValue(s[14..16]), DecimalValue(s[17..19]), 0);
      if ValidDateTime(t) then Ok(t) else Err(MalformedTimestamp(s))
  }

  /** Where the fields of a laid-out text sit. */
  lemma LayoutFields(year: string, month: string, day: string, hour: string, minute: string, second: string)
    requires |year| == 4 && |month| == 2 && |day| == 2 && |hour| == 2 && |minute| == 2 && |second| == 2
    ensures var s := Layout(year, month, day, hour, minute, second);
      && |s| == 19
      && s[0..4] == year && s[4] == '-' && s[5..7] == month && s[7] == '-' && s[8..10] == day
      && s[10] == ' ' && s[11..13] == hour && s[13] == ':' && s[14..16] == minute && s[16] == ':'
      && s[17..19] == second
  {
  }

  /** A nineteen-character text is the layout of its own fields when the
      separators are in place. */
  lemma LayoutOfFields(s: string)
    requires |s| == 19 && s[4] == '-' && s[7] == '-' && s[10] == ' ' && s[13] == ':' && s[16] == ':'
    ensures s == Layout(s[0..4], s[5..7], s[8..10], s[11..13], s[14..16], s[17..19])
  {
  }

  /** Every whole-second timestamp with a four-digit year reads back from
      its text. */
  lemma ParseOfFormat(t: DateTime)
    requires ValidDateTime(t) && t.date.year < 10000 && t.microsecond == 0
    ensures Parse(Format(t)) == Ok(t)
  {
    assert Format(t) == Layout(ZeroPadded(t.date.year, 4), ZeroPadded(t.date.month, 2), ZeroPadded(t.date.day, 2),
                               ZeroPadded(t.hour, 2), ZeroPadded(t.minute, 2), ZeroPadded(t.second, 2));
    LayoutFields(ZeroPadded(t.date.year, 4), ZeroPadded(t.date.month, 2), ZeroPadded(t.date.day, 2),
                 ZeroPadded(t.hour, 2), ZeroPadded(t.minute, 2), ZeroPadded(t.second, 2));
    DecimalOfZeroPadded(t.date.year, 4);
    DecimalOfZeroPadded(t.date.month, 2);
    DecimalOfZeroPadded(t.date.day, 2);
    DecimalOfZeroPadded(t.hour, 2);
    DecimalOfZeroPadded(t.minute, 2);
    DecimalOfZeroPadded(t.second, 2);
  }

  /** Every accepted text is the formatted form of what it parses to: the
      parser accepts exactly the texts Format produces. */
  lemma FormatOfParse(s: string)
    requires Parse(s).Ok?
    ensures Format(Parse(s).value) == s
  {
    ZeroPaddedOfDecimal(s[0..4]);
    ZeroPaddedOfDecimal(s[5..7]);
    ZeroPaddedOfDecimal(s[8..10]);
    ZeroPaddedOfDecimal(s[11..13]);
    ZeroPaddedOfDecimal(s[14..16]);
    ZeroPaddedOfDecimal(s[17..19]);
    LayoutOfFields(s);
    assert Fraction(0) == [];
  }

  /** A timestamp with a fraction of a second is written in 26 characters,
      which the reader refuses. */
  lemma FractionUnreadable(t: DateTime)
    requires ValidDateTime(t) && t.microsecond != 0
    ensures |Format(t)| == 26
    ensures Parse(Format(t)) == Err(MalformedTimestamp(Format(t)))
  {
    LayoutFields(ZeroPadded(t.date.year, 4), ZeroPadded(t.date.month, 2), ZeroPadded(t.date.day, 2),
                 ZeroPadded(t.hour, 2), ZeroPadded(t.minute, 2), ZeroPadded(t.second, 2));
  }

  /** The written text of a timestamp reads back exactly when the timestamp
      is a whole second, and then reads back as that timestamp. */
  lemma FormatReadable(t: DateTime)
    requires ValidDateTime(t) && t.date.year < 10000
    ensures Parse(Format(t)).Ok? <==> t.microsecond == 0
    ensures t.microsecond == 0 ==> Parse(Format(t)) == Ok(t)
  {
    if t.microsecond == 0 {
      ParseOfFormat(t);
    } else {
      FractionUnreadable(t);
    }
  }
}
