/** The block explorer's date formatter: six calendar components written as
    `Y年MM月DD日 hh时mm分ss秒`, with the month shifted from 0-based to 1-based
    and every field but the year padded to two characters. */
module ChineseDate {
  import opened Decimal
  import opened JsText

  /** What the six `Date` getters return: full year, 0-based month, day of
      the month, hours, minutes and seconds, each in the host's local time. */
  datatype DateParts = DateParts(
    year: Number, month0: Number, day: Number,
    hour: Number, minute: Number, second: Number)

  /** What every getter of an invalid `Date` returns. */
  function InvalidDate(): (d: DateParts)
    ensures d.year.NaN? && d.month0.NaN? && d.day.NaN?
    ensures d.hour.NaN? && d.minute.NaN? && d.second.NaN?
  {
    DateParts(NaN, NaN, NaN, NaN, NaN, NaN)
  }

  /** The ranges the getters of a valid `Date` keep to (the year is any
      integer). */
  predicate InCalendarRange(d: DateParts) {
    && d.year.Int?
    && d.month0.Int? && 0 <= d.month0.v < 12
    && d.day.Int? && 1 <= d.day.v <= 31
    && d.hour.Int? && 0 <= d.hour.v < 24
    && d.minute.Int? && 0 <= d.minute.v < 60
    && d.second.Int? && 0 <= d.second.v < 60
  }

  /** The padding idiom `("0" + x).slice(-2)`: prefix a zero, keep the last
      two characters. */
  function Pad2(x: Number): (r: string)
    ensures |r| == 2
  {
    Slice("0" + ToString(x), -2)
  }

  /** The formatted date: the year's own text, then the month (shifted by
      one), day, hour, minute and second, each padded, behind their unit
      markers, with one space after the day. */
  function FormatChineseDate(d: DateParts): (r: string)
    ensures |r| == |ToString(d.year)| + 17
    ensures r[..|ToString(d.year)|] == ToString(d.year)
  {
    ToString(d.year) + "年" + Pad2(Add(d.month0, 1)) + "月" + Pad2(d.day) + "日"
      + " " + Pad2(d.hour) + "时" + Pad2(d.minute) + "分" + Pad2(d.second) + "秒"
  }

  /** Reads a formatted date back from the fixed offsets of its last 17
      characters: the unit markers and the space must sit where the formatter
      puts them, the year before the `年` marker must be a signed integer and
      each two-character field must be two digits. */
  function ParseChineseDate(s: string): (r: Option<DateParts>)
    ensures r.Some? ==> 18 <= |s| && ReadableRanges(r.value)
  {
    if |s| < 18 then None
    else
      var n := |s| - 17;
      if s[n] != '年' || s[n + 3] != '月' || s[n + 6] != '日' || s[n + 7] != ' '
        || s[n + 10] != '时' || s[n + 13] != '分' || s[n + 16] != '秒' then None
      else
        var y := ParseInt(s[..n]);
        var mo := ParseTwoDigits(s[n + 1..n + 3]);
        var dd := ParseTwoDigits(s[n + 4..n + 6]);
        var hh := ParseTwoDigits(s[n + 8..n + 10]);
        var mi := ParseTwoDigits(s[n + 11..n + 13]);
        var ss := ParseTwoDigits(s[n + 14..n + 16]);
        if y.None? || mo.None? || dd.None? || hh.None? || mi.None? || ss.None? then None
        else Some(DateParts(Int(y.value), Int(mo.value - 1), Int(dd.value),
                            Int(hh.value), Int(mi.value), Int(ss.value)))
  }

  /** Every component is an integer and every padded one is below 100 (the
      month, read as 1-based, at most 99). */
  predicate ReadableRanges(d: DateParts) {
    && d.year.Int?
    && d.month0.Int? && -1 <= d.month0.v < 99
    && d.day.Int? && 0 <= d.day.v < 100
    && d.hour.Int? && 0 <= d.hour.v < 100
    && d.minute.Int? && 0 <= d.minute.v < 100
    && d.second.Int? && 0 <= d.second.v < 100
  }

  /** Reads a field of exactly two digits. */
  function ParseTwoDigits(s: string): (r: Option<nat>)
    ensures r.Some? ==> r.value < 100
  {
    if |s| == 2 && AllDigits(s) then
      Some(10 * DigitValue(s[0]) + DigitValue(s[1]))
    else None
  }

  /** Padding keeps the last two characters of `0` followed by the text. */
  lemma Pad2Suffix(x: Number)
    ensures var t := "0" + ToString(x); Pad2(x) == t[|t| - 2..]
  {
  }

  /** A padded non-negative value is its tens digit and its units digit:
      values below 10 gain a leading zero, larger ones lose everything above
      the tens digit. */
  lemma Pad2Digits(v: nat)
    ensures Pad2(Int(v)) == [DigitChar(v / 10 % 10), DigitChar(v % 10)]
  {
    if v < 10 {
      Pad2SingleDigit(v);
      assert v / 10 % 10 == 0 && v % 10 == v;
    } else {
      Pad2LastTwoDigits(v);
    }
  }

  /** Values 0..9 become `0` followed by their digit. */
  lemma Pad2SingleDigit(v: nat)
    requires v < 10
    ensures Pad2(Int(v)) == ['0', DigitChar(v)]
  {
    assert ToString(Int(v)) == [DigitChar(v)];
    Pad2Suffix(Int(v));
  }

  /** Values from 10 up keep only their last two digits. */
  lemma Pad2LastTwoDigits(v: nat)
    requires 10 <= v
    ensures Pad2(Int(v)) == [DigitChar(v / 10 % 10), DigitChar(v % 10)]
  {
    var digits := NatToString(v);
    assert ToString(Int(v)) == digits;
    Pad2Suffix(Int(v));
    NatToStringLastTwo(v);
    LastTwoOfPrefixed(digits);
  }

  /** Prefixing a text of at least two characters leaves its last two alone. */
  lemma LastTwoOfPrefixed(digits: string)
    requires 2 <= |digits|
    ensures var t := "0" + digits;
      t[|t| - 2..] == [digits[|digits| - 2], digits[|digits| - 1]]
  {
  }

  /** Values 10..99 keep their own two-digit text unchanged. */
  lemma Pad2TwoDigits(v: nat)
    requires 10 <= v < 100
    ensures Pad2(Int(v)) == ToString(Int(v))
  {
    Pad2Digits(v);
    NatToStringLastTwo(v);
    NatToStringLength(v);
  }

  /** Every value below 100 reads back from its padded field. */
  lemma Pad2RoundTrip(v: nat)
    requires v < 100
    ensures ParseTwoDigits(Pad2(Int(v))) == Some(v)
  {
    Pad2Digits(v);
  }

  /** The month field of a 0-based month 0..11 is the 1-based month 1..12. */
  lemma MonthField(m0: int)
    requires 0 <= m0 < 12
    ensures ParseTwoDigits(Pad2(Add(Int(m0), 1))) == Some(m0 + 1)
    ensures m0 < 9 ==> Pad2(Add(Int(m0), 1)) == ['0', DigitChar(m0 + 1)]
    ensures 9 <= m0 ==> Pad2(Add(Int(m0), 1)) == ['1', DigitChar(m0 - 9)]
  {
    var v: nat := m0 + 1;
    assert Add(Int(m0), 1) == Int(v);
    Pad2Digits(v);
    Pad2RoundTrip(v);
    if m0 < 9 {
      assert v / 10 % 10 == 0 && v % 10 == v;
    } else {
      assert v / 10 % 10 == 1 && v % 10 == m0 - 9;
    }
  }

  /** `s` is the year text `y` followed by the markers, the space and the
      five two-character fields at the formatter's fixed offsets, and
      nothing else. */
  predicate LaidOut(s: string, y: string, mo: string, dd: string, hh: string, mi: string, ss: string) {
    var n := |y|;
    && |s| == n + 17 && s[..n] == y
    && s[n] == '年' && s[n + 1..n + 3] == mo && s[n + 3] == '月' && s[n + 4..n + 6] == dd
    && s[n + 6] == '日' && s[n + 7] == ' ' && s[n + 8..n + 10] == hh && s[n + 10] == '时'
    && s[n + 11..n + 13] == mi && s[n + 13] == '分' && s[n + 14..n + 16] == ss && s[n + 16] == '秒'
  }

  /** The left-to-right concatenation the formatter performs lays out any
      year text and any five two-character fields. */
  lemma PiecesLayout(y: string, mo: string, dd: string, hh: string, mi: string, ss: string)
    requires |mo| == 2 && |dd| == 2 && |hh| == 2 && |mi| == 2 && |ss| == 2
    ensures LaidOut(y + "年" + mo + "月" + dd + "日" + " " + hh + "时" + mi + "分" + ss + "秒",
                    y, mo, dd, hh, mi, ss)
  {
    var t := "年" + mo + "月" + dd + "日" + " " + hh + "时" + mi + "分" + ss + "秒";
    assert y + "年" + mo + "月" + dd + "日" + " " + hh + "时" + mi + "分" + ss + "秒" == y + t;
    assert |t| == 17;
    assert t[0] == '年' && t[3] == '月' && t[6] == '日' && t[7] == ' ';
    assert t[10] == '时' && t[13] == '分' && t[16] == '秒';
    assert t[1..3] == mo && t[4..6] == dd && t[8..10] == hh && t[11..13] == mi && t[14..16] == ss;
    ConcatAt(y, t);
    SliceAfter(y, t, 1, 3);
    SliceAfter(y, t, 4, 6);
    SliceAfter(y, t, 8, 10);
    SliceAfter(y, t, 11, 13);
    SliceAfter(y, t, 14, 16);
  }

  /** Positions of `a + b` past `a` are those of `b`. */
  lemma ConcatAt(a: string, b: string)
    ensures (a + b)[..|a|] == a
    ensures forall i :: 0 <= i < |b| ==> (a + b)[|a| + i] == b[i]
  {
  }

  /** A slice of `a + b` past `a` is the matching slice of `b`. */
  lemma SliceAfter(a: string, b: string, i: nat, j: nat)
    requires i <= j <= |b|
    ensures (a + b)[|a| + i..|a| + j] == b[i..j]
  {
    assert forall k :: 0 <= k < j - i ==> (a + b)[|a| + i..|a| + j][k] == b[i..j][k];
  }

  /** The output is the year's unpadded text, then the 1-based month, day,
      hour, minute and second, each padded to two characters, at fixed
      offsets behind their markers, with the one space after the day. */
  lemma FormatLayout(d: DateParts)
    ensures LaidOut(FormatChineseDate(d), ToString(d.year), Pad2(Add(d.month0, 1)),
                    Pad2(d.day), Pad2(d.hour), Pad2(d.minute), Pad2(d.second))
  {
    PiecesLayout(ToString(d.year), Pad2(Add(d.month0, 1)), Pad2(d.day), Pad2(d.hour),
                 Pad2(d.minute), Pad2(d.second));
  }

  /** Parsing looks only at the markers and at the six fields between them. */
  lemma ParseAtOffsets(s: string, y: string, mo: string, dd: string, hh: string, mi: string, ss: string)
    requires 1 <= |y| && LaidOut(s, y, mo, dd, hh, mi, ss)
    ensures var yr, mr, dr, hr, ir, sr :=
        ParseInt(y), ParseTwoDigits(mo), ParseTwoDigits(dd), ParseTwoDigits(hh), ParseTwoDigits(mi), ParseTwoDigits(ss);
      ParseChineseDate(s) ==
        if yr.None? || mr.None? || dr.None? || hr.None? || ir.None? || sr.None? then None
        else Some(DateParts(Int(yr.value), Int(mr.value - 1), Int(dr.value),
                            Int(hr.value), Int(ir.value), Int(sr.value)))
  {
  }

  /** Inside the calendar ranges every component reads back from the
      formatted text: the year from its unpadded text, the month as the
      1-based month minus one. */
  lemma FormatRoundTrip(d: DateParts)
    requires InCalendarRange(d)
    ensures ParseChineseDate(FormatChineseDate(d)) == Some(d)
  {
    var y, mo, dd, hh, mi, ss :=
      ToString(d.year), Pad2(Add(d.month0, 1)), Pad2(d.day), Pad2(d.hour), Pad2(d.minute), Pad2(d.second);
    assert Add(d.month0, 1) == Int(d.month0.v + 1);
    IntToStringRoundTrip(d.year.v);
    Pad2RoundTrip(d.month0.v + 1);
    Pad2RoundTrip(d.day.v);
    Pad2RoundTrip(d.hour.v);
    Pad2RoundTrip(d.minute.v);
    Pad2RoundTrip(d.second.v);
    FormatLayout(d);
    ParseAtOffsets(FormatChineseDate(d), y, mo, dd, hh, mi, ss);
  }

  /** Two different dates in the calendar ranges never format alike. */
  lemma FormatInjective(d: DateParts, e: DateParts)
    requires InCalendarRange(d) && InCalendarRange(e) && d != e
    ensures FormatChineseDate(d) != FormatChineseDate(e)
  {
    FormatRoundTrip(d);
    FormatRoundTrip(e);
  }

  /** An invalid date prints `NaN` for the year and `aN`, the last two
      characters of `0NaN`, for every padded field. */
  lemma InvalidDateText()
    ensures FormatChineseDate(InvalidDate()) == "NaN年aN月aN日 aN时aN分aN秒"
  {
    assert Pad2(NaN) == "aN";
  }
}
