/** `formatTime`: turns a 24-hour `"H:MM"` string into 12-hour form, and passes through strings
    that already say `am` or `pm`. The dashboard defines it but never calls it: the task list
    shows each task's time as stored. */
module TimeFormat {
  import opened JsNumbers
  import opened JsStrings

  /** The first field of `s.split(':')`: everything before the first colon. */
  function Hours(s: string): (h: string)
    ensures |h| <= |s| && h == s[..|h|]
    ensures forall i :: 0 <= i < |h| ==> h[i] != ':'
    ensures |h| < |s| ==> s[|h|] == ':'
  {
    if s == [] || s[0] == ':' then [] else [s[0]] + Hours(s[1..])
  }

  /** The second field of `s.split(':')`; without a colon the field is `undefined`, which the
      template literal prints as that word. */
  function Minutes(s: string): string
  {
    var h := Hours(s);
    if |h| == |s| then "undefined" else Hours(s[|h| + 1..])
  }

  /** `h % 12 || 12`: `NaN` and a zero remainder are falsy and give 12. */
  function Hour12(h: Parsed): (r: int)
    ensures -12 < r <= 12 && r != 0
    ensures h.Num? && h.n >= 0 ==> 1 <= r <= 12 && r % 12 == h.n % 12
    ensures h.NaN? ==> r == 12
    ensures h.Num? ==> (h.n - r) % 12 == 0
  {
    match h
    case NaN => 12
    case Num(n) => if JsRem12(n) == 0 then 12 else JsRem12(n)
  }

  /** `h >= 12 ? 'pm' : 'am'`; `NaN >= 12` is false. */
  function Meridiem(h: Parsed): (r: string)
    ensures r == "pm" <==> h.Num? && h.n >= 12
    ensures r == "am" <==> !(h.Num? && h.n >= 12)
  {
    if h.Num? && h.n >= 12 then "pm" else "am"
  }

  /** `${h12}:${minutes} ${ampm}`: the 12-hour text built from the fields of `s`. */
  function Clock12(s: string): string
  {
    var h := ParseInt(Hours(s));
    ToDecimal(Hour12(h)) + ":" + Minutes(s) + " " + Meridiem(h)
  }

  /** `formatTime`: empty text stays empty, text that says `am` or `pm` is kept, and anything
      else is rewritten from its fields. */
  function FormatTime(s: string): string
  {
    if s == [] then []
    else if Contains(s, "am") || Contains(s, "pm") then s
    else Clock12(s)
  }

  predicate IsClockText(s: string)
  {
    forall i :: 0 <= i < |s| ==> '0' <= s[i] <= '9' || s[i] == ':'
  }

  /** The three cases: the empty string gives the empty string, text that says `am` or `pm` is
      returned unchanged, and any other text is rewritten to end in ` am` or ` pm`. */
  lemma FormatTimeCases(s: string)
    ensures s == [] ==> FormatTime(s) == []
    ensures Contains(s, "am") || Contains(s, "pm") ==> FormatTime(s) == s
    ensures s != [] && !Contains(s, "am") && !Contains(s, "pm") ==>
      var r := FormatTime(s);
      |r| >= 3 && (r[|r| - 3..] == " am" || r[|r| - 3..] == " pm")
  {
    if s != [] && !Contains(s, "am") && !Contains(s, "pm") {
      var h := ParseInt(Hours(s));
      var prefix := ToDecimal(Hour12(h)) + ":" + Minutes(s);
      assert FormatTime(s) == prefix + " " + Meridiem(h);
      EndsWithMeridiem(prefix, Meridiem(h));
    }
  }

  lemma EndsWithMeridiem(prefix: string, m: string)
    requires m == "am" || m == "pm"
    ensures var r := prefix + " " + m;
      |r| >= 3 && (r[|r| - 3..] == " am" || r[|r| - 3..] == " pm")
  {
    var r := prefix + " " + m;
    assert r[|r| - 3..] == " " + m;
  }

  /** Formatting twice changes nothing more: every result says `am` or `pm`. */
  lemma FormatTimeIdempotent(s: string)
    ensures FormatTime(FormatTime(s)) == FormatTime(s)
  {
    if s != [] && !Contains(s, "am") && !Contains(s, "pm") {
      var h := ParseInt(Hours(s));
      var prefix := ToDecimal(Hour12(h)) + ":" + Minutes(s) + " ";
      assert FormatTime(s) == prefix + Meridiem(h);
      ContainsSuffix(prefix, Meridiem(h));
    }
  }

  /** Without a colon, the first field is the whole string. */
  lemma HoursWhole(s: string)
    requires forall i :: 0 <= i < |s| ==> s[i] != ':'
    ensures Hours(s) == s
  {
  }

  /** The first field ends at the first colon. */
  lemma HoursBeforeColon(hh: string, rest: string)
    requires forall i :: 0 <= i < |hh| ==> hh[i] != ':'
    ensures Hours(hh + ":" + rest) == hh
  {
    var s := hh + ":" + rest;
    assert s[|hh|] == ':';
    assert forall i :: 0 <= i < |hh| ==> s[i] == hh[i];
  }

  /** `hh:mm` splits into the fields `hh` and `mm` when neither holds a colon. */
  lemma SplitFields(hh: string, mm: string)
    requires forall i :: 0 <= i < |hh| ==> hh[i] != ':'
    requires forall i :: 0 <= i < |mm| ==> mm[i] != ':'
    ensures Hours(hh + ":" + mm) == hh && Minutes(hh + ":" + mm) == mm
  {
    HoursBeforeColon(hh, mm);
    assert (hh + ":" + mm)[|hh| + 1..] == mm;
    HoursWhole(mm);
  }

  /** Digits joined by a colon are clock text. */
  lemma ClockTextJoin(hh: string, mm: string)
    requires AllDigits(hh, 10) && AllDigits(mm, 10)
    ensures IsClockText(hh + ":" + mm)
  {
    var s := hh + ":" + mm;
    forall i | 0 <= i < |s|
      ensures '0' <= s[i] <= '9' || s[i] == ':'
    {
      if i < |hh| {
        assert s[i] == hh[i];
      } else if i > |hh| {
        assert s[i] == mm[i - |hh| - 1];
      }
    }
  }

  /** Clock text says neither `am` nor `pm`. */
  lemma NoMeridiem(s: string)
    requires IsClockText(s)
    ensures !Contains(s, "am") && !Contains(s, "pm")
  {
    NotContains(s, "am");
    NotContains(s, "pm");
  }

  /** `parseInt` of a non-empty run of decimal digits is its value. */
  lemma ParseDigits(hh: string)
    requires |hh| > 0 && AllDigits(hh, 10)
    ensures ParseInt(hh) == Num(DigitsValue(hh, 10))
  {
    ParseFromDigit(hh);
    ParseRunAll(hh, 10);
  }

  /** A 24-hour time `hh:mm` made of digits becomes `h12:mm am|pm`, where `h12` is the hour
      modulo 12 in 1..12 (so 0 shows as 12), and `pm` marks the hours from 12 on. */
  lemma TwentyFourHour(hh: string, mm: string)
    requires |hh| > 0 && AllDigits(hh, 10) && AllDigits(mm, 10)
    ensures var v := DigitsValue(hh, 10);
      FormatTime(hh + ":" + mm) == ToDecimal(Hour12(Num(v))) + ":" + mm + " " + Meridiem(Num(v))
  {
    var s, v := hh + ":" + mm, DigitsValue(hh, 10);
    calc {
      FormatTime(s);
    == { ClockTextJoin(hh, mm); NoMeridiem(s); }
      Clock12(s);
    == { SplitFields(hh, mm); ParseDigits(hh); }
      ToDecimal(Hour12(Num(v))) + ":" + mm + " " + Meridiem(Num(v));
    }
  }

  /** The 12-hour clock on the hours of a day: 0 is 12 am, 1 to 11 keep their number and say
      am, 12 is 12 pm, and 13 to 23 lose 12 and say pm. */
  lemma HourPeriods(v: int)
    requires 0 <= v < 24
    ensures v == 0 ==> Hour12(Num(v)) == 12 && Meridiem(Num(v)) == "am"
    ensures 1 <= v < 12 ==> Hour12(Num(v)) == v && Meridiem(Num(v)) == "am"
    ensures v == 12 ==> Hour12(Num(v)) == 12 && Meridiem(Num(v)) == "pm"
    ensures 12 < v ==> Hour12(Num(v)) == v - 12 && Meridiem(Num(v)) == "pm"
  {
  }

  /** Reading a 12-hour time back as a 24-hour hour: 12 stands for 0, and `pm` adds 12. */
  function From12(h12: int, meridiem: string): int
  {
    (if h12 == 12 then 0 else h12) + (if meridiem == "pm" then 12 else 0)
  }

  /** The 12-hour clock loses nothing over a day: every hour 0..23 is read back from its 12-hour
      number and its `am`/`pm`. */
  lemma TwelveHourRoundTrip(v: int)
    requires 0 <= v < 24
    ensures From12(Hour12(Num(v)), Meridiem(Num(v))) == v
  {
    HourPeriods(v);
  }

  /** Midnight: hour 0 shows as 12 am. */
  lemma MidnightHour(hh: string, mm: string)
    requires |hh| > 0 && AllDigits(hh, 10) && AllDigits(mm, 10) && DigitsValue(hh, 10) == 0
    ensures FormatTime(hh + ":" + mm) == ToDecimal(12) + ":" + mm + " am"
  {
    HourPeriods(0);
    TwentyFourHour(hh, mm);
  }

  /** The morning hours 1 to 11 keep their number and say am. */
  lemma MorningHour(hh: string, mm: string)
    requires |hh| > 0 && AllDigits(hh, 10) && AllDigits(mm, 10) && 1 <= DigitsValue(hh, 10) < 12
    ensures FormatTime(hh + ":" + mm) == ToDecimal(DigitsValue(hh, 10)) + ":" + mm + " am"
  {
    HourPeriods(DigitsValue(hh, 10));
    TwentyFourHour(hh, mm);
  }

  /** Noon: hour 12 shows as 12 pm. */
  lemma NoonHour(hh: string, mm: string)
    requires |hh| > 0 && AllDigits(hh, 10) && AllDigits(mm, 10) && DigitsValue(hh, 10) == 12
    ensures FormatTime(hh + ":" + mm) == ToDecimal(12) + ":" + mm + " pm"
  {
    HourPeriods(12);
    TwentyFourHour(hh, mm);
  }

  /** The afternoon and evening hours 13 to 23 lose 12 and say pm. */
  lemma AfternoonHour(hh: string, mm: string)
    requires |hh| > 0 && AllDigits(hh, 10) && AllDigits(mm, 10) && 12 < DigitsValue(hh, 10) < 24
    ensures FormatTime(hh + ":" + mm) == ToDecimal(DigitsValue(hh, 10) - 12) + ":" + mm + " pm"
  {
    HourPeriods(DigitsValue(hh, 10));
    TwentyFourHour(hh, mm);
  }

  /** A string without a colon keeps its whole text as the hour and prints `undefined` minutes. */
  lemma NoColon(s: string)
    requires s != [] && forall i :: 0 <= i < |s| ==> s[i] != ':'
    requires !Contains(s, "am") && !Contains(s, "pm")
    ensures var h := ParseInt(s);
      FormatTime(s) == ToDecimal(Hour12(h)) + ":" + "undefined" + " " + Meridiem(h)
  {
    HoursWhole(s);
    assert Minutes(s) == "undefined";
  }

  /** Two decimal digits and the number they denote. */
  lemma DigitPair(hh: string, a: char, b: char)
    requires hh == [a, b] && '0' <= a <= '9' && '0' <= b <= '9'
    ensures AllDigits(hh, 10) && DigitsValue(hh, 10) == (a as int - '0' as int) * 10 + (b as int - '0' as int)
  {
    assert hh[..|hh| - 1] == [a];
    assert [a][..0] == [];
    assert DigitsValue([a], 10) == DigitValue(a, 10);
  }

  /** Just after midnight: `"00:15"` is `"12:15 am"`. */
  lemma ExampleMidnight(s: string)
    requires s == "00:15"
    ensures FormatTime(s) == "12:15 am"
  {
    var hh, mm := s[..2], s[3..];
    DigitPair(hh, '0', '0');
    DigitPair(mm, '1', '5');
    calc {
      FormatTime(s);
    == { assert s == hh + ":" + mm; }
      FormatTime(hh + ":" + mm);
    == { MidnightHour(hh, mm); }
      ToDecimal(12) + ":" + mm + " am";
    == { assert ToDecimal(12) == "12"; }
      "12:15 am";
    }
  }

  /** Just after one in the afternoon: `"13:05"` is `"1:05 pm"`. */
  lemma ExampleAfternoon(s: string)
    requires s == "13:05"
    ensures FormatTime(s) == "1:05 pm"
  {
    var hh, mm := s[..2], s[3..];
    DigitPair(hh, '1', '3');
    DigitPair(mm, '0', '5');
    calc {
      FormatTime(s);
    == { assert s == hh + ":" + mm; }
      FormatTime(hh + ":" + mm);
    == { AfternoonHour(hh, mm); assert DigitsValue(hh, 10) - 12 == 1; }
      ToDecimal(1) + ":" + mm + " pm";
    == { assert ToDecimal(1) == "1"; }
      "1:05 pm";
    }
  }

  /** Text that already says `am` is shown as it is. */
  lemma ExamplePassThrough()
    ensures FormatTime("9:30 am") == "9:30 am"
  {
    ContainsSuffix("9:30 ", "am");
    assert "9:30 " + "am" == "9:30 am";
  }
}
