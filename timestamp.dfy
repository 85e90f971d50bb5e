/**
 * The EXIF timestamp `YYYY:MM:DD HH:MM:SS` that the editor builds with the
 * f-string `f"{year:04d}:{month:02d}:{day:02d} {h:02d}:{m:02d}:{s:02d}"`.
 */
module DateTime {

  predicate IsDigit(c: char) { '0' <= c <= '9' }

  predicate AllDigits(s: string) { forall i :: 0 <= i < |s| ==> IsDigit(s[i]) }

  function DigitChar(d: int): (c: char)
    requires 0 <= d < 10
    ensures IsDigit(c) && c as int - '0' as int == d
  {
    ('0' as int + d) as char
  }

  /** The number a string of decimal digits denotes. */
  function DigitsValue(s: string): nat
    requires AllDigits(s)
  {
    if s == [] then 0 else DigitsValue(s[..|s| - 1]) * 10 + (s[|s| - 1] as int - '0' as int)
  }

  /** `str(n)` for a natural number: its decimal digits, without leading zeros. */
  function Digits(n: nat): (s: string)
    ensures 1 <= |s| && AllDigits(s)
    ensures DigitsValue(s) == n
    ensures s[0] == '0' ==> n == 0
    decreases n
  {
    if n < 10 then [DigitChar(n)]
    else
      var prefix := Digits(n / 10);
      var s := prefix + [DigitChar(n % 10)];
      assert s[..|s| - 1] == prefix;
      s
  }

  function Pow10(k: nat): (p: nat)
    ensures p >= 1
  {
    if k == 0 then 1 else 10 * Pow10(k - 1)
  }

  /** A number below 10^w has at most w digits. */
  lemma {:induction false} DigitsLength(n: nat, w: nat)
    requires 1 <= w && n < Pow10(w)
    ensures |Digits(n)| <= w
  {
    if n >= 10 {
      DigitsLength(n / 10, w - 1);
    }
  }

  function Zeros(k: nat): (z: string)
    ensures |z| == k && AllDigits(z) && DigitsValue(z) == 0
  {
    if k == 0 then "" else
      var z := Zeros(k - 1) + "0";
      assert z[..k - 1] == Zeros(k - 1);
      z
  }

  /** Leading zeros do not change the value of a digit string. */
  lemma {:induction false} LeadingZeros(k: nat, s: string)
    requires AllDigits(s)
    ensures AllDigits(Zeros(k) + s) && DigitsValue(Zeros(k) + s) == DigitsValue(s)
    decreases |s|
  {
    var z := Zeros(k) + s;
    if s != [] {
      LeadingZeros(k, s[..|s| - 1]);
      assert z[..|z| - 1] == Zeros(k) + s[..|s| - 1];
    } else {
      assert z == Zeros(k);
    }
  }

  /** `s` padded on the left with zeros to `width` characters. */
  function ZeroPad(s: string, width: int): (r: string)
    ensures |r| == if |s| >= width then |s| else width
  {
    if |s| >= width then s else Zeros(width - |s|) + s
  }

  /**
   * `format(n, '0{width}d')`: the decimal digits of `n`, zero-padded to `width`
   * characters with the sign (if any) in front of the zeros.
   */
  function FormatInt(n: int, width: nat): string {
    if n < 0 then "-" + ZeroPad(Digits(-n), width - 1) else ZeroPad(Digits(n), width)
  }

  /** A number with at most `width` digits formats to exactly `width` digits that read back as the number. */
  lemma FormatFixedWidth(n: int, width: nat)
    requires 1 <= width && 0 <= n < Pow10(width)
    ensures var f := FormatInt(n, width); |f| == width && AllDigits(f) && DigitsValue(f) == n
  {
    DigitsLength(n, width);
    if |Digits(n)| < width {
      LeadingZeros(width - |Digits(n)|, Digits(n));
    }
  }

  /** The timestamp the editor writes for the chosen date and time. */
  function Timestamp(year: int, month: int, day: int, hour: int, minute: int, second: int): string {
    FormatInt(year, 4) + ":" + FormatInt(month, 2) + ":" + FormatInt(day, 2) + " "
      + FormatInt(hour, 2) + ":" + FormatInt(minute, 2) + ":" + FormatInt(second, 2)
  }

  /** The grammar `\d{4}:\d{2}:\d{2} \d{2}:\d{2}:\d{2}`. */
  predicate IsExifTimestamp(t: string) {
    && |t| == 19
    && forall i :: 0 <= i < 19 ==>
         if i == 4 || i == 7 || i == 13 || i == 16 then t[i] == ':'
         else if i == 10 then t[i] == ' '
         else IsDigit(t[i])
  }

  /** The six numbers a well-formed timestamp spells. */
  datatype Fields = Fields(year: nat, month: nat, day: nat, hour: nat, minute: nat, second: nat)

  function ParseTimestamp(t: string): Fields
    requires IsExifTimestamp(t)
  {
    assert AllDigits(t[0..4]) && AllDigits(t[5..7]) && AllDigits(t[8..10]);
    assert AllDigits(t[11..13]) && AllDigits(t[14..16]) && AllDigits(t[17..19]);
    Fields(DigitsValue(t[0..4]), DigitsValue(t[5..7]), DigitsValue(t[8..10]),
           DigitsValue(t[11..13]), DigitsValue(t[14..16]), DigitsValue(t[17..19]))
  }

  /** The ranges within which the f-string produces the EXIF grammar; the calendar and spinbox ranges lie inside them. */
  predicate InFormatRange(year: int, month: int, day: int, hour: int, minute: int, second: int) {
    && 0 <= year < 10000
    && 0 <= month < 100 && 0 <= day < 100
    && 0 <= hour < 100 && 0 <= minute < 100 && 0 <= second < 100
  }

  /** Six fixed-width digit fields joined by the separators form the grammar and can be cut apart again. */
  lemma Assembled(y: string, mo: string, d: string, h: string, mi: string, sec: string)
    requires |y| == 4 && |mo| == 2 && |d| == 2 && |h| == 2 && |mi| == 2 && |sec| == 2
    requires AllDigits(y) && AllDigits(mo) && AllDigits(d) && AllDigits(h) && AllDigits(mi) && AllDigits(sec)
    ensures var t := y + ":" + mo + ":" + d + " " + h + ":" + mi + ":" + sec;
            && IsExifTimestamp(t)
            && t[0..4] == y && t[5..7] == mo && t[8..10] == d
            && t[11..13] == h && t[14..16] == mi && t[17..19] == sec
  {
    var date := y + ":" + mo + ":" + d;
    var time := h + ":" + mi + ":" + sec;
    var t := y + ":" + mo + ":" + d + " " + h + ":" + mi + ":" + sec;
    assert t == date + " " + time;
    assert |date| == 10 && |time| == 8;
    assert date[..4] == y && date[4] == ':' && date[5..7] == mo && date[7] == ':' && date[8..] == d;
    assert time[..2] == h && time[2] == ':' && time[3..5] == mi && time[5] == ':' && time[6..] == sec;
    forall i | 0 <= i < 19
      ensures if i == 4 || i == 7 || i == 13 || i == 16 then t[i] == ':'
              else if i == 10 then t[i] == ' '
              else IsDigit(t[i])
    {
      if i < 10 {
        assert t[i] == date[i];
        if i < 4 { assert date[i] == y[i]; }
        else if 4 < i < 7 { assert date[i] == mo[i - 5]; }
        else if 7 < i { assert date[i] == d[i - 8]; }
      } else if i > 10 {
        assert t[i] == time[i - 11];
        if i < 13 { assert time[i - 11] == h[i - 11]; }
        else if 13 < i < 16 { assert time[i - 11] == mi[i - 14]; }
        else if 16 < i { assert time[i - 11] == sec[i - 17]; }
      }
    }
    assert t[0..4] == date[..4];
    assert t[5..7] == date[5..7];
    assert t[8..10] == date[8..];
    assert t[11..13] == time[..2];
    assert t[14..16] == time[3..5];
    assert t[17..19] == time[6..];
  }

  /**
   * Within those ranges the timestamp has the EXIF grammar (length 19, `:` at 4, 7,
   * 13 and 16, a space at 10, digits elsewhere) and reads back as the six numbers.
   */
  lemma TimestampWellFormed(year: int, month: int, day: int, hour: int, minute: int, second: int)
    requires InFormatRange(year, month, day, hour, minute, second)
    ensures var t := Timestamp(year, month, day, hour, minute, second);
            IsExifTimestamp(t) && ParseTimestamp(t) == Fields(year, month, day, hour, minute, second)
  {
    assert Pow10(2) == 100 && Pow10(4) == 10000;
    FormatFixedWidth(year, 4);
    FormatFixedWidth(month, 2);
    FormatFixedWidth(day, 2);
    FormatFixedWidth(hour, 2);
    FormatFixedWidth(minute, 2);
    FormatFixedWidth(second, 2);
    Assembled(FormatInt(year, 4), FormatInt(month, 2), FormatInt(day, 2),
              FormatInt(hour, 2), FormatInt(minute, 2), FormatInt(second, 2));
  }

  /** Outside the ranges the grammar breaks: a typed hour of 100 makes the timestamp 20 characters long. */
  lemma HourOutOfRangeBreaksGrammar()
    ensures !IsExifTimestamp(Timestamp(2024, 1, 1, 100, 0, 0))
  {
    assert Pow10(2) == 100 && Pow10(4) == 10000;
    FormatFixedWidth(2024, 4);
    FormatFixedWidth(1, 2);
    FormatFixedWidth(0, 2);
    DigitsLength(100, 3);
    assert |Digits(100)| == 3 by {
      assert Digits(100) == Digits(10) + [DigitChar(0)];
      assert Digits(10) == Digits(1) + [DigitChar(0)];
    }
  }
}
