/**
 * The compact date-time text written by the feed for `ical:dtstart` and
 * `ical:dtend`: the date-fns pattern "yyyyMMdd'T'HHmmss", which is the local
 * DATE-TIME form of section 3.3.5 of RFC 5545 (no offset, no `Z`).
 *
 * The conversion from an ISO-8601 string to local wall-clock fields is done by
 * `new Date` and date-fns and is not modelled; formatting starts from the
 * already decomposed fields.
 */
module CompactDate {
  import opened Wrappers

  /**
   * Local wall-clock fields, as date-fns reads them from a Date. `year` is the
   * era year that the `yyyy` token prints: a JavaScript year y >= 1 prints as
   * y, and y <= 0 (a year before the common era) as 1 - y, so no printed
   * year is 0.
   */
  datatype DateTime = DateTime(year: nat, month: nat, day: nat, hour: nat, minute: nat, second: nat)

  /** The fields a calendar date-time can take, with era years of at most four digits. */
  predicate InRange(d: DateTime)
  {
    && 1 <= d.year <= 9999
    && 1 <= d.month <= 12
    && 1 <= d.day <= 31
    && d.hour <= 23
    && d.minute <= 59
    && d.second <= 59
  }

  predicate IsDigit(c: char)
  {
    '0' <= c <= '9'
  }

  function DigitChar(n: nat): (c: char)
    requires n < 10
    ensures IsDigit(c)
  {
    ('0' as int + n) as char
  }

  /** The value of a decimal digit; other characters count as 0. */
  function DigitValue(c: char): (n: nat)
    ensures n < 10
  {
    if IsDigit(c) then c as int - '0' as int else 0
  }

  predicate AllDigits(s: string)
  {
    forall i :: 0 <= i < |s| ==> IsDigit(s[i])
  }

  function Pow10(w: nat): (p: nat)
    ensures p >= 1
  {
    if w == 0 then 1 else 10 * Pow10(w - 1)
  }

  /** Decimal digits of `n`, most significant first, without leading zeros. */
  function Decimal(n: nat): (s: string)
    ensures AllDigits(s) && 1 <= |s|
  {
    if n < 10 then [DigitChar(n)] else Decimal(n / 10) + [DigitChar(n % 10)]
  }

  /** The number a string of decimal digits denotes. */
  function ValueOf(s: string): nat
  {
    if s == [] then 0 else 10 * ValueOf(s[..|s| - 1]) + DigitValue(s[|s| - 1])
  }

  function Zeros(k: nat): (s: string)
    ensures |s| == k && AllDigits(s)
  {
    if k == 0 then [] else ['0'] + Zeros(k - 1)
  }

  /** `n` in decimal, left-padded with zeros to at least `w` characters (date-fns `yyyy`, `MM`, ...). */
  function Padded(n: nat, w: nat): (s: string)
    ensures AllDigits(s)
  {
    var digits := Decimal(n);
    if |digits| < w then Zeros(w - |digits|) + digits else digits
  }

  /** "yyyyMMdd'T'HHmmss" applied to local wall-clock fields. */
  function Format(d: DateTime): string
  {
    Padded(d.year, 4) + Padded(d.month, 2) + Padded(d.day, 2) + "T"
      + Padded(d.hour, 2) + Padded(d.minute, 2) + Padded(d.second, 2)
  }

  /** Reads a compact date-time back: the partner of Format. */
  function Parse(s: string): Option<DateTime>
  {
    if |s| == 15 && AllDigits(s[..8]) && s[8] == 'T' && AllDigits(s[9..]) then
      Some(DateTime(ValueOf(s[..4]), ValueOf(s[4..6]), ValueOf(s[6..8]),
                    ValueOf(s[9..11]), ValueOf(s[11..13]), ValueOf(s[13..])))
    else
      None
  }

  lemma ValueOfSnoc(s: string, c: char)
    ensures ValueOf(s + [c]) == 10 * ValueOf(s) + DigitValue(c)
  {
    assert (s + [c])[..|s|] == s;
  }

  lemma DigitRoundTrip(n: nat)
    requires n < 10
    ensures DigitValue(DigitChar(n)) == n
  {
  }

  lemma DecimalSplit(n: nat)
    requires n >= 10
    ensures Decimal(n) == Decimal(n / 10) + [DigitChar(n % 10)]
    ensures n == 10 * (n / 10) + n % 10
  {
  }

  lemma {:induction false} ValueOfDecimal(n: nat)
    ensures ValueOf(Decimal(n)) == n
  {
    if n < 10 {
      assert [DigitChar(n)][..0] == [];
      DigitRoundTrip(n);
    } else {
      var q, r := n / 10, n % 10;
      DecimalSplit(n);
      ValueOfDecimal(q);
      ValueOfSnoc(Decimal(q), DigitChar(r));
      DigitRoundTrip(r);
    }
  }

  lemma {:induction false} ValueOfLeadingZeros(k: nat, s: string)
    ensures ValueOf(Zeros(k) + s) == ValueOf(s)
  {
    if s == [] {
      assert Zeros(k) + s == Zeros(k);
      ZerosValue(k);
    } else {
      var init, last := s[..|s| - 1], s[|s| - 1];
      assert s == init + [last];
      assert Zeros(k) + s == (Zeros(k) + init) + [last];
      ValueOfLeadingZeros(k, init);
      ValueOfSnoc(Zeros(k) + init, last);
      ValueOfSnoc(init, last);
    }
  }

  lemma {:induction false} ZerosValue(k: nat)
    ensures ValueOf(Zeros(k)) == 0
  {
    if k > 0 {
      assert Zeros(k) == Zeros(k - 1) + ['0'] by { ZerosSnoc(k); }
      ZerosValue(k - 1);
      ValueOfSnoc(Zeros(k - 1), '0');
    }
  }

  lemma {:induction false} ZerosSnoc(k: nat)
    requires k > 0
    ensures Zeros(k) == Zeros(k - 1) + ['0']
  {
    if k > 1 {
      ZerosSnoc(k - 1);
    }
  }

  /** Reading a padded number back gives the number, whatever the padding. */
  lemma PaddedValue(n: nat, w: nat)
    ensures ValueOf(Padded(n, w)) == n
  {
    ValueOfDecimal(n);
    var digits := Decimal(n);
    if |digits| < w {
      assert Padded(n, w) == Zeros(w - |digits|) + digits;
      ValueOfLeadingZeros(w - |digits|, digits);
    } else {
      assert Padded(n, w) == digits;
    }
  }

  lemma {:induction false} DecimalLength(n: nat, w: nat)
    requires 1 <= w && n < Pow10(w)
    ensures |Decimal(n)| <= w
  {
    if n >= 10 {
      assert w >= 2;
      DecimalLength(n / 10, w - 1);
    }
  }

  /** A number below 10^w is padded to exactly w digits. */
  lemma PaddedLength(n: nat, w: nat)
    requires 1 <= w && n < Pow10(w)
    ensures |Padded(n, w)| == w
  {
    DecimalLength(n, w);
  }

  lemma SplitAt(a: string, b: string)
    ensures (a + b)[..|a|] == a && (a + b)[|a|..] == b
  {
  }

  lemma AllDigitsAppend(a: string, b: string)
    requires AllDigits(a) && AllDigits(b)
    ensures AllDigits(a + b)
  {
    forall i | 0 <= i < |a + b|
      ensures IsDigit((a + b)[i])
    {
      if i < |a| {
        assert (a + b)[i] == a[i];
      } else {
        assert (a + b)[i] == b[i - |a|];
      }
    }
  }

  /** Three fields of known widths, read back by position. */
  lemma Fields3(x: string, y: string, z: string, w1: nat, w2: nat, w3: nat)
    requires |x| == w1 && |y| == w2 && |z| == w3
    ensures var s := x + y + z;
      |s| == w1 + w2 + w3 && s[..w1] == x && s[w1..w1 + w2] == y && s[w1 + w2..] == z
  {
    SplitAt(x + y, z);
    SplitAt(x, y);
  }

  /** The positions of the six fields in "yyyyMMdd'T'HHmmss", for fields of the right widths. */
  lemma Layout(y: string, mo: string, da: string, h: string, mi: string, se: string)
    requires |y| == 4 && |mo| == 2 && |da| == 2 && |h| == 2 && |mi| == 2 && |se| == 2
    requires AllDigits(y) && AllDigits(mo) && AllDigits(da)
    requires AllDigits(h) && AllDigits(mi) && AllDigits(se)
    ensures var s := y + mo + da + "T" + h + mi + se;
      && |s| == 15
      && AllDigits(s[..8]) && s[8] == 'T' && AllDigits(s[9..])
      && s[..4] == y && s[4..6] == mo && s[6..8] == da
      && s[9..11] == h && s[11..13] == mi && s[13..] == se
  {
    var date, time := y + mo + da, h + mi + se;
    Fields3(y, mo, da, 4, 2, 2);
    Fields3(h, mi, se, 2, 2, 2);
    Fields3(date, "T", time, 8, 1, 6);
    AllDigitsAppend(y, mo);
    AllDigitsAppend(y + mo, da);
    AllDigitsAppend(h, mi);
    AllDigitsAppend(h + mi, se);
    var s := y + mo + da + "T" + h + mi + se;
    assert s == date + "T" + time;
    assert s[..8] == date && s[9..] == time;
    assert s[..4] == date[..4] && s[4..6] == date[4..6] && s[6..8] == date[6..8];
  }

  /**
   * For in-range fields the formatted text is 15 characters: eight digits,
   * `T`, six digits.
   */
  lemma FormatShape(d: DateTime)
    requires InRange(d)
    ensures |Format(d)| == 15
    ensures AllDigits(Format(d)[..8]) && Format(d)[8] == 'T' && AllDigits(Format(d)[9..])
    ensures Format(d)[..4] == Padded(d.year, 4) && Format(d)[4..6] == Padded(d.month, 2)
    ensures Format(d)[6..8] == Padded(d.day, 2) && Format(d)[9..11] == Padded(d.hour, 2)
    ensures Format(d)[11..13] == Padded(d.minute, 2) && Format(d)[13..] == Padded(d.second, 2)
  {
    assert Pow10(2) == 100 && Pow10(4) == 10000;
    PaddedLength(d.year, 4);
    PaddedLength(d.month, 2);
    PaddedLength(d.day, 2);
    PaddedLength(d.hour, 2);
    PaddedLength(d.minute, 2);
    PaddedLength(d.second, 2);
    Layout(Padded(d.year, 4), Padded(d.month, 2), Padded(d.day, 2),
           Padded(d.hour, 2), Padded(d.minute, 2), Padded(d.second, 2));
  }

  /** Parsing the formatted text recovers every field. */
  lemma FormatParse(d: DateTime)
    requires InRange(d)
    ensures Parse(Format(d)) == Some(d)
  {
    FormatShape(d);
    PaddedValue(d.year, 4);
    PaddedValue(d.month, 2);
    PaddedValue(d.day, 2);
    PaddedValue(d.hour, 2);
    PaddedValue(d.minute, 2);
    PaddedValue(d.second, 2);
  }

  /** Distinct in-range date-times are written differently. */
  lemma FormatInjective(d: DateTime, e: DateTime)
    requires InRange(d) && InRange(e) && Format(d) == Format(e)
    ensures d == e
  {
    FormatParse(d);
    FormatParse(e);
  }
}
