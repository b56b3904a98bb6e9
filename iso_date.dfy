/** History keys are calendar dates in the extended format of ISO 8601 (`YYYY-MM-DD`,
    section 4.1.2.2 of ISO 8601:2004). This module reads them as `new Date(key)` does and writes
    them as `toISOString().replace(/T.*$/, "")` does (index.js:72-74). */
module IsoDate {
  import opened Wrappers
  import opened StringOrder
  import opened CivilDate

  predicate IsDigit(c: char)
  {
    '0' <= c <= '9'
  }

  predicate AllDigits(s: string)
  {
    forall i :: 0 <= i < |s| ==> IsDigit(s[i])
  }

  function Pow10(w: nat): (p: nat)
    ensures p >= 1
  {
    if w == 0 then 1 else 10 * Pow10(w - 1)
  }

  /** The number a string of decimal digits spells. */
  function DigitsValue(s: string): (n: nat)
    requires AllDigits(s)
    ensures n < Pow10(|s|)
  {
    if |s| == 0 then 0 else 10 * DigitsValue(s[..|s| - 1]) + (s[|s| - 1] as int - '0' as int)
  }

  /** `n` in decimal, zero-padded to exactly `w` digits. */
  function Pad(n: nat, w: nat): (s: string)
    requires n < Pow10(w)
    ensures |s| == w && AllDigits(s) && DigitsValue(s) == n
  {
    if w == 0 then "" else Pad(n / 10, w - 1) + [('0' as int + n % 10) as char]
  }

  lemma {:induction false} PadDigitsValue(s: string)
    requires AllDigits(s)
    ensures Pad(DigitsValue(s), |s|) == s
  {
    if |s| > 0 {
      var init := s[..|s| - 1];
      PadDigitsValue(init);
      var n := DigitsValue(s);
      assert n / 10 == DigitsValue(init);
      assert s == init + [s[|s| - 1]];
    }
  }

  lemma DecimalOrder(a: nat, b: nat)
    ensures a < b <==> a / 10 < b / 10 || (a / 10 == b / 10 && a % 10 < b % 10)
  {
    assert a == 10 * (a / 10) + a % 10 && b == 10 * (b / 10) + b % 10;
  }

  lemma LastDigitLess(a: nat, b: nat)
    ensures var ca, cb := ('0' as int + a % 10) as char, ('0' as int + b % 10) as char;
      Less([ca], [cb]) <==> a % 10 < b % 10
  {
    var ca, cb := ('0' as int + a % 10) as char, ('0' as int + b % 10) as char;
    assert [ca][1..] == [] && [cb][1..] == [];
    LessIrreflexive("");
  }

  /** Zero-padded numbers of one width sort as strings exactly as they do as numbers. */
  lemma {:induction false} PadLess(a: nat, b: nat, w: nat)
    requires a < Pow10(w) && b < Pow10(w)
    ensures Less(Pad(a, w), Pad(b, w)) <==> a < b
  {
    if w == 0 {
      LessIrreflexive("");
    } else {
      var pa, pb := Pad(a / 10, w - 1), Pad(b / 10, w - 1);
      var ca, cb := ('0' as int + a % 10) as char, ('0' as int + b % 10) as char;
      PadLess(a / 10, b / 10, w - 1);
      LessConcat(pa, pb, [ca], [cb]);
      assert pa == pb <==> a / 10 == b / 10;
      LastDigitLess(a, b);
      DecimalOrder(a, b);
      assert Pad(a, w) == pa + [ca] && Pad(b, w) == pb + [cb];
    }
  }

  /** The year as `toISOString` writes it: four digits for years 0 to 9999, otherwise a sign and
      six digits. */
  function YearField(y: nat): string
    requires y < 1000000
  {
    if y <= 9999 then Pad(y, 4) else "+" + Pad(y, 6)
  }

  /** The calendar-date part of `Date.prototype.toISOString`: year, month and day fields joined
      by dashes, the year in four digits up to 9999 and as '+' and six digits after. */
  function FormatDate(d: Date): (s: string)
    requires InFieldRange(d) && d.year < 1000000
    ensures d.year <= 9999 ==>
      |s| == 10 && s[4] == '-' && s[7] == '-'
      && s[..4] == Pad(d.year, 4) && s[5..7] == Pad(d.month, 2) && s[8..] == Pad(d.day, 2)
    ensures 9999 < d.year ==> |s| == 13 && s[0] == '+' && s[1..7] == Pad(d.year, 6)
  {
    YearField(d.year) + "-" + Pad(d.month, 2) + "-" + Pad(d.day, 2)
  }

  /** The keys `new Date(key)` reads as a date-only ISO string: four, two and two digits, a month
      from 1 to 12 and a day from 1 to 31. A day past the end of a shorter month is accepted and
      rolls over (see CivilDate.Normalize). */
  function ParseDate(s: string): (r: Option<Date>)
    ensures r.Some? ==> InFieldRange(r.value) && r.value.year <= 9999
  {
    if |s| == 10 && s[4] == '-' && s[7] == '-'
       && AllDigits(s[..4]) && AllDigits(s[5..7]) && AllDigits(s[8..])
    then
      var d := Date(DigitsValue(s[..4]), DigitsValue(s[5..7]), DigitsValue(s[8..]));
      if InFieldRange(d) then Some(d) else None
    else None
  }

  /** The value of one decimal digit. */
  function DigitValue(c: char): nat
    requires IsDigit(c)
  {
    c as int - '0' as int
  }

  lemma TwoDigitsValue(s: string)
    requires |s| == 2 && AllDigits(s)
    ensures DigitsValue(s) == 10 * DigitValue(s[0]) + DigitValue(s[1])
  {
    assert s[..1][..0] == [];
  }

  lemma FourDigitsValue(s: string)
    requires |s| == 4 && AllDigits(s)
    ensures DigitsValue(s) == 1000 * DigitValue(s[0]) + 100 * DigitValue(s[1]) + 10 * DigitValue(s[2]) + DigitValue(s[3])
  {
    assert s[..3][..2] == s[..2];
    TwoDigitsValue(s[..2]);
  }

  /** A key read character by character: the fields ParseDate reads are the digits at positions
      0-3, 5-6 and 8-9. */
  lemma ParseDateDigits(s: string)
    requires |s| == 10 && s[4] == '-' && s[7] == '-'
    requires forall i :: 0 <= i < 10 && i != 4 && i != 7 ==> IsDigit(s[i])
    ensures var d := Date(1000 * DigitValue(s[0]) + 100 * DigitValue(s[1]) + 10 * DigitValue(s[2]) + DigitValue(s[3]),
                          10 * DigitValue(s[5]) + DigitValue(s[6]),
                          10 * DigitValue(s[8]) + DigitValue(s[9]));
      ParseDate(s) == if InFieldRange(d) then Some(d) else None
  {
    assert AllDigits(s[..4]) && AllDigits(s[5..7]) && AllDigits(s[8..]);
    FourDigitsValue(s[..4]);
    TwoDigitsValue(s[5..7]);
    TwoDigitsValue(s[8..]);
  }

  /** Reading back a written date gives the date. */
  lemma ParseFormatDate(d: Date)
    requires InFieldRange(d) && d.year <= 9999
    ensures ParseDate(FormatDate(d)) == Some(d)
  {
  }

  /** Writing a read key gives the key back: every key ParseDate accepts is canonical. */
  lemma FormatParseDate(s: string)
    requires ParseDate(s).Some?
    ensures FormatDate(ParseDate(s).value) == s
  {
    var d := ParseDate(s).value;
    PadDigitsValue(s[..4]);
    PadDigitsValue(s[5..7]);
    PadDigitsValue(s[8..]);
    SameFields(s, FormatDate(d));
  }

  /** Two keys with the same three fields and dashes in the same places are the same key. */
  lemma SameFields(s: string, t: string)
    requires |s| == 10 && |t| == 10 && s[4] == t[4] && s[7] == t[7]
    requires s[..4] == t[..4] && s[5..7] == t[5..7] && s[8..] == t[8..]
    ensures s == t
  {
    assert s == s[..4] + [s[4]] + s[5..7] + [s[7]] + s[8..];
    assert t == t[..4] + [t[4]] + t[5..7] + [t[7]] + t[8..];
  }

  /** Written dates of years 0 to 9999 sort as strings in calendar order. */
  lemma FormatDateOrder(a: Date, b: Date)
    requires InFieldRange(a) && InFieldRange(b) && a.year <= 9999 && b.year <= 9999
    ensures Less(FormatDate(a), FormatDate(b)) <==> Before(a, b)
  {
    if Before(a, b) {
      FormatBefore(a, b);
    } else if a == b {
      LessIrreflexive(FormatDate(a));
    } else {
      FormatBefore(b, a);
      LessAsymmetricAll();
    }
  }

  lemma FormatBefore(a: Date, b: Date)
    requires InFieldRange(a) && InFieldRange(b) && a.year <= 9999 && b.year <= 9999
    requires Before(a, b)
    ensures Less(FormatDate(a), FormatDate(b))
  {
    var ya, ma, da := Pad(a.year, 4), Pad(a.month, 2), Pad(a.day, 2);
    var yb, mb, db := Pad(b.year, 4), Pad(b.month, 2), Pad(b.day, 2);
    DashJoin(ya, ma, da);
    DashJoin(yb, mb, db);
    if a.year < b.year {
      PadLess(a.year, b.year, 4);
      LessConcatLeft(ya, yb, "-" + (ma + ("-" + da)), "-" + (mb + ("-" + db)));
    } else if a.month < b.month {
      PadLess(a.month, b.month, 2);
      MonthFieldLess(ya, ma, mb, da, db);
    } else {
      PadLess(a.day, b.day, 2);
      DayFieldLess(ya, ma, da, db);
    }
  }

  /** Same year, earlier month. */
  lemma MonthFieldLess(y: string, ma: string, mb: string, da: string, db: string)
    requires |ma| == |mb| && Less(ma, mb)
    ensures Less(y + ("-" + (ma + ("-" + da))), y + ("-" + (mb + ("-" + db))))
  {
    LessConcatLeft(ma, mb, "-" + da, "-" + db);
    LessConcatRight("-", ma + ("-" + da), mb + ("-" + db));
    LessConcatRight(y, "-" + (ma + ("-" + da)), "-" + (mb + ("-" + db)));
  }

  /** Same year and month, earlier day. */
  lemma DayFieldLess(y: string, m: string, da: string, db: string)
    requires Less(da, db)
    ensures Less(y + ("-" + (m + ("-" + da))), y + ("-" + (m + ("-" + db))))
  {
    LessConcatRight("-", da, db);
    LessConcatRight(m, "-" + da, "-" + db);
    LessConcatRight("-", m + ("-" + da), m + ("-" + db));
    LessConcatRight(y, "-" + (m + ("-" + da)), "-" + (m + ("-" + db)));
  }

  lemma DashJoin(y: string, m: string, d: string)
    ensures y + "-" + m + "-" + d == y + ("-" + (m + ("-" + d)))
  {
  }

  /** A date written with an expanded (six-digit) year sorts before every key ParseDate reads,
      because '+' comes before every digit. */
  lemma ExpandedYearSortsFirst(d: Date, s: string)
    requires InFieldRange(d) && 9999 < d.year < 1000000 && ParseDate(s).Some?
    ensures Less(FormatDate(d), s)
  {
    assert FormatDate(d)[0] == '+';
    assert s[..4][0] == s[0];
  }
}
