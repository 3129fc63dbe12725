/**
 * Calendar dates as Python's `datetime.date` holds them (years 1 to 9999),
 * their ISO 8601 calendar-date text `YYYY-MM-DD` (section 5.2.1.1 of
 * ISO 8601:2004, which is what `date.isoformat` produces), and the parser
 * that reads that text back (`date.fromisoformat`).
 */
module Dates {
  import opened Wrappers
  import opened Text

  datatype Date = Date(year: int, month: int, day: int)

  predicate IsLeapYear(y: int) {
    y % 4 == 0 && (y % 100 != 0 || y % 400 == 0)
  }

  function DaysInMonth(y: int, m: int): int {
    if m == 2 then (if IsLeapYear(y) then 29 else 28)
    else if m == 4 || m == 6 || m == 9 || m == 11 then 30
    else 31
  }

  /** The range `datetime.date` accepts: MINYEAR = 1, MAXYEAR = 9999, real month lengths. */
  predicate IsCalendarDate(d: Date) {
    1 <= d.year <= 9999 && 1 <= d.month <= 12 && 1 <= d.day <= DaysInMonth(d.year, d.month)
  }

  type CalendarDate = d: Date | IsCalendarDate(d) witness Date(1, 1, 1)

  /** Chronological order. */
  predicate NotLater(a: Date, b: Date) {
    a.year < b.year || (a.year == b.year && (a.month < b.month || (a.month == b.month && a.day <= b.day)))
  }

  function Pow10(w: nat): nat {
    if w == 0 then 1 else 10 * Pow10(w - 1)
  }

  /** `n` written with exactly `width` decimal digits, zero-padded on the left (`%0<width>d`). */
  function Pad(n: nat, width: nat): string
    decreases width
  {
    if width == 0 then "" else Pad(n / 10, width - 1) + [DigitChar(n % 10)]
  }

  predicate AllDigits(s: string) {
    forall i | 0 <= i < |s| :: IsDigit(s[i])
  }

  /** The number a string of decimal digits denotes, most significant digit first. */
  function DecimalValue(s: string): int
    decreases |s|
  {
    if s == [] then 0 else DecimalValue(s[..|s| - 1]) * 10 + DigitValue(s[|s| - 1])
  }

  /** Zero padding writes `width` digits that read back as `n`. */
  lemma {:induction false} PadReadsBack(n: nat, width: nat)
    requires n < Pow10(width)
    ensures |Pad(n, width)| == width
    ensures AllDigits(Pad(n, width))
    ensures DecimalValue(Pad(n, width)) == n
    decreases width
  {
    if width > 0 {
      var p := Pad(n / 10, width - 1);
      assert n / 10 < Pow10(width - 1);
      PadReadsBack(n / 10, width - 1);
      var s := p + [DigitChar(n % 10)];
      assert s[..|s| - 1] == p;
      assert DecimalValue(s) == (n / 10) * 10 + n % 10;
    } else {
      assert n == 0;
    }
  }

  /** `date.isoformat()`: `YYYY-MM-DD`. */
  function Iso(d: CalendarDate): string {
    Pad(d.year, 4) + "-" + Pad(d.month, 2) + "-" + Pad(d.day, 2)
  }

  /** The shape of ISO calendar-date text: ten characters, `-` at 4 and 7, digits elsewhere. */
  predicate IsIsoDateText(s: string) {
    |s| == 10 && s[4] == '-' && s[7] == '-' &&
    AllDigits(s[..4]) && AllDigits(s[5..7]) && AllDigits(s[8..])
  }

  /** `date.fromisoformat` on the `YYYY-MM-DD` form; `None` where Python raises `ValueError`. */
  function ParseIso(s: string): Option<CalendarDate> {
    if IsIsoDateText(s) then
      var d := Date(DecimalValue(s[..4]), DecimalValue(s[5..7]), DecimalValue(s[8..]));
      if IsCalendarDate(d) then Some(d) else None
    else None
  }

  /** Where the three fields of `YYYY-MM-DD` text sit. */
  lemma IsoLayout(y: string, m: string, dd: string)
    requires |y| == 4 && |m| == 2 && |dd| == 2
    ensures var s := y + "-" + m + "-" + dd;
      |s| == 10 && s[4] == '-' && s[7] == '-' && s[..4] == y && s[5..7] == m && s[8..] == dd
  {
    var s := y + "-" + m + "-" + dd;
    assert s[..4] == y;
    assert s[5..7] == m;
    assert s[8..] == dd;
  }

  /** The serialised form of every date has the ISO calendar-date shape and parses back to the same date. */
  lemma IsoRoundTrip(d: CalendarDate)
    ensures IsIsoDateText(Iso(d))
    ensures ParseIso(Iso(d)) == Some(d)
  {
    IsoFields(d);
    PadReadsBack(d.year, 4);
    PadReadsBack(d.month, 2);
    PadReadsBack(d.day, 2);
    IsoLayout(Pad(d.year, 4), Pad(d.month, 2), Pad(d.day, 2));
  }

  /** Distinct dates never share a serialised form. */
  lemma IsoInjective(a: CalendarDate, b: CalendarDate)
    requires Iso(a) == Iso(b)
    ensures a == b
  {
    IsoRoundTrip(a);
    IsoRoundTrip(b);
  }

  /** Reading digits from the front: the leading digit weighs `10^(n-1)`. */
  lemma {:induction false} DecimalValueFront(s: string)
    requires |s| > 0
    ensures DecimalValue(s) == DigitValue(s[0]) * Pow10(|s| - 1) + DecimalValue(s[1..])
    decreases |s|
  {
    var n := |s|;
    if n > 1 {
      var init := s[..n - 1];
      DecimalValueFront(init);
      DecimalValueInnerDigits(s);
      Regroup(DigitValue(s[0]), Pow10(n - 2), DecimalValue(init[1..]), DigitValue(s[n - 1]));
    } else {
      assert s[..0] == [];
    }
  }

  /** Dropping the last digit and then the first is dropping the first and then the last. */
  lemma DecimalValueInnerDigits(s: string)
    requires |s| > 1
    ensures s[..|s| - 1][0] == s[0]
    ensures DecimalValue(s[1..]) == DecimalValue(s[..|s| - 1][1..]) * 10 + DigitValue(s[|s| - 1])
  {
    assert s[1..][..|s| - 2] == s[..|s| - 1][1..];
  }

  lemma Regroup(d: int, p: int, r: int, e: int)
    ensures (d * p + r) * 10 + e == d * (p * 10) + (r * 10 + e)
  { }

  lemma {:induction false} DecimalValueBound(s: string)
    requires AllDigits(s)
    ensures 0 <= DecimalValue(s) < Pow10(|s|)
    decreases |s|
  {
    if s != [] {
      var init := s[..|s| - 1];
      assert AllDigits(init);
      DecimalValueBound(init);
    }
  }

  /** A larger leading digit outweighs whatever follows it. */
  lemma {:induction false} LeadingDigitDominates(a: int, b: int, p: int, x: int, y: int)
    requires 0 <= a < b && 0 < p && 0 <= x < p && 0 <= y < p
    ensures a * p + x < b * p + y
    decreases b - a
  {
    assert b * p == (b - 1) * p + p;
    if a < b - 1 {
      LeadingDigitDominates(a, b - 1, p, x, y);
    }
  }

  /** For digit strings of one length, text order is numeric order. */
  lemma {:induction false} DigitsOrder(s: string, t: string)
    requires AllDigits(s) && AllDigits(t) && |s| == |t|
    ensures StrLe(s, t) <==> DecimalValue(s) <= DecimalValue(t)
    decreases |s|
  {
    if s != [] {
      var p := Pow10(|s| - 1);
      DecimalValueFront(s);
      DecimalValueFront(t);
      assert AllDigits(s[1..]) && AllDigits(t[1..]);
      DecimalValueBound(s[1..]);
      DecimalValueBound(t[1..]);
      var a, b := DigitValue(s[0]), DigitValue(t[0]);
      assert IsDigit(s[0]) && IsDigit(t[0]);
      if a < b {
        assert s[0] < t[0];
        LeadingDigitDominates(a, b, p, DecimalValue(s[1..]), DecimalValue(t[1..]));
      } else if b < a {
        assert t[0] < s[0];
        LeadingDigitDominates(b, a, p, DecimalValue(t[1..]), DecimalValue(s[1..]));
      } else {
        assert s[0] == t[0];
        DigitsOrder(s[1..], t[1..]);
      }
    }
  }

  /** Comparing two texts whose first parts have one length compares the first parts first. */
  lemma {:induction false} StrLeAppend(x: string, u: string, y: string, v: string)
    requires |x| == |y|
    ensures StrLe(x + u, y + v) <==> (x != y && StrLe(x, y)) || (x == y && StrLe(u, v))
    decreases |x|
  {
    if x != [] {
      assert (x + u)[0] == x[0] && (y + v)[0] == y[0];
      assert (x + u)[1..] == x[1..] + u && (y + v)[1..] == y[1..] + v;
      StrLeAppend(x[1..], u, y[1..], v);
      if x[0] == y[0] {
        assert x == y <==> x[1..] == y[1..];
      }
    } else {
      assert x + u == u && y + v == v;
    }
  }

  /** Two padded numbers compare as text the way they compare as numbers, and coincide only when equal. */
  lemma PaddedOrder(m: nat, n: nat, width: nat)
    requires m < Pow10(width) && n < Pow10(width)
    ensures |Pad(m, width)| == |Pad(n, width)| == width
    ensures StrLe(Pad(m, width), Pad(n, width)) <==> m <= n
    ensures Pad(m, width) == Pad(n, width) <==> m == n
  {
    PadReadsBack(m, width);
    PadReadsBack(n, width);
    DigitsOrder(Pad(m, width), Pad(n, width));
  }

  /** A common separator in front does not change the comparison. */
  lemma StrLeAfterDash(u: string, v: string)
    ensures StrLe("-" + u, "-" + v) <==> StrLe(u, v)
  {
    StrLeAppend("-", u, "-", v);
  }

  /**
   * `<field>-<rest>` texts whose fields have one length and compare as the
   * numbers `m` and `n` compare by field first, then by rest.
   */
  lemma FieldThenRest(x1: string, x2: string, m: int, n: int, u1: string, u2: string, restLe: bool)
    requires |x1| == |x2| && (StrLe(x1, x2) <==> m <= n) && (x1 == x2 <==> m == n)
    requires StrLe(u1, u2) <==> restLe
    ensures StrLe(x1 + ("-" + u1), x2 + ("-" + u2)) <==> m < n || (m == n && restLe)
  {
    StrLeAfterDash(u1, u2);
    StrLeAppend(x1, "-" + u1, x2, "-" + u2);
  }

  /** Three `-`-separated fields of fixed widths compare field by field. */
  lemma ThreeFieldOrder(ya: string, ma: string, da: string, yb: string, mb: string, db: string,
                        y1: int, m1: int, d1: int, y2: int, m2: int, d2: int)
    requires |ya| == |yb| && (StrLe(ya, yb) <==> y1 <= y2) && (ya == yb <==> y1 == y2)
    requires |ma| == |mb| && (StrLe(ma, mb) <==> m1 <= m2) && (ma == mb <==> m1 == m2)
    requires StrLe(da, db) <==> d1 <= d2
    ensures StrLe(ya + ("-" + (ma + ("-" + da))), yb + ("-" + (mb + ("-" + db)))) <==>
      y1 < y2 || (y1 == y2 && (m1 < m2 || (m1 == m2 && d1 <= d2)))
  {
    FieldThenRest(ma, mb, m1, m2, da, db, d1 <= d2);
    FieldThenRest(ya, yb, y1, y2, ma + ("-" + da), mb + ("-" + db), m1 < m2 || (m1 == m2 && d1 <= d2));
  }

  lemma IsoFields(d: CalendarDate)
    ensures d.year < Pow10(4) && d.month < Pow10(2) && d.day < Pow10(2)
    ensures Iso(d) == Pad(d.year, 4) + ("-" + (Pad(d.month, 2) + ("-" + Pad(d.day, 2))))
  {
    assert Pow10(4) == 10000 && Pow10(2) == 100;
    assert DaysInMonth(d.year, d.month) <= 31;
  }

  /**
   * ISO text order is chronological order: a store that keeps dates as
   * `YYYY-MM-DD` text sorts them by date.
   */
  lemma IsoOrderIsChronological(a: CalendarDate, b: CalendarDate)
    ensures StrLe(Iso(a), Iso(b)) <==> NotLater(a, b)
  {
    IsoFields(a);
    IsoFields(b);
    PaddedOrder(a.year, b.year, 4);
    PaddedOrder(a.month, b.month, 2);
    PaddedOrder(a.day, b.day, 2);
    ThreeFieldOrder(Pad(a.year, 4), Pad(a.month, 2), Pad(a.day, 2), Pad(b.year, 4), Pad(b.month, 2), Pad(b.day, 2),
      a.year, a.month, a.day, b.year, b.month, b.day);
  }
}
