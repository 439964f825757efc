/** Calendar dates as Python's `datetime` handles them: the proleptic
    Gregorian calendar, day ordinals as computed by `date.toordinal`, and
    the `YYYY-MM-DD` form of `datetime.fromisoformat`. Timestamps are whole
    seconds on one naive (time-zone free) scale, `ordinal * 86400 + seconds
    since midnight`, which is what subtracting two naive datetimes measures. */
module IsoDate {
  import opened Wrappers
  import opened Text

  datatype Date = Date(year: int, month: int, day: int)

  /** `datetime.MINYEAR` and `datetime.MAXYEAR`. */
  const MinYear: int := 1
  const MaxYear: int := 9999

  const SecondsPerHour: int := 3600
  const SecondsPerDay: int := 86400

  predicate IsLeap(y: int)
  {
    y % 4 == 0 && (y % 100 != 0 || y % 400 == 0)
  }

  function DaysInMonth(y: int, m: int): int
    requires 1 <= m <= 12
  {
    if m == 2 then (if IsLeap(y) then 29 else 28)
    else if m == 4 || m == 6 || m == 9 || m == 11 then 30
    else 31
  }

  /** The dates `datetime` can represent. */
  predicate ValidDate(d: Date)
  {
    MinYear <= d.year <= MaxYear && 1 <= d.month <= 12 && 1 <= d.day <= DaysInMonth(d.year, d.month)
  }

  /** Days in the years before y (Python's `_days_before_year`). */
  function DaysBeforeYear(y: int): int
  {
    var p := y - 1;
    p * 365 + p / 4 - p / 100 + p / 400
  }

  /** Days in the months of year y before month m (`_days_before_month`). */
  function DaysBeforeMonth(y: int, m: int): int
    requires 1 <= m <= 12
  {
    [0, 31, 59, 90, 120, 151, 181, 212, 243, 273, 304, 334][m - 1] + (if m > 2 && IsLeap(y) then 1 else 0)
  }

  /** `date.toordinal`: 0001-01-01 is day 1 (Python's `_ymd2ord`). */
  function Ordinal(d: Date): int
    requires 1 <= d.month <= 12
  {
    DaysBeforeYear(d.year) + DaysBeforeMonth(d.year, d.month) + d.day
  }

  /** Midnight of d on the timestamp scale. */
  function Seconds(d: Date): int
    requires 1 <= d.month <= 12
  {
    Ordinal(d) * SecondsPerDay
  }

  /** The day after d. */
  function NextDay(d: Date): (r: Date)
    requires ValidDate(d) && d.year < MaxYear
    ensures ValidDate(r)
  {
    if d.day < DaysInMonth(d.year, d.month) then d.(day := d.day + 1)
    else if d.month < 12 then Date(d.year, d.month + 1, 1)
    else Date(d.year + 1, 1, 1)
  }

  /** Going from y - 1 to y adds one multiple of k exactly when y is a
      multiple of k, for the three k of the leap-year rule. */
  lemma StepMultiplesOf4(y: int)
    requires y >= 1
    ensures y / 4 == (y - 1) / 4 + (if y % 4 == 0 then 1 else 0)
  {
    var q, r := (y - 1) / 4, (y - 1) % 4;
    assert y - 1 == 4 * q + r;
    if r == 4 - 1 { assert y == 4 * (q + 1); } else { assert y == 4 * q + (r + 1); }
  }

  lemma StepMultiplesOf100(y: int)
    requires y >= 1
    ensures y / 100 == (y - 1) / 100 + (if y % 100 == 0 then 1 else 0)
  {
    var q, r := (y - 1) / 100, (y - 1) % 100;
    assert y - 1 == 100 * q + r;
    if r == 100 - 1 { assert y == 100 * (q + 1); } else { assert y == 100 * q + (r + 1); }
  }

  lemma StepMultiplesOf400(y: int)
    requires y >= 1
    ensures y / 400 == (y - 1) / 400 + (if y % 400 == 0 then 1 else 0)
  {
    var q, r := (y - 1) / 400, (y - 1) % 400;
    assert y - 1 == 400 * q + r;
    if r == 400 - 1 { assert y == 400 * (q + 1); } else { assert y == 400 * q + (r + 1); }
  }

  /** Going from y - 1 to y adds one leap day exactly when y is a leap
      year. */
  lemma LeapCount(y: int)
    requires y >= 1
    ensures (y / 4 - (y - 1) / 4) - (y / 100 - (y - 1) / 100) + (y / 400 - (y - 1) / 400) == if IsLeap(y) then 1 else 0
  {
    StepMultiplesOf4(y);
    StepMultiplesOf100(y);
    StepMultiplesOf400(y);
    MultiplesNest(y);
  }

  /** Multiples of 400 are multiples of 100, which are multiples of 4. */
  lemma MultiplesNest(y: int)
    ensures y % 100 == 0 ==> y % 4 == 0
    ensures y % 400 == 0 ==> y % 100 == 0
  {
    if y % 100 == 0 {
      var q := y / 100;
      assert y == 4 * (25 * q);
    }
    if y % 400 == 0 {
      var q := y / 400;
      assert y == 100 * (4 * q);
    }
  }

  lemma DaysBeforeNextYear(y: int)
    requires y >= 1
    ensures DaysBeforeYear(y + 1) == DaysBeforeYear(y) + (if IsLeap(y) then 366 else 365)
  {
    LeapCount(y);
  }

  /** Ordinals count days: the next day has the next ordinal. */
  lemma NextDayOrdinal(d: Date)
    requires ValidDate(d) && d.year < MaxYear
    ensures Ordinal(NextDay(d)) == Ordinal(d) + 1
  {
    if d.day == DaysInMonth(d.year, d.month) && d.month == 12 {
      DaysBeforeNextYear(d.year);
    }
  }

  /** n written with exactly w decimal digits, zero-padded on the left
      (`%02d`, `%04d`, `%m`, `%d`). */
  function Pad(n: nat, w: nat): (s: string)
    ensures |s| == w && AllDigits(s)
    decreases w
  {
    if w == 0 then "" else Pad(n / 10, w - 1) + [DigitChar(n % 10)]
  }

  function Pow10(w: nat): nat
  {
    if w == 0 then 1 else 10 * Pow10(w - 1)
  }

  /** Padding the value of a digit string to its own width gives it back. */
  lemma {:induction false} PadDigits(t: string)
    requires AllDigits(t)
    ensures Pad(DigitsValue(t), |t|) == t
    decreases |t|
  {
    if t != [] {
      var u := t[..|t| - 1];
      var c := t[|t| - 1];
      assert AllDigits(u);
      PadDigits(u);
      var n := DigitsValue(t);
      assert n == 10 * DigitsValue(u) + DigitValue(c);
      DivModTen(DigitsValue(u), DigitValue(c));
      assert DigitChar(DigitValue(c)) == c;
      assert Pad(n, |t|) == Pad(DigitsValue(u), |u|) + [c];
      assert t == u + [c];
    }
  }

  /** Reading a padded number gives it back when it fits the width. */
  lemma {:induction false} PadValue(n: nat, w: nat)
    requires n < Pow10(w)
    ensures DigitsValue(Pad(n, w)) == n
    decreases w
  {
    if w > 0 {
      PadValue(n / 10, w - 1);
      var s := Pad(n, w);
      assert s[..|s| - 1] == Pad(n / 10, w - 1);
    }
  }

  /** `date.isoformat()`: YYYY-MM-DD. */
  function FormatIso(d: Date): string
    requires ValidDate(d)
  {
    Pad(d.year, 4) + "-" + Pad(d.month, 2) + "-" + Pad(d.day, 2)
  }

  /** The shape `\d{4}-\d{2}-\d{2}`. */
  predicate IsoShape(s: string)
  {
    |s| == 10 && ShapeFrom(s, 0)
  }

  /** The shape checked character by character from position i on: hyphens
      at 4 and 7, digits everywhere else. */
  predicate ShapeFrom(s: string, i: nat)
    decreases |s| - i
  {
    i >= |s| || ((if i == 4 || i == 7 then s[i] == '-' else IsDigit(s[i])) && ShapeFrom(s, i + 1))
  }

  lemma {:induction false} ShapeFromChars(s: string, i: nat)
    ensures ShapeFrom(s, i) <==> forall j :: i <= j < |s| ==> if j == 4 || j == 7 then s[j] == '-' else IsDigit(s[j])
    decreases |s| - i
  {
    if i < |s| {
      ShapeFromChars(s, i + 1);
    }
  }

  /** The shape is four digits, a hyphen, two digits, a hyphen, two digits. */
  lemma IsoShapeParts(s: string)
    ensures IsoShape(s) <==>
              |s| == 10 && AllDigits(s[..4]) && s[4] == '-' && AllDigits(s[5..7]) && s[7] == '-' && AllDigits(s[8..])
  {
    ShapeFromChars(s, 0);
    if |s| == 10 && AllDigits(s[..4]) && AllDigits(s[5..7]) && AllDigits(s[8..]) {
      forall j | 0 <= j < 10 && j != 4 && j != 7 ensures IsDigit(s[j]) {
        if j < 4 { assert s[j] == s[..4][j]; }
        else if j < 7 { assert s[j] == s[5..7][j - 5]; }
        else { assert s[j] == s[8..][j - 8]; }
      }
    }
  }

  /** The fields an ISO-shaped string spells. */
  function IsoFields(s: string): Date
    requires IsoShape(s)
  {
    IsoShapeParts(s);
    Date(DigitsValue(s[..4]), DigitsValue(s[5..7]), DigitsValue(s[8..]))
  }

  /** An ISO-shaped string is the ISO form of the fields it spells. */
  lemma IsoShapeFormats(s: string)
    requires IsoShape(s) && ValidDate(IsoFields(s))
    ensures s == FormatIso(IsoFields(s))
  {
    IsoShapeParts(s);
    PadDigits(s[..4]);
    PadDigits(s[5..7]);
    PadDigits(s[8..]);
    assert s == s[..4] + "-" + s[5..7] + "-" + s[8..];
  }

  /** `datetime.fromisoformat` on the date-only form: exactly four digits,
      a hyphen, two digits, a hyphen and two digits naming a date that
      exists. Any other text is refused (Python raises ValueError). */
  function ParseIso(s: string): (r: Option<Date>)
    ensures r.Some? ==> ValidDate(r.value)
  {
    if IsoShape(s) && ValidDate(IsoFields(s)) then Some(IsoFields(s)) else None
  }

  /** Whatever parses is the ISO form of the date it parses to. */
  lemma ParseIsoFormats(s: string)
    requires ParseIso(s).Some?
    ensures s == FormatIso(ParseIso(s).value)
  {
    IsoShapeFormats(s);
  }

  /** Every date Python can represent parses back from its ISO form, so
      ParseIso is exactly the inverse of FormatIso. */
  lemma ParseFormat(d: Date)
    requires ValidDate(d)
    ensures ParseIso(FormatIso(d)) == Some(d)
  {
    var s := FormatIso(d);
    FormatSlices(d);
    assert Pow10(4) == 10000 && Pow10(2) == 100;
    PadValue(d.year, 4);
    PadValue(d.month, 2);
    PadValue(d.day, 2);
    IsoShapeParts(s);
    assert IsoShape(s);
    assert IsoFields(s) == d;
  }

  /** Where the fields sit in the ISO form. */
  lemma FormatSlices(d: Date)
    requires ValidDate(d)
    ensures var s := FormatIso(d);
            && |s| == 10 && s[4] == '-' && s[7] == '-'
            && s[..4] == Pad(d.year, 4) && s[5..7] == Pad(d.month, 2) && s[8..] == Pad(d.day, 2)
  {
    var y, m, dd := Pad(d.year, 4), Pad(d.month, 2), Pad(d.day, 2);
    var head := y + "-" + m + "-";
    var s := head + dd;
    assert FormatIso(d) == s;
    assert |head| == 8;
    assert s[8..] == dd;
    assert s[..8] == head;
    assert head[..4] == y && head[5..7] == m;
    assert s[..4] == head[..4] && s[5..7] == head[5..7];
  }
}
