/** The record normalizers of the monitor: the keyword test that decides
    whether a scraped product is a pre-order or upcoming release, and the
    price and date scanners that turn scraped text into a price and a date
    string. Each scanner follows the regular expression the monitor uses,
    with Python's leftmost, greedy, backtracking search semantics, over
    ASCII text. */
module Normalizer {
  import opened Wrappers
  import opened Text
  import IsoDate

  // ---------------------------------------------------------------------
  // Pre-order / upcoming keyword test

  /** The keywords, in the monitor's order. */
  const Keywords: seq<string> :=
    ["preorder", "pre-order", "coming soon", "releases", "available",
     "street date", "launch date", "2025", "2026"]

  /** The lower-cased text the keywords are searched in: the name, one
      space, and the listing text. */
  function Haystack(name: string, text: string): string
  {
    Lower(name + " " + text)
  }

  function AnyKeywordIn(keys: seq<string>, hay: string): (b: bool)
    ensures b <==> exists kw :: kw in keys && Contains(hay, kw)
    decreases |keys|
  {
    if keys == [] then false
    else
      AnyKeywordStep(keys, hay);
      Contains(hay, keys[0]) || AnyKeywordIn(keys[1..], hay)
  }

  lemma AnyKeywordStep(keys: seq<string>, hay: string)
    requires keys != []
    ensures (exists kw :: kw in keys && Contains(hay, kw))
        <==> Contains(hay, keys[0]) || exists kw :: kw in keys[1..] && Contains(hay, kw)
  {
    if kw :| kw in keys && Contains(hay, kw) {
      if kw != keys[0] {
        var j :| 0 <= j < |keys| && keys[j] == kw;
        assert keys[1..][j - 1] == kw;
      }
    }
  }

  /** `is_preorder_or_upcoming`: some keyword is spelt somewhere in the
      lower-cased `name + ' ' + text`. */
  function IsPreorderOrUpcoming(name: string, text: string): (b: bool)
    ensures b <==> exists kw, i: nat :: kw in Keywords && OccursAt(Haystack(name, text), kw, i)
  {
    AnyKeywordIn(Keywords, Haystack(name, text))
  }

  /** A keyword in the name alone is enough. */
  lemma KeywordInName(name: string, text: string, kw: string)
    requires kw in Keywords && Contains(Lower(name), kw)
    ensures IsPreorderOrUpcoming(name, text)
  {
    var i: nat :| OccursAt(Lower(name), kw, i);
    LowerConcat(name, " " + text);
    assert name + " " + text == name + (" " + text);
    OccursInConcat(Lower(name), Lower(" " + text), kw, i);
  }

  /** A keyword in the listing text alone is enough. */
  lemma KeywordInText(name: string, text: string, kw: string)
    requires kw in Keywords && Contains(Lower(text), kw)
    ensures IsPreorderOrUpcoming(name, text)
  {
    var i: nat :| OccursAt(Lower(text), kw, i);
    LowerConcat(name + " ", text);
    OccursInConcat(Lower(name + " "), Lower(text), kw, i);
  }

  /** The joining space lets a keyword straddle name and text: neither
      "Booster Box Coming" nor "Soon" holds a keyword, but together they
      spell "coming soon". */
  lemma KeywordStraddlesSpace()
    ensures IsPreorderOrUpcoming("Booster Box Coming", "Soon")
  {
    var h := Haystack("Booster Box Coming", "Soon");
    assert h[12..23] == "coming soon";
    assert OccursAt(h, "coming soon", 12);
  }

  // ---------------------------------------------------------------------
  // Price scanner: re.search(r'\$?(\d+\.?\d*)', text.replace(',', ''))

  /** An exact decimal number: the digits before and after the point
      (`frac` is empty for a whole number). */
  datatype Decimal = Decimal(whole: string, frac: string)

  /** `text.replace(',', '')`. */
  function RemoveCommas(s: string): string
    decreases |s|
  {
    if s == [] then [] else (if s[0] == ',' then [] else [s[0]]) + RemoveCommas(s[1..])
  }

  /** RemoveCommas works character by character: it distributes over
      concatenation, drops every comma and keeps every other character. */
  lemma {:induction false} RemoveCommasConcat(a: string, b: string)
    ensures RemoveCommas(a + b) == RemoveCommas(a) + RemoveCommas(b)
    decreases |a|
  {
    if a == [] {
      assert a + b == b;
    } else {
      assert (a + b)[0] == a[0] && (a + b)[1..] == a[1..] + b;
      RemoveCommasConcat(a[1..], b);
    }
  }

  lemma {:induction false} RemoveCommasDropsCommas(s: string)
    ensures ',' !in RemoveCommas(s)
    ensures ',' !in s ==> RemoveCommas(s) == s
    decreases |s|
  {
    if s != [] {
      RemoveCommasDropsCommas(s[1..]);
      assert s == [s[0]] + s[1..];
    }
  }

  /** The first digit of t at or after i. */
  function FirstDigit(t: string, i: nat): (r: Option<nat>)
    requires i <= |t|
    ensures r.Some? ==> i <= r.value < |t| && IsDigit(t[r.value])
    ensures r.Some? ==> forall j :: i <= j < r.value ==> !IsDigit(t[j])
    ensures r.None? ==> forall j :: i <= j < |t| ==> !IsDigit(t[j])
    decreases |t| - i
  {
    if i == |t| then None else if IsDigit(t[i]) then Some(i) else FirstDigit(t, i + 1)
  }

  /** No digit occurs in t before k. */
  predicate NoDigitBefore(t: string, k: nat)
  {
    k <= |t| && forall j :: 0 <= j < k ==> !IsDigit(t[j])
  }

  /** run is the whole stretch of digits of t that starts at k. */
  predicate DigitRunAt(t: string, k: nat, run: string)
  {
    && k + |run| <= |t|
    && t[k..k + |run|] == run && AllDigits(run)
    && (k + |run| == |t| || !IsDigit(t[k + |run|]))
  }

  /** The digit stretch at k is the one Run measures, and only that one. */
  lemma DigitRunIsRun(t: string, k: nat, run: string)
    requires k <= |t|
    ensures DigitRunAt(t, k, run) <==> run == t[k..k + Run(t, k, Digit)]
  {
    var n := Run(t, k, Digit);
    RunSpec(t, k, Digit);
    if DigitRunAt(t, k, run) {
      assert AllIn(t, k, k + |run|, Digit) by {
        forall x | k <= x < k + |run| ensures IsDigit(t[x]) { assert t[x] == run[x - k]; }
      }
      RunIsMaximal(t, k, Digit, |run|);
    }
    if run == t[k..k + n] {
      assert forall x :: 0 <= x < |run| ==> run[x] == t[k + x];
    }
  }

  /** d is the group the price pattern captures in t when its digits start
      at k: no digit comes before k; `whole` is the whole run of digits
      from k; and if a point follows it, `frac` is the whole run of digits
      after the point (possibly empty), otherwise `frac` is empty. */
  predicate PriceTokenAt(t: string, k: nat, d: Decimal)
  {
    && |d.whole| >= 1
    && NoDigitBefore(t, k)
    && DigitRunAt(t, k, d.whole)
    && var e := k + |d.whole|;
       if e < |t| && t[e] == '.' then DigitRunAt(t, e + 1, d.frac) else d.frac == ""
  }

  /** The group captured when the first digit of t is at k. */
  function TokenAt(t: string, k: nat): Decimal
    requires k <= |t|
  {
    var e := k + Run(t, k, Digit);
    if e < |t| && t[e] == '.' then Decimal(t[k..e], t[e + 1..e + 1 + Run(t, e + 1, Digit)])
    else Decimal(t[k..e], "")
  }

  lemma TokenAtIsToken(t: string, k: nat)
    requires k < |t| && IsDigit(t[k]) && NoDigitBefore(t, k)
    ensures PriceTokenAt(t, k, TokenAt(t, k))
  {
    var d := TokenAt(t, k);
    var e := k + Run(t, k, Digit);
    assert InClass(t[k], Digit);
    assert |d.whole| >= 1;
    DigitRunIsRun(t, k, d.whole);
    if e < |t| && t[e] == '.' {
      DigitRunIsRun(t, e + 1, d.frac);
    }
  }

  /** The scan on text whose commas are already gone. */
  function ScanPrice(t: string): (r: Option<Decimal>)
    ensures r.None? <==> NoDigitBefore(t, |t|)
    ensures r.Some? ==> exists k: nat :: PriceTokenAt(t, k, r.value)
  {
    match FirstDigit(t, 0)
    case None => None
    case Some(k) =>
      TokenAtIsToken(t, k);
      Some(TokenAt(t, k))
  }

  /** `extract_price`. The optional `$` only moves where the match starts:
      a match can begin at a `$` only when a digit follows it, so the
      captured group always starts at the first digit of the text.
      `float()` of that group never fails, so neither does the scan. */
  function ExtractPrice(text: string): (r: Option<Decimal>)
    ensures r.None? <==> NoDigitBefore(RemoveCommas(text), |RemoveCommas(text)|)
    ensures r.Some? ==> exists k: nat :: PriceTokenAt(RemoveCommas(text), k, r.value)
  {
    ScanPrice(RemoveCommas(text))
  }

  /** The first digit is where the digits start. */
  lemma {:induction false} FirstDigitIs(t: string, i: nat, k: nat)
    requires i <= k < |t| && IsDigit(t[k])
    requires forall j :: i <= j < k ==> !IsDigit(t[j])
    ensures FirstDigit(t, i) == Some(k)
    decreases k - i
  {
    if i < k { FirstDigitIs(t, i + 1, k); }
  }

  /** The description above determines the price: whatever satisfies it is
      what ExtractPrice returns. */
  lemma PriceTokenDetermines(text: string, k: nat, d: Decimal)
    requires PriceTokenAt(RemoveCommas(text), k, d)
    ensures ExtractPrice(text) == Some(d)
  {
    var t := RemoveCommas(text);
    assert t[k] == d.whole[0];
    FirstDigitIs(t, 0, k);
    TokenDetermined(t, k, d);
  }

  lemma TokenDetermined(t: string, k: nat, d: Decimal)
    requires PriceTokenAt(t, k, d)
    ensures d == TokenAt(t, k)
  {
    var e := k + |d.whole|;
    DigitRunIsRun(t, k, d.whole);
    if e < |t| && t[e] == '.' {
      DigitRunIsRun(t, e + 1, d.frac);
    }
  }

  /** Thousands separators are dropped before the scan: "$1,299.99" is
      1299.99. */
  lemma PriceWithThousandsSeparator()
    ensures ExtractPrice("$1,299.99") == Some(Decimal("1299", "99"))
  {
    SeparatorDropped();
    SeparatedPriceToken();
    PriceTokenDetermines("$1,299.99", 1, Decimal("1299", "99"));
  }

  lemma SeparatorDropped()
    ensures RemoveCommas("$1,299.99") == "$1299.99"
  {
    assert "$1,299.99" == "$1" + ("," + "299.99");
    assert "$1299.99" == "$1" + "299.99";
    CommaIgnored("$1", "299.99");
  }

  /** A comma between two comma-free pieces disappears. */
  lemma CommaIgnored(a: string, b: string)
    requires ',' !in a && ',' !in b
    ensures RemoveCommas(a + ("," + b)) == a + b
  {
    var cb := "," + b;
    assert cb[0] == ',' && cb[1..] == b;
    assert RemoveCommas(cb) == RemoveCommas(b);
    RemoveCommasDropsCommas(a);
    RemoveCommasDropsCommas(b);
    RemoveCommasConcat(a, cb);
  }

  lemma SeparatedPriceToken()
    ensures PriceTokenAt("$1299.99", 1, Decimal("1299", "99"))
  {
    var t := "$1299.99";
    assert |t| == 8 && t[5] == '.' && t[6] == '9' && t[7] == '9';
    assert t[1..5] == "1299";
    assert t[6..8] == "99";
    assert NoDigitBefore(t, 1);
    assert DigitRunAt(t, 1, "1299");
    assert DigitRunAt(t, 6, "99");
  }

  // ---------------------------------------------------------------------
  // Date scanner

  /** The three date patterns, in the order the monitor tries them:
      `(\d{1,2})/(\d{1,2})/(\d{4})`, `(\w+)\s+(\d{1,2}),?\s+(\d{4})` and
      `(\d{4})-(\d{2})-(\d{2})`. */
  datatype DatePattern = SlashDate | MonthDayYear | DashDate

  const DatePatterns: seq<DatePattern> := [SlashDate, MonthDayYear, DashDate]

  /** t spells `(\d{1,2})/(\d{1,2})/(\d{4})` with a and b digits in the
      first two groups. */
  predicate SlashSplit(t: string, a: nat, b: nat)
  {
    && 1 <= a <= 2 && 1 <= b <= 2 && |t| == a + b + 6
    && AllIn(t, 0, a, Digit) && t[a] == '/'
    && AllIn(t, a + 1, a + 1 + b, Digit) && t[a + 1 + b] == '/'
    && AllIn(t, a + b + 2, |t|, Digit)
  }

  /** t spells `(\w+)\s+(\d{1,2}),?\s+(\d{4})` with the given lengths of
      the word, the first blank stretch, the day, the comma (0 or 1) and
      the second blank stretch. */
  predicate WordSplit(t: string, w: nat, s1: nat, d: nat, c: nat, s2: nat)
  {
    && w >= 1 && s1 >= 1 && 1 <= d <= 2 && c <= 1 && s2 >= 1
    && |t| == w + s1 + d + c + s2 + 4
    && AllIn(t, 0, w, Word) && AllIn(t, w, w + s1, Space)
    && AllIn(t, w + s1, w + s1 + d, Digit)
    && (c == 1 ==> t[w + s1 + d] == ',')
    && AllIn(t, w + s1 + d + c, |t| - 4, Space)
    && AllIn(t, |t| - 4, |t|, Digit)
  }

  /** t spells `(\d{4})-(\d{2})-(\d{2})`. This is the regular
      expression's view, written with the class runs the other patterns
      use; `IsoDate.IsoShape` is the date parser's character-by-character
      view of the same shape, and `DashShapeIsIsoShape` proves they agree. */
  predicate DashShape(t: string)
  {
    |t| == 10 && AllIn(t, 0, 4, Digit) && t[4] == '-' && AllIn(t, 5, 7, Digit) && t[7] == '-' && AllIn(t, 8, 10, Digit)
  }

  /** The strings a pattern matches as a whole. */
  ghost predicate InLanguage(pat: DatePattern, t: string)
  {
    match pat
    case SlashDate => exists a: nat, b: nat :: SlashSplit(t, a, b)
    case MonthDayYear => exists w: nat, s1: nat, d: nat, c: nat, s2: nat :: WordSplit(t, w, s1, d, c, s2)
    case DashDate => DashShape(t)
  }

  /** `(\d{1,2})` followed by sep at p: the index after sep. Two digits are
      tried before one; since sep is not a digit, at most one of the two
      can be followed by it, so no later failure can make the other choice
      succeed. */
  function DigitsThen(s: string, p: nat, sep: char): (r: Option<nat>)
    requires p <= |s|
    ensures r.Some? ==> p < r.value <= |s|
  {
    if p + 2 < |s| && IsDigit(s[p]) && IsDigit(s[p + 1]) && s[p + 2] == sep then Some(p + 3)
    else if p + 1 < |s| && IsDigit(s[p]) && s[p + 1] == sep then Some(p + 2)
    else None
  }

  function MatchSlash(s: string, p: nat): (r: Option<nat>)
    requires p <= |s|
    ensures r.Some? ==> p < r.value <= |s|
  {
    match DigitsThen(s, p, '/')
    case None => None
    case Some(q) =>
      match DigitsThen(s, q, '/')
      case None => None
      case Some(r) => if r + 4 <= |s| && AllIn(s, r, r + 4, Digit) then Some(r + 4) else None
  }

  /** Length taken by `(\d{1,2})` at r: two digits when there are two. */
  function DayLength(s: string, r: nat): (n: nat)
    requires r <= |s|
    ensures r + n <= |s| && n <= 2
    ensures n >= 1 ==> IsDigit(s[r]) && (n == 2 ==> IsDigit(s[r + 1]))
    ensures n < 2 ==> r + n == |s| || !IsDigit(s[r + n])
  {
    if r + 1 < |s| && IsDigit(s[r]) && IsDigit(s[r + 1]) then 2
    else if r < |s| && IsDigit(s[r]) then 1 else 0
  }

  /** Length taken by `,?` at u. */
  function CommaLength(s: string, u: nat): (n: nat)
    requires u <= |s|
    ensures u + n <= |s| && n <= 1 && (n == 1 <==> u < |s| && s[u] == ',')
  {
    if u < |s| && s[u] == ',' then 1 else 0
  }

  /** The backtracking of `(\w+)\s+(\d{1,2}),?\s+` never changes the
      outcome: giving back a word or blank character leaves a character of
      the same class where the next item needs another class; one day digit
      instead of two leaves a digit where a comma or blank is needed; and
      skipping a comma leaves it where a blank is needed. So every item
      takes its greedy length. */
  function MatchWordDate(s: string, p: nat): (r: Option<nat>)
    requires p <= |s|
    ensures r.Some? ==> p < r.value <= |s|
  {
    var q := p + Run(s, p, Word);
    var r := q + Run(s, q, Space);
    var u := r + DayLength(s, r);
    var v := u + CommaLength(s, u);
    var x := v + Run(s, v, Space);
    if p < q && q < r && r < u && v < x && x + 4 <= |s| && AllIn(s, x, x + 4, Digit) then Some(x + 4)
    else None
  }

  function MatchDash(s: string, p: nat): (r: Option<nat>)
    requires p <= |s|
    ensures r.Some? ==> p < r.value <= |s|
  {
    if p + 10 <= |s| && DashShape(s[p..p + 10]) then Some(p + 10) else None
  }

  /** Where a match of pat that starts at p ends, if one does. */
  function MatchAt(pat: DatePattern, s: string, p: nat): (r: Option<nat>)
    requires p <= |s|
    ensures r.Some? ==> p < r.value <= |s|
  {
    match pat
    case SlashDate => MatchSlash(s, p)
    case MonthDayYear => MatchWordDate(s, p)
    case DashDate => MatchDash(s, p)
  }

  /** Class facts read the same in a slice and in the string it was cut from. */
  lemma AllInSlice(s: string, p: nat, e: nat, i: nat, j: nat, k: CharClass)
    requires p <= e <= |s| && i <= j <= e - p
    ensures AllIn(s[p..e], i, j, k) <==> AllIn(s, p + i, p + j, k)
  {
    var t := s[p..e];
    assert forall x :: i <= x < j ==> t[x] == s[p + x];
    if AllIn(s, p + i, p + j, k) {
      forall x | i <= x < j ensures InClass(t[x], k) { assert InClass(s[p + x], k); }
    }
    if AllIn(t, i, j, k) {
      forall x | p + i <= x < p + j ensures InClass(s[x], k) { assert InClass(t[x - p], k); }
    }
  }

  /** What the matcher accepts is in the pattern's language. */
  lemma MatchSound(pat: DatePattern, s: string, p: nat)
    requires p <= |s| && MatchAt(pat, s, p).Some?
    ensures InLanguage(pat, s[p..MatchAt(pat, s, p).value])
  {
    match pat {
      case SlashDate => SlashSound(s, p);
      case MonthDayYear => WordDateSound(s, p);
      case DashDate =>
    }
  }

  /** Every match of the pattern at p is the one the matcher finds; in
      particular a pattern matches at most one string starting at p. */
  lemma MatchComplete(pat: DatePattern, s: string, p: nat, e: nat)
    requires p <= e <= |s| && InLanguage(pat, s[p..e])
    ensures MatchAt(pat, s, p) == Some(e)
  {
    match pat {
      case SlashDate =>
        var a: nat, b: nat :| SlashSplit(s[p..e], a, b);
        SlashComplete(s, p, e, a, b);
      case MonthDayYear =>
        var w: nat, s1: nat, d: nat, c: nat, s2: nat :| WordSplit(s[p..e], w, s1, d, c, s2);
        WordDateComplete(s, p, e, w, s1, d, c, s2);
      case DashDate =>
    }
  }

  lemma SlashSound(s: string, p: nat)
    requires p <= |s| && MatchSlash(s, p).Some?
    ensures var e := MatchSlash(s, p).value; SlashSplit(s[p..e], DigitsThen(s, p, '/').value - p - 1,
                                                     DigitsThen(s, DigitsThen(s, p, '/').value, '/').value - DigitsThen(s, p, '/').value - 1)
  {
    var e := MatchSlash(s, p).value;
    var q := DigitsThen(s, p, '/').value;
    var r := DigitsThen(s, q, '/').value;
    var a: nat, b: nat := q - p - 1, r - q - 1;
    var t := s[p..e];
    AllInSlice(s, p, e, 0, a, Digit);
    AllInSlice(s, p, e, a + 1, a + 1 + b, Digit);
    AllInSlice(s, p, e, a + b + 2, |t|, Digit);
  }

  lemma SlashComplete(s: string, p: nat, e: nat, a: nat, b: nat)
    requires p <= e <= |s| && SlashSplit(s[p..e], a, b)
    ensures MatchSlash(s, p) == Some(e)
  {
    var t := s[p..e];
    AllInSlice(s, p, e, 0, a, Digit);
    AllInSlice(s, p, e, a + 1, a + 1 + b, Digit);
    AllInSlice(s, p, e, a + b + 2, |t|, Digit);
    assert s[p + a] == t[a] && s[p + a + 1 + b] == t[a + 1 + b];
    assert DigitsThen(s, p, '/') == Some(p + a + 1);
    assert DigitsThen(s, p + a + 1, '/') == Some(p + a + b + 2);
  }

  /** WordSplit read in place: s from p on spells the pattern with the
      given item lengths. */
  predicate WordSplitAt(s: string, p: nat, w: nat, s1: nat, d: nat, c: nat, s2: nat)
  {
    && w >= 1 && s1 >= 1 && 1 <= d <= 2 && c <= 1 && s2 >= 1
    && p + w + s1 + d + c + s2 + 4 <= |s|
    && AllIn(s, p, p + w, Word) && AllIn(s, p + w, p + w + s1, Space)
    && AllIn(s, p + w + s1, p + w + s1 + d, Digit)
    && (c == 1 ==> s[p + w + s1 + d] == ',')
    && AllIn(s, p + w + s1 + d + c, p + w + s1 + d + c + s2, Space)
    && AllIn(s, p + w + s1 + d + c + s2, p + w + s1 + d + c + s2 + 4, Digit)
  }

  lemma WordSplitBridge(s: string, p: nat, e: nat, w: nat, s1: nat, d: nat, c: nat, s2: nat)
    requires p <= e <= |s| && e == p + w + s1 + d + c + s2 + 4
    ensures WordSplit(s[p..e], w, s1, d, c, s2) <==> WordSplitAt(s, p, w, s1, d, c, s2)
  {
    var t := s[p..e];
    AllInSlice(s, p, e, 0, w, Word);
    AllInSlice(s, p, e, w, w + s1, Space);
    AllInSlice(s, p, e, w + s1, w + s1 + d, Digit);
    AllInSlice(s, p, e, w + s1 + d + c, |t| - 4, Space);
    AllInSlice(s, p, e, |t| - 4, |t|, Digit);
    if c == 1 {
      assert t[w + s1 + d] == s[p + w + s1 + d];
    }
  }

  lemma WordDateSoundAt(s: string, p: nat)
    requires p <= |s| && MatchWordDate(s, p).Some?
    ensures exists w: nat, s1: nat, d: nat, c: nat, s2: nat ::
              WordSplitAt(s, p, w, s1, d, c, s2) && MatchWordDate(s, p).value == p + w + s1 + d + c + s2 + 4
  {
    var q := p + Run(s, p, Word);
    var r := q + Run(s, q, Space);
    var u := r + DayLength(s, r);
    var v := u + CommaLength(s, u);
    var x := v + Run(s, v, Space);
    assert p < q < r < u <= v < x && x + 4 <= |s| && AllIn(s, x, x + 4, Digit) && MatchWordDate(s, p).value == x + 4;
    assert AllIn(s, p, q, Word) && AllIn(s, q, r, Space) && AllIn(s, v, x, Space) by {
      RunSpec(s, p, Word);
      RunSpec(s, q, Space);
      RunSpec(s, v, Space);
    }
    assert AllIn(s, r, u, Digit);
    assert WordSplitAt(s, p, q - p, r - q, u - r, v - u, x - v);
  }

  lemma WordDateSound(s: string, p: nat)
    requires p <= |s| && MatchWordDate(s, p).Some?
    ensures exists w: nat, s1: nat, d: nat, c: nat, s2: nat :: WordSplit(s[p..MatchWordDate(s, p).value], w, s1, d, c, s2)
  {
    WordDateSoundAt(s, p);
    var w: nat, s1: nat, d: nat, c: nat, s2: nat :|
      WordSplitAt(s, p, w, s1, d, c, s2) && MatchWordDate(s, p).value == p + w + s1 + d + c + s2 + 4;
    WordSplitBridge(s, p, MatchWordDate(s, p).value, w, s1, d, c, s2);
  }

  lemma WordDateCompleteAt(s: string, p: nat, w: nat, s1: nat, d: nat, c: nat, s2: nat)
    requires WordSplitAt(s, p, w, s1, d, c, s2)
    ensures MatchWordDate(s, p) == Some(p + w + s1 + d + c + s2 + 4)
  {
    var q := p + w;
    var r := q + s1;
    var u := r + d;
    var v := u + c;
    var x := v + s2;
    assert Run(s, p, Word) == w by {
      assert InClass(s[q], Space);
      RunIsMaximal(s, p, Word, w);
    }
    assert Run(s, q, Space) == s1 by {
      assert InClass(s[r], Digit);
      RunIsMaximal(s, q, Space, s1);
    }
    assert DayLength(s, r) == d && CommaLength(s, u) == c by {
      assert s[u] == ',' || IsSpace(s[u]);
    }
    assert Run(s, v, Space) == s2 by {
      assert InClass(s[x], Digit);
      RunIsMaximal(s, v, Space, s2);
    }
    WordDateFromLengths(s, p, q, r, u, v, x);
  }

  /** MatchWordDate once the item lengths are known. */
  lemma WordDateFromLengths(s: string, p: nat, q: nat, r: nat, u: nat, v: nat, x: nat)
    requires p < q < r < u <= v < x && x + 4 <= |s| && AllIn(s, x, x + 4, Digit)
    requires Run(s, p, Word) == q - p && Run(s, q, Space) == r - q && DayLength(s, r) == u - r
    requires CommaLength(s, u) == v - u && Run(s, v, Space) == x - v
    ensures MatchWordDate(s, p) == Some(x + 4)
  {
  }

  lemma WordDateComplete(s: string, p: nat, e: nat, w: nat, s1: nat, d: nat, c: nat, s2: nat)
    requires p <= e <= |s| && WordSplit(s[p..e], w, s1, d, c, s2)
    ensures MatchWordDate(s, p) == Some(e)
  {
    WordSplitBridge(s, p, e, w, s1, d, c, s2);
    WordDateCompleteAt(s, p, w, s1, d, c, s2);
  }

  ghost predicate MatchesAt(pat: DatePattern, text: string, i: nat, e: nat)
  {
    i <= e <= |text| && InLanguage(pat, text[i..e])
  }

  ghost predicate Occurs(pat: DatePattern, text: string)
  {
    exists i: nat, e: nat :: MatchesAt(pat, text, i, e)
  }

  /** text[i..e] is the match `re.search(pat, text)` reports: it starts
      further left than any other. */
  ghost predicate Leftmost(pat: DatePattern, text: string, i: nat, e: nat)
  {
    MatchesAt(pat, text, i, e) && forall j: nat, f: nat :: j < i ==> !MatchesAt(pat, text, j, f)
  }

  /** Where the match of pat starting at each position of s ends, if one
      does: the outcomes `re.search` tries in turn. */
  function Ends(pat: DatePattern, s: string): (r: seq<Option<nat>>)
    ensures |r| == |s| + 1
  {
    seq(|s| + 1, (j: int) requires 0 <= j <= |s| => MatchAt(pat, s, j))
  }

  /** The first position at or after p with an outcome, and that outcome. */
  function FirstMatch(ends: seq<Option<nat>>, p: nat): (r: Option<(nat, nat)>)
    requires p <= |ends|
    ensures r.Some? ==> p <= r.value.0 < |ends| && ends[r.value.0] == Some(r.value.1)
    decreases |ends| - p
  {
    if p == |ends| then None
    else if ends[p].Some? then Some((p, ends[p].value))
    else FirstMatch(ends, p + 1)
  }

  /** Positions FirstMatch passes over have no outcome. */
  lemma {:induction false} FirstMatchSkips(ends: seq<Option<nat>>, p: nat, j: nat)
    requires p <= j < |ends|
    requires FirstMatch(ends, p).Some? ==> j < FirstMatch(ends, p).value.0
    ensures ends[j].None?
    decreases j - p
  {
    if j > p {
      FirstMatchSkips(ends, p + 1, j);
    }
  }

  /** `re.search`: the leftmost start where the pattern matches, and where
      that match ends. */
  function Search(pat: DatePattern, s: string): (r: Option<(nat, nat)>)
    ensures r.Some? ==> r.value.0 <= |s| && MatchAt(pat, s, r.value.0) == Some(r.value.1)
  {
    FirstMatch(Ends(pat, s), 0)
  }

  /** Nothing before the start Search reports matches, and when it reports
      nothing, nothing matches. */
  lemma SearchSkipsNothing(pat: DatePattern, s: string, j: nat)
    requires j <= |s|
    requires Search(pat, s).Some? ==> j < Search(pat, s).value.0
    ensures MatchAt(pat, s, j).None?
  {
    FirstMatchSkips(Ends(pat, s), 0, j);
  }

  lemma SearchFindsLeftmost(pat: DatePattern, text: string)
    ensures Search(pat, text).None? <==> !Occurs(pat, text)
    ensures Search(pat, text).Some? ==> Leftmost(pat, text, Search(pat, text).value.0, Search(pat, text).value.1)
  {
    var r := Search(pat, text);
    if Occurs(pat, text) {
      var i: nat, e: nat :| MatchesAt(pat, text, i, e);
      MatchComplete(pat, text, i, e);
      if r.None? { SearchSkipsNothing(pat, text, i); }
    }
    if r.Some? {
      var (i, e) := r.value;
      MatchSound(pat, text, i);
      assert MatchesAt(pat, text, i, e);
      forall j: nat, f: nat | j < i ensures !MatchesAt(pat, text, j, f) {
        SearchSkipsNothing(pat, text, j);
        if MatchesAt(pat, text, j, f) { MatchComplete(pat, text, j, f); }
      }
    }
  }

  /** m is what the date scan returns when it is settled by pats[k] at
      position i: no earlier pattern matches anywhere, and m is the leftmost
      match of pats[k], copied from the text. */
  ghost predicate ChosenBy(pats: seq<DatePattern>, text: string, k: nat, i: nat, m: string)
  {
    && k < |pats|
    && (forall k' :: 0 <= k' < k ==> !Occurs(pats[k'], text))
    && Leftmost(pats[k], text, i, i + |m|)
    && text[i..i + |m|] == m
  }

  /** The `for pattern in date_patterns` loop: the first pattern that
      matches anywhere decides, and its leftmost match is returned. */
  function ExtractWith(pats: seq<DatePattern>, text: string): (r: Option<string>)
    ensures r.None? <==> forall k :: 0 <= k < |pats| ==> !Occurs(pats[k], text)
    ensures r.Some? ==> exists k: nat, i: nat :: ChosenBy(pats, text, k, i, r.value)
    decreases |pats|
  {
    if pats == [] then None
    else
      match Search(pats[0], text)
      case Some((i, e)) =>
        FirstPatternDecides(pats, text, i, e);
        Some(text[i..e])
      case None =>
        var r := ExtractWith(pats[1..], text);
        FirstPatternPasses(pats, text, r);
        r
  }

  /** When the first pattern is found, its leftmost match is the choice. */
  lemma FirstPatternDecides(pats: seq<DatePattern>, text: string, i: nat, e: nat)
    requires |pats| > 0 && Search(pats[0], text) == Some((i, e))
    ensures i <= e <= |text|
    ensures !(forall k :: 0 <= k < |pats| ==> !Occurs(pats[k], text))
    ensures exists k: nat, i': nat :: ChosenBy(pats, text, k, i', text[i..e])
  {
    SearchFindsLeftmost(pats[0], text);
    assert ChosenBy(pats, text, 0, i, text[i..e]);
  }

  /** When the first pattern is not found, the rest of the list decides. */
  lemma FirstPatternPasses(pats: seq<DatePattern>, text: string, r: Option<string>)
    requires |pats| > 0 && Search(pats[0], text).None?
    requires r.None? <==> forall k :: 0 <= k < |pats[1..]| ==> !Occurs(pats[1..][k], text)
    requires r.Some? ==> exists k: nat, i: nat :: ChosenBy(pats[1..], text, k, i, r.value)
    ensures r.None? <==> forall k :: 0 <= k < |pats| ==> !Occurs(pats[k], text)
    ensures r.Some? ==> exists k: nat, i: nat :: ChosenBy(pats, text, k, i, r.value)
  {
    SearchFindsLeftmost(pats[0], text);
    assert forall k :: 1 <= k < |pats| ==> pats[k] == pats[1..][k - 1];
    if r.Some? {
      var k: nat, i: nat :| ChosenBy(pats[1..], text, k, i, r.value);
      assert ChosenBy(pats, text, k + 1, i, r.value);
    }
  }

  /** `extract_date`. */
  function ExtractDate(text: string): (r: Option<string>)
    ensures r.None? <==> forall k :: 0 <= k < |DatePatterns| ==> !Occurs(DatePatterns[k], text)
    ensures r.Some? ==> exists k: nat, i: nat :: ChosenBy(DatePatterns, text, k, i, r.value)
  {
    ExtractWith(DatePatterns, text)
  }

  /** Two choices of the same text agree. */
  lemma ChosenUnique(pats: seq<DatePattern>, text: string, k: nat, i: nat, m: string, k': nat, i': nat, m': string)
    requires ChosenBy(pats, text, k, i, m) && ChosenBy(pats, text, k', i', m')
    ensures m == m'
  {
    assert Occurs(pats[k], text) && Occurs(pats[k'], text);
    assert k == k';
    assert MatchesAt(pats[k], text, i, i + |m|) && MatchesAt(pats[k], text, i', i' + |m'|);
    assert i == i';
    MatchComplete(pats[k], text, i, i + |m|);
    MatchComplete(pats[k], text, i, i + |m'|);
  }

  /** The description above determines the date: whatever is chosen by it
      is what ExtractDate returns. */
  lemma ExtractDateDetermined(text: string, k: nat, i: nat, m: string)
    requires ChosenBy(DatePatterns, text, k, i, m)
    ensures ExtractDate(text) == Some(m)
  {
    var r := ExtractDate(text);
    assert Occurs(DatePatterns[k], text);
    var k': nat, i': nat :| ChosenBy(DatePatterns, text, k', i', r.value);
    ChosenUnique(DatePatterns, text, k, i, m, k', i', r.value);
  }

  // ---------------------------------------------------------------------
  // What the date parser makes of the extracted dates

  lemma FormatIsoShape(d: IsoDate.Date)
    requires IsoDate.ValidDate(d)
    ensures var s := IsoDate.FormatIso(d);
      |s| == 10 && s[4] == '-' && s[7] == '-' && forall j :: 0 <= j < 10 && j != 4 && j != 7 ==> IsDigit(s[j])
  {
  }

  /** The third pattern and the date parser accept the same shape. */
  lemma DashShapeIsIsoShape(t: string)
    ensures DashShape(t) <==> IsoDate.IsoShape(t)
  {
    IsoDate.ShapeFromChars(t, 0);
    if |t| == 10 && IsoDate.ShapeFrom(t, 0) {
      assert forall j :: 0 <= j < 10 && j != 4 && j != 7 ==> IsDigit(t[j]);
    }
  }

  /** Only the third pattern yields text `datetime.fromisoformat` accepts:
      the `MM/DD/YYYY` and `Month DD, YYYY` forms never parse, and whatever
      parses has the `YYYY-MM-DD` shape. */
  lemma SlashDateDoesNotParse(t: string)
    requires InLanguage(SlashDate, t)
    ensures IsoDate.ParseIso(t).None?
  {
    var a: nat, b: nat :| SlashSplit(t, a, b);
    assert t[a] == '/';
    NoSlashOrSpaceInIso(t);
  }

  lemma WordDateDoesNotParse(t: string)
    requires InLanguage(MonthDayYear, t)
    ensures IsoDate.ParseIso(t).None?
  {
    var w: nat, s1: nat, d: nat, c: nat, s2: nat :| WordSplit(t, w, s1, d, c, s2);
    assert IsSpace(t[w]);
    NoSlashOrSpaceInIso(t);
  }

  lemma ParsedDatesAreDashDates(t: string)
    requires IsoDate.ParseIso(t).Some?
    ensures InLanguage(DashDate, t)
  {
    IsoDate.ParseIsoFormats(t);
    FormatIsoShape(IsoDate.ParseIso(t).value);
  }

  lemma NoSlashOrSpaceInIso(t: string)
    ensures IsoDate.ParseIso(t).Some? ==> forall j :: 0 <= j < |t| ==> t[j] != '/' && !IsSpace(t[j])
  {
    if IsoDate.ParseIso(t).Some? {
      IsoDate.ParseIsoFormats(t);
      FormatIsoShape(IsoDate.ParseIso(t).value);
    }
  }
}
