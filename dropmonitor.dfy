/** The drop store of the monitor: the `drops` table with its UNIQUE
    identity and AUTOINCREMENT id, the append-only `notifications` log,
    and the operations that change them (`save_drop`, `mark_as_notified`,
    the 7-day alert pass and a whole scan) or read them (`get_all_drops`).

    The SQL statements are modelled by what SQLite does with them:
    `INSERT OR REPLACE` deletes the row holding the same identity and
    inserts a fresh one, whose id is one more than the largest id ever
    handed out and whose columns not named in the statement take their
    defaults; a NULL in a NOT NULL column with no default aborts the
    statement; `=` against NULL is never true. Timestamps are the integer
    seconds of `IsoDate`, and `now` is a parameter. */
module DropMonitor {
  import opened Wrappers
  import opened Text
  import IsoDate
  import Normalizer

  /** A row of `drops`. `status` and `notified` are free columns: the code
      only ever writes their defaults and 1 respectively, but a row read
      back may hold anything the schema allows. */
  datatype Row = Row(id: nat, name: string, retailer: string, url: string,
                     price: Option<Normalizer.Decimal>, dropDate: Option<string>, dropTime: Option<string>,
                     status: string, discovered: int, lastChecked: int, notified: int)

  /** The UNIQUE(product_name, retailer, url) identity. */
  datatype Key = Key(name: string, retailer: string, url: string)

  function KeyOf(r: Row): Key
  {
    Key(r.name, r.retailer, r.url)
  }

  /** A result of a retailer search. Any identity field may be null: a
      JSON listing can carry `"name": null` or `"url": null`. */
  datatype Listing = Listing(name: Option<string>, retailer: Option<string>, url: Option<string>,
                             price: Option<Normalizer.Decimal>, dropDate: Option<string>)

  /** A row of `notifications`. */
  datatype Notification = Notification(id: nat, dropId: nat, date: int, kind: string)

  /** The DEFAULT of `status`. */
  const Upcoming: string := "upcoming"

  /** The `notification_type` the alert pass writes. */
  const SevenDayAlert: string := "7-day-alert"

  // ---------------------------------------------------------------------
  // Filtering

  /** The elements of s that satisfy p, in their order. */
  function Filter<T(!new)>(s: seq<T>, p: T -> bool): (r: seq<T>)
    ensures |r| <= |s|
    decreases |s|
  {
    if s == [] then [] else (if p(s[0]) then [s[0]] else []) + Filter(s[1..], p)
  }

  /** Filter keeps exactly the elements that pass, and comes out empty
      exactly when none does. */
  lemma {:induction false} FilterMembers<T(!new)>(s: seq<T>, p: T -> bool)
    ensures forall x :: x in Filter(s, p) <==> x in s && p(x)
    ensures Filter(s, p) == [] <==> forall x :: x in s ==> !p(x)
    decreases |s|
  {
    if s != [] {
      FilterMembers(s[1..], p);
      assert s == [s[0]] + s[1..];
    }
  }

  /** rel holds between every element of s and every later one. */
  predicate Ordered<T>(s: seq<T>, rel: (T, T) -> bool)
  {
    forall i, j :: 0 <= i < j < |s| ==> rel(s[i], s[j])
  }

  /** Filtering keeps the relative order of what it keeps: a relation that
      holds between every earlier and later element still holds. */
  lemma {:induction false} FilterKeepsOrder<T(!new)>(s: seq<T>, p: T -> bool, rel: (T, T) -> bool)
    requires Ordered(s, rel)
    ensures Ordered(Filter(s, p), rel)
    decreases |s|
  {
    if s != [] {
      var t := s[1..];
      assert Ordered(t, rel) by {
        forall i, j | 0 <= i < j < |t| ensures rel(t[i], t[j]) {
          assert t[i] == s[i + 1] && t[j] == s[j + 1];
        }
      }
      FilterKeepsOrder(t, p, rel);
      FilterMembers(t, p);
      var ft := Filter(t, p);
      forall j | 0 <= j < |ft| ensures rel(s[0], ft[j]) {
        assert ft[j] in t;
        var k :| 0 <= k < |t| && t[k] == ft[j];
        assert s[k + 1] == ft[j];
      }
      var r := Filter(s, p);
      if p(s[0]) {
        assert r == [s[0]] + ft;
        forall i, j | 0 <= i < j < |r| ensures rel(r[i], r[j]) {
          if i == 0 {
            assert r[j] == ft[j - 1];
          } else {
            assert r[i] == ft[i - 1] && r[j] == ft[j - 1];
          }
        }
      } else {
        assert r == ft;
      }
    }
  }

  // ---------------------------------------------------------------------
  // The table invariant

  /** Rows are kept in rowid order, and rowids only ever grow. */
  predicate IdsIncrease(rows: seq<Row>)
  {
    forall i, j :: 0 <= i < j < |rows| ==> rows[i].id < rows[j].id
  }

  /** UNIQUE(product_name, retailer, url). */
  predicate KeysDistinct(rows: seq<Row>)
  {
    forall i, j :: 0 <= i < j < |rows| ==> KeyOf(rows[i]) != KeyOf(rows[j])
  }

  /** Every id in use was handed out, so none exceeds the AUTOINCREMENT
      counter (`sqlite_sequence`) and none is 0. */
  predicate IdsIssued(rows: seq<Row>, counter: nat)
  {
    forall i :: 0 <= i < |rows| ==> 1 <= rows[i].id <= counter
  }

  predicate TableInvariant(rows: seq<Row>, counter: nat)
  {
    IdsIncrease(rows) && KeysDistinct(rows) && IdsIssued(rows, counter)
  }

  /** Notifications are numbered 1, 2, ... and never deleted. */
  predicate LogInvariant(log: seq<Notification>)
  {
    forall i :: 0 <= i < |log| ==> log[i].id == i + 1
  }

  // ---------------------------------------------------------------------
  // save_drop

  /** The identity of a listing when none of its fields is null. */
  function ListingKey(l: Listing): (k: Option<Key>)
    ensures k.Some? <==> l.name.Some? && l.retailer.Some? && l.url.Some?
    ensures k.Some? ==> k.value == Key(l.name.value, l.retailer.value, l.url.value)
  {
    if l.name.Some? && l.retailer.Some? && l.url.Some? then Some(Key(l.name.value, l.retailer.value, l.url.value))
    else None
  }

  function KeyIsNot(k: Key): Row -> bool
  {
    (r: Row) => KeyOf(r) != k
  }

  /** The conflict step of REPLACE: the row holding key k goes. */
  function RemoveKey(rows: seq<Row>, k: Key): seq<Row>
  {
    Filter(rows, KeyIsNot(k))
  }

  /** The row the INSERT creates: the seven columns it names, and the
      defaults of the others (`drop_time` NULL, `status` 'upcoming',
      `notified` 0). `discovered_date` and `last_checked` are both now. */
  function NewRow(id: nat, k: Key, l: Listing, now: int): Row
  {
    Row(id, k.name, k.retailer, k.url, l.price, l.dropDate, None, Upcoming, now, now, 0)
  }

  /** SQL's `column = ?` when the parameter may be NULL: never true
      against NULL. */
  predicate SqlEquals(column: string, value: Option<string>)
  {
    value.Some? && column == value.value
  }

  /** The `except sqlite3.IntegrityError` branch: `UPDATE drops SET price,
      drop_date, last_checked WHERE` the three identity columns equal the
      listing's. */
  function FallbackUpdate(rows: seq<Row>, l: Listing, now: int): (r: seq<Row>)
    ensures |r| == |rows|
  {
    seq(|rows|, i requires 0 <= i < |rows| =>
      if SqlEquals(rows[i].name, l.name) && SqlEquals(rows[i].retailer, l.retailer) && SqlEquals(rows[i].url, l.url)
      then rows[i].(price := l.price, dropDate := l.dropDate, lastChecked := now)
      else rows[i])
  }

  /** `save_drop` on the table and its counter. With the identity present
      the INSERT OR REPLACE succeeds; with a null identity field it aborts
      (NOT NULL, no default) and the fallback UPDATE runs instead. */
  function Save(rows: seq<Row>, counter: nat, l: Listing, now: int): (seq<Row>, nat)
  {
    match ListingKey(l)
    case Some(k) => (RemoveKey(rows, k) + [NewRow(counter + 1, k, l, now)], counter + 1)
    case None => (FallbackUpdate(rows, l, now), counter)
  }

  lemma RemoveKeyKeepsInvariant(rows: seq<Row>, counter: nat, k: Key)
    requires TableInvariant(rows, counter)
    ensures TableInvariant(RemoveKey(rows, k), counter)
    ensures forall r :: r in RemoveKey(rows, k) <==> r in rows && KeyOf(r) != k
  {
    var p := KeyIsNot(k);
    FilterMembers(rows, p);
    FilterKeepsOrder(rows, p, (a: Row, b: Row) => a.id < b.id);
    FilterKeepsOrder(rows, p, (a: Row, b: Row) => KeyOf(a) != KeyOf(b));
    var t := RemoveKey(rows, k);
    forall i | 0 <= i < |t| ensures 1 <= t[i].id <= counter {
      assert t[i] in rows;
    }
  }

  /** What `save_drop` promises when the identity is complete: exactly one
      row holds the key, at the end of the table; it carries the listing's
      price and date (a null overwrites a known value), a fresh id above
      every id ever handed out, `discovered_date = last_checked = now`,
      status 'upcoming', `notified = 0` and no drop time; every row with
      another key is untouched; and the table invariant still holds. */
  lemma SaveWithKey(rows: seq<Row>, counter: nat, l: Listing, now: int, k: Key)
    requires TableInvariant(rows, counter) && ListingKey(l) == Some(k)
    ensures var (rows', counter') := Save(rows, counter, l, now);
            && TableInvariant(rows', counter')
            && counter' == counter + 1
            && |rows'| > 0
            && var r := rows'[|rows'| - 1];
               && KeyOf(r) == k && r.id == counter + 1
               && r.price == l.price && r.dropDate == l.dropDate && r.dropTime.None?
               && r.status == Upcoming && r.discovered == now && r.lastChecked == now && r.notified == 0
               && (forall i :: 0 <= i < |rows| ==> rows[i].id < r.id)
               && (forall i :: 0 <= i < |rows'| - 1 ==> KeyOf(rows'[i]) != k)
               && (forall x :: KeyOf(x) != k ==> (x in rows' <==> x in rows))
  {
    RemoveKeyKeepsInvariant(rows, counter, k);
    var t := RemoveKey(rows, k);
    var r := NewRow(counter + 1, k, l, now);
    AppendKeepsInvariant(t, counter, r);
    assert forall i :: 0 <= i < |rows| ==> rows[i] in rows;
  }

  /** A row with a new key and the next id may go at the end. */
  lemma AppendKeepsInvariant(t: seq<Row>, counter: nat, r: Row)
    requires TableInvariant(t, counter) && r.id == counter + 1
    requires forall x :: x in t ==> KeyOf(x) != KeyOf(r)
    ensures TableInvariant(t + [r], counter + 1)
  {
    var t' := t + [r];
    assert forall i :: 0 <= i < |t| ==> t'[i] == t[i] && t[i] in t;
  }

  /** `save_drop` with a null name, retailer or url changes nothing: the
      REPLACE aborts on NOT NULL and the fallback UPDATE's `= NULL`
      matches no row. */
  lemma SaveWithNullIdentity(rows: seq<Row>, counter: nat, l: Listing, now: int)
    requires ListingKey(l).None?
    ensures Save(rows, counter, l, now) == (rows, counter)
  {
    assert FallbackUpdate(rows, l, now) == rows;
  }

  lemma SaveKeepsInvariant(rows: seq<Row>, counter: nat, l: Listing, now: int)
    requires TableInvariant(rows, counter)
    ensures TableInvariant(Save(rows, counter, l, now).0, Save(rows, counter, l, now).1)
  {
    match ListingKey(l) {
      case Some(k) => SaveWithKey(rows, counter, l, now, k);
      case None => SaveWithNullIdentity(rows, counter, l, now);
    }
  }

  /** `for drop in all_results: self.save_drop(drop)`. */
  function SaveAll(rows: seq<Row>, counter: nat, ls: seq<Listing>, now: int): (seq<Row>, nat)
    decreases |ls|
  {
    if ls == [] then (rows, counter)
    else
      var (rows', counter') := SaveAll(rows, counter, ls[..|ls| - 1], now);
      Save(rows', counter', ls[|ls| - 1], now)
  }

  lemma {:induction false} SaveAllKeepsInvariant(rows: seq<Row>, counter: nat, ls: seq<Listing>, now: int)
    requires TableInvariant(rows, counter)
    ensures TableInvariant(SaveAll(rows, counter, ls, now).0, SaveAll(rows, counter, ls, now).1)
    decreases |ls|
  {
    if ls != [] {
      SaveAllKeepsInvariant(rows, counter, ls[..|ls| - 1], now);
      var (rows', counter') := SaveAll(rows, counter, ls[..|ls| - 1], now);
      SaveKeepsInvariant(rows', counter', ls[|ls| - 1], now);
    }
  }

  /** The last listing of a scan with a given identity decides that row:
      after the scan is saved the row is the fresh one built from it, with
      `notified` back at 0, however the row stood before. */
  lemma {:induction false} LastListingWins(rows: seq<Row>, counter: nat, ls: seq<Listing>, now: int, i: nat, k: Key)
    requires i < |ls| && ListingKey(ls[i]) == Some(k)
    requires forall j :: i < j < |ls| ==> ListingKey(ls[j]) != Some(k)
    ensures exists r :: r in SaveAll(rows, counter, ls, now).0 && KeyOf(r) == k
                        && r.dropDate == ls[i].dropDate && r.price == ls[i].price
                        && r.status == Upcoming && r.notified == 0 && r.discovered == now
    decreases |ls|
  {
    var front := ls[..|ls| - 1];
    var (rows', counter') := SaveAll(rows, counter, front, now);
    var l := ls[|ls| - 1];
    if i == |ls| - 1 {
      var r := NewRow(counter' + 1, k, l, now);
      assert r in Save(rows', counter', l, now).0;
    } else {
      LastListingWins(rows, counter, front, now, i, k);
      var r :| r in rows' && KeyOf(r) == k && r.dropDate == ls[i].dropDate && r.price == ls[i].price
               && r.status == Upcoming && r.notified == 0 && r.discovered == now;
      match ListingKey(l) {
        case Some(k') =>
          assert k' != k;
          FilterMembers(rows', KeyIsNot(k'));
          assert r in RemoveKey(rows', k');
          assert r in Save(rows', counter', l, now).0;
        case None =>
          SaveWithNullIdentity(rows', counter', l, now);
      }
    }
  }

  // ---------------------------------------------------------------------
  // get_all_drops

  /** `drop_date ASC` on a nullable TEXT column: NULL sorts first, text by
      SQLite's BINARY collation. */
  predicate DateBefore(a: Option<string>, b: Option<string>)
  {
    match a
    case None => b.Some?
    case Some(x) => b.Some? && StrLt(x, b.value)
  }

  /** a may be listed before b under `ORDER BY drop_date ASC,
      discovered_date DESC`. */
  predicate ListedBefore(a: Row, b: Row)
  {
    DateBefore(a.dropDate, b.dropDate) || (a.dropDate == b.dropDate && a.discovered >= b.discovered)
  }

  lemma ListedBeforeTotal(a: Row, b: Row)
    ensures ListedBefore(a, b) || ListedBefore(b, a)
  {
    if a.dropDate.Some? && b.dropDate.Some? {
      StrLtTotal(a.dropDate.value, b.dropDate.value);
    }
  }

  lemma ListedBeforeTransitive(a: Row, b: Row, c: Row)
    requires ListedBefore(a, b) && ListedBefore(b, c)
    ensures ListedBefore(a, c)
  {
    if a.dropDate.Some? && b.dropDate.Some? && c.dropDate.Some?
       && StrLt(a.dropDate.value, b.dropDate.value) && StrLt(b.dropDate.value, c.dropDate.value) {
      StrLtTransitive(a.dropDate.value, b.dropDate.value, c.dropDate.value);
    }
  }

  predicate SortedForListing(s: seq<Row>)
  {
    forall i, j :: 0 <= i < j < |s| ==> ListedBefore(s[i], s[j])
  }

  /** x placed into the sorted s. */
  function Insert(x: Row, s: seq<Row>): (r: seq<Row>)
    ensures multiset(r) == multiset(s) + multiset{x}
    decreases |s|
  {
    if s == [] then [x]
    else if ListedBefore(x, s[0]) then [x] + s
    else
      assert s == [s[0]] + s[1..];
      [s[0]] + Insert(x, s[1..])
  }

  /** A row in front of a sorted list keeps it sorted exactly when it
      may be listed before every row of it. */
  lemma ConsSorted(a: Row, t: seq<Row>)
    ensures SortedForListing([a] + t) <==> SortedForListing(t) && forall y :: y in t ==> ListedBefore(a, y)
  {
    var r := [a] + t;
    assert forall k :: 0 <= k < |t| ==> r[k + 1] == t[k];
    if SortedForListing(r) {
      forall y | y in t ensures ListedBefore(a, y) {
        var k :| 0 <= k < |t| && t[k] == y;
        assert r[0] == a && r[k + 1] == y;
      }
      assert SortedForListing(t) by {
        forall i, j | 0 <= i < j < |t| ensures ListedBefore(t[i], t[j]) {
          assert ListedBefore(r[i + 1], r[j + 1]);
        }
      }
    }
    if SortedForListing(t) && forall y :: y in t ==> ListedBefore(a, y) {
      forall i, j | 0 <= i < j < |r| ensures ListedBefore(r[i], r[j]) {
        if i == 0 { assert r[j] == t[j - 1] && t[j - 1] in t; }
        else { assert r[i] == t[i - 1] && r[j] == t[j - 1]; }
      }
    }
  }

  lemma {:induction false} InsertSorted(x: Row, s: seq<Row>)
    requires SortedForListing(s)
    ensures SortedForListing(Insert(x, s))
    decreases |s|
  {
    if s == [] {
      ConsSorted(x, []);
    } else {
      var t := s[1..];
      assert s == [s[0]] + t;
      ConsSorted(s[0], t);
      if ListedBefore(x, s[0]) {
        forall y | y in s ensures ListedBefore(x, y) {
          if y != s[0] { ListedBeforeTransitive(x, s[0], y); }
        }
        ConsSorted(x, s);
      } else {
        InsertSorted(x, t);
        var it := Insert(x, t);
        ListedBeforeTotal(x, s[0]);
        forall y | y in it ensures ListedBefore(s[0], y) {
          assert y in multiset(t) + multiset{x};
        }
        ConsSorted(s[0], it);
      }
    }
  }

  /** Insertion sort under the listing order. Rows equal under both keys
      come out in an order SQLite leaves unspecified; this is one of
      the orders it may produce. */
  function SortRows(s: seq<Row>): (r: seq<Row>)
    ensures multiset(r) == multiset(s)
    decreases |s|
  {
    if s == [] then []
    else
      assert s == [s[0]] + s[1..];
      Insert(s[0], SortRows(s[1..]))
  }

  lemma {:induction false} SortRowsSorted(s: seq<Row>)
    ensures SortedForListing(SortRows(s))
    decreases |s|
  {
    if s != [] {
      SortRowsSorted(s[1..]);
      InsertSorted(s[0], SortRows(s[1..]));
    }
  }

  /** The test of `WHERE status = ?`. */
  function StatusIs(status: string): Row -> bool
  {
    (r: Row) => r.status == status
  }

  /** `WHERE status = ?`. */
  function WithStatus(rows: seq<Row>, status: string): seq<Row>
  {
    Filter(rows, StatusIs(status))
  }

  /** `get_all_drops(status)`: the rows with that status, sorted. */
  function Listed(rows: seq<Row>, status: string): seq<Row>
  {
    SortRows(WithStatus(rows, status))
  }

  /** The listing holds exactly the rows with that status, each as often
      as in the table, in listing order. */
  lemma ListedSpec(rows: seq<Row>, status: string)
    ensures var r := Listed(rows, status);
            && (forall x :: x in r <==> x in rows && x.status == status)
            && SortedForListing(r)
            && multiset(r) == multiset(WithStatus(rows, status))
  {
    var w := WithStatus(rows, status);
    FilterMembers(rows, StatusIs(status));
    SortRowsSorted(w);
    assert forall x :: x in SortRows(w) <==> x in multiset(w);
  }

  // ---------------------------------------------------------------------
  // The alert pass

  /** `(drop_date - now).days`: whole days, rounded down. */
  function DaysUntil(d: IsoDate.Date, now: int): int
    requires IsoDate.ValidDate(d)
  {
    (IsoDate.Seconds(d) - now) / IsoDate.SecondsPerDay
  }

  /** A listed drop `check_for_alerts` alerts on: a non-empty date, not yet
      notified, parseable by `fromisoformat` (an exception is swallowed and
      the drop skipped), and 0 to 7 whole days away. */
  predicate AlertDue(r: Row, now: int)
  {
    && r.dropDate.Some? && r.dropDate.value != ""
    && r.notified == 0
    && IsoDate.ParseIso(r.dropDate.value).Some?
    && 0 <= DaysUntil(IsoDate.ParseIso(r.dropDate.value).value, now) <= 7
  }

  /** `0 <= days_until_drop <= 7` is the half-open window of eight days
      starting at now. */
  lemma AlertWindow(d: IsoDate.Date, now: int)
    requires IsoDate.ValidDate(d)
    ensures 0 <= DaysUntil(d, now) <= 7 <==> 0 <= IsoDate.Seconds(d) - now < 8 * IsoDate.SecondsPerDay
  {
    var diff := IsoDate.Seconds(d) - now;
    var q, m := diff / 86400, diff % 86400;
    assert diff == 86400 * q + m && 0 <= m < 86400;
  }

  function DueAt(now: int): Row -> bool
  {
    (r: Row) => AlertDue(r, now)
  }

  /** The alerts of one pass over the listed drops, in listing order. */
  function DueAlerts(listed: seq<Row>, now: int): seq<Row>
  {
    Filter(listed, DueAt(now))
  }

  /** `UPDATE drops SET notified = 1 WHERE id = ?`. */
  function SetNotified(rows: seq<Row>, id: nat): (r: seq<Row>)
    ensures |r| == |rows|
  {
    seq(|rows|, i requires 0 <= i < |rows| => if rows[i].id == id then rows[i].(notified := 1) else rows[i])
  }

  function IdsOf(s: seq<Row>): set<nat>
  {
    set r | r in s :: r.id
  }

  /** The table after `mark_as_notified` for each alert in turn. */
  function MarkAll(rows: seq<Row>, alerts: seq<Row>): (r: seq<Row>)
    ensures |r| == |rows|
    decreases |alerts|
  {
    if alerts == [] then rows else SetNotified(MarkAll(rows, alerts[..|alerts| - 1]), alerts[|alerts| - 1].id)
  }

  /** Marking touches exactly the rows whose id was alerted, and only
      their `notified` column. */
  lemma {:induction false} MarkAllMarks(rows: seq<Row>, alerts: seq<Row>)
    ensures forall i :: 0 <= i < |rows| ==>
              MarkAll(rows, alerts)[i] == if rows[i].id in IdsOf(alerts) then rows[i].(notified := 1) else rows[i]
    decreases |alerts|
  {
    if alerts != [] {
      var front := alerts[..|alerts| - 1];
      var a := alerts[|alerts| - 1];
      MarkAllMarks(rows, front);
      assert alerts == front + [a];
      assert IdsOf(alerts) == IdsOf(front) + {a.id};
    }
  }

  /** Marking changes no id and no key, so the table invariant holds on. */
  lemma MarkAllKeepsInvariant(rows: seq<Row>, counter: nat, alerts: seq<Row>)
    requires TableInvariant(rows, counter)
    ensures TableInvariant(MarkAll(rows, alerts), counter)
  {
    var marked := MarkAll(rows, alerts);
    MarkAllMarks(rows, alerts);
    assert forall i :: 0 <= i < |rows| ==> marked[i].id == rows[i].id && KeyOf(marked[i]) == KeyOf(rows[i]);
  }

  /** The log after `mark_as_notified` has appended a '7-day-alert' entry
      for each alert in turn, each numbered one past the entries before. */
  function LogAlerts(log: seq<Notification>, alerts: seq<Row>, now: int): (r: seq<Notification>)
    ensures |r| == |log| + |alerts|
    decreases |alerts|
  {
    if alerts == [] then log
    else
      var before := LogAlerts(log, alerts[..|alerts| - 1], now);
      before + [Notification(|before| + 1, alerts[|alerts| - 1].id, now, SevenDayAlert)]
  }

  /** The old log is kept as it was, entry |log| + j records alert j, and
      the numbering 1, 2, ... carries on. */
  lemma {:induction false} LogAlertsEntries(log: seq<Notification>, alerts: seq<Row>, now: int)
    ensures var r := LogAlerts(log, alerts, now);
            && r[..|log|] == log
            && (forall j :: 0 <= j < |alerts| ==> r[|log| + j] == Notification(|log| + j + 1, alerts[j].id, now, SevenDayAlert))
            && (LogInvariant(log) ==> LogInvariant(r))
    decreases |alerts|
  {
    if alerts != [] {
      var front := alerts[..|alerts| - 1];
      LogAlertsEntries(log, front, now);
      var before := LogAlerts(log, front, now);
      var r := LogAlerts(log, alerts, now);
      assert r == before + [Notification(|before| + 1, alerts[|alerts| - 1].id, now, SevenDayAlert)];
      assert r[..|log|] == before[..|log|];
      forall j | 0 <= j < |alerts| ensures r[|log| + j] == Notification(|log| + j + 1, alerts[j].id, now, SevenDayAlert) {
        if j < |front| {
          assert r[|log| + j] == before[|log| + j];
          assert front[j] == alerts[j];
        }
      }
    }
  }

  /** An upcoming row that is due is alerted. */
  lemma DueIsAlerted(rows: seq<Row>, r: Row, now: int)
    requires r in rows && r.status == Upcoming
    ensures AlertDue(r, now) ==> r in DueAlerts(Listed(rows, Upcoming), now) && r.id in IdsOf(DueAlerts(Listed(rows, Upcoming), now))
  {
    ListedSpec(rows, Upcoming);
    FilterMembers(Listed(rows, Upcoming), DueAt(now));
  }

  /** After the pass nothing upcoming is due any more: what was due is now
      notified, and what was not due is unchanged. */
  lemma AlertPassSettles(rows: seq<Row>, now: int)
    ensures var marked := MarkAll(rows, DueAlerts(Listed(rows, Upcoming), now));
            forall r :: r in marked && r.status == Upcoming ==> !AlertDue(r, now)
  {
    var alerts := DueAlerts(Listed(rows, Upcoming), now);
    var marked := MarkAll(rows, alerts);
    MarkAllMarks(rows, alerts);
    forall r | r in marked && r.status == Upcoming ensures !AlertDue(r, now) {
      var i :| 0 <= i < |marked| && marked[i] == r;
      if rows[i].id !in IdsOf(alerts) {
        assert r == rows[i];
        DueIsAlerted(rows, r, now);
      }
    }
  }

  /** A second pass at the same time, with no save in between, alerts on
      nothing. */
  lemma SecondPassEmpty(rows: seq<Row>, now: int)
    ensures var marked := MarkAll(rows, DueAlerts(Listed(rows, Upcoming), now));
            DueAlerts(Listed(marked, Upcoming), now) == []
  {
    var marked := MarkAll(rows, DueAlerts(Listed(rows, Upcoming), now));
    AlertPassSettles(rows, now);
    ListedSpec(marked, Upcoming);
    FilterMembers(Listed(marked, Upcoming), DueAt(now));
  }

  /** A drop alerted once is not alerted by any later pass, at any time,
      unless a save in between replaces its row. */
  lemma AlertedStaySilent(rows: seq<Row>, now: int, later: int)
    ensures var alerts := DueAlerts(Listed(rows, Upcoming), now);
            forall r :: r in DueAlerts(Listed(MarkAll(rows, alerts), Upcoming), later) ==> r.id !in IdsOf(alerts)
  {
    var alerts := DueAlerts(Listed(rows, Upcoming), now);
    var marked := MarkAll(rows, alerts);
    MarkedAreNotified(rows, alerts);
    ListedSpec(marked, Upcoming);
    FilterMembers(Listed(marked, Upcoming), DueAt(later));
    forall r | r in DueAlerts(Listed(marked, Upcoming), later) ensures r.id !in IdsOf(alerts) {
      assert r in marked && r.notified == 0;
    }
  }

  /** Every row whose id was alerted is notified afterwards. */
  lemma MarkedAreNotified(rows: seq<Row>, alerts: seq<Row>)
    ensures forall r :: r in MarkAll(rows, alerts) && r.id in IdsOf(alerts) ==> r.notified == 1
  {
    var marked := MarkAll(rows, alerts);
    MarkAllMarks(rows, alerts);
    forall r | r in marked && r.id in IdsOf(alerts) ensures r.notified == 1 {
      var i :| 0 <= i < |marked| && marked[i] == r;
    }
  }

  /** Listing keeps the ids of the rows distinct. */
  lemma ListedIdsDistinct(rows: seq<Row>, counter: nat, status: string)
    requires TableInvariant(rows, counter)
    ensures IdsDistinct(Listed(rows, status))
  {
    var w := WithStatus(rows, status);
    FilterKeepsOrder(rows, StatusIs(status), (a: Row, b: Row) => a.id < b.id);
    assert IdsDistinct(w) by {
      forall i, j | 0 <= i < j < |w| ensures w[i].id != w[j].id {
        assert w[i].id < w[j].id;
      }
    }
    SortKeepsIdsDistinct(w);
  }

  predicate IdsDistinct(s: seq<Row>)
  {
    forall i, j :: 0 <= i < j < |s| ==> s[i].id != s[j].id
  }

  /** Rows with distinct ids stay so, and only so, with one more in front
      whose id is new. */
  lemma ConsIdsDistinct(a: Row, t: seq<Row>)
    ensures IdsDistinct([a] + t) <==> IdsDistinct(t) && a.id !in IdsOf(t)
  {
    var r := [a] + t;
    assert forall k :: 0 <= k < |t| ==> r[k + 1] == t[k];
    if IdsDistinct(r) {
      forall y | y in t ensures y.id != a.id {
        var k :| 0 <= k < |t| && t[k] == y;
        assert r[0] == a && r[k + 1] == y;
      }
      assert IdsDistinct(t) by {
        forall i, j | 0 <= i < j < |t| ensures t[i].id != t[j].id {
          assert r[i + 1].id != r[j + 1].id;
        }
      }
    }
    if IdsDistinct(t) && a.id !in IdsOf(t) {
      forall i, j | 0 <= i < j < |r| ensures r[i].id != r[j].id {
        if i == 0 { assert r[j] == t[j - 1] && t[j - 1] in t; }
        else { assert r[i] == t[i - 1] && r[j] == t[j - 1]; }
      }
    }
  }

  /** Rows that are a permutation of each other carry the same ids. */
  lemma SameIds(a: seq<Row>, b: seq<Row>)
    requires multiset(a) == multiset(b)
    ensures IdsOf(a) == IdsOf(b)
  {
    assert forall x :: x in a <==> x in multiset(a);
    assert forall x :: x in b <==> x in multiset(b);
  }

  lemma {:induction false} InsertKeepsIdsDistinct(x: Row, s: seq<Row>)
    requires IdsDistinct(s) && x.id !in IdsOf(s)
    ensures IdsDistinct(Insert(x, s))
    decreases |s|
  {
    if s == [] {
      ConsIdsDistinct(x, []);
    } else if ListedBefore(x, s[0]) {
      ConsIdsDistinct(x, s);
    } else {
      var t := s[1..];
      assert s == [s[0]] + t;
      ConsIdsDistinct(s[0], t);
      assert IdsOf(t) <= IdsOf(s);
      InsertKeepsIdsDistinct(x, t);
      var it := Insert(x, t);
      SameIds(it, t + [x]);
      assert IdsOf(t + [x]) == IdsOf(t) + {x.id};
      assert s[0] in s;
      ConsIdsDistinct(s[0], it);
    }
  }

  lemma {:induction false} SortKeepsIdsDistinct(s: seq<Row>)
    requires IdsDistinct(s)
    ensures IdsDistinct(SortRows(s))
    decreases |s|
  {
    if s != [] {
      var t := s[1..];
      assert s == [s[0]] + t;
      ConsIdsDistinct(s[0], t);
      SortKeepsIdsDistinct(t);
      var st := SortRows(t);
      SameIds(st, t);
      InsertKeepsIdsDistinct(s[0], st);
    }
  }

  /** Each alerted drop gets exactly one '7-day-alert' entry. */
  lemma OneEntryPerAlert(rows: seq<Row>, counter: nat, log: seq<Notification>, now: int)
    requires TableInvariant(rows, counter)
    ensures var alerts := DueAlerts(Listed(rows, Upcoming), now);
            var log' := LogAlerts(log, alerts, now);
            forall j, k :: 0 <= j < |alerts| && |log| <= k < |log'| ==>
              (log'[k].dropId == alerts[j].id <==> k == |log| + j)
  {
    AlertIdsDistinct(rows, counter, now);
    EntriesMatchAlerts(log, DueAlerts(Listed(rows, Upcoming), now), now);
  }

  /** No drop is alerted twice in one pass. */
  lemma AlertIdsDistinct(rows: seq<Row>, counter: nat, now: int)
    requires TableInvariant(rows, counter)
    ensures IdsDistinct(DueAlerts(Listed(rows, Upcoming), now))
  {
    var listed := Listed(rows, Upcoming);
    ListedIdsDistinct(rows, counter, Upcoming);
    var differ := (a: Row, b: Row) => a.id != b.id;
    assert Ordered(listed, differ);
    FilterKeepsOrder(listed, DueAt(now), differ);
  }

  lemma EntriesMatchAlerts(log: seq<Notification>, alerts: seq<Row>, now: int)
    requires IdsDistinct(alerts)
    ensures var log' := LogAlerts(log, alerts, now);
            forall j, k :: 0 <= j < |alerts| && |log| <= k < |log'| ==>
              (log'[k].dropId == alerts[j].id <==> k == |log| + j)
  {
    var log' := LogAlerts(log, alerts, now);
    LogAlertsEntries(log, alerts, now);
    forall j, k | 0 <= j < |alerts| && |log| <= k < |log'|
      ensures log'[k].dropId == alerts[j].id <==> k == |log| + j
    {
      var m := k - |log|;
      assert log'[|log| + m].dropId == alerts[m].id;
    }
  }

  /** One more alert, one more row marked. */
  lemma MarkStep(rows: seq<Row>, alerts: seq<Row>, d: Row)
    ensures MarkAll(rows, alerts + [d]) == SetNotified(MarkAll(rows, alerts), d.id)
  {
    assert (alerts + [d])[..|alerts|] == alerts;
  }

  /** One more alert, one more entry at the end of the log. */
  lemma LogStep(log: seq<Notification>, alerts: seq<Row>, d: Row, now: int)
    ensures LogAlerts(log, alerts + [d], now) == LogAlerts(log, alerts, now) + [Notification(|log| + |alerts| + 1, d.id, now, SevenDayAlert)]
  {
    assert (alerts + [d])[..|alerts|] == alerts;
  }

  lemma DueAlertsAppend(listed: seq<Row>, i: nat, now: int)
    requires i < |listed|
    ensures AlertDue(listed[i], now) ==> DueAlerts(listed[..i + 1], now) == DueAlerts(listed[..i], now) + [listed[i]]
    ensures !AlertDue(listed[i], now) ==> DueAlerts(listed[..i + 1], now) == DueAlerts(listed[..i], now)
  {
    assert listed[..i + 1] == listed[..i] + [listed[i]];
    FilterAppend(listed[..i], listed[i], DueAt(now));
  }

  lemma {:induction false} FilterAppend<T(!new)>(s: seq<T>, x: T, p: T -> bool)
    ensures Filter(s + [x], p) == Filter(s, p) + (if p(x) then [x] else [])
    decreases |s|
  {
    if s == [] {
      assert [x][1..] == [];
    } else {
      assert (s + [x])[0] == s[0] && (s + [x])[1..] == s[1..] + [x];
      FilterAppend(s[1..], x, p);
      var head := if p(s[0]) then [s[0]] else [];
      var tail := if p(x) then [x] else [];
      assert Filter(s + [x], p) == head + (Filter(s[1..], p) + tail);
      assert head + (Filter(s[1..], p) + tail) == (head + Filter(s[1..], p)) + tail;
    }
  }

  /** A listing found again by a scan has its row replaced, `notified`
      reset, and is alerted by that same scan when its date is parseable
      and 0 to 7 days away. */
  lemma RefoundIsAlerted(rows: seq<Row>, counter: nat, ls: seq<Listing>, now: int, i: nat, k: Key)
    requires i < |ls| && ListingKey(ls[i]) == Some(k)
    requires forall j :: i < j < |ls| ==> ListingKey(ls[j]) != Some(k)
    requires ls[i].dropDate.Some? && IsoDate.ParseIso(ls[i].dropDate.value).Some?
    requires 0 <= IsoDate.Seconds(IsoDate.ParseIso(ls[i].dropDate.value).value) - now < 8 * IsoDate.SecondsPerDay
    ensures var saved := SaveAll(rows, counter, ls, now).0;
            exists r :: r in DueAlerts(Listed(saved, Upcoming), now) && KeyOf(r) == k
  {
    var saved := SaveAll(rows, counter, ls, now).0;
    LastListingWins(rows, counter, ls, now, i, k);
    var r :| r in saved && KeyOf(r) == k && r.dropDate == ls[i].dropDate && r.price == ls[i].price
             && r.status == Upcoming && r.notified == 0 && r.discovered == now;
    AlertWindow(IsoDate.ParseIso(ls[i].dropDate.value).value, now);
    assert AlertDue(r, now);
    DueIsAlerted(saved, r, now);
  }

  // ---------------------------------------------------------------------
  // The store

  class CardDropMonitor {
    /** The `drops` table, in rowid order. */
    var drops: seq<Row>
    /** The AUTOINCREMENT counter of `drops`. */
    var dropSeq: nat
    /** The `notifications` table. */
    var notifications: seq<Notification>

    predicate Valid()
      reads this
    {
      TableInvariant(drops, dropSeq) && LogInvariant(notifications)
    }

    /** `init_database` on a fresh database file. */
    constructor ()
      ensures Valid() && drops == [] && dropSeq == 0 && notifications == []
    {
      drops := [];
      dropSeq := 0;
      notifications := [];
    }

    method SaveDrop(l: Listing, now: int)
      requires Valid()
      modifies this
      ensures Valid()
      ensures (drops, dropSeq) == Save(old(drops), old(dropSeq), l, now)
      ensures notifications == old(notifications)
    {
      SaveKeepsInvariant(drops, dropSeq, l, now);
      match ListingKey(l) {
        case Some(k) =>
          // INSERT OR REPLACE: the row holding the key is deleted and a
          // fresh one is inserted under the next id.
          drops := RemoveKey(drops, k) + [NewRow(dropSeq + 1, k, l, now)];
          dropSeq := dropSeq + 1;
        case None =>
          // The INSERT aborts with IntegrityError; the UPDATE runs.
          drops := FallbackUpdate(drops, l, now);
      }
    }

    /** `get_all_drops(status)`. */
    function GetAllDrops(status: string): seq<Row>
      reads this
    {
      Listed(drops, status)
    }

    method MarkAsNotified(id: nat, now: int)
      requires Valid()
      modifies this
      ensures Valid()
      ensures drops == SetNotified(old(drops), id) && dropSeq == old(dropSeq)
      ensures notifications == old(notifications) + [Notification(|old(notifications)| + 1, id, now, SevenDayAlert)]
    {
      drops := SetNotified(drops, id);
      notifications := notifications + [Notification(|notifications| + 1, id, now, SevenDayAlert)];
    }

    /** `check_for_alerts`: alert on every due drop of the upcoming list,
        in listing order, marking each as it goes. */
    method CheckForAlerts(now: int) returns (alerts: seq<Row>)
      requires Valid()
      modifies this
      ensures Valid()
      ensures alerts == DueAlerts(Listed(old(drops), Upcoming), now)
      ensures drops == MarkAll(old(drops), alerts) && dropSeq == old(dropSeq)
      ensures notifications == LogAlerts(old(notifications), alerts, now)
      ensures forall r :: r in drops && r.status == Upcoming ==> !AlertDue(r, now)
    {
      var listed := GetAllDrops(Upcoming);
      ghost var rows0 := drops;
      ghost var log0 := notifications;
      alerts := [];
      var i := 0;
      while i < |listed|
        invariant 0 <= i <= |listed|
        invariant dropSeq == old(dropSeq)
        invariant alerts == DueAlerts(listed[..i], now)
        invariant drops == MarkAll(rows0, alerts)
        invariant notifications == LogAlerts(log0, alerts, now)
        invariant Valid()
      {
        var d := listed[i];
        DueAlertsAppend(listed, i, now);
        if AlertDue(d, now) {
          MarkStep(rows0, alerts, d);
          LogStep(log0, alerts, d, now);
          MarkAsNotified(d.id, now);
          alerts := alerts + [d];
        }
        i := i + 1;
      }
      assert listed[..i] == listed;
      MarkAllKeepsInvariant(rows0, dropSeq, alerts);
      LogAlertsEntries(log0, alerts, now);
      AlertPassSettles(rows0, now);
    }

    /** `run_scan` with the four searches' results given: save every
        result in order, then run the alert pass. */
    method RunScan(walmart: seq<Listing>, target: seq<Listing>, bestBuy: seq<Listing>, gameStop: seq<Listing>, now: int)
      returns (allResults: seq<Listing>, alerts: seq<Row>)
      requires Valid()
      modifies this
      ensures Valid()
      ensures allResults == walmart + target + bestBuy + gameStop
      ensures var (saved, counter) := SaveAll(old(drops), old(dropSeq), allResults, now);
              && alerts == DueAlerts(Listed(saved, Upcoming), now)
              && drops == MarkAll(saved, alerts) && dropSeq == counter
      ensures notifications == LogAlerts(old(notifications), alerts, now)
    {
      allResults := walmart + target + bestBuy + gameStop;
      var i := 0;
      while i < |allResults|
        invariant 0 <= i <= |allResults|
        invariant Valid() && notifications == old(notifications)
        invariant (drops, dropSeq) == SaveAll(old(drops), old(dropSeq), allResults[..i], now)
      {
        assert allResults[..i + 1][..i] == allResults[..i];
        SaveDrop(allResults[i], now);
        i := i + 1;
      }
      assert allResults[..i] == allResults;
      alerts := CheckForAlerts(now);
    }
  }
}
