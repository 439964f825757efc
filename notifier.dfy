/** The desktop notifier's pass over the upcoming drops
    (`check_upcoming_drops`): each drop whose date parses is placed in a
    time window relative to now, and a drop inside one of the four windows
    gets one notification whose title and message depend on the window.

    `send_notification` is a sink: the pass records the (title, message,
    url) it would hand over, in order. The OS toolkits behind it are not
    part of this model. */
module DesktopNotifier {
  import opened Wrappers
  import opened Text
  import IsoDate
  import DropMonitor

  /** The four notification windows. */
  datatype Tier = Live | Soon | Day | Week

  /** The open interval of `drop_datetime - now`, in seconds, each tier
      fires in: the last hour, the next hour, the next day, and the
      seventh day ahead. Both ends are excluded (`<` on both sides). */
  function Window(t: Tier): (int, int)
  {
    match t
    case Live => (-IsoDate.SecondsPerHour, 0)
    case Soon => (0, IsoDate.SecondsPerHour)
    case Day => (IsoDate.SecondsPerHour, 24 * IsoDate.SecondsPerHour)
    case Week => (6 * IsoDate.SecondsPerDay, 7 * IsoDate.SecondsPerDay)
  }

  predicate InWindow(t: Tier, diff: int)
  {
    Window(t).0 < diff < Window(t).1
  }

  /** The `if`/`elif` chain on `time_diff`: the first window that holds.
      The windows do not overlap, so the tier chosen is the one whose
      window holds, and there is none exactly when no window holds. */
  function Classify(diff: int): (r: Option<Tier>)
    ensures forall t :: r == Some(t) <==> InWindow(t, diff)
  {
    if -3600 < diff < 0 then Some(Live)
    else if 0 < diff < 3600 then Some(Soon)
    else if 3600 < diff < 86400 then Some(Day)
    else if 6 * 86400 < diff < 7 * 86400 then Some(Week)
    else None
  }

  /** The bounds themselves are silent: a drop exactly an hour ago, exactly
      now, exactly an hour or a day away, or exactly six or seven days
      away gets nothing. */
  lemma BoundsAreSilent(diff: int)
    requires diff in {-3600, 0, 3600, 86400, 6 * 86400, 7 * 86400}
    ensures Classify(diff).None?
  {
  }

  /** Between one day and six days ahead there is no notification. */
  lemma GapBeforeWeek(diff: int)
    requires 86400 <= diff <= 6 * 86400
    ensures Classify(diff).None?
  {
  }

  /** `int(time_diff.total_seconds() / 60)` in the Soon window: whole
      minutes, rounded down (the quotient is positive, so truncation and
      flooring agree), from 0 to 59. */
  lemma MinutesShown(diff: int)
    requires InWindow(Soon, diff)
    ensures 0 <= diff / 60 <= 59
    ensures 60 * (diff / 60) <= diff < 60 * (diff / 60) + 60
  {
  }

  /** `int(time_diff.total_seconds() / 3600)` in the Day window: whole
      hours from 1 to 23. */
  lemma HoursShown(diff: int)
    requires InWindow(Day, diff)
    ensures 1 <= diff / 3600 <= 23
    ensures 3600 * (diff / 3600) <= diff < 3600 * (diff / 3600) + 3600
  {
  }

  /** What `send_notification` is called with. */
  datatype Payload = Payload(title: string, message: string, url: string)

  function Title(t: Tier): string
  {
    match t
    case Live => "\U{1F6A8} Drop Available NOW!"
    case Soon => "\U{26A0}\U{FE0F} Drop Starting Soon!"
    case Day => "\U{1F4C5} Drop Tomorrow"
    case Week => "\U{1F4E2} Drop Next Week"
  }

  /** The message: `{name} at {retailer}`, then the minutes, the hours or
      the date (`%m/%d`) for the tiers that show one. */
  function Message(t: Tier, name: string, retailer: string, diff: int, d: IsoDate.Date): string
    requires InWindow(t, diff) && IsoDate.ValidDate(d)
  {
    var head := name + " at " + retailer;
    match t
    case Live => head
    case Soon => head + " in " + NatToString(diff / 60) + " minutes!"
    case Day => head + " in " + NatToString(diff / 3600) + " hours"
    case Week => head + " on " + IsoDate.Pad(d.month, 2) + "/" + IsoDate.Pad(d.day, 2)
  }

  /** `drop_datetime - now` in seconds, for a drop whose date is present
      and parses. A missing or empty date is skipped; a date
      `fromisoformat` rejects raises, and the exception is caught and the
      drop skipped. A date-only value means midnight of that day. */
  function Offset(r: DropMonitor.Row, now: int): Option<int>
  {
    if r.dropDate.None? || r.dropDate.value == "" then None
    else
      match IsoDate.ParseIso(r.dropDate.value)
      case None => None
      case Some(d) => Some(IsoDate.Seconds(d) - now)
  }

  /** The notification one listed drop gets, if any. */
  function Notice(r: DropMonitor.Row, now: int): Option<Payload>
  {
    match Offset(r, now)
    case None => None
    case Some(diff) =>
      var d := IsoDate.ParseIso(r.dropDate.value).value;
      match Classify(diff)
      case None => None
      case Some(t) => Some(Payload(Title(t), Message(t, r.name, r.retailer, diff, d), r.url))
  }

  /** A drop is notified exactly when its date parses and lies in one of
      the four windows; the title is that window's, and the link is the
      drop's url. */
  lemma NoticeMeansWindow(r: DropMonitor.Row, now: int)
    ensures Notice(r, now).Some? <==> Offset(r, now).Some? && exists t :: InWindow(t, Offset(r, now).value)
    ensures Notice(r, now).Some? ==>
              exists t :: InWindow(t, Offset(r, now).value) && Notice(r, now).value.title == Title(t) && Notice(r, now).value.url == r.url
  {
    if Offset(r, now).Some? {
      var diff := Offset(r, now).value;
      match Classify(diff) {
        case None =>
        case Some(t) => assert InWindow(t, diff);
      }
    }
  }

  function HasNotice(now: int): DropMonitor.Row -> bool
  {
    (r: DropMonitor.Row) => Notice(r, now).Some?
  }

  /** The listed drops that get a notification, in listing order. */
  function Fired(listed: seq<DropMonitor.Row>, now: int): seq<DropMonitor.Row>
  {
    DropMonitor.Filter(listed, HasNotice(now))
  }

  /** `notifications_sent`: the ids, in order. */
  function IdsIn(s: seq<DropMonitor.Row>): (r: seq<nat>)
    ensures |r| == |s| && forall j :: 0 <= j < |s| ==> r[j] == s[j].id
  {
    seq(|s|, j requires 0 <= j < |s| => s[j].id)
  }

  /** What each fired drop hands to `send_notification`. */
  function PayloadsOf(s: seq<DropMonitor.Row>, now: int): (r: seq<Payload>)
    requires forall x :: x in s ==> Notice(x, now).Some?
    ensures |r| == |s|
  {
    seq(|s|, j requires 0 <= j < |s| => Notice(s[j], now).value)
  }

  /** Payload j is the notice of drop j. */
  lemma PayloadAt(s: seq<DropMonitor.Row>, j: nat, now: int)
    requires forall x :: x in s ==> Notice(x, now).Some?
    requires j < |s|
    ensures Some(PayloadsOf(s, now)[j]) == Notice(s[j], now)
  {
  }

  lemma IdsInAppend(s: seq<DropMonitor.Row>, x: DropMonitor.Row)
    ensures IdsIn(s + [x]) == IdsIn(s) + [x.id]
  {
  }

  lemma PayloadsAppend(s: seq<DropMonitor.Row>, x: DropMonitor.Row, now: int)
    requires forall y :: y in s ==> Notice(y, now).Some?
    requires Notice(x, now).Some?
    ensures PayloadsOf(s + [x], now) == PayloadsOf(s, now) + [Notice(x, now).value]
  {
    var r, r' := PayloadsOf(s, now), PayloadsOf(s + [x], now);
    assert forall j :: 0 <= j < |s| ==> r'[j] == r[j];
  }

  lemma FiredAppend(listed: seq<DropMonitor.Row>, i: nat, now: int)
    requires i < |listed|
    ensures Notice(listed[i], now).Some? ==> Fired(listed[..i + 1], now) == Fired(listed[..i], now) + [listed[i]]
    ensures Notice(listed[i], now).None? ==> Fired(listed[..i + 1], now) == Fired(listed[..i], now)
  {
    assert listed[..i + 1] == listed[..i] + [listed[i]];
    DropMonitor.FilterAppend(listed[..i], listed[i], HasNotice(now));
  }

  /** `check_upcoming_drops` on the store's drops at time now. Returns
      `notifications_sent` and the payloads handed to `send_notification`,
      one per sent id, in the same order. */
  method CheckUpcomingDrops(m: DropMonitor.CardDropMonitor, now: int) returns (sent: seq<nat>, shown: seq<Payload>)
    ensures var f := Fired(DropMonitor.Listed(m.drops, DropMonitor.Upcoming), now);
            (DropMonitor.FilterMembers(DropMonitor.Listed(m.drops, DropMonitor.Upcoming), HasNotice(now));
             sent == IdsIn(f) && shown == PayloadsOf(f, now))
  {
    var listed := m.GetAllDrops(DropMonitor.Upcoming);
    sent, shown := [], [];
    ghost var fired := [];
    var i := 0;
    while i < |listed|
      invariant 0 <= i <= |listed|
      invariant fired == Fired(listed[..i], now)
      invariant forall x :: x in fired ==> Notice(x, now).Some?
      invariant sent == IdsIn(fired) && shown == PayloadsOf(fired, now)
    {
      var d := listed[i];
      FiredAppend(listed, i, now);
      var notice := Notice(d, now);
      match notice {
        case Some(p) =>
          IdsInAppend(fired, d);
          PayloadsAppend(fired, d, now);
          sent := sent + [d.id];
          shown := shown + [p];
          fired := fired + [d];
        case None =>
      }
      i := i + 1;
    }
    assert listed[..i] == listed;
  }

  /** The drops notified are exactly the upcoming ones whose date lies in
      a window. */
  lemma FiredExactly(rows: seq<DropMonitor.Row>, now: int)
    ensures forall r :: r in Fired(DropMonitor.Listed(rows, DropMonitor.Upcoming), now) <==>
                          r in rows && r.status == DropMonitor.Upcoming && Notice(r, now).Some?
  {
    DropMonitor.ListedSpec(rows, DropMonitor.Upcoming);
    DropMonitor.FilterMembers(DropMonitor.Listed(rows, DropMonitor.Upcoming), HasNotice(now));
  }

  /** No drop is notified twice in one pass. */
  lemma SentOnce(rows: seq<DropMonitor.Row>, counter: nat, now: int)
    requires DropMonitor.TableInvariant(rows, counter)
    ensures var sent := IdsIn(Fired(DropMonitor.Listed(rows, DropMonitor.Upcoming), now));
            forall j, k :: 0 <= j < k < |sent| ==> sent[j] != sent[k]
  {
    var listed := DropMonitor.Listed(rows, DropMonitor.Upcoming);
    DropMonitor.ListedIdsDistinct(rows, counter, DropMonitor.Upcoming);
    var differ := (a: DropMonitor.Row, b: DropMonitor.Row) => a.id != b.id;
    assert DropMonitor.Ordered(listed, differ);
    DropMonitor.FilterKeepsOrder(listed, HasNotice(now), differ);
  }

  /** The two results of `check_upcoming_drops` agree: the j-th payload
      handed to `send_notification` is the notice of the stored drop whose
      id is the j-th id returned, and that drop is upcoming. */
  lemma ShownIsNoticeOfSent(rows: seq<DropMonitor.Row>, counter: nat, now: int)
    requires DropMonitor.TableInvariant(rows, counter)
    ensures var f := Fired(DropMonitor.Listed(rows, DropMonitor.Upcoming), now);
            (DropMonitor.FilterMembers(DropMonitor.Listed(rows, DropMonitor.Upcoming), HasNotice(now));
             var sent, shown := IdsIn(f), PayloadsOf(f, now);
             && |sent| == |shown|
             && forall j, x :: 0 <= j < |sent| && x in rows && x.id == sent[j] ==>
                                x.status == DropMonitor.Upcoming && Some(shown[j]) == Notice(x, now))
  {
    var listed := DropMonitor.Listed(rows, DropMonitor.Upcoming);
    var f := Fired(listed, now);
    DropMonitor.FilterMembers(listed, HasNotice(now));
    FiredExactly(rows, now);
    forall j, x | 0 <= j < |f| && x in rows && x.id == IdsIn(f)[j]
      ensures x.status == DropMonitor.Upcoming && Some(PayloadsOf(f, now)[j]) == Notice(x, now)
    {
      assert f[j] in f;
      SameIdSameRow(rows, counter, x, f[j]);
      PayloadAt(f, j, now);
    }
  }

  /** Ids are unique in the table. */
  lemma SameIdSameRow(rows: seq<DropMonitor.Row>, counter: nat, x: DropMonitor.Row, y: DropMonitor.Row)
    requires DropMonitor.TableInvariant(rows, counter) && x in rows && y in rows && x.id == y.id
    ensures x == y
  {
    var a :| 0 <= a < |rows| && rows[a] == x;
    var b :| 0 <= b < |rows| && rows[b] == y;
  }

  /** The two alert paths disagree on the sixth day: a drop dated exactly
      six days after now (a midnight) is due for the monitor's 7-day alert,
      whose window is whole days 0 to 7, but the desktop week window starts
      strictly after six days, so the desktop pass stays silent. */
  lemma SixDaysAheadAlertedNotNotified(r: DropMonitor.Row, now: int)
    requires r.dropDate.Some? && IsoDate.ParseIso(r.dropDate.value).Some? && r.notified == 0
    requires IsoDate.Seconds(IsoDate.ParseIso(r.dropDate.value).value) == now + 6 * IsoDate.SecondsPerDay
    ensures DropMonitor.AlertDue(r, now)
    ensures Notice(r, now).None?
  {
    var d := IsoDate.ParseIso(r.dropDate.value).value;
    assert r.dropDate.value != "";
    DropMonitor.AlertWindow(d, now);
    BoundsAreSilent(6 * 86400);
  }
}
