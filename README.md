# Card drop monitor — a verified model of the drop-tracking core

This project models the core of a card-drop tracker. The tracker scans
retailer searches for upcoming trading-card releases ("drops") and stores
them in an SQLite table. It alerts once when a drop comes within seven days,
sends desktop notifications in four time windows around the release, and
serves statistics and single drops over a small web API.

The model covers:

- **Record normalizers** (`normalizer.dfy`, over `text.dfy`):
  - `is_preorder_or_upcoming` is a keyword-substring test on the lower-cased
    `name + ' ' + text`.
  - `extract_price` strips commas, then takes the first `\d+\.?\d*` token.
    A leading `$` is optional and never changes the result.
  - `extract_date` tries three regular expressions in order and returns the
    leftmost match of the first pattern that matches anywhere.
  - Each regular expression is a declarative language (`InLanguage`), and
    its matcher is proved sound and complete against it.
  - Prices are exact decimals: the whole and fractional digit strings.
- **ISO dates** (`isodate.dfy`): `datetime.fromisoformat` on the
  `YYYY-MM-DD` form, and the proleptic Gregorian day ordinal that
  `datetime` subtraction uses. Seconds since day one are written out, and
  so is the inverse formatter.
- **The drop store** (`dropmonitor.dfy`), as the class `CardDropMonitor`.
  It holds the `drops` table, its AUTOINCREMENT counter and the
  `notifications` log. Its operations are `save_drop`, `get_all_drops`,
  `mark_as_notified`, `check_for_alerts` and `run_scan`. Each method is
  proved against value-level specification functions (`Save`, `Listed`,
  `DueAlerts`, `MarkAll`, `LogAlerts`, `SaveAll`), and the properties are
  lemmas about those functions.
- **The desktop notifier** (`notifier.dfy`):
  - `check_upcoming_drops` loops over the upcoming drops. It classifies
    each drop's date minus `now` into one of four strictly bounded windows.
  - It returns the ids it notified. The payloads the notification sink
    received are returned as a second result.
  - It changes nothing in the store.
- **The web handlers** (`webserver.dfy`): `get_stats` (a count-by-retailer
  fold), `get_drop` (lookup by id or 404), `trigger_scan` and `get_alerts`.

SQL is modelled by what SQLite does with these statements:

- `INSERT OR REPLACE` deletes the row that holds the same
  `UNIQUE(product_name, retailer, url)` identity.
- It then inserts a fresh row. The new id is one more than any id handed
  out before. The columns the statement does not name take their defaults:
  `status = 'upcoming'`, `notified = 0` and `drop_time = NULL`.
- A NULL identity field violates NOT NULL and raises `IntegrityError`.
- The fallback `UPDATE … WHERE url = ?` then matches no row, because `=`
  against NULL is never true. The table is unchanged.

Notes on what the code does:

- Re-saving a known listing does not merge into the old row. REPLACE issues
  a new id, resets `notified` and `discovered_date`, and a null price or
  date overwrites a known one.
- The desktop windows are strict on both ends, live is (−1h, 0) and the
  day window is (1h, 24h). Exactly `now + 6 days` therefore gives no
  desktop notification, although `check_for_alerts` alerts on it
  (`SixDaysAheadAlertedNotNotified`).
- The desktop notifier records nothing, so a tier is not "fired once": the
  same call with the same table and `now` notifies again.

## Model

| member | source | states |
|---|---|---|
| DropMonitor.CardDropMonitor.constructor | card_drop_monitor.py:28-60 | a fresh database has empty `drops` and `notifications`, counter 0, and satisfies the table invariant (ids from 1 to the counter, in increasing order, identities unique) |
| Normalizer.IsPreorderOrUpcoming | card_drop_monitor.py:231-236 | true exactly when some keyword occurs at some position of lower(name + ' ' + text) |
| Normalizer.KeywordInName | card_drop_monitor.py:231-236 | a keyword inside the lower-cased name makes the listing a preorder, whatever the text |
| Normalizer.KeywordInText | card_drop_monitor.py:231-236 | a keyword inside the lower-cased text makes the listing a preorder, whatever the name |
| Normalizer.KeywordStraddlesSpace | card_drop_monitor.py:233-235 | "coming soon" is found across the joining space of name "… Coming" and text "Soon" |
| Text.Contains | card_drop_monitor.py:236 | the substring test is true exactly when the keyword occurs at some index |
| Normalizer.RemoveCommasDropsCommas | card_drop_monitor.py:242 | the stripped text holds no comma, and text without commas is unchanged |
| Normalizer.ExtractPrice | card_drop_monitor.py:238-247 | None exactly when the comma-stripped text has no digit; otherwise a price token stands at some position of the stripped text |
| Normalizer.TokenDetermined | card_drop_monitor.py:242-245 | a price token at a position has one value: the maximal digit run, then `.` and a maximal digit run when present |
| Normalizer.PriceTokenDetermines | card_drop_monitor.py:238-247 | any price token of the stripped text that has no digit before it is the result |
| Normalizer.PriceWithThousandsSeparator | card_drop_monitor.py:242-245 | "$1,299.99" yields 1299.99 |
| Normalizer.MatchSound | card_drop_monitor.py:253-257 | what each pattern's matcher consumes is in that pattern's language |
| Normalizer.MatchComplete | card_drop_monitor.py:253-257 | each matcher consumes any extent that is in its language (the greedy match is the only one) |
| Normalizer.SearchFindsLeftmost | card_drop_monitor.py:260 | the search finds nothing exactly when the pattern occurs nowhere, and otherwise the leftmost occurrence |
| Normalizer.ExtractDate | card_drop_monitor.py:249-266 | None exactly when no pattern occurs; otherwise the text of a match chosen by the priority rule |
| Normalizer.ChosenUnique | card_drop_monitor.py:259-262 | the priority rule (first pattern that occurs anywhere, its leftmost match) picks one string only |
| Normalizer.ExtractDateDetermined | card_drop_monitor.py:249-266 | the string the priority rule picks is the result |
| Normalizer.FirstPatternDecides | card_drop_monitor.py:259-262 | when the first pattern matches, its leftmost match is chosen, whatever the later patterns match |
| Normalizer.SlashDateDoesNotParse | card_drop_monitor.py:254 | an `MM/DD/YYYY` result is rejected by `fromisoformat` |
| Normalizer.WordDateDoesNotParse | card_drop_monitor.py:255 | a `Month DD, YYYY` result is rejected by `fromisoformat` |
| Normalizer.ParsedDatesAreDashDates | card_drop_monitor.py:256 | every string `fromisoformat` accepts is in the `YYYY-MM-DD` pattern's language |
| Normalizer.DashShapeIsIsoShape | card_drop_monitor.py:256 | the third pattern's `\d{4}-\d{2}-\d{2}` shape is exactly the shape the date parser accepts before checking the calendar |
| Normalizer.NoSlashOrSpaceInIso | card_drop_monitor.py:348 | an accepted date holds no `/` and no white space |
| IsoDate.ParseIso | card_drop_monitor.py:348 | an accepted date is a valid Gregorian date (year 1 to 9999, a day that exists in its month) |
| IsoDate.ParseIsoFormats | card_drop_monitor.py:348 | an accepted string is exactly the ISO formatting of the date it parses to |
| IsoDate.ParseFormat | card_drop_monitor.py:348 | formatting a valid date and parsing it gives the date back |
| IsoDate.NextDayOrdinal | card_drop_monitor.py:349 | consecutive calendar days have consecutive ordinals, so the date difference counts days |
| DropMonitor.SaveWithKey | card_drop_monitor.py:274-286 | with a full identity: the invariant holds, the counter grows by one, and the last row holds that key with id counter+1 above every earlier id, the given price and date, `drop_time` NULL, status upcoming, discovered = last checked = now and notified 0; no other row holds the key; rows with other keys are kept |
| DropMonitor.SaveWithNullIdentity | card_drop_monitor.py:288-302 | with a null name, retailer or url the table and counter are unchanged |
| DropMonitor.SaveKeepsInvariant | card_drop_monitor.py:268-304 | saving keeps the table invariant |
| DropMonitor.RemoveKeyKeepsInvariant | card_drop_monitor.py:274 | deleting the row with a key keeps the invariant and removes exactly the rows with that key |
| DropMonitor.CardDropMonitor.SaveDrop | card_drop_monitor.py:268-304 | the new table and counter are `Save` of the old ones, the log is unchanged, and the invariant is kept |
| DropMonitor.SortRows | card_drop_monitor.py:316 | the sorted rows are a permutation of the input |
| DropMonitor.SortRowsSorted | card_drop_monitor.py:316 | the sorted rows are in drop_date ascending (NULL first) then discovered_date descending order |
| DropMonitor.ListedBeforeTotal | card_drop_monitor.py:316 | the listing order relates any two rows |
| DropMonitor.ListedBeforeTransitive | card_drop_monitor.py:316 | the listing order is transitive |
| DropMonitor.ListedSpec | card_drop_monitor.py:306-337 | `get_all_drops(status)` holds exactly the rows with that status, in listing order, each as often as in the table |
| DropMonitor.ListedIdsDistinct | card_drop_monitor.py:306-337 | no id is listed twice |
| DropMonitor.AlertWindow | card_drop_monitor.py:349-352 | `0 <= days_until_drop <= 7` with floor days means the date is 0 to 8 days ahead, 8 excluded |
| DropMonitor.DueIsAlerted | card_drop_monitor.py:339-358 | an upcoming drop that is due is in the alert list, and its id is among the alerted ids |
| DropMonitor.CardDropMonitor.CheckForAlerts | card_drop_monitor.py:339-358 | the alerts are the due drops of the upcoming listing, in listing order; exactly their rows are marked; one log entry per alert is appended; the counter and invariant are kept; afterwards no upcoming row is due |
| DropMonitor.AlertPassSettles | card_drop_monitor.py:339-358 | after one pass no upcoming row is due at the same time |
| DropMonitor.SecondPassEmpty | card_drop_monitor.py:339-358 | a second pass at the same time finds no alerts |
| DropMonitor.AlertedStaySilent | card_drop_monitor.py:342-345 | a drop alerted once is not alerted by a later pass at any time, unless it is saved again |
| DropMonitor.CardDropMonitor.MarkAsNotified | card_drop_monitor.py:360-372 | on a valid store, the row with that id gets notified 1, one `7-day-alert` entry with the next id is appended, the counter is unchanged and the store stays valid |
| DropMonitor.MarkAllMarks | card_drop_monitor.py:365 | after the pass a row is marked exactly when its id was alerted; every other row is unchanged |
| DropMonitor.MarkedAreNotified | card_drop_monitor.py:365 | every row with an alerted id has notified 1 |
| DropMonitor.MarkAllKeepsInvariant | card_drop_monitor.py:365 | marking keeps the table invariant |
| DropMonitor.LogAlertsEntries | card_drop_monitor.py:366-369 | the old log is a prefix, and entry j after it holds the next id, alert j's drop id, `now` and `7-day-alert` |
| DropMonitor.OneEntryPerAlert | card_drop_monitor.py:339-372 | each alerted drop has exactly one new log entry |
| DropMonitor.AlertIdsDistinct | card_drop_monitor.py:339-358 | no drop is alerted twice in one pass |
| DropMonitor.SaveAllKeepsInvariant | card_drop_monitor.py:452-453 | saving a batch in order keeps the table invariant |
| DropMonitor.LastListingWins | card_drop_monitor.py:452-453 | after a batch, the row for a key carries the last listing with that key, reset to upcoming and not notified |
| DropMonitor.RefoundIsAlerted | card_drop_monitor.py:452-456 | a listing re-found inside the window is alerted in that same scan, even if it was alerted before |
| DropMonitor.CardDropMonitor.RunScan | card_drop_monitor.py:431-459 | the results are the four searches concatenated; they are saved in order, then the alert pass runs on the saved table |
| DesktopNotifier.Classify | desktop_notifier.py:93-129 | a tier is chosen exactly when the difference lies in that tier's window |
| DesktopNotifier.BoundsAreSilent | desktop_notifier.py:93-122 | exactly −1h, 0, 1h, 24h, 6 days and 7 days give no notification |
| DesktopNotifier.GapBeforeWeek | desktop_notifier.py:112-122 | nothing fires from 24 hours to 6 days ahead |
| DesktopNotifier.MinutesShown | desktop_notifier.py:104 | the minutes shown are 0 to 59, the difference truncated to whole minutes |
| DesktopNotifier.HoursShown | desktop_notifier.py:114 | the hours shown are 1 to 23, the difference truncated to whole hours |
| Text.NatToStringValue | desktop_notifier.py:107 | the decimal text of the minutes or hours reads back as that number |
| DesktopNotifier.NoticeMeansWindow | desktop_notifier.py:84-129 | a drop is notified exactly when its date is present, parses and lies in a window; the title is that window's and the link is the drop's url |
| DesktopNotifier.ShownIsNoticeOfSent | desktop_notifier.py:95-129 | the ids returned and the payloads sent line up: the j-th payload is the notice of the stored drop with the j-th id, and that drop is upcoming |
| DesktopNotifier.CheckUpcomingDrops | desktop_notifier.py:62-134 | the ids and payloads are those of the notified drops among the upcoming ones, in listing order; the store is read and not changed |
| DesktopNotifier.FiredExactly | desktop_notifier.py:68-85 | a drop is notified exactly when it is in the table, upcoming and has a notice |
| DesktopNotifier.SentOnce | desktop_notifier.py:79-129 | no id is returned twice in one call |
| DesktopNotifier.SixDaysAheadAlertedNotNotified | desktop_notifier.py:122 | a drop exactly six days ahead is due for the 7-day alert but gets no desktop notification |
| WebServer.CountPositive | web_server.py:128-132 | a retailer has a positive count exactly when it occurs among the drops |
| WebServer.TallyStep | web_server.py:131-132 | one step of the fold keeps the tally right: keys are the retailers seen, each value is its count, and the values sum to the rows seen |
| WebServer.GetStats | web_server.py:120-146 | the total is the number of upcoming drops; the keys are exactly their retailers, each value counts that retailer's upcoming drops, and the values sum to the total |
| WebServer.TotalIsUpcomingRows | web_server.py:124-127 | the total is the number of upcoming rows, and the retailers are exactly those of upcoming rows |
| WebServer.FindDrop | web_server.py:57-101 | a found drop is a row with that id; not found (404) exactly when no row has that id |
| WebServer.StoredRowIsFound | web_server.py:64-89 | any stored row is returned by a lookup of its id |
| WebServer.SavedDropIsFound | web_server.py:64-89 | after saving a listing, its new id returns the saved fields |
| WebServer.UnissuedIdNotFound | web_server.py:91-95 | an id never issued gives not found, status 404 |
| WebServer.TriggerScan | web_server.py:103-118 | results_count is the number of search results and alerts_count the number of alerts of the scan; the store afterwards is the saved batch with those alerts marked, the counter is the batch's, one log entry per alert is appended, and the store stays valid |
| WebServer.GetAlerts | web_server.py:148-162 | the alerts, the marking and the appended log entries are those of `check_for_alerts`, the counter is unchanged, the store stays valid, and the count is the number of alerts |
| WebServer.GetAlertsTwice | web_server.py:148-156 | an immediate second `get_alerts` returns an empty list |

## Left out

- The `search_walmart`, `search_target`, `search_bestbuy` and `search_gamestop` functions are left out. They do HTTP fetching and HTML/JSON scraping, and the model takes their results as input sequences.
- `send_email_notification` is left out: SMTP transport, MIME and float formatting.
- `send_notification` is not modelled as an OS call. The toast, osascript and notify2 calls are replaced by the sequence of `(title, message, url)` payloads that `CheckUpcomingDrops` returns.
- `main`, `monitor_continuously` and the background scanner thread are left out. They are infinite sleep loops and threads, and the model has no concurrency.
- Flask routing, CORS, `jsonify` and the 500 error envelope are left out. The `/api/drops` list endpoint is left out as well, since it only wraps `get_all_drops`.
- The `timestamp` and `last_scan` fields of the API replies are left out, because they are only the clock.
- `datetime.now()` is a parameter `now` in whole seconds. Microseconds are not modelled, and `discovered_date` and `last_checked` are stored as those seconds rather than ISO text.
- Prices are exact decimals (digit strings), not floats.
- Only the `YYYY-MM-DD` form of `fromisoformat` is modelled. Every other string is treated as unparseable. That includes forms with a time part, which `extract_date` never produces.
- `\w`, `\d`, `\s` and `.lower()` are modelled on ASCII only.
- DesktopNotifier.CheckUpcomingDrops: the query orders by `drop_date` only, and SQLite leaves ties in an unspecified order. The model uses the `get_all_drops` order (by date, then newest discovery first), which is one allowed tie order.
- DesktopNotifier.PayloadsOf: its own contract states only the length. Which notice each payload is, is stated by `ShownIsNoticeOfSent`.
- Errors that SQLite itself can raise (locked or corrupt database files) are left out, and so is any exception other than the ones the code names.
