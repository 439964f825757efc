/** The dashboard's API handlers over the store: the statistics, the
    lookup of one drop, the manual scan and the alert list. The HTTP layer
    (routing, JSON encoding, CORS) and the `success`/`error` envelope of a
    failed handler are not part of this model; each handler returns the
    values its JSON body carries. */
module WebServer {
  import opened Wrappers
  import DropMonitor

  // ---------------------------------------------------------------------
  // /api/stats

  /** The retailers that occur among the drops. */
  function Retailers(s: seq<DropMonitor.Row>): set<string>
  {
    set r | r in s :: r.retailer
  }

  /** How many of the drops are at retailer k. */
  function Count(s: seq<DropMonitor.Row>, k: string): nat
    decreases |s|
  {
    if s == [] then 0 else Count(s[..|s| - 1], k) + (if s[|s| - 1].retailer == k then 1 else 0)
  }

  /** A retailer is counted at least once exactly when it occurs. */
  lemma {:induction false} CountPositive(s: seq<DropMonitor.Row>, k: string)
    ensures Count(s, k) > 0 <==> k in Retailers(s)
    decreases |s|
  {
    if s != [] {
      var front := s[..|s| - 1];
      CountPositive(front, k);
      assert s == front + [s[|s| - 1]];
      assert Retailers(s) == Retailers(front) + {s[|s| - 1].retailer};
    }
  }

  lemma CountStep(s: seq<DropMonitor.Row>, i: nat)
    requires i < |s|
    ensures forall k :: Count(s[..i + 1], k) == Count(s[..i], k) + (if s[i].retailer == k then 1 else 0)
    ensures Retailers(s[..i + 1]) == Retailers(s[..i]) + {s[i].retailer}
  {
    assert s[..i + 1][..i] == s[..i];
    assert s[..i + 1] == s[..i] + [s[i]];
  }

  /** An element of a non-empty set, chosen once and for all. */
  ghost function Pick(keys: set<string>): string
    requires keys != {}
  {
    var k :| k in keys; k
  }

  /** The sum of the values of m over the given keys. */
  ghost function SumOver(m: map<string, nat>, keys: set<string>): nat
    requires keys <= m.Keys
    decreases keys
  {
    if keys == {} then 0 else m[Pick(keys)] + SumOver(m, keys - {Pick(keys)})
  }

  /** The sum can be taken with any key first. */
  lemma {:induction false} SumOverRemove(m: map<string, nat>, keys: set<string>, k: string)
    requires keys <= m.Keys && k in keys
    ensures SumOver(m, keys) == m[k] + SumOver(m, keys - {k})
    decreases keys
  {
    var j := Pick(keys);
    if j != k {
      SumOverRemove(m, keys - {j}, k);
      SumOverRemove(m, keys - {k}, j);
      assert keys - {j} - {k} == keys - {k} - {j};
    }
  }

  /** Maps that agree on the keys have the same sum over them. */
  lemma {:induction false} SumOverAgree(m1: map<string, nat>, m2: map<string, nat>, keys: set<string>)
    requires keys <= m1.Keys && keys <= m2.Keys
    requires forall k :: k in keys ==> m1[k] == m2[k]
    ensures SumOver(m1, keys) == SumOver(m2, keys)
    decreases keys
  {
    if keys != {} {
      SumOverAgree(m1, m2, keys - {Pick(keys)});
    }
  }

  /** `by_retailer[r] = by_retailer.get(r, 0) + 1` adds one to the sum. */
  lemma SumOverIncrement(m: map<string, nat>, r: string)
    ensures var m' := m[r := (if r in m then m[r] else 0) + 1];
            SumOver(m', m'.Keys) == SumOver(m, m.Keys) + 1
  {
    var m' := m[r := (if r in m then m[r] else 0) + 1];
    SumOverRemove(m', m'.Keys, r);
    SumOverAgree(m', m, m'.Keys - {r});
    if r in m {
      assert m'.Keys == m.Keys;
      SumOverRemove(m, m.Keys, r);
    } else {
      assert m'.Keys - {r} == m.Keys;
    }
  }

  /** t is the `by_retailer` dictionary of the drops s. */
  ghost predicate Tallies(t: map<string, nat>, s: seq<DropMonitor.Row>)
  {
    && t.Keys == Retailers(s)
    && (forall k :: k in t ==> t[k] == Count(s, k))
    && SumOver(t, t.Keys) == |s|
  }

  /** One more drop, one more for its retailer. */
  lemma TallyStep(t: map<string, nat>, s: seq<DropMonitor.Row>, i: nat, n: nat)
    requires i < |s| && Tallies(t, s[..i])
    requires n == if s[i].retailer in t then t[s[i].retailer] else 0
    ensures Tallies(t[s[i].retailer := n + 1], s[..i + 1])
  {
    var r := s[i].retailer;
    var t' := t[r := n + 1];
    CountStep(s, i);
    assert t'.Keys == Retailers(s[..i + 1]);
    forall k | k in t' ensures t'[k] == Count(s[..i + 1], k) {
      if k == r {
        CountPositive(s[..i], r);
      } else {
        assert t'[k] == t[k];
      }
    }
    SumOverIncrement(t, r);
    assert SumOver(t', t'.Keys) == |s[..i + 1]|;
  }

  /** `get_stats`: `total_drops` is the number of upcoming drops, and
      `by_retailer` maps exactly the retailers that occur among them to
      how many each has, so the counts add up to the total. The
      `last_scan` timestamp is the clock and is not modelled. */
  method GetStats(m: DropMonitor.CardDropMonitor) returns (total: nat, byRetailer: map<string, nat>)
    ensures total == |DropMonitor.Listed(m.drops, DropMonitor.Upcoming)|
    ensures byRetailer.Keys == Retailers(DropMonitor.Listed(m.drops, DropMonitor.Upcoming))
    ensures forall k :: k in byRetailer ==> byRetailer[k] == Count(DropMonitor.Listed(m.drops, DropMonitor.Upcoming), k)
    ensures SumOver(byRetailer, byRetailer.Keys) == total
  {
    var drops := m.GetAllDrops(DropMonitor.Upcoming);
    total := |drops|;
    byRetailer := map[];
    assert drops[..0] == [];
    for i := 0 to |drops|
      invariant Tallies(byRetailer, drops[..i])
    {
      var retailer := drops[i].retailer;
      var n := if retailer in byRetailer then byRetailer[retailer] else 0;
      TallyStep(byRetailer, drops, i, n);
      byRetailer := byRetailer[retailer := n + 1];
    }
    assert drops[..|drops|] == drops;
  }

  /** The total counts every upcoming row of the table once. */
  lemma TotalIsUpcomingRows(rows: seq<DropMonitor.Row>)
    ensures |DropMonitor.Listed(rows, DropMonitor.Upcoming)| == |DropMonitor.WithStatus(rows, DropMonitor.Upcoming)|
    ensures Retailers(DropMonitor.Listed(rows, DropMonitor.Upcoming)) == set r | r in rows && r.status == DropMonitor.Upcoming :: r.retailer
  {
    DropMonitor.ListedSpec(rows, DropMonitor.Upcoming);
    var l := DropMonitor.Listed(rows, DropMonitor.Upcoming);
    assert |multiset(l)| == |DropMonitor.WithStatus(rows, DropMonitor.Upcoming)|;
  }

  // ---------------------------------------------------------------------
  // /api/drops/<id>

  /** The JSON body of `get_drop`: the row's fields, or 'Drop not found'. */
  datatype DropReply = Found(drop: DropMonitor.Row) | NotFound
  {
    /** The HTTP status the handler answers with. */
    function Status(): int
    {
      if Found? then 200 else 404
    }
  }

  /** `get_drop(drop_id)`: `SELECT ... FROM drops WHERE id = ?` and
      `fetchone` on the store's rows: the first row with that id, or
      not-found when there is none. */
  function FindDrop(rows: seq<DropMonitor.Row>, dropId: int): (r: DropReply)
    ensures r.Found? ==> r.drop in rows && r.drop.id == dropId
    ensures r.NotFound? <==> forall x :: x in rows ==> x.id != dropId
    decreases |rows|
  {
    if rows == [] then NotFound
    else if rows[0].id == dropId then Found(rows[0])
    else FindDrop(rows[1..], dropId)
  }

  /** Ids are unique in the table, so every stored row is what the lookup
      of its id returns. */
  lemma StoredRowIsFound(rows: seq<DropMonitor.Row>, counter: nat, x: DropMonitor.Row)
    requires DropMonitor.TableInvariant(rows, counter) && x in rows
    ensures FindDrop(rows, x.id) == Found(x)
  {
    var r := FindDrop(rows, x.id);
    var i :| 0 <= i < |rows| && rows[i] == x;
    var j :| 0 <= j < |rows| && rows[j] == r.drop;
  }

  /** The row a keyed save inserts is found under the id it was given, with
      the listing's fields. */
  lemma SavedDropIsFound(rows: seq<DropMonitor.Row>, counter: nat, l: DropMonitor.Listing, now: int, k: DropMonitor.Key)
    requires DropMonitor.TableInvariant(rows, counter) && DropMonitor.ListingKey(l) == Some(k)
    ensures var (rows', _) := DropMonitor.Save(rows, counter, l, now);
            && FindDrop(rows', counter + 1).Found?
            && var r := FindDrop(rows', counter + 1).drop;
               && DropMonitor.KeyOf(r) == k && r.price == l.price && r.dropDate == l.dropDate
               && r.status == DropMonitor.Upcoming && r.notified == 0
  {
    DropMonitor.SaveWithKey(rows, counter, l, now, k);
    var (rows', counter') := DropMonitor.Save(rows, counter, l, now);
    StoredRowIsFound(rows', counter', rows'[|rows'| - 1]);
  }

  /** No id above the counter was ever handed out, so looking one up is a
      404. */
  lemma UnissuedIdNotFound(rows: seq<DropMonitor.Row>, counter: nat, dropId: int)
    requires DropMonitor.TableInvariant(rows, counter) && (dropId > counter || dropId < 1)
    ensures FindDrop(rows, dropId) == NotFound
    ensures FindDrop(rows, dropId).Status() == 404
  {
    forall x | x in rows ensures x.id != dropId {
      var i :| 0 <= i < |rows| && rows[i] == x;
    }
  }

  // ---------------------------------------------------------------------
  // /api/scan and /api/alerts

  /** `trigger_scan`: run a scan and report how many results it saved and
      how many alerts it raised. The `timestamp` is the clock and is not
      modelled. */
  method TriggerScan(m: DropMonitor.CardDropMonitor, walmart: seq<DropMonitor.Listing>, target: seq<DropMonitor.Listing>,
                     bestBuy: seq<DropMonitor.Listing>, gameStop: seq<DropMonitor.Listing>, now: int)
    returns (resultsCount: nat, alertsCount: nat)
    requires m.Valid()
    modifies m
    ensures m.Valid()
    ensures resultsCount == |walmart| + |target| + |bestBuy| + |gameStop|
    ensures var (saved, counter) := DropMonitor.SaveAll(old(m.drops), old(m.dropSeq), walmart + target + bestBuy + gameStop, now);
            var alerts := DropMonitor.DueAlerts(DropMonitor.Listed(saved, DropMonitor.Upcoming), now);
            && alertsCount == |alerts|
            && m.drops == DropMonitor.MarkAll(saved, alerts) && m.dropSeq == counter
            && m.notifications == DropMonitor.LogAlerts(old(m.notifications), alerts, now)
  {
    var results, alerts := m.RunScan(walmart, target, bestBuy, gameStop, now);
    resultsCount := |results|;
    alertsCount := |alerts|;
  }

  /** `get_alerts`: the alerts of `check_for_alerts`, with their count. As
      that pass marks what it alerts on, the handler is not read-only. */
  method GetAlerts(m: DropMonitor.CardDropMonitor, now: int) returns (alerts: seq<DropMonitor.Row>, count: nat)
    requires m.Valid()
    modifies m
    ensures m.Valid()
    ensures alerts == DropMonitor.DueAlerts(DropMonitor.Listed(old(m.drops), DropMonitor.Upcoming), now)
    ensures m.drops == DropMonitor.MarkAll(old(m.drops), alerts) && m.dropSeq == old(m.dropSeq)
    ensures m.notifications == DropMonitor.LogAlerts(old(m.notifications), alerts, now)
    ensures count == |alerts|
  {
    alerts := m.CheckForAlerts(now);
    count := |alerts|;
  }

  /** Calling `/api/alerts` twice at the same time: the second call
      returns an empty list. */
  method GetAlertsTwice(m: DropMonitor.CardDropMonitor, now: int) returns (first: seq<DropMonitor.Row>, second: seq<DropMonitor.Row>)
    requires m.Valid()
    modifies m
    ensures first == DropMonitor.DueAlerts(DropMonitor.Listed(old(m.drops), DropMonitor.Upcoming), now)
    ensures second == []
  {
    ghost var rows := m.drops;
    var n;
    first, n := GetAlerts(m, now);
    second, n := GetAlerts(m, now);
    DropMonitor.SecondPassEmpty(rows, now);
  }
}
