/**
  Which ids the alerts of a run get, over puts that fail or are never reached and restarts of
  the process at any point, and exactly when these ids are distinct and increasing.
*/
module AlertRuns {
  import opened Bytes
  import opened Numbers
  import opened KeyValueStore
  import opened AlertRecords
  import Stock = SuppliesStore

  /**
    What happens to the server. `puts` is how many puts of a handler take effect: none if the
    database does not open, fewer than all if one fails or the process dies, in which case a
    restart follows.
  */
  datatype Event =
    | AlertRead(message: Text, timestamp: Text, puts: nat)
    | TcpUpdate(request: Stock.Request, json: Text, log: Text, timestamp: Text, puts: nat)
    | UdpUpdate(request: Stock.Request, json: Text, log: Text, timestamp: Text, puts: nat)
    | Notification(buffer: Text, timestamp: Text, puts: nat)
    | OtherEvent(log: Text, puts: nat)
    | Restart(puts: nat)

  // ---- The ids of a run ----

  /** The last id of an alert in the database, and the next one the process hands out. */
  datatype Ids = Ids(last: int, next: int)

  function Next(s: Ids, e: Event): Ids {
    match e
    case AlertRead(_, _, puts) => Ids(if puts < 3 then s.last else s.next, s.next + 1)
    case Restart(_) => Ids(s.last, s.last + 1)
    case _ => s
  }

  /** The alert that an event puts on record. */
  function Put(s: Ids, e: Event): seq<Alert> {
    if e.AlertRead? && e.puts > 0 then [Alert(s.next, e.timestamp, e.message)] else []
  }

  /** The alerts that a run puts on record, in order. */
  function Recorded(s: Ids, events: seq<Event>): seq<Alert>
    decreases |events|
  {
    if events == [] then [] else Put(s, events[0]) + Recorded(Next(s, events[0]), events[1..])
  }

  lemma RecordedFirst(s: Ids, events: seq<Event>)
    requires events != []
    ensures Recorded(s, events) == Put(s, events[0]) + Recorded(Next(s, events[0]), events[1..])
    ensures Put(s, events[0]) == [] ==> Recorded(s, events) == Recorded(Next(s, events[0]), events[1..])
  {
  }

  // ---- When ids increase ----

  /**
    How many ids the process has handed out since the last id in the database, and how many
    ids beyond that last one are on record already.
  */
  datatype Owed = Owed(lost: nat, debt: nat)

  function After(o: Owed, e: Event): Owed {
    match e
    case AlertRead(_, _, puts) =>
      if puts == 0 then Owed(o.lost + 1, o.debt)
      else if puts < 3 then Owed(o.lost + 1, if o.debt < o.lost + 1 then o.lost + 1 else o.debt)
      else Owed(0, if o.debt < o.lost + 1 then 0 else o.debt - o.lost - 1)
    case Restart(_) => Owed(0, o.debt)
    case _ => o
  }

  /**
    No alert goes on record while ids beyond the next one are there. Only a restart can bring
    that about: one that follows an alert of which one or two puts took effect, before an
    alert of which all did.
  */
  predicate Paid(o: Owed, events: seq<Event>)
    decreases |events|
  {
    events != [] ==>
      && (events[0].AlertRead? && events[0].puts > 0 ==> o.debt <= o.lost)
      && Paid(After(o, events[0]), events[1..])
  }

  lemma IncreasingMore(before: seq<Alert>, a: Alert)
    requires Increasing(before) && 0 < a.id
    ensures Increasing(before + [a]) <==> LastId(before) < a.id
  {
    var now := before + [a];
    assert now[|before|] == a;
    assert before != [] ==> now[|before| - 1] == before[|before| - 1];
  }

  lemma IncreasingPart(now: seq<Alert>, rest: seq<Alert>)
    requires Increasing(now + rest)
    ensures Increasing(now)
  {
    forall i, j | 0 <= i < j < |now| ensures now[i].id < now[j].id {
      assert (now + rest)[i] == now[i] && (now + rest)[j] == now[j];
    }
  }

  /**
    The ids of a run are distinct and increasing, also over those on record before, if and only
    if the run is paid.
  */
  lemma {:induction false} IncreasingExactly(before: seq<Alert>, s: Ids, o: Owed, events: seq<Event>)
    requires Increasing(before) && 0 <= s.last
    requires s.next == s.last + 1 + o.lost
    requires o.debt == if LastId(before) < s.last then 0 else LastId(before) - s.last
    ensures Increasing(before + Recorded(s, events)) <==> Paid(o, events)
    decreases |events|
  {
    hide Increasing, IsTimestamp;
    if events == [] {
      assert before + Recorded(s, events) == before;
      return;
    }
    var e := events[0];
    var now, rest := before + Put(s, e), Recorded(Next(s, e), events[1..]);
    assert before + Recorded(s, events) == now + rest;
    if Put(s, e) == [] {
      assert now == before;
      IncreasingExactly(now, Next(s, e), After(o, e), events[1..]);
    } else {
      IncreasingMore(before, Put(s, e)[0]);
      if o.debt <= o.lost {
        assert LastId(now) == s.next;
        IncreasingExactly(now, Next(s, e), After(o, e), events[1..]);
      } else if Increasing(now + rest) {
        IncreasingPart(now, rest);
        assert false;
      }
    }
  }

  // ---- When ids are distinct ----

  /**
    How many ids the process has handed out since the last id in the database, and the ids
    beyond that last one that are on record already, counted from it.
  */
  datatype Ahead = Ahead(lost: nat, taken: set<int>)

  function Later(o: Ahead, e: Event): Ahead {
    match e
    case AlertRead(_, _, puts) =>
      if puts == 0 then Ahead(o.lost + 1, o.taken)
      else if puts < 3 then Ahead(o.lost + 1, o.taken + {o.lost + 1})
      else Ahead(0, set d | d in o.taken && d > o.lost + 1 :: d - o.lost - 1)
    case Restart(_) => Ahead(0, o.taken)
    case _ => o
  }

  /** No alert goes on record under an id that is taken. */
  predicate Untaken(o: Ahead, events: seq<Event>)
    decreases |events|
  {
    events != [] ==>
      && (events[0].AlertRead? && events[0].puts > 0 ==> o.lost + 1 !in o.taken)
      && Untaken(Later(o, events[0]), events[1..])
  }

  /** The ids on record beyond the last id, counted from it. */
  function Taken(alerts: seq<Alert>, last: int): set<int> {
    set a | a in alerts && a.id > last :: a.id - last
  }

  lemma DistinctMore(before: seq<Alert>, a: Alert)
    requires DistinctIds(before)
    ensures DistinctIds(before + [a]) <==> forall b <- before :: b.id != a.id
  {
    var now := before + [a];
    assert now[|before|] == a;
    if b :| b in before && b.id == a.id {
      var i :| 0 <= i < |before| && before[i] == b;
      assert now[i].id == now[|before|].id;
    }
  }

  lemma DistinctPart(now: seq<Alert>, rest: seq<Alert>)
    requires DistinctIds(now + rest)
    ensures DistinctIds(now)
  {
    forall i, j | 0 <= i < j < |now| ensures now[i].id != now[j].id {
      assert (now + rest)[i] == now[i] && (now + rest)[j] == now[j];
    }
  }

  /** What is taken after an event. */
  lemma TakenLater(before: seq<Alert>, s: Ids, o: Ahead, e: Event)
    requires s.next == s.last + 1 + o.lost && o.taken == Taken(before, s.last)
    ensures Next(s, e).next == Next(s, e).last + 1 + Later(o, e).lost
    ensures Later(o, e).taken == Taken(before + Put(s, e), Next(s, e).last)
  {
    var now, t := before + Put(s, e), Next(s, e);
    forall d | d in Later(o, e).taken ensures d in Taken(now, t.last) {
      if e.AlertRead? && e.puts >= 3 {
        assert d + o.lost + 1 in Taken(before, s.last);
        var a :| a in before && a.id - s.last == d + o.lost + 1;
        assert a in now && a.id - t.last == d;
      } else if d in o.taken {
        var a :| a in before && a.id > s.last && a.id - s.last == d;
        assert a in now;
      } else {
        assert Put(s, e)[0] in now;
      }
    }
    forall d | d in Taken(now, t.last) ensures d in Later(o, e).taken {
      var a :| a in now && a.id > t.last && a.id - t.last == d;
      if a in before {
        assert a.id - s.last in o.taken;
      } else {
        assert a in Put(s, e);
      }
    }
  }

  /**
    The ids of a run are distinct, also from those on record before, if and only if none is
    taken when it goes on record.
  */
  lemma {:induction false} DistinctExactly(before: seq<Alert>, s: Ids, o: Ahead, events: seq<Event>)
    requires DistinctIds(before) && s.next == s.last + 1 + o.lost && o.taken == Taken(before, s.last)
    ensures DistinctIds(before + Recorded(s, events)) <==> Untaken(o, events)
    decreases |events|
  {
    hide DistinctIds, Taken, Next, Later;
    if events == [] {
      assert before + Recorded(s, events) == before;
      return;
    }
    var e := events[0];
    var now, rest := before + Put(s, e), Recorded(Next(s, e), events[1..]);
    assert before + Recorded(s, events) == now + rest;
    TakenLater(before, s, o, e);
    if Put(s, e) == [] {
      assert now == before;
      DistinctExactly(now, Next(s, e), Later(o, e), events[1..]);
    } else {
      DistinctMore(before, Put(s, e)[0]);
      NextTaken(before, s, o);
      if o.lost + 1 !in o.taken {
        DistinctExactly(now, Next(s, e), Later(o, e), events[1..]);
      } else if DistinctIds(now + rest) {
        DistinctPart(now, rest);
        assert false;
      }
    }
  }

  lemma NextTaken(before: seq<Alert>, s: Ids, o: Ahead)
    requires s.next == s.last + 1 + o.lost && o.taken == Taken(before, s.last)
    ensures o.lost + 1 in o.taken <==> exists b <- before :: b.id == s.next
  {
    if b :| b in before && b.id == s.next {
      assert b.id - s.last in Taken(before, s.last);
    }
  }

  // ---- Runs that keep the ids increasing ----

  /** Alerts of which no put or every put takes effect are paid for, whatever restarts there are. */
  lemma {:induction false} WholeAlertsPaid(o: Owed, events: seq<Event>)
    requires o.debt == 0 && forall e <- events :: e.AlertRead? ==> e.puts == 0 || e.puts >= 3
    ensures Paid(o, events)
    decreases |events|
  {
    if events != [] {
      WholeAlertsPaid(After(o, events[0]), events[1..]);
    }
  }

  /** So are alerts of which only some puts take effect, as long as the process goes on. */
  lemma {:induction false} OneProcessPaid(o: Owed, events: seq<Event>)
    requires o.debt <= o.lost && forall e <- events :: !e.Restart?
    ensures Paid(o, events)
    decreases |events|
  {
    if events != [] {
      OneProcessPaid(After(o, events[0]), events[1..]);
    }
  }

  /** Alerts of which all puts take effect get one id after the other. */
  lemma {:induction false} WholeAlerts(s: Ids, events: seq<Event>)
    requires forall e <- events :: e.AlertRead? && e.puts >= 3
    ensures |Recorded(s, events)| == |events|
    ensures forall i | 0 <= i < |events| ::
      Recorded(s, events)[i] == Alert(s.next + i, events[i].timestamp, events[i].message)
    decreases |events|
  {
    if events != [] {
      WholeAlerts(Next(s, events[0]), events[1..]);
    }
  }

  /** The alert of an event, under an id. */
  function AlertOf(id: int, e: Event): Alert
    requires e.AlertRead?
  {
    Alert(id, e.timestamp, e.message)
  }

  /** What a run puts on record in which a process ends within an alert. */
  lemma CutRecorded(s: Ids, cut: Event, again: Event, events: seq<Event>)
    requires |events| > 1 && events[0] == cut && events[1] == again
    requires cut.AlertRead? && (cut.puts == 1 || cut.puts == 2) && again.Restart?
    ensures Recorded(s, events)
         == [AlertOf(s.next, cut)] + Recorded(Ids(s.last, s.last + 1), events[2..])
  {
    hide Recorded;
    assert events[1..][1..] == events[2..];
    RecordedFirst(s, events);
    RecordedFirst(Next(s, cut), events[1..]);
  }

  /**
    An id is handed out twice: the process ends after one or two puts of an alert, and the
    next one records as many alerts as the first had handed out ids since the last in the
    database. The last of these has the id of the first alert.
  */
  lemma IdReused(s: Ids, cut: Event, again: Event, more: seq<Event>)
    requires cut.AlertRead? && (cut.puts == 1 || cut.puts == 2) && again.Restart?
    requires s.last < s.next && |more| == s.next - s.last && forall e <- more :: e.AlertRead? && e.puts >= 3
    ensures var r := Recorded(s, [cut, again] + more);
      && |r| == |more| + 1 && r[0] == AlertOf(s.next, cut) && r[|more|] == AlertOf(s.next, more[|more| - 1])
  {
    var rest := Recorded(Ids(s.last, s.last + 1), more);
    assert ([cut, again] + more)[2..] == more;
    CutRecorded(s, cut, again, [cut, again] + more);
    WholeAlerts(Ids(s.last, s.last + 1), more);
    hide Recorded;
    assert ([AlertOf(s.next, cut)] + rest)[|more|] == rest[|more| - 1];
  }

  /**
    On record, the two alerts under one id are two records that a search by the id finds, if
    they were heard at different times; otherwise the later one has replaced the earlier.
  */
  lemma ReuseOnRecord(
      entries: map<Text, Text>, before: seq<Alert>, s: Ids, cut: Event, again: Event, more: seq<Event>,
      order: seq<Text>)
    requires cut.AlertRead? && (cut.puts == 1 || cut.puts == 2) && again.Restart?
    requires s.last < s.next && |more| == s.next - s.last && forall e <- more :: e.AlertRead? && e.puts >= 3
    requires Holds(entries, before + Recorded(s, [cut, again] + more)) && Enumerates(order, entries)
    ensures var last := more[|more| - 1];
      var key, lastKey := KeyOf(AlertOf(s.next, cut)), KeyOf(AlertOf(s.next, last));
      && key in entries && lastKey in entries && entries[lastKey] == last.message
      && if cut.timestamp == last.timestamp then key == lastKey
         else key != lastKey && |Matching(entries, order, [ALERTS, SearchPart(Dec(s.next))])| > 1
  {
    hide Recorded, Dec, KeyOf, Matching, SearchPart, Holds, Latest, IsTimestamp, Enumerates;
    IdReused(s, cut, again, more);
    var r := Recorded(s, [cut, again] + more);
    var all, i := before + r, |before|;
    var j := i + |more|;
    assert all[i] == r[0] && all[j] == r[|more|] && |all| == j + 1;
    TwoAlertsOneId(entries, all, i, j);
    LastWritten(entries, all);
    AlertByIdFound(entries, all, order, Dec(s.next));
  }

  lemma LastWritten(entries: map<Text, Text>, alerts: seq<Alert>)
    requires Holds(entries, alerts) && alerts != []
    ensures var last := alerts[|alerts| - 1];
      KeyOf(last) in entries && entries[KeyOf(last)] == last.text
  {
    hide KeyOf;
    assert Latest(alerts, |alerts| - 1);
  }
}
